/** The older repository of JobTracker.API/Repositories/JobApplicationRepository.cs.
    It stamps and updates exactly as the current one does; only its listing
    comes in the store's own order. */
module LegacyRepository {
  import opened Wrappers
  import opened Entity
  import opened Store

  class JobApplicationRepository {
    /** The rows of the context's `JobApplications` set. */
    var table: Table
    /** The next value of the identity column; ids are never reused. */
    var nextId: int

    ghost predicate Valid()
      reads this
    {
      WellFormed(table) && nextId > 0 && forall k :: k in table ==> k < nextId
    }

    /** A repository over a fresh, empty in-memory database. */
    constructor ()
      ensures Valid() && table == map[] && nextId == 1
    {
      table := map[];
      nextId := 1;
    }

    /** Every stored record exactly once, in no promised order. */
    method GetAll() returns (apps: seq<JobApplication>)
      requires Valid()
      ensures IsListing(table, apps)
    {
      apps := [];
      var remaining := table.Keys;
      while remaining != {}
        invariant remaining <= table.Keys
        invariant Ids(apps) == table.Keys - remaining
        invariant forall i :: 0 <= i < |apps| ==> apps[i].id in table && table[apps[i].id] == apps[i]
        invariant forall i, j :: 0 <= i < j < |apps| ==> apps[i].id != apps[j].id
        decreases remaining
      {
        HasMember(remaining);
        var next :| next in remaining;
        IdsSnoc(apps, table[next]);
        apps := apps + [table[next]];
        remaining := remaining - {next};
      }
    }

    /** The record stored under `id`, or nothing. */
    method GetById(id: int) returns (r: Option<JobApplication>)
      requires Valid()
      ensures r.Some? <==> id in table
      ensures r.Some? ==> r.value == table[id] && r.value.id == id
    {
      if id in table {
        r := Some(table[id]);
      } else {
        r := None;
      }
    }

    /** Inserts `application` under a fresh id, with both timestamps set to
        `now` whatever the caller supplied. */
    method Add(application: JobApplication, now: Timestamp) returns (created: JobApplication)
      requires Valid()
      modifies this
      ensures Valid()
      ensures created.id == old(nextId) && created.id > 0 && created.id !in old(table)
      ensures nextId > created.id
      ensures created == application.(id := created.id, dateApplied := now, lastUpdated := Some(now))
      ensures table == old(table)[created.id := created]
    {
      created := application.(id := nextId, dateApplied := now, lastUpdated := Some(now));
      table := table[nextId := created];
      nextId := nextId + 1;
    }

    /** Overwrites company, position and status of the stored record with
        `application`'s and stamps `LastUpdated`; no upsert. */
    method Update(application: JobApplication, now: Timestamp) returns (updated: Option<JobApplication>)
      requires Valid()
      modifies this
      ensures Valid() && nextId == old(nextId)
      ensures application.id !in old(table) ==> updated.None? && table == old(table)
      ensures application.id in old(table) ==>
        var stored := old(table)[application.id];
        && updated == Some(Edit(stored, application.companyName, application.position, application.status, Some(now)))
        && table == old(table)[application.id := updated.value]
    {
      if application.id !in table {
        return None;
      }
      var existing := table[application.id];
      var edited := Edit(existing, application.companyName, application.position, application.status, Some(now));
      table := table[application.id := edited];
      updated := Some(edited);
    }

    /** Removes the record stored under `id`, reporting whether there was one. */
    method Delete(id: int) returns (removed: bool)
      requires Valid()
      modifies this
      ensures Valid() && nextId == old(nextId)
      ensures removed <==> id in old(table)
      ensures table == old(table) - {id}
    {
      if id !in table {
        return false;
      }
      table := table - {id};
      removed := true;
    }
  }
}
