/** The HTTP endpoints of backend/src/Controllers/JobApplicationsController.cs:
    each action calls the repository once (or not at all) and maps the
    outcome to a response. */
module Controller {
  import opened Wrappers
  import opened Entity
  import opened Store
  import opened Repository

  /** What an `Ok` response carries: the list or one record. */
  datatype Body = Many(apps: seq<JobApplication>) | One(app: JobApplication)

  /** The action results the controller produces. `CreatedAtAction` carries
      the route value `id` for the `Location` header and the created record. */
  datatype ActionResult =
    | Ok(body: Body)
    | NotFound
    | BadRequest
    | CreatedAtAction(routeId: int, created: JobApplication)
    | NoContent

  /** The HTTP status each result is sent with. */
  function StatusCode(r: ActionResult): (code: int)
    ensures 200 <= code < 300 <==> r.Ok? || r.CreatedAtAction? || r.NoContent?
    ensures 400 <= code < 500 <==> r.NotFound? || r.BadRequest?
    ensures r.NoContent? <==> code == 204
  {
    match r
    case Ok(_) => 200
    case NotFound => 404
    case BadRequest => 400
    case CreatedAtAction(_, _) => 201
    case NoContent => 204
  }

  class JobApplicationsController {
    const repository: JobApplicationRepository

    constructor (repository: JobApplicationRepository)
      ensures this.repository == repository
    {
      this.repository := repository;
    }

    /** GET api/JobApplications: always 200 with the repository's listing,
        newest first. */
    method GetApplications() returns (r: ActionResult)
      requires repository.Valid()
      ensures r.Ok? && r.body.Many?
      ensures IsListing(repository.table, r.body.apps) && Descending(r.body.apps)
    {
      var applications := repository.GetAll();
      r := Ok(Many(applications));
    }

    /** GET api/JobApplications/{id}: 404 exactly when nothing is stored
        under `id`, otherwise 200 with that record. */
    method GetApplication(id: int) returns (r: ActionResult)
      requires repository.Valid()
      ensures r.NotFound? <==> id !in repository.table
      ensures id in repository.table ==> r == Ok(One(repository.table[id]))
    {
      var application := repository.GetById(id);
      if application.None? {
        return NotFound;
      }
      r := Ok(One(application.value));
    }

    /** POST api/JobApplications: 201 pointing at the newly assigned id. */
    method CreateApplication(application: JobApplication, now: Timestamp) returns (r: ActionResult)
      requires repository.Valid()
      modifies repository
      ensures repository.Valid()
      ensures r.CreatedAtAction? && r.routeId == r.created.id
      ensures r.created.id !in old(repository.table) && r.created.id > 0
      ensures r.created == application.(id := r.routeId, dateApplied := now, lastUpdated := Some(now))
      ensures repository.table == old(repository.table)[r.routeId := r.created]
    {
      var created := repository.Add(application, now);
      r := CreatedAtAction(created.id, created);
    }

    /** PUT api/JobApplications/{id}: 400 when the path and body ids differ,
        without touching the store; otherwise 404 or 200 as the update went. */
    method UpdateApplication(id: int, application: JobApplication, now: Timestamp) returns (r: ActionResult)
      requires repository.Valid()
      modifies repository
      ensures repository.Valid()
      ensures id != application.id ==> r == BadRequest && unchanged(repository)
      ensures id == application.id && id !in old(repository.table) ==>
        r == NotFound && repository.table == old(repository.table)
      ensures id == application.id && id in old(repository.table) ==>
        var updated := Edit(old(repository.table)[id], application.companyName, application.position,
                            application.status, Some(now));
        r == Ok(One(updated)) && repository.table == old(repository.table)[id := updated]
    {
      if id != application.id {
        return BadRequest;
      }
      var updated := repository.Update(application, now);
      if updated.None? {
        return NotFound;
      }
      r := Ok(One(updated.value));
    }

    /** DELETE api/JobApplications/{id}: 204 when a record was removed,
        404 when there was none. */
    method DeleteApplication(id: int) returns (r: ActionResult)
      requires repository.Valid()
      modifies repository
      ensures repository.Valid()
      ensures r == if id in old(repository.table) then NoContent else NotFound
      ensures repository.table == old(repository.table) - {id}
    {
      var removed := repository.Delete(id);
      if !removed {
        return NotFound;
      }
      r := NoContent;
    }
  }

  /** The create, update, read, delete, read round of the endpoint tests:
      every step answers as the tests expect and the store ends as it began. */
  method CompleteWorkflow(controller: JobApplicationsController, application: JobApplication,
                          created: Timestamp, edited: Timestamp)
    returns (posted: ActionResult, put: ActionResult, fetched: ActionResult,
             deleted: ActionResult, refetched: ActionResult)
    requires controller.repository.Valid()
    modifies controller.repository
    ensures controller.repository.Valid()
    ensures posted.CreatedAtAction? && StatusCode(posted) == 201
    ensures put == Ok(One(posted.created.(status := "Interviewing", lastUpdated := Some(edited))))
    ensures fetched == put
    ensures StatusCode(deleted) == 204 && StatusCode(refetched) == 404
    ensures controller.repository.table == old(controller.repository.table)
  {
    posted := controller.CreateApplication(application, created);
    var id := posted.routeId;
    put := controller.UpdateApplication(id, posted.created.(status := "Interviewing"), edited);
    fetched := controller.GetApplication(id);
    deleted := controller.DeleteApplication(id);
    refetched := controller.GetApplication(id);
  }
}
