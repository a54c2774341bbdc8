/** The in-memory table behind both repositories (the `JobApplications`
    set of the EF Core context), and what it means to list it. */
module Store {
  import opened Entity

  /** Rows keyed by their primary key. */
  type Table = map<int, JobApplication>

  /** Every row sits under its own id, and ids are positive, as the
      database's identity column hands them out. */
  ghost predicate WellFormed(t: Table)
  {
    forall k :: k in t ==> k > 0 && t[k].id == k
  }

  /** The ids carried by a sequence of records. */
  ghost function Ids(s: seq<JobApplication>): set<int>
  {
    set i | 0 <= i < |s| :: s[i].id
  }

  /** `s` holds every stored row exactly once: the ids are those of the
      table, no id repeats, and each entry is the row stored under its id. */
  ghost predicate IsListing(t: Table, s: seq<JobApplication>)
  {
    && Ids(s) == t.Keys
    && (forall i :: 0 <= i < |s| ==> s[i].id in t && t[s[i].id] == s[i])
    && (forall i, j :: 0 <= i < j < |s| ==> s[i].id != s[j].id)
  }

  /** Ordered by id, strictly descending (newest first). */
  ghost predicate Descending(s: seq<JobApplication>)
  {
    forall i, j :: 0 <= i < j < |s| ==> s[i].id > s[j].id
  }

  /** A non-empty set has a member to pick. */
  lemma HasMember(s: set<int>)
    requires s != {}
    ensures exists x :: x in s
  {
    if forall x :: x !in s {
      assert false;
    }
  }

  /** A non-empty finite set of ids has a largest element. */
  lemma {:induction false} MaxKeyExists(keys: set<int>)
    requires keys != {}
    ensures exists m :: m in keys && forall k :: k in keys ==> k <= m
    decreases |keys|
  {
    HasMember(keys);
    var x :| x in keys;
    if exists y :: y in keys && y > x {
      var y :| y in keys && y > x;
      var rest := keys - {x};
      assert y in rest;
      MaxKeyExists(rest);
      var m :| m in rest && forall k :: k in rest ==> k <= m;
      assert forall k :: k in keys ==> k == x || k in rest;
      assert m in keys && forall k :: k in keys ==> k <= m;
    } else {
      assert x in keys && forall k :: k in keys ==> k <= x;
    }
  }

  /** Appending a record adds its id to the ids. */
  lemma IdsSnoc(s: seq<JobApplication>, a: JobApplication)
    ensures Ids(s + [a]) == Ids(s) + {a.id}
  {
    var s' := s + [a];
    assert forall i :: 0 <= i < |s| ==> s'[i] == s[i];
    assert s'[|s|] == a;
  }

  /** Taking one entry out of a listing lists the table without that row. */
  lemma ListingRemoveAt(t: Table, s: seq<JobApplication>, j: int)
    requires IsListing(t, s) && 0 <= j < |s|
    ensures IsListing(t - {s[j].id}, s[..j] + s[j + 1..])
  {
    var t' := t - {s[j].id};
    var r := s[..j] + s[j + 1..];
    assert forall i :: 0 <= i < |r| ==> r[i] == s[if i < j then i else i + 1];
    forall k | k in Ids(s) && k != s[j].id
      ensures k in Ids(r)
    {
      var i :| 0 <= i < |s| && s[i].id == k;
      assert r[if i < j then i else i - 1].id == k;
    }
    assert Ids(r) == t'.Keys;
  }

  /** Dropping the head of a listing lists the rest of the table. */
  lemma ListingTail(t: Table, s: seq<JobApplication>)
    requires IsListing(t, s) && s != []
    ensures IsListing(t - {s[0].id}, s[1..])
  {
    ListingRemoveAt(t, s, 0);
    assert s[..0] + s[1..] == s[1..];
  }

  /** A listing is empty exactly when the table is. */
  lemma ListingEmpty(t: Table, s: seq<JobApplication>)
    requires IsListing(t, s)
    ensures s == [] <==> t == map[]
  {
    if s != [] {
      assert s[0].id in Ids(s);
    }
  }

  /** Every stored row has a position in a listing. */
  lemma IndexInListing(t: Table, s: seq<JobApplication>, k: int) returns (j: int)
    requires IsListing(t, s) && k in t
    ensures 0 <= j < |s| && s[j] == t[k] && s[j].id == k
  {
    assert k in Ids(s);
    j :| 0 <= j < |s| && s[j].id == k;
  }

  /** The head of a descending listing carries the largest stored id. */
  lemma DescendingHeadIsMax(t: Table, s: seq<JobApplication>)
    requires IsListing(t, s) && Descending(s) && s != []
    ensures s[0].id in t && forall k :: k in t ==> k <= s[0].id
  {
    forall k | k in t
      ensures k <= s[0].id
    {
      var j := IndexInListing(t, s, k);
    }
  }

  /** Two descending listings of a non-empty table start with the same row. */
  lemma DescendingHeadsAgree(t: Table, a: seq<JobApplication>, b: seq<JobApplication>)
    requires IsListing(t, a) && Descending(a) && a != []
    requires IsListing(t, b) && Descending(b)
    ensures b != [] && a[0] == b[0]
  {
    ListingEmpty(t, a);
    ListingEmpty(t, b);
    DescendingHeadIsMax(t, a);
    DescendingHeadIsMax(t, b);
  }

  /** At most one descending listing exists: the ordered listing is
      fully determined by the table. */
  lemma {:induction false} DescendingListingUnique(t: Table, a: seq<JobApplication>, b: seq<JobApplication>)
    requires IsListing(t, a) && Descending(a)
    requires IsListing(t, b) && Descending(b)
    ensures a == b
    decreases |a|
  {
    if a == [] {
      ListingEmpty(t, a);
      ListingEmpty(t, b);
    } else {
      DescendingHeadsAgree(t, a, b);
      var t' := t - {a[0].id};
      ListingTail(t, a);
      ListingTail(t, b);
      DescendingListingUnique(t', a[1..], b[1..]);
      ConsTail(a);
      ConsTail(b);
    }
  }

  lemma ConsTail<T>(s: seq<T>)
    requires s != []
    ensures s == [s[0]] + s[1..]
  {
  }

  lemma MultisetCons<T>(s: seq<T>)
    requires s != []
    ensures multiset(s) == multiset(s[1..]) + multiset{s[0]}
  {
    assert s == [s[0]] + s[1..];
  }

  lemma MultisetSplit<T>(s: seq<T>, j: int)
    requires 0 <= j < |s|
    ensures multiset(s) == multiset(s[..j] + s[j + 1..]) + multiset{s[j]}
  {
    assert s == s[..j] + [s[j]] + s[j + 1..];
  }

  lemma SameAfterRemoval<T>(a: seq<T>, b: seq<T>, ra: seq<T>, rb: seq<T>, x: T)
    requires multiset(a) == multiset(ra) + multiset{x}
    requires multiset(b) == multiset(rb) + multiset{x}
    requires multiset(ra) == multiset(rb)
    ensures multiset(a) == multiset(b)
  {
  }

  /** Any two listings of the same table are permutations of each other:
      they differ at most in order. */
  lemma {:induction false} ListingsArePermutations(t: Table, a: seq<JobApplication>, b: seq<JobApplication>)
    requires IsListing(t, a) && IsListing(t, b)
    ensures multiset(a) == multiset(b)
    decreases |a|, 1
  {
    if a == [] {
      ListingEmpty(t, a);
      ListingEmpty(t, b);
    } else {
      PermutationStep(t, a, b);
    }
  }

  /** The inductive step: match the head of `a` with its place in `b`. */
  lemma {:induction false} PermutationStep(t: Table, a: seq<JobApplication>, b: seq<JobApplication>)
    requires IsListing(t, a) && IsListing(t, b) && a != []
    ensures multiset(a) == multiset(b)
    decreases |a|, 0
  {
    var k := a[0].id;
    var j := IndexInListing(t, b, k);
    var rest := b[..j] + b[j + 1..];
    ListingTail(t, a);
    ListingRemoveAt(t, b, j);
    ListingsArePermutations(t - {k}, a[1..], rest);
    MultisetCons(a);
    MultisetSplit(b, j);
    SameAfterRemoval(a, b, a[1..], rest, a[0]);
  }
}
