/** The list component of frontend/src/components/JobApplicationList.tsx:
    client-side pagination over the fetched list, status changes, deletion
    and in-place editing of single cells. Every API call is replaced by its
    outcome, given as an argument: `None` when the promise rejects, else the
    record the server answered with; `window.confirm` is a boolean. */
module FrontendList {
  import opened Wrappers
  import opened ClientModel

  const ItemsPerPage: nat := 3

  function Min(a: int, b: int): int { if a <= b then a else b }
  function Max(a: int, b: int): int { if a <= b then b else a }

  /** A relative index of `Array.prototype.slice`: negative counts from the
      end, and the result is clamped to `[0, len]`. */
  function SliceIndex(relative: int, len: nat): (k: nat)
    ensures k <= len
    ensures 0 <= relative ==> k == Min(relative, len)
  {
    if relative < 0 then Max(len + relative, 0) else Min(relative, len)
  }

  /** `s.slice(start, end)` with JavaScript's clamping. */
  function Slice<T>(s: seq<T>, start: int, end: int): (r: seq<T>)
    ensures |r| == Max(0, SliceIndex(end, |s|) - SliceIndex(start, |s|))
    ensures forall i :: 0 <= i < |r| ==> r[i] == s[SliceIndex(start, |s|) + i]
  {
    var from := SliceIndex(start, |s|);
    var to := SliceIndex(end, |s|);
    if to <= from then [] else s[from..to]
  }

  /** The rows shown on page `page` (counted from 1): items
      `(page - 1) * 3` up to `page * 3`, clamped to the list. */
  function PageItems<T>(s: seq<T>, page: int): (r: seq<T>)
    ensures page >= 1 ==> |r| <= ItemsPerPage
    ensures page >= 1 ==>
      r == s[Min((page - 1) * ItemsPerPage, |s|)..Min(page * ItemsPerPage, |s|)]
  {
    var indexOfLastItem := page * ItemsPerPage;
    var indexOfFirstItem := indexOfLastItem - ItemsPerPage;
    Slice(s, indexOfFirstItem, indexOfLastItem)
  }

  /** `Math.ceil(n / 3)`: the fewest pages of three that hold `n` items. */
  function TotalPages(n: nat): (r: nat)
    ensures n <= r * ItemsPerPage
    ensures r > 0 ==> (r - 1) * ItemsPerPage < n
  {
    (n + ItemsPerPage - 1) / ItemsPerPage
  }

  /** Pages `p`, `p + 1`, ... up to the last page, shown one after another. */
  function PagesFrom<T>(s: seq<T>, p: int): seq<T>
    requires p >= 1
    decreases TotalPages(|s|) + 1 - p
  {
    if p > TotalPages(|s|) then [] else PageItems(s, p) + PagesFrom(s, p + 1)
  }

  lemma {:induction false} PagesFromIsSuffix<T>(s: seq<T>, p: int)
    requires 1 <= p <= TotalPages(|s|) + 1
    ensures PagesFrom(s, p) == s[Min((p - 1) * ItemsPerPage, |s|)..]
    decreases TotalPages(|s|) + 1 - p
  {
    if p <= TotalPages(|s|) {
      PagesFromIsSuffix(s, p + 1);
      var lo := (p - 1) * ItemsPerPage;
      var hi := Min(p * ItemsPerPage, |s|);
      assert lo < |s|;
      assert s[lo..hi] + s[hi..] == s[lo..];
    } else {
      assert (p - 1) * ItemsPerPage >= |s|;
    }
  }

  /** Pages 1 to `TotalPages` together give back the whole list, in order,
      with no row shown twice and none left out. */
  lemma PagesCoverList<T>(s: seq<T>)
    ensures PagesFrom(s, 1) == s
  {
    PagesFromIsSuffix(s, 1);
  }

  class JobApplicationList {
    var applications: seq<ClientApplication>
    var loading: bool
    var editingId: Option<int>
    var editingField: Option<EditableField>
    var editValue: string
    var currentPage: int

    /** The page stays within the list; nothing is paged while loading. */
    ghost predicate Valid()
      reads this
    {
      && 1 <= currentPage <= Max(1, TotalPages(|applications|))
      && (loading ==> currentPage == 1)
    }

    /** The component as first rendered: spinner on, nothing edited, page 1. */
    constructor ()
      ensures Valid()
      ensures applications == [] && loading
      ensures editingId.None? && editingField.None? && editValue == ""
      ensures currentPage == 1
    {
      applications := [];
      loading := true;
      editingId := None;
      editingField := None;
      editValue := "";
      currentPage := 1;
    }

    /** The rows of the current page. */
    function CurrentApplications(): (rows: seq<ClientApplication>)
      reads this
      requires Valid()
      ensures |rows| <= ItemsPerPage
      ensures applications != [] ==> rows != []
      ensures rows != [] ==> (currentPage - 1) * ItemsPerPage + |rows| <= |applications|
      ensures forall i :: 0 <= i < |rows| ==>
        rows[i] == applications[(currentPage - 1) * ItemsPerPage + i]
    {
      PageItems(applications, currentPage)
    }

    /** The Prev/Next controls render only when there is more than one page's worth. */
    predicate PaginationShown()
      reads this
      ensures PaginationShown() <==> !loading && TotalPages(|applications|) >= 2
    {
      !loading && |applications| > ItemsPerPage
    }

    /** Prev is disabled exactly when the current page starts at the first
        row; otherwise the page before it is a full one. */
    predicate PrevDisabled()
      reads this
      ensures Valid() ==> (PrevDisabled() <==> (currentPage - 1) * ItemsPerPage == 0)
      ensures Valid() && !PrevDisabled() ==> |PageItems(applications, currentPage - 1)| == ItemsPerPage
    {
      currentPage == 1
    }

    /** Next is disabled exactly when no row lies beyond the current page
        (the empty list has no pages and shows no controls). */
    predicate NextDisabled()
      reads this
      ensures Valid() && applications != [] ==>
        (NextDisabled() <==> PageItems(applications, currentPage + 1) == [])
    {
      currentPage == TotalPages(|applications|)
    }

    /** The mount-time fetch: keeps the answer if there is one; the spinner
        goes off either way. */
    method LoadApplications(response: Option<seq<ClientApplication>>)
      requires Valid() && loading
      modifies this`applications, this`loading
      ensures Valid() && !loading
      ensures applications == if response.Some? then response.value else old(applications)
    {
      if response.Some? {
        applications := response.value;
      }
      loading := false;
    }

    /** A new status is chosen: the row is sent with only its status
        replaced; on success the server's answer replaces the row with the
        same id, on failure nothing changes. `newStatus` is
        the option picked in the drop-down, one of `StatusOptions`,
        although nothing here depends on that. */
    method HandleStatusChange(application: ClientApplication, newStatus: string,
                              response: Option<ClientApplication>)
      returns (request: ClientApplication)
      requires Valid()
      modifies this`applications
      ensures Valid()
      ensures request == application.(status := newStatus)
      ensures applications == if response.Some? then ReplaceById(old(applications), response.value)
                              else old(applications)
    {
      request := application.(status := newStatus);
      if response.Some? {
        applications := ReplaceById(applications, response.value);
      }
    }

    /** The delete button: asks for confirmation, then calls the API and,
        once it succeeds, tells the parent to reload. The list itself is
        left as it is. */
    method HandleDelete(id: int, confirmed: bool, deleteSucceeded: bool)
      returns (deleteRequest: Option<int>, parentNotified: bool)
      ensures deleteRequest == if confirmed then Some(id) else None
      ensures parentNotified <==> confirmed && deleteSucceeded
    {
      deleteRequest, parentNotified := None, false;
      if confirmed {
        deleteRequest := Some(id);
        parentNotified := deleteSucceeded;
      }
    }

    /** A click on a cell opens its editor with the cell's current value. */
    method StartEditing(id: int, field: EditableField, value: string)
      modifies this`editingId, this`editingField, this`editValue
      ensures editingId == Some(id) && editingField == Some(field) && editValue == value
    {
      editingId := Some(id);
      editingField := Some(field);
      editValue := value;
    }

    method HandleEditChange(value: string)
      modifies this`editValue
      ensures editValue == value
    {
      editValue := value;
    }

    /** Commits the open editor for `application`. Unless that row's cell is
        being edited this does nothing. Otherwise the row is sent with the
        edited field set to the draft value, the editor closes whatever the
        outcome, and the list takes the server's answer only on success. */
    method SaveEdit(application: ClientApplication, response: Option<ClientApplication>)
      returns (request: Option<ClientApplication>)
      requires Valid()
      modifies this`applications, this`editingId, this`editingField
      ensures Valid()
      ensures request == if old(editingField).Some? && old(editingId) == Some(application.id)
                         then Some(WithField(application, old(editingField).value, old(editValue)))
                         else None
      ensures request.None? ==>
        applications == old(applications) && editingId == old(editingId) && editingField == old(editingField)
      ensures request.Some? ==> editingId.None? && editingField.None?
      ensures request.Some? ==>
        applications == if response.Some? then ReplaceById(old(applications), response.value)
                        else old(applications)
    {
      if editingField.None? || editingId != Some(application.id) {
        return None;
      }
      request := Some(WithField(application, editingField.value, editValue));
      if response.Some? {
        applications := ReplaceById(applications, response.value);
      }
      editingId := None;
      editingField := None;
    }

    /** Enter commits the editor, Escape closes it without any call, any
        other key does nothing. */
    method HandleKeyDown(key: string, application: ClientApplication, response: Option<ClientApplication>)
      returns (request: Option<ClientApplication>)
      requires Valid()
      modifies this`applications, this`editingId, this`editingField
      ensures Valid()
      ensures key != "Enter" ==> request.None? && applications == old(applications)
      ensures key == "Escape" ==> editingId.None? && editingField.None?
      ensures key != "Enter" && key != "Escape" ==>
        editingId == old(editingId) && editingField == old(editingField)
      ensures key == "Enter" ==>
        request == if old(editingField).Some? && old(editingId) == Some(application.id)
                   then Some(WithField(application, old(editingField).value, old(editValue)))
                   else None
      ensures key == "Enter" && request.Some? ==>
        editingId.None? && editingField.None? &&
        applications == if response.Some? then ReplaceById(old(applications), response.value)
                        else old(applications)
      ensures key == "Enter" && request.None? ==>
        applications == old(applications) && editingId == old(editingId) && editingField == old(editingField)
    {
      request := None;
      if key == "Enter" {
        request := SaveEdit(application, response);
      } else if key == "Escape" {
        editingId := None;
        editingField := None;
      }
    }

    method Paginate(pageNumber: int)
      modifies this`currentPage
      ensures currentPage == pageNumber
    {
      currentPage := pageNumber;
    }

    /** The Prev button, which does nothing while hidden or disabled. */
    method ClickPrev()
      requires Valid()
      modifies this`currentPage
      ensures Valid()
      ensures currentPage == if old(PaginationShown()) && !old(PrevDisabled()) then old(currentPage) - 1
                             else old(currentPage)
    {
      if PaginationShown() && !PrevDisabled() {
        Paginate(currentPage - 1);
      }
    }

    /** The Next button, which does nothing while hidden or disabled. */
    method ClickNext()
      requires Valid()
      modifies this`currentPage
      ensures Valid()
      ensures currentPage == if old(PaginationShown()) && !old(NextDisabled()) then old(currentPage) + 1
                             else old(currentPage)
    {
      if PaginationShown() && !NextDisabled() {
        Paginate(currentPage + 1);
      }
    }
  }
}
