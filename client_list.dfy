/** The older list of job-tracker-client/src/components/JobApplicationList.tsx:
    every loaded row is shown, with no pagination and no editing besides the
    status drop-down. A `None` response stands for a rejected call. */
module ClientList {
  import opened Wrappers
  import opened ClientModel

  class JobApplicationList {
    var applications: seq<ClientApplication>
    var loading: bool

    constructor ()
      ensures applications == [] && loading
    {
      applications := [];
      loading := true;
    }

    /** The rows of the table: none while loading, then every row in the
        order the server sent them. */
    function Rows(): (rows: seq<ClientApplication>)
      reads this
      ensures !loading ==> rows == applications
      ensures loading ==> rows == []
    {
      if loading then [] else applications
    }

    /** The mount-time fetch: keeps the answer if there is one; loading ends either way. */
    method LoadApplications(response: Option<seq<ClientApplication>>)
      modifies this
      ensures !loading
      ensures applications == if response.Some? then response.value else old(applications)
    {
      if response.Some? {
        applications := response.value;
      }
      loading := false;
    }

    /** A new status is chosen: the row is sent with only its status
        replaced; on success the answer replaces the row with the same id,
        on failure nothing changes. `newStatus` is
        the option picked in the drop-down, one of `StatusOptions`,
        although nothing here depends on that. */
    method HandleStatusChange(application: ClientApplication, newStatus: string,
                              response: Option<ClientApplication>)
      returns (request: ClientApplication)
      modifies this
      ensures loading == old(loading)
      ensures request == application.(status := newStatus)
      ensures applications == if response.Some? then ReplaceById(old(applications), response.value)
                              else old(applications)
    {
      request := application.(status := newStatus);
      if response.Some? {
        applications := ReplaceById(applications, response.value);
      }
    }
  }
}
