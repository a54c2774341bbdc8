/** The `JobApplication` record of backend/src/Models/JobApplication.cs. */
module Entity {
  import opened Wrappers

  /** A C# `DateTime`, as a count of ticks; `default(DateTime)` is tick 0. */
  type Timestamp = int

  const DefaultTimestamp: Timestamp := 0
  const DefaultStatus: string := "Applied"

  datatype JobApplication = JobApplication(
    id: int,
    companyName: string,
    position: string,
    status: string,
    dateApplied: Timestamp,
    lastUpdated: Option<Timestamp>)

  /** The record `new JobApplication()` builds from the property initialisers. */
  function New(): (a: JobApplication)
    ensures a.id == 0 && a.companyName == [] && a.position == []
    ensures a.status == "Applied"
    ensures a.dateApplied == DefaultTimestamp && a.lastUpdated.None?
  {
    JobApplication(0, "", "", DefaultStatus, DefaultTimestamp, None)
  }

  /** Assigns the four properties an update is allowed to change; the
      identity and the application date stay as they were. */
  function Edit(a: JobApplication, companyName: string, position: string, status: string,
                lastUpdated: Option<Timestamp>): (r: JobApplication)
    ensures r.companyName == companyName && r.position == position
    ensures r.status == status && r.lastUpdated == lastUpdated
    ensures r.id == a.id && r.dateApplied == a.dateApplied
  {
    a.(companyName := companyName, position := position, status := status, lastUpdated := lastUpdated)
  }
}
