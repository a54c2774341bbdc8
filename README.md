# Job application tracker — a Dafny model

This project models the logic of a small job-application tracker: an ASP.NET
Core API over an in-memory EF Core table, and two React front ends (the
current `frontend/` and the older `job-tracker-client/`). It models:

- the `JobApplication` entity and its default values (`Entity`);
- the table the repositories work on, and what it means to list it
  (`Store`): every stored row exactly once, optionally ordered by id,
  highest first;
- the repository of `backend/src` (`Repository`) and the older one of
  `JobTracker.API` (`LegacyRepository`). Each is a class over a
  `map<int, JobApplication>` with an identity counter `nextId`. Both stamp
  `DateApplied`/`LastUpdated` on create, overwrite company, position, status
  and `LastUpdated` on update, and delete or report absence. They differ only
  in the order of `GetAll`;
- the controller (`Controller`): one response per repository outcome (200,
  201, 204, 400, 404), with the id-mismatch check on PUT made before the
  store is touched;
- the client components as classes whose fields are the React state
  (`FrontendList`, `FrontendForm`, `ClientList`, `ClientForm`). Each API
  call is an input: `None` for a rejected promise, otherwise the record the
  server returned. `window.confirm` is a boolean input. What the component
  sends, and whether it tells its parent, are outputs. `ClientModel` holds
  the browser-side record, the status choices (`StatusOptions`: Applied,
  Interview, Offer, Rejected), the single-field edit and the replace-by-id
  merge that both lists use.

Pagination is modelled with JavaScript's `Array.prototype.slice` clamping
(`FrontendList.Slice`). Page size is 3 and the page count is
`Math.ceil(n / 3)`. The controls show only when there are more than 3 rows
(`PaginationShown`). Prev is disabled exactly on page 1 (`PrevDisabled`) and
Next exactly on the last page (`NextDisabled`). The class invariant keeps the
current page between 1 and the page count, so the page shown is never empty
while there are rows.

The current form refuses to submit while the company or the position is
empty (`frontend/src/components/AddApplicationForm.tsx:18`); the older form
does not (`FrontendForm.CanSubmit` against
`ClientForm.AddApplicationForm.HandleSubmit`).

The source has a gap between its layers that this model does not bridge
(the client record carries timestamps as strings, the server entity as
clock values, and no lemma composes the two). The list lets the user edit
the Date Applied cell and sends the edited date
(`frontend/src/components/JobApplicationList.tsx:93-98`), but the
repository's update never copies `DateApplied`
(`backend/src/Repositories/JobApplicationRepository.cs:50-56`), and its
answer, carrying the old date, then replaces the row
(`frontend/src/components/JobApplicationList.tsx:99-101`).

## Model

| member | source | states |
|---|---|---|
| `Entity.New` | backend/src/Models/JobApplication.cs:5-10 | a new record has Id 0, empty CompanyName and Position, Status "Applied", the default DateApplied and no LastUpdated |
| `Entity.Edit` | backend/tests/unit/Models/JobApplicationTests.cs:60-74 | setting CompanyName, Position, Status and LastUpdated gives those values and leaves Id and DateApplied as they were |
| `Store.MaxKeyExists` | backend/src/Repositories/JobApplicationRepository.cs:23-25 | any non-empty set of ids has a largest one, so a newest-first order always has a first element |
| `Store.ListingRemoveAt` | JobTracker.API/Repositories/JobApplicationRepository.cs:19-22 | removing one entry from a listing lists the table without that row |
| `Store.DescendingListingUnique` | backend/src/Repositories/JobApplicationRepository.cs:20-26 | a table has at most one listing ordered by id descending, so the ordered GetAll result is determined by the table |
| `Store.ListingsArePermutations` | JobTracker.API/Repositories/JobApplicationRepository.cs:19-22 | any two listings of the same table, e.g. the unordered and the ordered GetAll, hold the same records and differ only in order |
| `Repository.JobApplicationRepository.constructor` | backend/src/Repositories/JobApplicationRepository.cs:15-18 | a repository over a fresh database starts with no rows and the identity at 1 |
| `Repository.JobApplicationRepository.GetAll` | backend/src/Repositories/JobApplicationRepository.cs:20-26 | returns every stored record exactly once, ordered by Id strictly descending |
| `Repository.JobApplicationRepository.GetById` | backend/src/Repositories/JobApplicationRepository.cs:28-31 | returns the record stored under the id if there is one, otherwise nothing |
| `Repository.JobApplicationRepository.Add` | backend/src/Repositories/JobApplicationRepository.cs:33-41 | stores the caller's fields under a positive id never used before, with DateApplied and LastUpdated both `now`, and changes no other row |
| `Repository.JobApplicationRepository.Update` | backend/src/Repositories/JobApplicationRepository.cs:43-57 | an absent id returns nothing and changes nothing; a present id gets CompanyName, Position and any Status copied and LastUpdated = `now`, keeps Id and DateApplied, and no other row changes |
| `Repository.JobApplicationRepository.Delete` | backend/src/Repositories/JobApplicationRepository.cs:59-68 | returns true exactly when the id was stored, and afterwards that key, and only it, is gone |
| `LegacyRepository.JobApplicationRepository.constructor` | JobTracker.API/Repositories/JobApplicationRepository.cs:14-17 | starts with no rows and the identity at 1 |
| `LegacyRepository.JobApplicationRepository.GetAll` | JobTracker.API/Repositories/JobApplicationRepository.cs:19-22 | returns every stored record exactly once, with no order promised |
| `LegacyRepository.JobApplicationRepository.GetById` | JobTracker.API/Repositories/JobApplicationRepository.cs:24-27 | the stored record under the id, or nothing |
| `LegacyRepository.JobApplicationRepository.Add` | JobTracker.API/Repositories/JobApplicationRepository.cs:29-37 | overwrites both timestamps with `now` and inserts under a fresh positive id; same contract as the current repository |
| `LegacyRepository.JobApplicationRepository.Update` | JobTracker.API/Repositories/JobApplicationRepository.cs:39-53 | absent id: nothing returned, table unchanged; present id: company, position, status and LastUpdated overwritten, Id and DateApplied kept |
| `LegacyRepository.JobApplicationRepository.Delete` | JobTracker.API/Repositories/JobApplicationRepository.cs:55-64 | removes and returns true when present, otherwise false with no change |
| `Controller.JobApplicationsController.constructor` | backend/src/Controllers/JobApplicationsController.cs:13-16 | the controller works on the repository it is given |
| `Controller.JobApplicationsController.GetApplications` | backend/src/Controllers/JobApplicationsController.cs:18-23 | always Ok, carrying every stored record once in descending id order, i.e. exactly the repository's GetAll sequence |
| `Controller.JobApplicationsController.GetApplication` | backend/src/Controllers/JobApplicationsController.cs:25-34 | NotFound exactly when nothing is stored under the id, otherwise Ok with that record |
| `Controller.JobApplicationsController.CreateApplication` | backend/src/Controllers/JobApplicationsController.cs:36-41 | Created, with route id equal to the new record's fresh id, carrying the stored record |
| `Controller.JobApplicationsController.UpdateApplication` | backend/src/Controllers/JobApplicationsController.cs:43-55 | path/body id mismatch gives BadRequest with the repository untouched; otherwise NotFound for an absent id, else Ok with the updated record |
| `Controller.JobApplicationsController.DeleteApplication` | backend/src/Controllers/JobApplicationsController.cs:57-66 | NoContent when a record was removed, NotFound otherwise; the id is absent afterwards |
| `Controller.CompleteWorkflow` | backend/tests/integration/JobTracker.Api.IntegrationTests/Endpoints/JobApplicationsEndpointTests.cs:159-198 | create gives 201; the status update to "Interviewing" gives Ok, and a GET returns the same record; delete gives 204; a second GET gives 404; the store ends as it began |
| `ClientModel.WithField` | frontend/src/components/JobApplicationList.tsx:93-96 | the record with exactly the named field set to the draft value and every other field kept |
| `ClientModel.ReplaceById` | frontend/src/components/JobApplicationList.tsx:56-58 | same length and order; each row is replaced by the server's record exactly when its id matches, otherwise kept |
| `FrontendList.SliceIndex` | frontend/src/components/JobApplicationList.tsx:32 | a slice bound is clamped into `[0, length]` and a non-negative bound is taken as is up to the length |
| `FrontendList.PageItems` | frontend/src/components/JobApplicationList.tsx:30-32 | page p (from 1) shows the items from (p-1)*3 up to p*3, clamped to the list, so never more than 3 rows |
| `FrontendList.TotalPages` | frontend/src/components/JobApplicationList.tsx:33 | the page count is the ceiling of n/3: enough pages of 3 for n rows and no more |
| `FrontendList.PagesFromIsSuffix` | frontend/src/components/JobApplicationList.tsx:30-33 | pages p up to the last, placed one after another, are the list from item (p-1)*3 on |
| `FrontendList.PagesCoverList` | frontend/src/components/JobApplicationList.tsx:30-33 | pages 1 to totalPages, placed one after another, give back the whole list in order with no overlap |
| `Controller.StatusCode` | backend/src/Controllers/JobApplicationsController.cs:18-66 | the status each result helper sends: Ok, CreatedAtAction and NoContent are the 2xx answers, NotFound and BadRequest the 4xx ones, and only NoContent is 204 |
| `ClientModel.StatusOptionsWellFormed` | frontend/src/components/JobApplicationList.tsx:6 | the status drop-down offers four distinct choices, the first being "Applied", the status a new application starts with |
| `ClientModel.Payload` | frontend/src/components/AddApplicationForm.tsx:21-24 | the create body carries every form field unchanged (the form can be read back from it) plus the submission time as dateApplied |
| `FrontendList.Slice` | frontend/src/components/JobApplicationList.tsx:32 | `slice` gives the run of items from the clamped start, as many as the clamped end lies beyond it, none if it does not |
| `FrontendList.JobApplicationList.PaginationShown` | frontend/src/components/JobApplicationList.tsx:243 | the controls show exactly when the list has loaded and needs at least two pages |
| `FrontendList.JobApplicationList.PrevDisabled` | frontend/src/components/JobApplicationList.tsx:248 | Prev is disabled exactly when the page starts at the first row; otherwise the page before is a full page of 3 |
| `FrontendList.JobApplicationList.NextDisabled` | frontend/src/components/JobApplicationList.tsx:261 | for a non-empty list, Next is disabled exactly when the following page would be empty |
| `FrontendForm.CanSubmit` | frontend/src/components/AddApplicationForm.tsx:18 | submission goes ahead exactly when company and position are both non-empty, so a freshly reset form is never sent |
| `FrontendList.JobApplicationList.constructor` | frontend/src/components/JobApplicationList.tsx:19-26 | initial state: no rows, loading, nothing being edited, empty draft, page 1 |
| `FrontendList.JobApplicationList.CurrentApplications` | frontend/src/components/JobApplicationList.tsx:30-32 | the shown rows are consecutive items of the list starting at (page-1)*3, at most 3, and not empty while the list is not |
| `FrontendList.JobApplicationList.LoadApplications` | frontend/src/components/JobApplicationList.tsx:39-48 | the fetched list replaces the rows on success and loading ends either way |
| `FrontendList.JobApplicationList.HandleStatusChange` | frontend/src/components/JobApplicationList.tsx:50-64 | sends the row with only Status replaced; on success merges the answer by id, on failure the list is unchanged |
| `FrontendList.JobApplicationList.HandleDelete` | frontend/src/components/JobApplicationList.tsx:66-77 | calls delete with the row id exactly when confirmed, and notifies the parent exactly when confirmed and the call succeeded |
| `FrontendList.JobApplicationList.StartEditing` | frontend/src/components/JobApplicationList.tsx:79-83 | editingId, editingField and editValue become the clicked row's id, field and current value |
| `FrontendList.JobApplicationList.HandleEditChange` | frontend/src/components/JobApplicationList.tsx:85-87 | the draft becomes the typed value |
| `FrontendList.JobApplicationList.SaveEdit` | frontend/src/components/JobApplicationList.tsx:89-110 | no-op unless a field of this row is being edited; otherwise sends the row with only that field set to the draft, closes the editor whatever the outcome, and changes the list only on success |
| `FrontendList.JobApplicationList.HandleKeyDown` | frontend/src/components/JobApplicationList.tsx:112-119 | Enter commits as SaveEdit does: past the guard the editor closes and the list is merged with the answer (kept on failure), otherwise nothing changes; Escape closes the editor with no call and no list change; other keys change nothing |
| `FrontendList.JobApplicationList.Paginate` | frontend/src/components/JobApplicationList.tsx:121-123 | the current page becomes the requested one |
| `FrontendList.JobApplicationList.ClickPrev` | frontend/src/components/JobApplicationList.tsx:246-253 | moves back one page only when the controls are shown and the page is not 1, keeping the page in range |
| `FrontendList.JobApplicationList.ClickNext` | frontend/src/components/JobApplicationList.tsx:259-266 | moves forward one page only when the controls are shown and the page is not the last, keeping the page in range |
| `FrontendForm.AddApplicationForm.constructor` | frontend/src/components/AddApplicationForm.tsx:10-14 | the form starts as companyName "", position "", status "Applied" |
| `FrontendForm.AddApplicationForm.HandleSubmit` | frontend/src/components/AddApplicationForm.tsx:16-32 | an empty company or position sends nothing and fires nothing; otherwise sends the fields plus dateApplied; on success resets and notifies, on failure keeps the form and does not notify |
| `FrontendForm.AddApplicationForm.HandleInputChange` | frontend/src/components/AddApplicationForm.tsx:34-40 | replaces only the named field and keeps the others |
| `ClientForm.AddApplicationForm.constructor` | job-tracker-client/src/components/AddApplicationForm.tsx:10-14 | the form starts as companyName "", position "", status "Applied" |
| `ClientForm.AddApplicationForm.HandleSubmit` | job-tracker-client/src/components/AddApplicationForm.tsx:16-28 | with no guard, always sends the fields plus dateApplied; resets and notifies on success, keeps the form and stays silent on failure |
| `ClientForm.AddApplicationForm.ChangeCompanyName` | job-tracker-client/src/components/AddApplicationForm.tsx:37 | replaces exactly the company name |
| `ClientForm.AddApplicationForm.ChangePosition` | job-tracker-client/src/components/AddApplicationForm.tsx:47 | replaces exactly the position |
| `ClientList.JobApplicationList.constructor` | job-tracker-client/src/components/JobApplicationList.tsx:8-9 | starts with no rows, loading |
| `ClientList.JobApplicationList.Rows` | job-tracker-client/src/components/JobApplicationList.tsx:40-54 | nothing while loading, then every loaded row in order, with no pagination |
| `ClientList.JobApplicationList.LoadApplications` | job-tracker-client/src/components/JobApplicationList.tsx:15-24 | the fetched list replaces the rows on success and loading ends either way |
| `ClientList.JobApplicationList.HandleStatusChange` | job-tracker-client/src/components/JobApplicationList.tsx:26-38 | sends the row with only Status replaced; on success merges the answer by id keeping length and order, on failure nothing changes |

## Left out

- Asynchrony, toasts, `console.error`, DOM rendering, CSS classes (`statusColors`), locale date formatting, `split('T')` on the date input, and the spinner markup. Each handler runs to completion as one step.
- Races between requests and between browser sessions: nothing in the code coordinates them. Also left out is the order of browser events, such as a blur that may follow Enter or Escape and call `saveEdit` again through a stale closure.
- The network clients in `services/api.ts`: each call is replaced by its outcome. `App.tsx` is left out too; its refresh flag only remounts the list.
- Program.cs of either API (dependency injection, CORS, Swagger) and `IJobApplicationRepository`: the controller is tied to the `backend/src` repository, which is the one registered.
- EF Core itself. The `JobApplications` set is a map and identity generation is the counter `nextId`. A failing `SaveChangesAsync` is not modelled.
- Aliasing: `AddAsync` and `UpdateAsync` return the tracked entity object itself. Here records are values, so a later change to a returned object is not seen in the table.
- `frontend/src/types/JobApplication.ts` is not part of this model; the browser-side record follows the API's JSON shape.
- `editingField` is a string in the source. It is modelled as one of the three field names that `startEditing` is called with (`companyName`, `position`, `dateApplied`), so no call can set an unknown key.
- `Repository.JobApplicationRepository.Add`: it takes one clock reading, so DateApplied equals LastUpdated. The source reads `DateTime.UtcNow` twice, so the two may differ by a few ticks.
- `Repository.JobApplicationRepository.Add`: a caller-supplied nonzero Id is ignored and the next identity value is used. EF Core would insert under the supplied key, or fail on a clash. The same holds for `LegacyRepository.JobApplicationRepository.Add` and `Controller.JobApplicationsController.CreateApplication`.
- `Controller.JobApplicationsController.UpdateApplication`: the result says LastUpdated becomes `now`, not that it increases; that would depend on the clock moving forward.
- `FrontendList.Slice` handles integer bounds only. JavaScript's conversion of fractional or non-numeric bounds is left out, because page numbers are always integers. `Math.ceil` over floats is taken as the exact ceiling of n/3.
