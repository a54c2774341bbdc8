/** The browser's view of a job application and the values both client
    components share. The record mirrors the JSON the API sends, so its
    timestamps are ISO-8601 strings. */
module ClientModel {
  import opened Wrappers

  datatype ClientApplication = ClientApplication(
    id: int,
    companyName: string,
    position: string,
    status: string,
    dateApplied: string,
    lastUpdated: Option<string>)

  /** The choices of the status drop-down, in display order. The select
      offers only these, so a status change picks one of them; the API
      itself accepts any string. */
  const StatusOptions: seq<string> := ["Applied", "Interview", "Offer", "Rejected"]

  /** The drop-down lists four distinct choices and the status a new
      application starts with is the first of them. */
  lemma StatusOptionsWellFormed()
    ensures |StatusOptions| == 4
    ensures forall i, j :: 0 <= i < j < |StatusOptions| ==> StatusOptions[i] != StatusOptions[j]
    ensures StatusOptions[0] == InitialForm.status
  {
  }

  /** The cells the list lets the user edit in place; `startEditing` is only
      ever called with one of these three field names. */
  datatype EditableField = CompanyName | Position | DateApplied

  function FieldValue(a: ClientApplication, f: EditableField): string
  {
    match f
    case CompanyName => a.companyName
    case Position => a.position
    case DateApplied => a.dateApplied
  }

  /** `{...a, [f]: v}`: the record with one editable field replaced. */
  function WithField(a: ClientApplication, f: EditableField, v: string): (r: ClientApplication)
    ensures FieldValue(r, f) == v
    ensures forall g :: g != f ==> FieldValue(r, g) == FieldValue(a, g)
    ensures r.id == a.id && r.status == a.status && r.lastUpdated == a.lastUpdated
  {
    match f
    case CompanyName => a.(companyName := v)
    case Position => a.(position := v)
    case DateApplied => a.(dateApplied := v)
  }

  /** `apps.map(app => app.id === updated.id ? updated : app)`: merges the
      server's answer into the local list. */
  function ReplaceById(apps: seq<ClientApplication>, updated: ClientApplication): (r: seq<ClientApplication>)
    ensures |r| == |apps|
    ensures forall i :: 0 <= i < |apps| ==>
      r[i] == if apps[i].id == updated.id then updated else apps[i]
    ensures forall i :: 0 <= i < |apps| ==> r[i].id == apps[i].id
  {
    if apps == [] then []
    else [if apps[0].id == updated.id then updated else apps[0]] + ReplaceById(apps[1..], updated)
  }

  /** The form state of both "add application" forms. */
  datatype FormData = FormData(companyName: string, position: string, status: string)

  const InitialForm: FormData := FormData("", "", "Applied")

  /** The body of the create call: the form fields plus the submission time. */
  datatype CreateRequest = CreateRequest(companyName: string, position: string, status: string, dateApplied: string)

  /** The form a create request was built from. */
  function FormOf(request: CreateRequest): FormData
  {
    FormData(request.companyName, request.position, request.status)
  }

  /** `{...formData, dateApplied: now}`: every form field is carried over
      unchanged and the submission time is added. */
  function Payload(form: FormData, now: string): (r: CreateRequest)
    ensures FormOf(r) == form
    ensures r.dateApplied == now
  {
    CreateRequest(form.companyName, form.position, form.status, now)
  }
}
