/** The form of frontend/src/components/AddApplicationForm.tsx. The create
    call's outcome and the submission time are arguments; `onApplicationAdded`
    firing is an output. */
module FrontendForm {
  import opened Wrappers
  import opened ClientModel

  /** The `name` attributes of the form's two inputs. */
  datatype InputName = CompanyNameInput | PositionInput

  /** The submit guard: both text fields must be non-empty. */
  predicate CanSubmit(form: FormData)
    ensures CanSubmit(form) <==> |form.companyName| > 0 && |form.position| > 0
    ensures form == InitialForm ==> !CanSubmit(form)
  {
    form.companyName != "" && form.position != ""
  }

  class AddApplicationForm {
    var formData: FormData

    /** No input edits the status, so it stays at its initial value. */
    ghost predicate Valid()
      reads this
    {
      formData.status == InitialForm.status
    }

    constructor ()
      ensures Valid() && formData == InitialForm
    {
      formData := InitialForm;
    }

    /** Submits the form. With a field empty nothing is sent and nothing
        fires. Otherwise the fields plus the time are sent; on success the
        form resets and the parent is told, on failure the form keeps what
        the user typed. */
    method HandleSubmit(now: string, createSucceeded: bool)
      returns (request: Option<CreateRequest>, parentNotified: bool)
      requires Valid()
      modifies this
      ensures Valid()
      ensures request == if CanSubmit(old(formData)) then Some(Payload(old(formData), now)) else None
      ensures request.Some? ==> request.value.status == "Applied"
      ensures parentNotified <==> request.Some? && createSucceeded
      ensures formData == if parentNotified then InitialForm else old(formData)
    {
      request, parentNotified := None, false;
      if !CanSubmit(formData) {
        return;
      }
      request := Some(Payload(formData, now));
      if createSucceeded {
        formData := InitialForm;
        parentNotified := true;
      }
    }

    /** Typing into an input replaces that one field. */
    method HandleInputChange(name: InputName, value: string)
      requires Valid()
      modifies this
      ensures Valid()
      ensures name == CompanyNameInput ==> formData == old(formData).(companyName := value)
      ensures name == PositionInput ==> formData == old(formData).(position := value)
    {
      match name
      case CompanyNameInput => formData := formData.(companyName := value);
      case PositionInput => formData := formData.(position := value);
    }
  }
}
