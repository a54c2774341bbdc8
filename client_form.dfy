/** The older form of job-tracker-client/src/components/AddApplicationForm.tsx:
    the same state, but submission has no emptiness check and each input has
    its own change handler. */
module ClientForm {
  import opened ClientModel

  class AddApplicationForm {
    var formData: FormData

    /** No input edits the status, so it stays at its initial value. */
    ghost predicate Valid()
      reads this
    {
      formData.status == InitialForm.status
    }

    constructor ()
      ensures Valid() && formData == InitialForm
    {
      formData := InitialForm;
    }

    /** Always sends the fields plus the time, even when a field is empty;
        on success the form resets and the parent is told, on failure the
        form keeps what the user typed. */
    method HandleSubmit(now: string, createSucceeded: bool)
      returns (request: CreateRequest, parentNotified: bool)
      requires Valid()
      modifies this
      ensures Valid()
      ensures request == Payload(old(formData), now) && request.status == "Applied"
      ensures parentNotified == createSucceeded
      ensures formData == if createSucceeded then InitialForm else old(formData)
    {
      request := Payload(formData, now);
      parentNotified := false;
      if createSucceeded {
        formData := InitialForm;
        parentNotified := true;
      }
    }

    /** The company input's `onChange`. */
    method ChangeCompanyName(value: string)
      requires Valid()
      modifies this
      ensures Valid()
      ensures formData == old(formData).(companyName := value)
    {
      formData := formData.(companyName := value);
    }

    /** The position input's `onChange`. */
    method ChangePosition(value: string)
      requires Valid()
      modifies this
      ensures Valid()
      ensures formData == old(formData).(position := value)
    {
      formData := formData.(position := value);
    }
  }
}
