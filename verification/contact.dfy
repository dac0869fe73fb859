/**
 The support-request form of the contact dialog: five text fields, a
 presence-only check on four of them when the form is submitted, and a reset
 of all five after a successful submission.
 */
module Contact {

  datatype FormData = FormData(name: string, email: string, department: string,
                               subject: string, message: string)

  /** The form's inputs, each bound to one field of the record. */
  datatype Field = Name | Email | Department | Subject | Message

  /** The notice shown after a submission attempt. */
  datatype Notice = MissingFields | Submitted

  /** What a submission does: the form afterwards, whether the dialog asks
      to be closed, and the notice shown. */
  datatype Outcome = Outcome(form: FormData, closeRequested: bool, notice: Notice)

  const EmptyForm: FormData := FormData("", "", "", "", "")

  /** The value an input shows. */
  function Get(f: FormData, field: Field): string {
    match field
    case Name => f.name
    case Email => f.email
    case Department => f.department
    case Subject => f.subject
    case Message => f.message
  }

  /** The fields a submission insists on; the department is optional. */
  predicate Required(field: Field) {
    field != Department
  }

  /** `handleInputChange`: one input's new value goes into its field. */
  function HandleInputChange(f: FormData, field: Field, value: string): (r: FormData)
    ensures Get(r, field) == value
    ensures forall other :: other != field ==> Get(r, other) == Get(f, other)
  {
    match field
    case Name => f.(name := value)
    case Email => f.(email := value)
    case Department => f.(department := value)
    case Subject => f.(subject := value)
    case Message => f.(message := value)
  }

  /** `handleSubmit`: an empty name, email, subject or message stops the
      submission with an error notice; otherwise the request is accepted, the
      form cleared and the dialog asked to close. */
  function HandleSubmit(f: FormData): (r: Outcome)
    ensures r.notice == MissingFields <==> exists field :: Required(field) && Get(f, field) == ""
    ensures r.notice == MissingFields ==> r.form == f && !r.closeRequested
    ensures r.notice == Submitted ==> (forall field :: Get(r.form, field) == "") && r.closeRequested
  {
    if f.name == "" || f.email == "" || f.subject == "" || f.message == "" then
      assert Required(Name) && Required(Email) && Required(Subject) && Required(Message);
      Outcome(f, false, MissingFields)
    else
      Outcome(EmptyForm, true, Submitted)
  }

  /** Two forms that agree on the four required fields are judged alike:
      the department plays no part in the check. */
  lemma DepartmentNeverChecked(f: FormData, department: string)
    ensures HandleSubmit(HandleInputChange(f, Department, department)).notice == HandleSubmit(f).notice
  {
    var g := HandleInputChange(f, Department, department);
    assert forall field :: Required(field) ==> Get(g, field) == Get(f, field);
  }

  /** `handleSubmit` checks for presence only: a value of one blank, or an
      email without an at-sign, passes its test. */
  lemma PresenceOnly()
    ensures HandleSubmit(FormData(" ", "not an address", "", " ", " ")).notice == Submitted
  {
  }

  /** A submission that goes through leaves the form as it started, so a
      second submission straight after it is rejected. */
  lemma AcceptedResetsForm(f: FormData)
    requires HandleSubmit(f).notice == Submitted
    ensures HandleSubmit(f).form == EmptyForm
    ensures HandleSubmit(HandleSubmit(f).form).notice == MissingFields
  {
    var r := HandleSubmit(f).form;
    assert Get(r, Name) == "";
  }

  /** A rejected submission can be repeated any number of times with the
      same result. */
  lemma RejectionIsStable(f: FormData)
    requires HandleSubmit(f).notice == MissingFields
    ensures HandleSubmit(HandleSubmit(f).form) == HandleSubmit(f)
  {
  }

  /** Filling in each required field with something makes the form
      acceptable, whatever was there before. */
  lemma FillingRequiredFieldsSuffices(f: FormData, n: string, e: string, s: string, m: string)
    requires n != "" && e != "" && s != "" && m != ""
    ensures var g := HandleInputChange(HandleInputChange(HandleInputChange(
                       HandleInputChange(f, Name, n), Email, e), Subject, s), Message, m);
            HandleSubmit(g).notice == Submitted
  {
    var g1 := HandleInputChange(f, Name, n);
    var g2 := HandleInputChange(g1, Email, e);
    var g3 := HandleInputChange(g2, Subject, s);
    var g4 := HandleInputChange(g3, Message, m);
    assert Get(g4, Name) == n && Get(g4, Email) == e && Get(g4, Subject) == s && Get(g4, Message) == m;
    forall field | Required(field)
      ensures Get(g4, field) != ""
    {
    }
  }

  /** Writing the value a field already holds changes nothing, and of two
      writes to the same field only the later one counts. */
  lemma InputChangeLaws(f: FormData, field: Field, v: string, w: string)
    ensures HandleInputChange(f, field, Get(f, field)) == f
    ensures HandleInputChange(HandleInputChange(f, field, v), field, w) == HandleInputChange(f, field, w)
  {
  }

  /** Writes to two different fields can be made in either order. */
  lemma InputChangesCommute(f: FormData, a: Field, b: Field, v: string, w: string)
    requires a != b
    ensures HandleInputChange(HandleInputChange(f, a, v), b, w)
            == HandleInputChange(HandleInputChange(f, b, w), a, v)
  {
  }
}
