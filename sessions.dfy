/**
 * A session in two steps, proved from the handlers' contracts alone: a
 * submission with the name left empty is refused with only the name's
 * message and keeps what was entered; once a name is supplied, the next
 * submission goes through and the form is reset.
 */
module ProposalFormSessions {

  import opened Validation
  import opened ProposalForm

  /** Values whose only refused field is the empty name. */
  lemma OnlyNameRefused(v: FormValues)
    requires v.name == ""
    requires ValidateField(Email, Text(v.email)) == "" && ValidateField(Phone, Text(v.phone)) == ""
    requires ValidateField(Preference1, Text(v.preference1)) == "" && ValidateField(Pdf1, Upload(v.pdf1)) == ""
    ensures forall f :: ValidateField(f, v.Get(f)) != "" <==> f == Name
    ensures ValidateField(Name, v.Get(Name)) == NameRequired
  {
  }

  /**
   * Submitting a form whose e-mail, phone, preference and file are
   * acceptable but whose name is empty: the submission is refused with the
   * name's message alone, and what was entered is kept.
   */
  method SubmitWithoutName(form: Form)
    requires form.Valid() && form.values.name == ""
    requires ValidateField(Email, Text(form.values.email)) == "" && ValidateField(Phone, Text(form.values.phone)) == ""
    requires ValidateField(Preference1, Text(form.values.preference1)) == "" && ValidateField(Pdf1, Upload(form.values.pdf1)) == ""
    modifies form
    ensures form.Valid()
    ensures form.values == old(form.values) && form.submitted == old(form.submitted)
    ensures form.errors.Keys == {Name} && form.errors[Name] == NameRequired
  {
    OnlyNameRefused(form.values);
    form.HandleSubmit();
  }

  /** Then supplying a name that is not blank and submitting again goes through and resets the form. */
  method SupplyNameAndResubmit(form: Form, name: string)
    requires form.Valid()
    requires forall f :: f != Name ==> ValidateField(f, form.values.Get(f)) == ""
    requires ValidateField(Name, Text(name)) == ""
    modifies form
    ensures form.submitted && form.values == Initial && form.errors == map[] && form.touched == {}
  {
    form.HandleChange(Name, name);
    forall f ensures ValidateField(f, form.values.Get(f)) == "" {
      if f != Name {
        assert form.values.Get(f) == old(form.values.Get(f));
      }
    }
    form.HandleSubmit();
  }

  /** The two steps on one form: refused for the missing name, then accepted once it is supplied. */
  method RefusedThenAccepted(form: Form, name: string)
    requires form.Valid() && form.values.name == ""
    requires ValidateField(Email, Text(form.values.email)) == "" && ValidateField(Phone, Text(form.values.phone)) == ""
    requires ValidateField(Preference1, Text(form.values.preference1)) == "" && ValidateField(Pdf1, Upload(form.values.pdf1)) == ""
    requires ValidateField(Name, Text(name)) == ""
    modifies form
    ensures form.submitted && form.values == Initial && form.errors == map[] && form.touched == {}
  {
    SubmitWithoutName(form);
    assert form.errors.Keys == {Name} && form.errors[Name] == NameRequired;
    OnlyNameRefused(form.values);
    SupplyNameAndResubmit(form, name);
  }
}
