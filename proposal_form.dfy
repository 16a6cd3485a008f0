/**
 * The proposal form's state and its event handlers: editing a field,
 * choosing a file, leaving a field, and submitting. Each handler is one
 * atomic transition of the form's state.
 */
module ProposalForm {

  import opened Validation

  /** The form's values: five texts and the chosen PDF file, if any. */
  datatype FormValues = FormValues(
    name: string,
    email: string,
    phone: string,
    githubTasks: string,
    preference1: string,
    pdf1: Option<File>)
  {
    /** The value field f holds. */
    function Get(f: Field): (v: Value)
      ensures Fits(f, v)
    {
      match f
      case Name => Text(name)
      case Email => Text(email)
      case Phone => Text(phone)
      case GithubTasks => Text(githubTasks)
      case Preference1 => Text(preference1)
      case Pdf1 => Upload(pdf1)
    }

    /** These values with field f overwritten by v and every other field kept. */
    function With(f: Field, v: Value): (r: FormValues)
      requires Fits(f, v)
      ensures r.Get(f) == v
      ensures forall g :: g != f ==> r.Get(g) == Get(g)
    {
      match f
      case Name => this.(name := v.text)
      case Email => this.(email := v.text)
      case Phone => this.(phone := v.text)
      case GithubTasks => this.(githubTasks := v.text)
      case Preference1 => this.(preference1 := v.text)
      case Pdf1 => this.(pdf1 := v.file)
    }
  }

  /** The values of a fresh form: every text empty and no file chosen. */
  const Initial := FormValues("", "", "", "", "", None)

  /** Every field, in the order the form's state record lists them. */
  const Fields: seq<Field> := [Name, Email, Phone, GithubTasks, Preference1, Pdf1]

  /** Two sets of values that agree on every field are the same values. */
  lemma GetDeterminesValues(a: FormValues, b: FormValues)
    requires forall f :: a.Get(f) == b.Get(f)
    ensures a == b
  {
    assert a.Get(Name) == b.Get(Name) && a.Get(Email) == b.Get(Email);
    assert a.Get(Phone) == b.Get(Phone) && a.Get(GithubTasks) == b.Get(GithubTasks);
    assert a.Get(Preference1) == b.Get(Preference1) && a.Get(Pdf1) == b.Get(Pdf1);
  }

  /** Every field holds a value its validation accepts: the condition for a submission to go through. */
  predicate AllValid(v: FormValues) {
    forall f :: ValidateField(f, v.Get(f)) == ""
  }

  /**
   * The errors a submission reports: one entry per field whose value is
   * refused, holding that field's message, and no entry for a field whose
   * value is accepted.
   */
  method CollectErrors(v: FormValues) returns (errors: map<Field, string>)
    ensures forall f :: f in errors <==> ValidateField(f, v.Get(f)) != ""
    ensures forall f :: f in errors ==> errors[f] == ValidateField(f, v.Get(f)) && errors[f] != ""
    ensures errors == map[] <==> AllValid(v)
  {
    errors := map[];
    for k := 0 to |Fields|
      invariant forall f :: f in errors <==> f in Fields[..k] && ValidateField(f, v.Get(f)) != ""
      invariant forall f :: f in errors ==> errors[f] == ValidateField(f, v.Get(f))
    {
      var field := Fields[k];
      var error := ValidateField(field, v.Get(field));
      if error != "" {
        errors := errors[field := error];
      }
    }
    assert Fields[..|Fields|] == Fields;
    forall f ensures f in Fields {
      match f
      case Name => assert Fields[0] == f;
      case Email => assert Fields[1] == f;
      case Phone => assert Fields[2] == f;
      case GithubTasks => assert Fields[3] == f;
      case Preference1 => assert Fields[4] == f;
      case Pdf1 => assert Fields[5] == f;
    }
    if errors == map[] {
      forall f ensures ValidateField(f, v.Get(f)) == "" {
        assert f !in errors;
      }
    }
  }

  /** No stored message is stale: each entry is what validation says of the field's current value. */
  predicate Consistent(errors: map<Field, string>, values: FormValues) {
    forall f :: f in errors ==> errors[f] == ValidateField(f, values.Get(f))
  }

  /** Storing a field's new value together with its fresh message keeps the errors consistent. */
  lemma ConsistentAfterEdit(errors: map<Field, string>, values: FormValues, f: Field, v: Value)
    requires Consistent(errors, values) && Fits(f, v)
    ensures Consistent(errors[f := ValidateField(f, v)], values.With(f, v))
  {
  }

  /** The state of one proposal form. */
  class Form {
    var values: FormValues
    var errors: map<Field, string>
    var touched: set<Field>
    var submitted: bool

    /** The form's invariant: its errors are Consistent with its values. */
    ghost predicate Valid()
      reads this
    {
      Consistent(errors, values)
    }

    /** A fresh form: empty values, no errors, nothing touched, not submitted. */
    constructor ()
      ensures Valid()
      ensures values == Initial && errors == map[] && touched == {} && !submitted
    {
      values := Initial;
      errors := map[];
      touched := {};
      submitted := false;
    }

    /**
     * handleChange: the user edited text field f (the PDF input has its
     * own handler). The new text is stored and judged at once.
     */
    method HandleChange(f: Field, text: string)
      requires Valid()
      requires f != Pdf1
      modifies this
      ensures Valid()
      ensures values.Get(f) == Text(text)
      ensures forall g :: g != f ==> values.Get(g) == old(values.Get(g))
      ensures f in errors && errors[f] == ValidateField(f, Text(text))
      ensures forall g :: g != f ==> (g in errors <==> g in old(errors))
      ensures forall g :: g != f && g in errors ==> errors[g] == old(errors[g])
      ensures touched == old(touched) && submitted == old(submitted)
    {
      ConsistentAfterEdit(errors, values, f, Text(text));
      values := values.With(f, Text(text));
      errors := errors[f := ValidateField(f, Text(text))];
    }

    /**
     * handleFileChange: the user chose a file in the PDF input, or chose
     * none (file is None). The choice is stored and judged at once.
     */
    method HandleFileChange(file: Option<File>)
      requires Valid()
      modifies this
      ensures Valid()
      ensures values.Get(Pdf1) == Upload(file)
      ensures forall g :: g != Pdf1 ==> values.Get(g) == old(values.Get(g))
      ensures Pdf1 in errors && errors[Pdf1] == ValidateField(Pdf1, Upload(file))
      ensures forall g :: g != Pdf1 ==> (g in errors <==> g in old(errors))
      ensures forall g :: g != Pdf1 && g in errors ==> errors[g] == old(errors[g])
      ensures touched == old(touched) && submitted == old(submitted)
    {
      ConsistentAfterEdit(errors, values, Pdf1, Upload(file));
      values := values.With(Pdf1, Upload(file));
      errors := errors[Pdf1 := ValidateField(Pdf1, Upload(file))];
    }

    /** handleBlur: the user left field f; it is marked touched and its current value judged. */
    method HandleBlur(f: Field)
      requires Valid()
      modifies this
      ensures Valid()
      ensures touched == old(touched) + {f}
      ensures values == old(values)
      ensures f in errors && errors[f] == ValidateField(f, values.Get(f))
      ensures forall g :: g != f ==> (g in errors <==> g in old(errors))
      ensures forall g :: g != f && g in errors ==> errors[g] == old(errors[g])
      ensures submitted == old(submitted)
    {
      assert values.With(f, values.Get(f)) == values by {
        GetDeterminesValues(values.With(f, values.Get(f)), values);
      }
      ConsistentAfterEdit(errors, values, f, values.Get(f));
      touched := touched + {f};
      errors := errors[f := ValidateField(f, values.Get(f))];
    }

    /**
     * handleSubmit: every field is judged against its current value. If
     * all are accepted the form is marked submitted and reset; otherwise
     * the errors are replaced by exactly the refused fields' messages and
     * nothing else changes (in particular the submitted flag is left as it
     * was).
     */
    method HandleSubmit()
      requires Valid()
      modifies this
      ensures Valid()
      ensures old(AllValid(values)) ==>
        submitted && values == Initial && touched == {} && errors == map[]
      ensures !old(AllValid(values)) ==>
        && values == old(values) && touched == old(touched) && submitted == old(submitted)
        && errors != map[]
        && (forall f :: f in errors <==> ValidateField(f, values.Get(f)) != "")
        && (forall f :: f in errors ==> errors[f] == ValidateField(f, values.Get(f)) && errors[f] != "")
    {
      var newErrors := CollectErrors(values);
      if |newErrors| == 0 {
        submitted := true;
        values := Initial;
        touched := {};
        errors := map[];
      } else {
        errors := newErrors;
      }
    }
  }

  /** A fresh form cannot be submitted: name, e-mail, phone and preference are refused, the task link and the absent file are not. */
  lemma InitialErrors()
    ensures !AllValid(Initial)
    ensures ValidateField(Name, Initial.Get(Name)) == NameRequired
    ensures ValidateField(Email, Initial.Get(Email)) == InvalidEmail
    ensures ValidateField(Phone, Initial.Get(Phone)) == PhoneWrongLength
    ensures ValidateField(Preference1, Initial.Get(Preference1)) == PreferenceRequired
    ensures ValidateField(GithubTasks, Initial.Get(GithubTasks)) == ""
    ensures ValidateField(Pdf1, Initial.Get(Pdf1)) == ""
  {
    NameExamples();
    EmailExamples();
    PhoneExamples();
    OtherExamples();
  }
}
