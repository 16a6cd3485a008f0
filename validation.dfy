/**
 * Field-level validation of the proposal form: for each of the form's six
 * inputs, which values it accepts and which message it shows otherwise.
 * An empty message means the value is acceptable.
 */
module Validation {

  datatype Option<+T> = None | Some(value: T)

  /** The six inputs of the form, named as in the form's state record. */
  datatype Field = Name | Email | Phone | GithubTasks | Preference1 | Pdf1

  /** A chosen file; the only property of it the form looks at is its declared content type. */
  datatype File = File(mimeType: string)

  /**
   * What an input holds: the text of a text box or of the preference
   * drop-down, or the first file chosen in the file picker (None when the
   * picker reports no file).
   */
  datatype Value = Text(text: string) | Upload(file: Option<File>)

  /** The PDF input carries an upload; every other input carries text. */
  predicate Fits(f: Field, v: Value) {
    (f == Pdf1) == v.Upload?
  }

  const NameRequired := "Name is required."
  const InvalidEmail := "Please enter a valid email address."
  const PhoneNotDigits := "Phone number must contain only digits."
  const PhoneWrongLength := "Phone number must be exactly 10 digits."
  const PreferenceRequired := "Please select a preference."
  const NotPdf := "Only PDF files are allowed."

  /** The only content type the PDF input accepts. */
  const PdfType := "application/pdf"

  /** The length a phone number must have. */
  const PhoneLength := 10

  /**
   * ECMAScript white space and line terminators: the characters that
   * String.prototype.trim removes and that the regular-expression class
   * \s matches (\S is its complement). The space separators are those of
   * Unicode category Zs.
   */
  predicate IsWhitespace(c: char) {
    var n := c as int;
    n == 0x09 || n == 0x0A || n == 0x0B || n == 0x0C || n == 0x0D
    || n == 0x20 || n == 0xA0 || n == 0x1680 || 0x2000 <= n <= 0x200A
    || n == 0x2028 || n == 0x2029 || n == 0x202F || n == 0x205F
    || n == 0x3000 || n == 0xFEFF
  }

  /** The regular-expression class \d: ASCII digits only. */
  predicate IsDigit(c: char) {
    '0' <= c <= '9'
  }

  predicate Blank(s: string) {
    forall k :: 0 <= k < |s| ==> IsWhitespace(s[k])
  }

  predicate NoWhitespace(s: string) {
    forall k :: 0 <= k < |s| ==> !IsWhitespace(s[k])
  }

  /** The pattern ^\d*$: every character a digit (the empty string included). */
  predicate AllDigits(s: string) {
    forall k :: 0 <= k < |s| ==> IsDigit(s[k])
  }

  /** Drops the leading white space of s. */
  function TrimStart(s: string): (r: string)
    ensures |r| <= |s| && r == s[|s| - |r|..]
    ensures Blank(s[..|s| - |r|])
    ensures r == [] || !IsWhitespace(r[0])
  {
    if s != [] && IsWhitespace(s[0]) then
      var r := TrimStart(s[1..]);
      assert s[..|s| - |r|] == [s[0]] + s[1..][..|s| - 1 - |r|];
      r
    else
      s
  }

  /** Drops the trailing white space of s. */
  function TrimEnd(s: string): (r: string)
    ensures |r| <= |s| && r == s[..|r|]
    ensures Blank(s[|r|..])
    ensures r == [] || !IsWhitespace(r[|r| - 1])
  {
    if s != [] && IsWhitespace(s[|s| - 1]) then
      var r := TrimEnd(s[..|s| - 1]);
      assert s[|r|..] == s[..|s| - 1][|r|..] + [s[|s| - 1]];
      r
    else
      s
  }

  /**
   * String.prototype.trim: s without its leading and trailing white space.
   * The result is empty exactly when s is all white space, and otherwise
   * neither starts nor ends with white space; TrimIsSlice shows it is the
   * stretch of s left between the white space removed at either end.
   */
  function Trim(s: string): (r: string)
    ensures r == [] <==> Blank(s)
    ensures r != [] ==> !IsWhitespace(r[0]) && !IsWhitespace(r[|r| - 1])
  {
    var t := TrimStart(s);
    var r := TrimEnd(t);
    assert r != [] ==> r[0] == t[0];
    assert t == [] ==> s[..|s|] == s;
    r
  }

  /**
   * Trim(s) is s itself with only white space cut away: it is the stretch
   * of s starting at some p, and everything before p and after the
   * stretch is white space.
   */
  lemma TrimIsSlice(s: string)
    ensures exists p :: 0 <= p && p + |Trim(s)| <= |s| && Trim(s) == s[p..p + |Trim(s)|]
                        && Blank(s[..p]) && Blank(s[p + |Trim(s)|..])
  {
    var t := TrimStart(s);
    var r := Trim(s);
    assert r == TrimEnd(t);
    var p := |s| - |t|;
    assert r == s[p..p + |r|];
    assert s[p + |r|..] == t[|r|..];
  }

  /**
   * The pattern ^\S+@\S+\.\S+$ on the whole of s: no white space anywhere,
   * an '@' with at least one character before it, and after that '@', with
   * at least one character in between, a '.' followed by at least one
   * character.
   */
  predicate IsEmail(s: string) {
    && NoWhitespace(s)
    && exists i, j :: 0 < i && i + 1 < j < |s| - 1 && s[i] == '@' && s[j] == '.'
  }

  /** Every string the regular expression \S+@\S+\.\S+ generates passes IsEmail. */
  lemma EmailFromParts(a: string, b: string, c: string)
    requires a != [] && b != [] && c != []
    requires NoWhitespace(a) && NoWhitespace(b) && NoWhitespace(c)
    ensures IsEmail(a + "@" + b + "." + c)
  {
    var s := a + "@" + b + "." + c;
    var i, j := |a|, |a| + 1 + |b|;
    assert s[i] == '@' && s[j] == '.';
    forall k | 0 <= k < |s|
      ensures !IsWhitespace(s[k])
    {
      if k < i {
        assert s[k] == a[k];
      } else if i < k < j {
        assert s[k] == b[k - i - 1];
      } else if j < k {
        assert s[k] == c[k - j - 1];
      }
    }
  }

  /** Every string that passes IsEmail is generated by \S+@\S+\.\S+. */
  lemma EmailParts(s: string) returns (a: string, b: string, c: string)
    requires IsEmail(s)
    ensures s == a + "@" + b + "." + c
    ensures a != [] && b != [] && c != []
    ensures NoWhitespace(a) && NoWhitespace(b) && NoWhitespace(c)
  {
    var i, j :| 0 < i && i + 1 < j < |s| - 1 && s[i] == '@' && s[j] == '.';
    a, b, c := s[..i], s[i + 1..j], s[j + 1..];
    assert s == a + "@" + b + "." + c;
  }

  /**
   * The declarative rule each field enforces: a name that is not blank, an
   * e-mail address matching the pattern, exactly ten digits for the phone,
   * some preference chosen, and either no file or a PDF one. The task
   * link accepts anything.
   */
  predicate Acceptable(f: Field, v: Value)
    requires Fits(f, v)
  {
    match f
    case Name => !Blank(v.text)
    case Email => IsEmail(v.text)
    case Phone => AllDigits(v.text) && |v.text| == PhoneLength
    case GithubTasks => true
    case Preference1 => v.text != ""
    case Pdf1 => v.file.None? || v.file.value.mimeType == PdfType
  }

  /**
   * validateField: the message the form shows for value v in field f,
   * empty when v is acceptable. For the phone the digit check comes first,
   * so a value with a non-digit gets the digit message whatever its length.
   */
  function ValidateField(f: Field, v: Value): string
    requires Fits(f, v)
  {
    match f
    case Name =>
      if Trim(v.text) == "" then NameRequired else ""
    case Email =>
      if IsEmail(v.text) then "" else InvalidEmail
    case Phone =>
      if !AllDigits(v.text) then PhoneNotDigits
      else if |v.text| != PhoneLength then PhoneWrongLength
      else ""
    case Preference1 =>
      if v.text == "" then PreferenceRequired else ""
    case Pdf1 =>
      if v.file.Some? && v.file.value.mimeType != PdfType then NotPdf else ""
    case GithubTasks =>
      ""
  }

  /** validateField returns the empty message exactly for the values its field's rule accepts. */
  lemma AcceptedIffNoMessage(f: Field, v: Value)
    requires Fits(f, v)
    ensures ValidateField(f, v) == "" <==> Acceptable(f, v)
  {
  }

  /**
   * The message of a refused value names the field's rule; for the phone,
   * a value with a non-digit gets the digit message whatever its length,
   * and a digit-only value of the wrong length (the empty one included)
   * gets the length message.
   */
  lemma RefusalMessages(f: Field, v: Value)
    requires Fits(f, v) && !Acceptable(f, v)
    ensures f == Name ==> ValidateField(f, v) == NameRequired
    ensures f == Email ==> ValidateField(f, v) == InvalidEmail
    ensures f == Phone && !AllDigits(v.text) ==> ValidateField(f, v) == PhoneNotDigits
    ensures f == Phone && AllDigits(v.text) ==> ValidateField(f, v) == PhoneWrongLength
    ensures f == Preference1 ==> ValidateField(f, v) == PreferenceRequired
    ensures f == Pdf1 ==> ValidateField(f, v) == NotPdf
    ensures f != GithubTasks
  {
  }

  /** Worked examples of the name rule: blank values are refused, surrounding spaces are ignored. */
  lemma NameExamples()
    ensures ValidateField(Name, Text("")) == NameRequired
    ensures ValidateField(Name, Text(" \t\n")) == NameRequired
    ensures ValidateField(Name, Text(" Ada ")) == ""
  {
    assert !Blank(" Ada ") by {
      assert !IsWhitespace(" Ada "[1]);
    }
    assert Blank(" \t\n");
  }

  /** Worked examples of the e-mail rule. */
  lemma EmailExamples()
    ensures ValidateField(Email, Text("a@b.co")) == ""
    ensures ValidateField(Email, Text("")) == InvalidEmail
    ensures ValidateField(Email, Text("abc")) == InvalidEmail
    ensures ValidateField(Email, Text("a@b")) == InvalidEmail
    ensures ValidateField(Email, Text("a b@c.de")) == InvalidEmail
  {
    EmailFromParts("a", "b", "co");
    assert "a@b.co" == "a" + "@" + "b" + "." + "co";
    assert "a b@c.de"[1] == ' ';
  }

  /** Worked examples of the phone rule: the digit check takes precedence over the length check. */
  lemma PhoneExamples()
    ensures ValidateField(Phone, Text("1234567890")) == ""
    ensures ValidateField(Phone, Text("12345")) == PhoneWrongLength
    ensures ValidateField(Phone, Text("")) == PhoneWrongLength
    ensures ValidateField(Phone, Text("12a4567890")) == PhoneNotDigits
    ensures ValidateField(Phone, Text("12a")) == PhoneNotDigits
  {
    assert "12a4567890"[2] == 'a';
    assert "12a"[2] == 'a';
  }

  /** Worked examples of the preference, task-link and PDF rules. */
  lemma OtherExamples()
    ensures ValidateField(Preference1, Text("")) == PreferenceRequired
    ensures ValidateField(Preference1, Text("Option 2")) == ""
    ensures ValidateField(GithubTasks, Text("")) == ""
    ensures ValidateField(Pdf1, Upload(None)) == ""
    ensures ValidateField(Pdf1, Upload(Some(File("application/pdf")))) == ""
    ensures ValidateField(Pdf1, Upload(Some(File("image/png")))) == NotPdf
  {
  }
}
