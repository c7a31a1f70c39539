/**
 * The add/edit student dialog of `src/components/student/StudentForm.tsx`
 * (and its duplicate `src/components/facultydashboard/StudentForm.tsx`,
 * whose logic is the same): the form's fields, their validation into a map
 * of error messages, the submission with the USN upper-cased, and the
 * reset when the dialog opens.
 */
module StudentForm {
  import opened Wrappers
  import opened Text
  import opened StudentTypes

  /** The form's state: every field a string except the section. */
  datatype FormData = FormData(
    name: string,
    usn: string,
    subject: string,
    section: Section,
    year: string,
    className: string,
    email: string,
    phone: string)

  /** The keys of the form (and of its error map). */
  datatype Field = Name | Usn | Subject | SectionField | Year | ClassName | Email | Phone

  const NameRequired := "Name is required"
  const UsnRequired := "USN is required"
  const UsnFormat := "USN format should be like 1MS21CS001"
  const SubjectRequired := "Subject is required"
  const EmailInvalid := "Invalid email format"
  const PhoneInvalid := "Phone number should be 10 digits"

  /** `/^[0-9][A-Z]{2}[0-9]{2}[A-Z]{2}[0-9]{3}$/`: a digit, two capitals, two digits, two capitals, three digits. */
  predicate UsnPattern(s: string) {
    |s| == 10 &&
    IsAsciiDigit(s[0]) && IsAsciiUpper(s[1]) && IsAsciiUpper(s[2]) &&
    IsAsciiDigit(s[3]) && IsAsciiDigit(s[4]) && IsAsciiUpper(s[5]) && IsAsciiUpper(s[6]) &&
    IsAsciiDigit(s[7]) && IsAsciiDigit(s[8]) && IsAsciiDigit(s[9])
  }

  /** `/^[0-9]{10}$/`: exactly ten ASCII digits. */
  predicate PhonePattern(s: string) {
    |s| == 10 && forall i :: 0 <= i < |s| ==> IsAsciiDigit(s[i])
  }

  /** `[^\s@]+`: a non-empty run of characters other than whitespace and `@`. */
  predicate Word(s: string) {
    s != [] && forall i :: 0 <= i < |s| ==> !IsJsSpace(s[i]) && s[i] != '@'
  }

  /** `s` is a word, `@` at `i`, a word, `.` at `j`, and a word. */
  predicate SplitsAt(s: string, i: int, j: int) {
    0 < i && i + 1 < j && j + 1 < |s| && s[i] == '@' && s[j] == '.' &&
    Word(s[..i]) && Word(s[i + 1..j]) && Word(s[j + 1..])
  }

  /** `/^[^\s@]+@[^\s@]+\.[^\s@]+$/`: such a split exists. */
  predicate EmailPattern(s: string) {
    exists i, j :: 0 <= i < |s| && 0 <= j < |s| && SplitsAt(s, i, j)
  }

  /** `i` holds the only `@` of `s`, and it is not the first character. */
  predicate SoleAt(s: string, i: int) {
    0 < i < |s| && s[i] == '@' && forall k :: 0 <= k < |s| && k != i ==> s[k] != '@'
  }

  /** `j` holds a dot at least two places after `i` and before the last character. */
  predicate DotAfter(s: string, i: int, j: int) {
    0 <= i && i + 1 < j < |s| - 1 && s[j] == '.'
  }

  predicate NoSpace(s: string) {
    forall k :: 0 <= k < |s| ==> !IsJsSpace(s[k])
  }

  /** The same set of addresses, described character by character. */
  predicate EmailShape(s: string) {
    NoSpace(s) && exists i, j :: 0 <= i < |s| && 0 <= j < |s| && SoleAt(s, i) && DotAfter(s, i, j)
  }

  lemma WordSlice(s: string, lo: int, hi: int)
    requires 0 <= lo < hi <= |s|
    requires forall k :: lo <= k < hi ==> !IsJsSpace(s[k]) && s[k] != '@'
    ensures Word(s[lo..hi])
  {
    var w := s[lo..hi];
    forall k | 0 <= k < |w| ensures !IsJsSpace(w[k]) && w[k] != '@' {
      assert w[k] == s[lo + k];
    }
  }

  lemma SplitGivesShape(s: string, i: int, j: int)
    requires SplitsAt(s, i, j)
    ensures NoSpace(s) && SoleAt(s, i) && DotAfter(s, i, j)
  {
    var a, b, c := s[..i], s[i + 1..j], s[j + 1..];
    forall k | 0 <= k < |s| ensures !IsJsSpace(s[k]) && (k != i ==> s[k] != '@') {
      if k < i { assert s[k] == a[k]; }
      else if i < k < j { assert s[k] == b[k - i - 1]; }
      else if k > j { assert s[k] == c[k - j - 1]; }
    }
  }

  lemma ShapeGivesSplit(s: string, i: int, j: int)
    requires NoSpace(s) && SoleAt(s, i) && DotAfter(s, i, j)
    ensures SplitsAt(s, i, j)
  {
    WordSlice(s, 0, i);
    assert s[0..i] == s[..i];
    WordSlice(s, i + 1, j);
    WordSlice(s, j + 1, |s|);
    assert s[j + 1..|s|] == s[j + 1..];
  }

  /**
   * An address matches the pattern exactly when it has no whitespace, one
   * `@` that is not its first character, and a dot after the `@` that is
   * neither right after it nor last.
   */
  lemma EmailPatternIffShape(s: string)
    ensures EmailPattern(s) <==> EmailShape(s)
  {
    if EmailPattern(s) {
      var i, j :| 0 <= i < |s| && 0 <= j < |s| && SplitsAt(s, i, j);
      SplitGivesShape(s, i, j);
    }
    if EmailShape(s) {
      var i, j :| 0 <= i < |s| && 0 <= j < |s| && SoleAt(s, i) && DotAfter(s, i, j);
      ShapeGivesSplit(s, i, j);
    }
  }

  /**
   * The message `validateForm` records for one field, if any. The source's
   * `!value.trim()` is written `IsBlank(value)` here, which is the same test
   * (`Text.TrimEmptyIffBlank`).
   */
  function FieldError(form: FormData, field: Field): Option<string> {
    match field
    case Name => if IsBlank(form.name) then Some(NameRequired) else None
    case Usn =>
      if IsBlank(form.usn) then Some(UsnRequired)
      else if !UsnPattern(ToUpper(form.usn)) then Some(UsnFormat)
      else None
    case Subject => if form.subject == "" then Some(SubjectRequired) else None
    case Email => if form.email != "" && !EmailPattern(form.email) then Some(EmailInvalid) else None
    case Phone => if form.phone != "" && !PhonePattern(form.phone) then Some(PhoneInvalid) else None
    case SectionField => None
    case Year => None
    case ClassName => None
  }

  /**
   * Which fields fail, stated against the source's own tests: the name when
   * `trim()` leaves nothing; the USN with "required" when `trim()` leaves
   * nothing, and otherwise with the format message when its upper-cased form
   * lacks the shape; the subject when empty; the email when given and not of
   * the character-level `EmailShape`; the phone when given and not ten
   * digits; the section, year and class never.
   */
  lemma FieldErrorSpec(form: FormData, field: Field)
    ensures field == Name ==> FieldError(form, field) == if Trim(form.name) == "" then Some(NameRequired) else None
    ensures field == Usn && Trim(form.usn) == "" ==> FieldError(form, field) == Some(UsnRequired)
    ensures field == Usn && Trim(form.usn) != "" ==>
              FieldError(form, field) == if UsnPattern(ToUpper(form.usn)) then None else Some(UsnFormat)
    ensures field == Email ==>
              FieldError(form, field) == if form.email != "" && !EmailShape(form.email) then Some(EmailInvalid) else None
    ensures field == Phone ==> (FieldError(form, field).Some? <==> form.phone != "" && !PhonePattern(form.phone))
    ensures field == Subject ==> (FieldError(form, field).Some? <==> form.subject == "")
    ensures field == SectionField || field == Year || field == ClassName ==> FieldError(form, field).None?
  {
    match field
    case Name => TrimEmptyIffBlank(form.name);
    case Usn => TrimEmptyIffBlank(form.usn);
    case Email => EmailPatternIffShape(form.email);
    case _ =>
  }

  /** `errors` is the error map `validateForm` should produce for `form`: one entry per failing field. */
  ghost predicate ErrorsFor(form: FormData, errors: map<Field, string>) {
    forall f: Field :: (f in errors <==> FieldError(form, f).Some?) &&
      (f in errors ==> errors[f] == FieldError(form, f).value)
  }

  /**
   * The form is valid (no errors) exactly when the name and the USN are not
   * empty after `trim()`, the upper-cased USN has the required shape, a
   * subject is chosen, the email, when given, has the `EmailShape` and the
   * phone, when given, is ten digits.
   */
  lemma ValidIff(form: FormData, errors: map<Field, string>)
    requires ErrorsFor(form, errors)
    ensures errors == map[] <==>
      Trim(form.name) != "" && Trim(form.usn) != "" && UsnPattern(ToUpper(form.usn)) && form.subject != "" &&
      (form.email == "" || EmailShape(form.email)) && (form.phone == "" || PhonePattern(form.phone))
  {
    FieldErrorSpec(form, Name);
    FieldErrorSpec(form, Usn);
    FieldErrorSpec(form, Subject);
    FieldErrorSpec(form, Email);
    FieldErrorSpec(form, Phone);
    if errors == map[] {
      assert FieldError(form, Name).None? && FieldError(form, Usn).None? && FieldError(form, Subject).None?;
      assert FieldError(form, Email).None? && FieldError(form, Phone).None?;
    } else {
      var f :| f in errors;
      assert FieldError(form, f).Some?;
      FieldErrorSpec(form, f);
    }
  }

  /** Upper-casing neither makes nor unmakes a blank string. */
  lemma {:induction false} ToUpperBlank(s: string)
    ensures IsBlank(ToUpper(s)) <==> IsBlank(s)
  {
    var u := ToUpper(s);
    forall i | 0 <= i < |s| ensures IsJsSpace(u[i]) <==> IsJsSpace(s[i]) {
      assert u[i] == UpperChar(s[i]);
    }
  }

  /** `{ ...formData, usn: formData.usn.toUpperCase() }` */
  function Submission(form: FormData): (d: StudentFormData)
    ensures d.usn == ToUpper(form.usn)
    ensures d.name == form.name && d.subject == form.subject && d.section == form.section
    ensures d.year == form.year && d.className == form.className
    ensures d.email == Some(form.email) && d.phone == Some(form.phone)
  {
    StudentFormData(form.name, ToUpper(form.usn), form.subject, form.section, form.year, form.className,
      Some(form.email), Some(form.phone))
  }

  /** What a valid form submits is itself valid: upper-casing the USN keeps every check passing. */
  lemma SubmissionRevalidates(form: FormData)
    requires forall f :: FieldError(form, f).None?
    ensures forall f :: FieldError(form.(usn := ToUpper(form.usn)), f).None?
    ensures UsnPattern(Submission(form).usn)
  {
    assert FieldError(form, Usn).None?;
    ToUpperBlank(form.usn);
    ToUpperIdempotent(form.usn);
    var up := form.(usn := ToUpper(form.usn));
    assert FieldError(up, Usn).None?;
    forall f ensures FieldError(up, f).None? {
      if f != Usn { assert FieldError(up, f) == FieldError(form, f); }
    }
  }

  /** The example in the message is a well-formed USN, in either case. */
  lemma UsnExamples()
    ensures UsnPattern(ToUpper("1MS21CS001"))
    ensures UsnPattern(ToUpper("1ms21cs001"))
    ensures !UsnPattern(ToUpper("1MS21CS01"))
    ensures !UsnPattern(ToUpper("MS121CS001"))
  {
    assert ToUpper("1ms21cs001") == "1MS21CS001";
    assert ToUpper("1MS21CS001") == "1MS21CS001";
    assert !IsAsciiDigit('M');
  }

  /** The form for the student being edited (missing email and phone become ""), or a blank one for the class. */
  function ResetData(editing: Option<Student>, classInfo: ClassInfo): (f: FormData)
    ensures editing.Some? ==> f.name == editing.value.name && f.usn == editing.value.usn
    ensures editing.Some? ==> f.subject == editing.value.subject && f.section == editing.value.section
    ensures editing.Some? ==> f.year == editing.value.year && f.className == editing.value.className
    ensures editing.Some? ==> f.email == editing.value.email.GetOr("") && f.phone == editing.value.phone.GetOr("")
    ensures editing.None? ==> f == FormData("", "", "", A, classInfo.year, classInfo.className, "", "")
  {
    match editing
    case Some(st) => FormData(st.name, st.usn, st.subject, st.section, st.year, st.className,
      st.email.GetOr(""), st.phone.GetOr(""))
    case None => FormData("", "", "", A, classInfo.year, classInfo.className, "", "")
  }

  /** One input's change to the form: that field takes the value, the others stay. */
  function WithField(form: FormData, field: Field, value: string): (r: FormData)
    requires field == SectionField ==> ParseSection(value).Some?
  {
    match field
    case Name => form.(name := value)
    case Usn => form.(usn := value)
    case Subject => form.(subject := value)
    case SectionField => form.(section := ParseSection(value).value)
    case Year => form.(year := value)
    case ClassName => form.(className := value)
    case Email => form.(email := value)
    case Phone => form.(phone := value)
  }

  /** A change to one field leaves the errors of every other field as they were. */
  lemma WithFieldKeepsOtherErrors(form: FormData, field: Field, value: string, other: Field)
    requires field == SectionField ==> ParseSection(value).Some?
    requires other != field
    ensures FieldError(WithField(form, field, value), other) == FieldError(form, other)
  {
  }

  /** The dialog's state. */
  class StudentFormState {
    var formData: FormData
    var errors: map<Field, string>

    constructor(classInfo: ClassInfo)
      ensures formData == ResetData(None, classInfo) && errors == map[]
    {
      formData := ResetData(None, classInfo);
      errors := map[];
    }

    /** The effect run when the dialog opens or its student changes. */
    method Reset(editing: Option<Student>, classInfo: ClassInfo)
      modifies this
      ensures formData == ResetData(editing, classInfo) && errors == map[]
    {
      formData := ResetData(editing, classInfo);
      errors := map[];
    }

    /** `validateForm`: the error map is built check by check; the form is valid when it stays empty. */
    method ValidateForm() returns (valid: bool)
      modifies this
      ensures ErrorsFor(formData, errors)
      ensures valid <==> errors == map[]
      ensures formData == old(formData)
    {
      var form := formData;
      var newErrors: map<Field, string> := map[];
      var name := FieldError(form, Name);
      if name.Some? {
        newErrors := newErrors[Name := name.value];
      }
      var usn := FieldError(form, Usn);
      if usn.Some? {
        newErrors := newErrors[Usn := usn.value];
      }
      var subject := FieldError(form, Subject);
      if subject.Some? {
        newErrors := newErrors[Subject := subject.value];
      }
      var email := FieldError(form, Email);
      if email.Some? {
        newErrors := newErrors[Email := email.value];
      }
      var phone := FieldError(form, Phone);
      if phone.Some? {
        newErrors := newErrors[Phone := phone.value];
      }
      forall f: Field ensures (f in newErrors <==> FieldError(form, f).Some?) &&
        (f in newErrors ==> newErrors[f] == FieldError(form, f).value)
      {
        match f
        case Name =>
        case Usn =>
        case Subject =>
        case Email =>
        case Phone =>
        case SectionField =>
        case Year =>
        case ClassName =>
      }
      errors := newErrors;
      valid := |errors.Keys| == 0;
      assert valid <==> errors == map[] by {
        if errors != map[] {
          var f :| f in errors;
          assert f in errors.Keys;
        }
      }
    }

    /** `handleSubmit`: an invalid form submits nothing; a valid one submits its data with the USN upper-cased. */
    method HandleSubmit() returns (submitted: Option<StudentFormData>)
      modifies this
      ensures ErrorsFor(formData, errors) && formData == old(formData)
      ensures submitted.None? <==> errors != map[]
      ensures submitted.Some? ==> submitted.value == Submission(formData)
    {
      var valid := ValidateForm();
      if !valid {
        return None;
      }
      submitted := Some(Submission(formData));
    }

    /** `handleInputChange`: the field takes the value and its error, if any, is cleared. */
    method HandleInputChange(field: Field, value: string)
      requires field == SectionField ==> ParseSection(value).Some?
      modifies this
      ensures formData == WithField(old(formData), field, value)
      ensures errors == old(errors) - {field}
    {
      formData := WithField(formData, field, value);
      if field in errors {
        errors := errors - {field};
      }
    }
  }
}
