/**
 * Validation of a proposed identity before it is created. Every rule is
 * checked and every violation is reported, in a fixed order; an empty list
 * means the identity may be created. The two lookups in the existing
 * identities (same person, same email) are predicates over the rows of the
 * People table.
 */
module Validation {
  import opened Wrappers
  import opened Text
  import opened Records
  import opened Lifecycle

  /** The submitted fields by name; a present field may hold Python's `None`. */
  type Data = map<string, Option<string>>

  /** `data.get(k)`: `None` when the field is absent. */
  function Get(data: Data, k: string): Option<string> {
    if k in data then data[k] else None
  }

  /** `str(data.get(k, ''))`: an absent field reads as "", a `None` value as "None". */
  function TextOf(data: Data, k: string): string {
    if k !in data then "" else match data[k] case None => "None" case Some(s) => s
  }

  /** Python truthiness of an optional string: present and not "". */
  predicate Present(v: Option<string>) {
    v.Some? && v.value != ""
  }

  /**
   * `not v or not str(v).strip()`: absent, empty, or only whitespace. A string
   * strips to "" exactly when it is all whitespace (the contract of `Strip`).
   */
  predicate Blank(v: Option<string>) {
    v.None? || AllSpace(v.value)
  }

  /** The fields every identity must have. */
  datatype Field = FirstName | LastName | Email | Dob | Type

  function Key(f: Field): string {
    match f
    case FirstName => "first_name"
    case LastName => "last_name"
    case Email => "email"
    case Dob => "dob"
    case Type => "type"
  }

  /** How a required field is named in its message. */
  function Label(f: Field): string {
    match f
    case FirstName => "first name"
    case LastName => "last name"
    case Email => "email"
    case Dob => "dob"
    case Type => "type"
  }

  /** The required fields, in the order they are checked. */
  const RequiredFields: seq<Field> := [FirstName, LastName, Email, Dob, Type]

  datatype Violation =
    | Empty(field: Field)
    | DuplicateIdentity
    | FirstNameTooShort
    | LastNameTooShort
    | NationalIdRequired
    | FacultyRankRequired
    | PrimaryDepartmentRequired
    | StaffDepartmentRequired
    | JobTitleRequired
    | InvalidEmail
    | EmailExists
    | PhoneNotNumeric
    | DobInFuture
    | StudentUnderSixteen
    | InvalidDate

  /** The text reported for a violation. */
  function Message(v: Violation): string {
    match v
    case Empty(f) => Label(f) + " cannot be empty"
    case DuplicateIdentity => "An identity with the same name, date of birth, and type already exists"
    case FirstNameTooShort => "First name must be at least 2 characters"
    case LastNameTooShort => "Last name must be at least 2 characters"
    case NationalIdRequired => "Student national ID is required"
    case FacultyRankRequired => "Faculty rank is required"
    case PrimaryDepartmentRequired => "Primary department is required"
    case StaffDepartmentRequired => "Staff department is required"
    case JobTitleRequired => "Job title is required"
    case InvalidEmail => "Invalid email format"
    case EmailExists => "Email already exists"
    case PhoneNotNumeric => "Phone must contain only numbers"
    case DobInFuture => "Birth date cannot be in the future"
    case StudentUnderSixteen => "You must be at least 16 years old"
    case InvalidDate => "Invalid date format"
  }

  /** A field's label is its key with every `_` replaced by a space. */
  lemma LabelIsSpacedKey(f: Field)
    ensures Label(f) == Spaced(Key(f))
  {
    SpacedChars(Key(f));
  }

  /** `s.replace('_', ' ')` */
  function Spaced(s: string): string {
    if s == [] then [] else [if s[0] == '_' then ' ' else s[0]] + Spaced(s[1..])
  }

  /** `Spaced` replaces each `_` by a space and keeps every other character in place. */
  lemma {:induction false} SpacedChars(s: string)
    ensures |Spaced(s)| == |s|
    ensures forall i | 0 <= i < |s| :: Spaced(s)[i] == if s[i] == '_' then ' ' else s[i]
  {
    if s != [] {
      SpacedChars(s[1..]);
    }
  }

  /** The messages of the violations, in order. */
  function Messages(vs: seq<Violation>): (ms: seq<string>)
    ensures |ms| == |vs|
  {
    if vs == [] then [] else Messages(vs[..|vs| - 1]) + [Message(vs[|vs| - 1])]
  }

  lemma MessagesAppend(a: seq<Violation>, b: seq<Violation>)
    ensures Messages(a + b) == Messages(a) + Messages(b)
  {
    if b == [] {
      assert a + b == a;
    } else {
      var init := b[..|b| - 1];
      assert (a + b)[..|a + b| - 1] == a + init;
      assert Messages(b) == Messages(init) + [Message(b[|b| - 1])];
      MessagesAppend(a, init);
    }
  }

  lemma MessagesConcat7(a: seq<Violation>, b: seq<Violation>, c: seq<Violation>, d: seq<Violation>,
                        e: seq<Violation>, f: seq<Violation>, g: seq<Violation>)
    ensures Messages(a + b + c + d + e + f + g)
         == Messages(a) + Messages(b) + Messages(c) + Messages(d) + Messages(e) + Messages(f) + Messages(g)
  {
    MessagesAppend(a, b);
    MessagesAppend(a + b, c);
    MessagesAppend(a + b + c, d);
    MessagesAppend(a + b + c + d, e);
    MessagesAppend(a + b + c + d + e, f);
    MessagesAppend(a + b + c + d + e + f, g);
  }

  lemma MessagesSnoc(vs: seq<Violation>, v: Violation)
    ensures Messages(vs + [v]) == Messages(vs) + [Message(v)]
  {
    assert (vs + [v])[..|vs|] == vs;
  }

  // ---------------------------------------------------------------------
  // The rules, one function per rule, in the order they are applied.

  /** Rule 1: each required field that is blank is reported. */
  function MissingRequired(data: Data, fields: seq<Field>): seq<Violation> {
    if fields == [] then []
    else
      var f := fields[|fields| - 1];
      MissingRequired(data, fields[..|fields| - 1]) + (if Blank(Get(data, Key(f))) then [Empty(f)] else [])
  }

  /**
   * An existing row denotes the same person: first and last names equal
   * ignoring ASCII case (the submitted names are stripped first), date of
   * birth and type equal exactly.
   */
  predicate SamePerson(row: Row, first: string, last: string, dob: string, ty: string) {
    && Col(row, "first_name").Some? && AsciiLower(Col(row, "first_name").value) == AsciiLower(Strip(first))
    && Col(row, "last_name").Some? && AsciiLower(Col(row, "last_name").value) == AsciiLower(Strip(last))
    && Col(row, "dob") == Some(dob)
    && Col(row, "type") == Some(ty)
  }

  /** The lookup runs only when the four fields are all present (not stripped first). */
  predicate DuplicateFound(data: Data, existing: seq<Row>) {
    var first, last, dob, ty := Get(data, "first_name"), Get(data, "last_name"), Get(data, "dob"), Get(data, "type");
    && Present(first) && Present(last) && Present(dob) && Present(ty)
    && exists row | row in existing :: SamePerson(row, first.value, last.value, dob.value, ty.value)
  }

  /** Rule 2: the same person already has an identity of this type. */
  function DuplicateCheck(data: Data, existing: seq<Row>): seq<Violation> {
    if DuplicateFound(data, existing) then [DuplicateIdentity] else []
  }

  /** A stripped name that is given but has fewer than two characters. */
  predicate TooShort(name: string) {
    name != "" && |name| < 2
  }

  /** Rule 3: first and last name, when given, have at least two characters after stripping. */
  function NameLengthCheck(data: Data): seq<Violation> {
    (if TooShort(Strip(TextOf(data, "first_name"))) then [FirstNameTooShort] else [])
    + (if TooShort(Strip(TextOf(data, "last_name"))) then [LastNameTooShort] else [])
  }

  /** Rule 4: the fields a Student, a Faculty member or a Staff member must also have. */
  function TypeFieldCheck(data: Data): seq<Violation> {
    var ty := Get(data, "type");
    (if ty == Some("Student") && Blank(Get(data, "national_id")) then [NationalIdRequired] else [])
    + (if ty == Some("Faculty") && Blank(Get(data, "faculty_rank")) then [FacultyRankRequired] else [])
    + (if ty == Some("Faculty") && Blank(Get(data, "primary_department")) then [PrimaryDepartmentRequired] else [])
    + (if ty == Some("Staff") && Blank(Get(data, "staff_department")) then [StaffDepartmentRequired] else [])
    + (if ty == Some("Staff") && Blank(Get(data, "job_title")) then [JobTitleRequired] else [])
  }

  /** A character the email pattern `[^\s@]` accepts. */
  predicate EmailChar(c: char) {
    !IsSpace(c) && c != '@'
  }

  /** One `[^\s@]+` run of the email pattern. */
  predicate Atom(t: string) {
    |t| > 0 && forall i | 0 <= i < |t| :: EmailChar(t[i])
  }

  /**
   * The shape `^[^\s@]+@[^\s@]+\.[^\s@]+$` demands, stated directly: one `@`
   * with something before it, no whitespace and no other `@`, and a `.`
   * after the `@` that is neither the first nor the last character there.
   */
  predicate EmailShape(s: string) {
    exists k | 0 < k < |s| ::
      && s[k] == '@'
      && (forall i | 0 <= i < |s| && i != k :: EmailChar(s[i]))
      && (exists j | k + 1 < j < |s| - 1 :: s[j] == '.')
  }

  /** The pattern as the regular expression reads: three runs joined by `@` and `.`. */
  ghost predicate MatchesEmailPattern(s: string) {
    exists local, host, tld | Atom(local) && Atom(host) && Atom(tld) :: s == local + "@" + host + "." + tld
  }

  /** Rules 5 and 6: a given email has the right shape and no identity has it already, ignoring ASCII case. */
  function EmailChecks(data: Data, existing: seq<Row>): seq<Violation> {
    var email := Strip(TextOf(data, "email"));
    (if email != "" && !EmailShape(email) then [InvalidEmail] else [])
    + (if email != "" && EmailTaken(email, existing) then [EmailExists] else [])
  }

  predicate EmailTaken(email: string, existing: seq<Row>) {
    exists row | row in existing :: Col(row, "email").Some? && AsciiLower(Col(row, "email").value) == AsciiLower(email)
  }

  /** Rule 7: a given phone number is made of digits only. */
  function PhoneCheck(data: Data): seq<Violation> {
    var phone := Strip(TextOf(data, "phone"));
    if phone != "" && !AllDigits(phone) then [PhoneNotNumeric] else []
  }

  /** The age test on whole days, as the exact quotient by 365.25 days a year. */
  predicate UnderSixteen(days: int) {
    (days as real) / 365.25 < 16.0
  }

  /**
   * Rule 8: a given date of birth parses (`parseDate` gives its day number,
   * whose midnight is `day * MicrosPerDay`), is not after `now`, and a
   * Student is at least sixteen. An unparsable date is reported alone.
   */
  function DobChecks(data: Data, now: Instant, parseDate: string -> Option<int>): seq<Violation> {
    var dob := Get(data, "dob");
    if !Present(dob) then []
    else match parseDate(dob.value)
      case None => [InvalidDate]
      case Some(day) =>
        var born := day * MicrosPerDay;
        (if born > now then [DobInFuture] else [])
        + (if Get(data, "type") == Some("Student") && UnderSixteen(ElapsedDays(born, now)) then [StudentUnderSixteen] else [])
  }

  /** Every violation of a proposed identity, in the order the rules are applied. */
  function Violations(data: Data, existing: seq<Row>, now: Instant, parseDate: string -> Option<int>): seq<Violation> {
    MissingRequired(data, RequiredFields)
    + DuplicateCheck(data, existing)
    + NameLengthCheck(data)
    + TypeFieldCheck(data)
    + EmailChecks(data, existing)
    + PhoneCheck(data)
    + DobChecks(data, now, parseDate)
  }

  // ---------------------------------------------------------------------
  // What the rules report.

  /** The length and last character of each message, which already tell the messages apart. */
  function Signature(v: Violation): (int, char) {
    match v
    case Empty(FirstName) => (26, 'y')
    case Empty(LastName) => (25, 'y')
    case Empty(Email) => (21, 'y')
    case Empty(Dob) => (19, 'y')
    case Empty(Type) => (20, 'y')
    case DuplicateIdentity => (70, 's')
    case FirstNameTooShort => (40, 's')
    case LastNameTooShort => (39, 's')
    case NationalIdRequired => (31, 'd')
    case FacultyRankRequired => (24, 'd')
    case PrimaryDepartmentRequired => (30, 'd')
    case StaffDepartmentRequired => (28, 'd')
    case JobTitleRequired => (21, 'd')
    case InvalidEmail => (20, 't')
    case EmailExists => (20, 's')
    case PhoneNotNumeric => (31, 's')
    case DobInFuture => (34, 'e')
    case StudentUnderSixteen => (33, 'd')
    case InvalidDate => (19, 't')
  }

  lemma SignatureOfMessage(v: Violation)
    ensures |Message(v)| > 0 && (|Message(v)|, Message(v)[|Message(v)| - 1]) == Signature(v)
  {
    match v
    case Empty(f) => SignatureOfEmpty(f);
    case DuplicateIdentity | FirstNameTooShort | LastNameTooShort => SignatureOfName(v);
    case NationalIdRequired | FacultyRankRequired | PrimaryDepartmentRequired | StaffDepartmentRequired =>
      SignatureOfTypeField(v);
    case _ => SignatureOfContactOrDate(v);
  }

  lemma SignatureOfEmpty(f: Field)
    ensures |Message(Empty(f))| > 0
    ensures (|Message(Empty(f))|, Message(Empty(f))[|Message(Empty(f))| - 1]) == Signature(Empty(f))
  {
    match f
    case FirstName =>
    case LastName =>
    case Email =>
    case Dob =>
    case Type =>
  }

  lemma SignatureOfName(v: Violation)
    requires v in {DuplicateIdentity, FirstNameTooShort, LastNameTooShort}
    ensures |Message(v)| > 0 && (|Message(v)|, Message(v)[|Message(v)| - 1]) == Signature(v)
  {
    match v
    case DuplicateIdentity =>
    case FirstNameTooShort =>
    case LastNameTooShort =>
  }

  lemma SignatureOfTypeField(v: Violation)
    requires v in {NationalIdRequired, FacultyRankRequired, PrimaryDepartmentRequired, StaffDepartmentRequired}
    ensures |Message(v)| > 0 && (|Message(v)|, Message(v)[|Message(v)| - 1]) == Signature(v)
  {
    match v
    case NationalIdRequired =>
    case FacultyRankRequired =>
    case PrimaryDepartmentRequired =>
    case StaffDepartmentRequired =>
  }

  lemma SignatureOfContactOrDate(v: Violation)
    requires v in {JobTitleRequired, InvalidEmail, EmailExists, PhoneNotNumeric, DobInFuture, StudentUnderSixteen, InvalidDate}
    ensures |Message(v)| > 0 && (|Message(v)|, Message(v)[|Message(v)| - 1]) == Signature(v)
  {
    match v
    case JobTitleRequired =>
    case InvalidEmail =>
    case EmailExists =>
    case PhoneNotNumeric =>
    case DobInFuture =>
    case StudentUnderSixteen =>
    case InvalidDate =>
  }

  /** The violation a signature belongs to. */
  function FromSignature(sig: (int, char)): Option<Violation> {
    match sig
    case (26, 'y') => Some(Empty(FirstName))
    case (25, 'y') => Some(Empty(LastName))
    case (21, 'y') => Some(Empty(Email))
    case (19, 'y') => Some(Empty(Dob))
    case (20, 'y') => Some(Empty(Type))
    case (70, 's') => Some(DuplicateIdentity)
    case (40, 's') => Some(FirstNameTooShort)
    case (39, 's') => Some(LastNameTooShort)
    case (31, 'd') => Some(NationalIdRequired)
    case (24, 'd') => Some(FacultyRankRequired)
    case (30, 'd') => Some(PrimaryDepartmentRequired)
    case (28, 'd') => Some(StaffDepartmentRequired)
    case (21, 'd') => Some(JobTitleRequired)
    case (20, 't') => Some(InvalidEmail)
    case (20, 's') => Some(EmailExists)
    case (31, 's') => Some(PhoneNotNumeric)
    case (34, 'e') => Some(DobInFuture)
    case (33, 'd') => Some(StudentUnderSixteen)
    case (19, 't') => Some(InvalidDate)
    case _ => None
  }

  lemma SignatureInverse(v: Violation)
    ensures FromSignature(Signature(v)) == Some(v)
  {
  }

  /** Distinct violations have distinct messages, so the messages say exactly which rules failed. */
  lemma MessageInjective(v: Violation, w: Violation)
    ensures Message(v) == Message(w) ==> v == w
  {
    MessageInverse(v);
    MessageInverse(w);
  }

  /** The violation a message reports, read off its length and last character. */
  function FromMessage(m: string): Option<Violation> {
    if m == [] then None else FromSignature((|m|, m[|m| - 1]))
  }

  lemma MessageInverse(v: Violation)
    ensures FromMessage(Message(v)) == Some(v)
  {
    SignatureOfMessage(v);
    SignatureInverse(v);
  }

  /** Each position of the message list holds the message of the violation there. */
  lemma {:induction false} MessagesAt(vs: seq<Violation>, i: int)
    requires 0 <= i < |vs|
    ensures Messages(vs)[i] == Message(vs[i])
  {
    if i < |vs| - 1 {
      MessagesAt(vs[..|vs| - 1], i);
    }
  }

  /** A message is reported exactly when its violation is. */
  lemma MessageReported(vs: seq<Violation>, v: Violation)
    ensures Message(v) in Messages(vs) <==> v in vs
  {
    if v in vs {
      var i :| 0 <= i < |vs| && vs[i] == v;
      MessagesAt(vs, i);
    }
    if Message(v) in Messages(vs) {
      ReportedMessage(vs, v);
    }
  }

  lemma ReportedMessage(vs: seq<Violation>, v: Violation)
    requires Message(v) in Messages(vs)
    ensures v in vs
  {
    var ms := Messages(vs);
    var i :| 0 <= i < |ms| && ms[i] == Message(v);
    MessagesAt(vs, i);
    MessageInverse(vs[i]);
    MessageInverse(v);
  }

  lemma MissingRequiredStep(data: Data, fields: seq<Field>, n: nat)
    requires n < |fields|
    ensures MissingRequired(data, fields[..n + 1])
         == MissingRequired(data, fields[..n]) + (if Blank(Get(data, Key(fields[n]))) then [Empty(fields[n])] else [])
  {
    assert fields[..n + 1][..n] == fields[..n];
  }

  /** Rule 1 reports exactly the blank fields among those it checks, and nothing else. */
  lemma {:induction false} MissingRequiredReports(data: Data, fields: seq<Field>, v: Violation)
    ensures v in MissingRequired(data, fields) <==> v.Empty? && v.field in fields && Blank(Get(data, Key(v.field)))
  {
    if fields != [] {
      var init, last := fields[..|fields| - 1], fields[|fields| - 1];
      MissingRequiredReports(data, init, v);
      assert fields == init + [last];
    }
  }

  /** A violation is reported when one of the seven rules reports it. */
  lemma ViolationsByRule(data: Data, existing: seq<Row>, now: Instant, parseDate: string -> Option<int>, v: Violation)
    ensures v in Violations(data, existing, now, parseDate) <==>
      || v in MissingRequired(data, RequiredFields) || v in DuplicateCheck(data, existing)
      || v in NameLengthCheck(data) || v in TypeFieldCheck(data) || v in EmailChecks(data, existing)
      || v in PhoneCheck(data) || v in DobChecks(data, now, parseDate)
  {
  }

  /** Rule 3 reports a name exactly when it is too short. */
  lemma NameLengthContents(data: Data, v: Violation)
    ensures v in NameLengthCheck(data) <==>
      || (v == FirstNameTooShort && TooShort(Strip(TextOf(data, "first_name"))))
      || (v == LastNameTooShort && TooShort(Strip(TextOf(data, "last_name"))))
  {
    var first, last := Strip(TextOf(data, "first_name")), Strip(TextOf(data, "last_name"));
    assert NameLengthCheck(data)
        == (if TooShort(first) then [FirstNameTooShort] else []) + (if TooShort(last) then [LastNameTooShort] else []);
  }

  /** Each rule reports only violations of its own kind. */
  lemma RuleKinds(data: Data, existing: seq<Row>, now: Instant, parseDate: string -> Option<int>, v: Violation)
    ensures v in MissingRequired(data, RequiredFields) ==> v.Empty?
    ensures v in DuplicateCheck(data, existing) ==> v == DuplicateIdentity
    ensures v in NameLengthCheck(data) ==> v == FirstNameTooShort || v == LastNameTooShort
    ensures v in TypeFieldCheck(data) ==>
      || v == NationalIdRequired || v == FacultyRankRequired || v == PrimaryDepartmentRequired
      || v == StaffDepartmentRequired || v == JobTitleRequired
    ensures v in EmailChecks(data, existing) ==> v == InvalidEmail || v == EmailExists
    ensures v in PhoneCheck(data) ==> v == PhoneNotNumeric
    ensures v in DobChecks(data, now, parseDate) ==> v == InvalidDate || v == DobInFuture || v == StudentUnderSixteen
  {
    RequiredKinds(data, v);
    DuplicateKinds(data, existing, v);
    NameKinds(data, v);
    TypeKinds(data, v);
    EmailKinds(data, existing, v);
    PhoneKinds(data, v);
    DobKinds(data, now, parseDate, v);
  }

  lemma RequiredKinds(data: Data, v: Violation)
    ensures v in MissingRequired(data, RequiredFields) ==> v.Empty?
  {
    MissingRequiredReports(data, RequiredFields, v);
  }

  lemma DuplicateKinds(data: Data, existing: seq<Row>, v: Violation)
    ensures v in DuplicateCheck(data, existing) ==> v == DuplicateIdentity
  {
  }

  lemma NameKinds(data: Data, v: Violation)
    ensures v in NameLengthCheck(data) ==> v == FirstNameTooShort || v == LastNameTooShort
  {
    NameLengthContents(data, v);
  }

  lemma TypeKinds(data: Data, v: Violation)
    ensures v in TypeFieldCheck(data) ==>
      || v == NationalIdRequired || v == FacultyRankRequired || v == PrimaryDepartmentRequired
      || v == StaffDepartmentRequired || v == JobTitleRequired
  {
    TypeFieldContents(data, v);
  }

  lemma PhoneKinds(data: Data, v: Violation)
    ensures v in PhoneCheck(data) ==> v == PhoneNotNumeric
  {
  }

  lemma EmailKinds(data: Data, existing: seq<Row>, v: Violation)
    ensures v in EmailChecks(data, existing) ==> v == InvalidEmail || v == EmailExists
  {
  }

  lemma DobKinds(data: Data, now: Instant, parseDate: string -> Option<int>, v: Violation)
    ensures v in DobChecks(data, now, parseDate) ==> v == InvalidDate || v == DobInFuture || v == StudentUnderSixteen
  {
  }

  /** Every required field that is absent, empty or only whitespace is reported, and no other. */
  lemma RequiredFieldReported(data: Data, existing: seq<Row>, now: Instant, parseDate: string -> Option<int>, f: Field)
    ensures Empty(f) in Violations(data, existing, now, parseDate) <==> Blank(Get(data, Key(f)))
  {
    ViolationsByRule(data, existing, now, parseDate, Empty(f));
    RuleKinds(data, existing, now, parseDate, Empty(f));
    MissingRequiredReports(data, RequiredFields, Empty(f));
  }

  /**
   * The duplicate-person violation is reported exactly when first name, last
   * name, date of birth and type are all given and an existing row matches them.
   */
  lemma DuplicateReported(data: Data, existing: seq<Row>, now: Instant, parseDate: string -> Option<int>)
    ensures DuplicateIdentity in Violations(data, existing, now, parseDate) <==> DuplicateFound(data, existing)
  {
    ViolationsByRule(data, existing, now, parseDate, DuplicateIdentity);
    RuleKinds(data, existing, now, parseDate, DuplicateIdentity);
  }

  /** A given name of a single character (after stripping) is reported; an empty one is not. */
  lemma NameLengthReported(data: Data, existing: seq<Row>, now: Instant, parseDate: string -> Option<int>)
    ensures FirstNameTooShort in Violations(data, existing, now, parseDate) <==> |Strip(TextOf(data, "first_name"))| == 1
    ensures LastNameTooShort in Violations(data, existing, now, parseDate) <==> |Strip(TextOf(data, "last_name"))| == 1
  {
    ViolationsByRule(data, existing, now, parseDate, FirstNameTooShort);
    RuleKinds(data, existing, now, parseDate, FirstNameTooShort);
    NameLengthContents(data, FirstNameTooShort);
    ViolationsByRule(data, existing, now, parseDate, LastNameTooShort);
    RuleKinds(data, existing, now, parseDate, LastNameTooShort);
    NameLengthContents(data, LastNameTooShort);
  }

  /**
   * The type-specific fields: a Student needs a national ID, a Faculty member
   * a rank and a primary department, a Staff member a department and a job
   * title, one violation per missing field; any other type needs none.
   */
  lemma TypeFieldsReported(data: Data, existing: seq<Row>, now: Instant, parseDate: string -> Option<int>)
    ensures var vs, ty := Violations(data, existing, now, parseDate), Get(data, "type");
      && (NationalIdRequired in vs <==> ty == Some("Student") && Blank(Get(data, "national_id")))
      && (FacultyRankRequired in vs <==> ty == Some("Faculty") && Blank(Get(data, "faculty_rank")))
      && (PrimaryDepartmentRequired in vs <==> ty == Some("Faculty") && Blank(Get(data, "primary_department")))
      && (StaffDepartmentRequired in vs <==> ty == Some("Staff") && Blank(Get(data, "staff_department")))
      && (JobTitleRequired in vs <==> ty == Some("Staff") && Blank(Get(data, "job_title")))
  {
    TypeFieldReported(data, existing, now, parseDate, NationalIdRequired);
    TypeFieldReported(data, existing, now, parseDate, FacultyRankRequired);
    TypeFieldReported(data, existing, now, parseDate, PrimaryDepartmentRequired);
    TypeFieldReported(data, existing, now, parseDate, StaffDepartmentRequired);
    TypeFieldReported(data, existing, now, parseDate, JobTitleRequired);
  }

  lemma TypeFieldReported(data: Data, existing: seq<Row>, now: Instant, parseDate: string -> Option<int>, v: Violation)
    requires v.NationalIdRequired? || v.FacultyRankRequired? || v.PrimaryDepartmentRequired? || v.StaffDepartmentRequired? || v.JobTitleRequired?
    ensures v in Violations(data, existing, now, parseDate) <==> TypeFieldMissing(data, v)
  {
    OnlyTypeFieldRule(data, existing, now, parseDate, v);
    TypeFieldContents(data, v);
  }

  lemma OnlyTypeFieldRule(data: Data, existing: seq<Row>, now: Instant, parseDate: string -> Option<int>, v: Violation)
    requires v.NationalIdRequired? || v.FacultyRankRequired? || v.PrimaryDepartmentRequired? || v.StaffDepartmentRequired? || v.JobTitleRequired?
    ensures v in Violations(data, existing, now, parseDate) <==> v in TypeFieldCheck(data)
  {
    ViolationsByRule(data, existing, now, parseDate, v);
    RuleKinds(data, existing, now, parseDate, v);
  }

  /** The one type-specific field whose absence a violation reports, for the type that needs it. */
  predicate TypeFieldMissing(data: Data, v: Violation) {
    var ty := Get(data, "type");
    match v
    case NationalIdRequired => ty == Some("Student") && Blank(Get(data, "national_id"))
    case FacultyRankRequired => ty == Some("Faculty") && Blank(Get(data, "faculty_rank"))
    case PrimaryDepartmentRequired => ty == Some("Faculty") && Blank(Get(data, "primary_department"))
    case StaffDepartmentRequired => ty == Some("Staff") && Blank(Get(data, "staff_department"))
    case JobTitleRequired => ty == Some("Staff") && Blank(Get(data, "job_title"))
    case _ => false
  }

  lemma TypeFieldContents(data: Data, v: Violation)
    ensures v in TypeFieldCheck(data) <==> TypeFieldMissing(data, v)
  {
  }

  /**
   * A given email of the wrong shape is reported, and so is one that an
   * existing identity has in any ASCII letter case. An empty email adds neither.
   */
  lemma EmailReported(data: Data, existing: seq<Row>, now: Instant, parseDate: string -> Option<int>)
    ensures var vs, email := Violations(data, existing, now, parseDate), Strip(TextOf(data, "email"));
      && (InvalidEmail in vs <==> email != "" && !EmailShape(email))
      && (EmailExists in vs <==> email != "" && EmailTaken(email, existing))
  {
    OnlyContactRules(data, existing, now, parseDate, InvalidEmail);
    OnlyContactRules(data, existing, now, parseDate, EmailExists);
    EmailContents(data, existing);
  }

  /** A given phone number with a character other than an ASCII digit is reported; an empty one is not. */
  lemma PhoneReported(data: Data, existing: seq<Row>, now: Instant, parseDate: string -> Option<int>)
    ensures var phone := Strip(TextOf(data, "phone"));
      PhoneNotNumeric in Violations(data, existing, now, parseDate) <==> phone != "" && !AllDigits(phone)
  {
    OnlyContactRules(data, existing, now, parseDate, PhoneNotNumeric);
    PhoneContents(data);
  }

  lemma OnlyContactRules(data: Data, existing: seq<Row>, now: Instant, parseDate: string -> Option<int>, v: Violation)
    requires v.InvalidEmail? || v.EmailExists? || v.PhoneNotNumeric?
    ensures v in Violations(data, existing, now, parseDate) <==> v in EmailChecks(data, existing) || v in PhoneCheck(data)
  {
    ViolationsByRule(data, existing, now, parseDate, v);
    RuleKinds(data, existing, now, parseDate, v);
  }

  lemma EmailContents(data: Data, existing: seq<Row>)
    ensures var email := Strip(TextOf(data, "email"));
      && (InvalidEmail in EmailChecks(data, existing) <==> email != "" && !EmailShape(email))
      && (EmailExists in EmailChecks(data, existing) <==> email != "" && EmailTaken(email, existing))
  {
    var email := Strip(TextOf(data, "email"));
    assert EmailChecks(data, existing)
        == (if email != "" && !EmailShape(email) then [InvalidEmail] else [])
         + (if email != "" && EmailTaken(email, existing) then [EmailExists] else []);
  }

  lemma PhoneContents(data: Data)
    ensures var phone := Strip(TextOf(data, "phone"));
      PhoneNotNumeric in PhoneCheck(data) <==> phone != "" && !AllDigits(phone)
  {
  }

  /** The age test is exact on whole days: under sixteen means fewer than 5844 days. */
  lemma UnderSixteenInDays(days: int)
    ensures UnderSixteen(days) <==> days < 5844
  {
    var q := (days as real) / 365.25;
    assert q * 365.25 == days as real;
  }

  /**
   * A given date of birth that does not parse is reported alone; one that
   * parses is reported when it lies after `now`, and, for a Student, when
   * fewer than 5844 whole days (sixteen years of 365.25 days) have passed.
   */
  lemma DobReported(data: Data, existing: seq<Row>, now: Instant, parseDate: string -> Option<int>)
    ensures var vs, dob := Violations(data, existing, now, parseDate), Get(data, "dob");
      && (InvalidDate in vs <==> Present(dob) && parseDate(dob.value).None?)
      && (InvalidDate in vs ==> DobInFuture !in vs && StudentUnderSixteen !in vs)
      && (DobInFuture in vs <==> Present(dob) && parseDate(dob.value).Some? && parseDate(dob.value).value * MicrosPerDay > now)
      && (StudentUnderSixteen in vs <==>
            && Present(dob) && parseDate(dob.value).Some? && Get(data, "type") == Some("Student")
            && ElapsedDays(parseDate(dob.value).value * MicrosPerDay, now) < 5844)
  {
    OnlyDobRule(data, existing, now, parseDate, InvalidDate);
    OnlyDobRule(data, existing, now, parseDate, DobInFuture);
    OnlyDobRule(data, existing, now, parseDate, StudentUnderSixteen);
    DobContents(data, now, parseDate);
    var dob := Get(data, "dob");
    if Present(dob) && parseDate(dob.value).Some? {
      UnderSixteenInDays(ElapsedDays(parseDate(dob.value).value * MicrosPerDay, now));
    }
  }

  lemma DobContents(data: Data, now: Instant, parseDate: string -> Option<int>)
    ensures var dob, checks := Get(data, "dob"), DobChecks(data, now, parseDate);
      && (InvalidDate in checks <==> Present(dob) && parseDate(dob.value).None?)
      && (DobInFuture in checks <==> Present(dob) && parseDate(dob.value).Some? && parseDate(dob.value).value * MicrosPerDay > now)
      && (StudentUnderSixteen in checks <==>
            && Present(dob) && parseDate(dob.value).Some? && Get(data, "type") == Some("Student")
            && UnderSixteen(ElapsedDays(parseDate(dob.value).value * MicrosPerDay, now)))
  {
    var dob := Get(data, "dob");
    if !Present(dob) {
      assert DobChecks(data, now, parseDate) == [];
    } else if parseDate(dob.value).None? {
      assert DobChecks(data, now, parseDate) == [InvalidDate];
    } else {
      var born := parseDate(dob.value).value * MicrosPerDay;
      assert DobChecks(data, now, parseDate)
          == (if born > now then [DobInFuture] else [])
           + (if Get(data, "type") == Some("Student") && UnderSixteen(ElapsedDays(born, now)) then [StudentUnderSixteen] else []);
    }
  }

  lemma OnlyDobRule(data: Data, existing: seq<Row>, now: Instant, parseDate: string -> Option<int>, v: Violation)
    requires v.InvalidDate? || v.DobInFuture? || v.StudentUnderSixteen?
    ensures v in Violations(data, existing, now, parseDate) <==> v in DobChecks(data, now, parseDate)
  {
    ViolationsByRule(data, existing, now, parseDate, v);
    RuleKinds(data, existing, now, parseDate, v);
  }

  /** The direct statement of the email shape and the regular expression accept the same strings. */
  lemma EmailShapeIsPattern(s: string)
    ensures EmailShape(s) <==> MatchesEmailPattern(s)
  {
    if EmailShape(s) {
      ShapeSplits(s);
    }
    if MatchesEmailPattern(s) {
      var local, host, tld :| Atom(local) && Atom(host) && Atom(tld) && s == local + "@" + host + "." + tld;
      PatternHasShape(local, host, tld);
    }
  }

  /** A string of the stated shape splits into the three runs at its `@` and at a later `.`. */
  lemma ShapeSplits(s: string)
    requires EmailShape(s)
    ensures MatchesEmailPattern(s)
  {
    var k :| 0 < k < |s| && s[k] == '@' && (forall i | 0 <= i < |s| && i != k :: EmailChar(s[i]))
             && (exists j | k + 1 < j < |s| - 1 :: s[j] == '.');
    var j :| k + 1 < j < |s| - 1 && s[j] == '.';
    var local, host, tld := s[..k], s[k + 1..j], s[j + 1..];
    assert s == local + "@" + host + "." + tld;
    assert Atom(local) && Atom(host) && Atom(tld) by {
      forall i | 0 <= i < |host| ensures EmailChar(host[i]) { assert host[i] == s[k + 1 + i]; }
      forall i | 0 <= i < |tld| ensures EmailChar(tld[i]) { assert tld[i] == s[j + 1 + i]; }
    }
  }

  /** Three runs joined by `@` and `.` have the stated shape, with the `@` after the first run. */
  lemma PatternHasShape(local: string, host: string, tld: string)
    requires Atom(local) && Atom(host) && Atom(tld)
    ensures EmailShape(local + "@" + host + "." + tld)
  {
    var s := local + "@" + host + "." + tld;
    var k, j := |local|, |local| + 1 + |host|;
    assert s[k] == '@' && s[j] == '.';
    forall i | 0 <= i < |s| && i != k ensures EmailChar(s[i]) {
      if i < k { assert s[i] == local[i]; }
      else if i < j { assert s[i] == host[i - k - 1]; }
      else if i > j { assert s[i] == tld[i - j - 1]; }
    }
  }

  // ---------------------------------------------------------------------
  // The validator, rule by rule, appending one message per violation.

  /** Rule 1 as a loop over the required fields (`RequiredFields` when validating): one message per blank field, in order. */
  method CheckRequired(data: Data, fields: seq<Field>) returns (errors: seq<string>)
    ensures errors == Messages(MissingRequired(data, fields))
  {
    errors := [];
    ghost var found: seq<Violation> := [];
    for n := 0 to |fields|
      invariant found == MissingRequired(data, fields[..n])
      invariant errors == Messages(found)
    {
      var f := fields[n];
      MissingRequiredStep(data, fields, n);
      if Blank(Get(data, Key(f))) {
        MessagesSnoc(found, Empty(f));
        errors, found := errors + [Message(Empty(f))], found + [Empty(f)];
      }
    }
    assert fields[..|fields|] == fields;
  }

  method CheckDuplicate(data: Data, existing: seq<Row>) returns (errors: seq<string>)
    ensures errors == Messages(DuplicateCheck(data, existing))
  {
    errors := [];
    if DuplicateFound(data, existing) {
      errors := errors + [Message(DuplicateIdentity)];
    }
  }

  method CheckNameLength(data: Data) returns (errors: seq<string>)
    ensures errors == Messages(NameLengthCheck(data))
  {
    errors := [];
    var firstName := Strip(TextOf(data, "first_name"));
    if firstName != "" && |firstName| < 2 {
      errors := errors + [Message(FirstNameTooShort)];
    }
    var lastName := Strip(TextOf(data, "last_name"));
    if lastName != "" && |lastName| < 2 {
      errors := errors + [Message(LastNameTooShort)];
    }
  }

  method CheckTypeFields(data: Data) returns (errors: seq<string>)
    ensures errors == Messages(TypeFieldCheck(data))
  {
    errors := [];
    var ty := Get(data, "type");
    if ty == Some("Student") {
      if Blank(Get(data, "national_id")) { errors := errors + [Message(NationalIdRequired)]; }
    }
    if ty == Some("Faculty") {
      if Blank(Get(data, "faculty_rank")) { errors := errors + [Message(FacultyRankRequired)]; }
      if Blank(Get(data, "primary_department")) { errors := errors + [Message(PrimaryDepartmentRequired)]; }
    }
    if ty == Some("Staff") {
      if Blank(Get(data, "staff_department")) { errors := errors + [Message(StaffDepartmentRequired)]; }
      if Blank(Get(data, "job_title")) { errors := errors + [Message(JobTitleRequired)]; }
    }
  }

  method CheckEmail(data: Data, existing: seq<Row>) returns (errors: seq<string>)
    ensures errors == Messages(EmailChecks(data, existing))
  {
    errors := [];
    var email := Strip(TextOf(data, "email"));
    if email != "" && !EmailShape(email) {
      errors := errors + [Message(InvalidEmail)];
    }
    if email != "" {
      if EmailTaken(email, existing) {
        errors := errors + [Message(EmailExists)];
      }
    }
  }

  method CheckPhone(data: Data) returns (errors: seq<string>)
    ensures errors == Messages(PhoneCheck(data))
  {
    errors := [];
    var phone := Strip(TextOf(data, "phone"));
    if phone != "" && !AllDigits(phone) {
      errors := errors + [Message(PhoneNotNumeric)];
    }
  }

  method CheckDob(data: Data, now: Instant, parseDate: string -> Option<int>) returns (errors: seq<string>)
    ensures errors == Messages(DobChecks(data, now, parseDate))
  {
    errors := [];
    var dob := Get(data, "dob");
    if Present(dob) {
      match parseDate(dob.value)
      case None =>
        errors := errors + [Message(InvalidDate)];
      case Some(day) =>
        var born := day * MicrosPerDay;
        if born > now {
          errors := errors + [Message(DobInFuture)];
        }
        var days := ElapsedDays(born, now);
        if Get(data, "type") == Some("Student") && UnderSixteen(days) {
          errors := errors + [Message(StudentUnderSixteen)];
        }
    }
  }

  /**
   * Validates a proposed identity against the identities already stored:
   * every rule is applied, in order, and each violation adds its message.
   */
  method ValidateUserData(data: Data, existing: seq<Row>, now: Instant, parseDate: string -> Option<int>)
    returns (errors: seq<string>)
    ensures errors == Messages(Violations(data, existing, now, parseDate))
  {
    var required := CheckRequired(data, RequiredFields);
    var duplicate := CheckDuplicate(data, existing);
    var names := CheckNameLength(data);
    var typeFields := CheckTypeFields(data);
    var email := CheckEmail(data, existing);
    var phone := CheckPhone(data);
    var dob := CheckDob(data, now, parseDate);
    errors := required + duplicate + names + typeFields + email + phone + dob;
    MessagesConcat7(MissingRequired(data, RequiredFields), DuplicateCheck(data, existing), NameLengthCheck(data),
                    TypeFieldCheck(data), EmailChecks(data, existing), PhoneCheck(data), DobChecks(data, now, parseDate));
  }
}
