/**
 * The signup form (forms.py): the password rule and the validator list of
 * each field of `UserForm`, run the way WTForms runs a field's validators.
 * Character classes are ASCII.
 */
module Forms {

  predicate IsDigit(c: char) { '0' <= c <= '9' }
  predicate IsUpper(c: char) { 'A' <= c <= 'Z' }
  predicate IsLower(c: char) { 'a' <= c <= 'z' }

  /** The characters `str.strip()` removes: space, tab to carriage return, and 0x1C to 0x1F. */
  predicate IsSpace(c: char) { c == ' ' || '\t' <= c <= '\r' || '\U{1C}' <= c <= '\U{1F}' }

  /** Nothing is left once surrounding whitespace is stripped (the empty string included). */
  predicate Blank(s: string)
  {
    forall i :: 0 <= i < |s| ==> IsSpace(s[i])
  }

  /** `any(p(char) for char in s)`. */
  function Any(s: string, p: char -> bool): (r: bool)
    ensures r <==> exists i :: 0 <= i < |s| && p(s[i])
  {
    if s == [] then false
    else if p(s[0]) then true
    else
      var r := Any(s[1..], p);
      assert forall i :: 1 <= i < |s| ==> s[i] == s[1..][i - 1];
      r
  }

  const NoNumber := "Password must contain at least one number"
  const NoUpper := "Password must contain at least one uppercase letter"
  const NoLower := "Password must contain at least one lowercase letter"

  /** The outcome of a check that passes or raises `ValidationError(message)`. */
  datatype Check = Pass | Fail(message: string)

  /** A password that passes `password_validator`. */
  ghost predicate StrongPassword(s: string)
  {
    (exists i :: 0 <= i < |s| && IsDigit(s[i])) &&
    (exists i :: 0 <= i < |s| && IsUpper(s[i])) &&
    (exists i :: 0 <= i < |s| && IsLower(s[i]))
  }

  /**
   * `password_validator`: a digit, an uppercase letter and a lowercase
   * letter are required, checked in that order; the first one missing
   * decides the message.
   */
  function PasswordValidator(data: string): (r: Check)
    ensures r == Pass <==> StrongPassword(data)
    ensures r == Fail(NoNumber) <==> forall i :: 0 <= i < |data| ==> !IsDigit(data[i])
    ensures r == Fail(NoUpper) <==>
      (exists i :: 0 <= i < |data| && IsDigit(data[i])) &&
      (forall i :: 0 <= i < |data| ==> !IsUpper(data[i]))
    ensures r == Fail(NoLower) <==>
      (exists i :: 0 <= i < |data| && IsDigit(data[i])) &&
      (exists i :: 0 <= i < |data| && IsUpper(data[i])) &&
      (forall i :: 0 <= i < |data| ==> !IsLower(data[i]))
  {
    if !Any(data, IsDigit) then Fail(NoNumber)
    else if !Any(data, IsUpper) then Fail(NoUpper)
    else if !Any(data, IsLower) then Fail(NoLower)
    else Pass
  }

  /** The fields of `UserForm`. */
  datatype FieldName = Username | Email | Password | Confirm | PhoneNumber | Connection

  /** The submitted form; a field that was not submitted holds "". */
  datatype Submission = Submission(
    username: string, email: string, password: string,
    confirm: string, phoneNumber: string, connection: string)
  {
    function Data(f: FieldName): string
    {
      match f
      case Username => username
      case Email => email
      case Password => password
      case Confirm => confirm
      case PhoneNumber => phoneNumber
      case Connection => connection
    }
  }

  /** The validators used by `UserForm`. */
  datatype Validator =
    | DataRequired
    | InputRequired
    | MinLength(min: nat, message: string)
    | EqualTo(other: FieldName, message: string)
    | PasswordRule

  const Required := "This field is required."

  /** The validator list of each field, in declaration order. */
  function FieldValidators(f: FieldName): seq<Validator>
  {
    match f
    case Username => [DataRequired]
    case Email => [DataRequired]
    case Password => [InputRequired, MinLength(8, "Too short"), PasswordRule]
    case Confirm => [InputRequired, EqualTo(Password, "Password mismatch"), PasswordRule]
    case PhoneNumber => []
    case Connection => [DataRequired]
  }

  /**
   * What one validator does to a field: nothing, stop the chain with a
   * message (`StopValidation`), or add a message and go on
   * (`ValidationError`).
   */
  datatype Outcome = Continue | Stop(message: string) | Error(message: string)

  function Apply(v: Validator, form: Submission, f: FieldName): Outcome
  {
    var data := form.Data(f);
    match v
    case DataRequired => if Blank(data) then Stop(Required) else Continue
    case InputRequired => if data == "" then Stop(Required) else Continue
    case MinLength(min, message) => if |data| >= min then Continue else Error(message)
    case EqualTo(other, message) => if data == form.Data(other) then Continue else Error(message)
    case PasswordRule =>
      match PasswordValidator(data)
      case Pass => Continue
      case Fail(m) => Error(m)
  }

  /**
   * The validation chain: each validator in turn; a stop replaces the
   * field's errors by its message and ends the chain, an error is appended.
   */
  function RunChain(vs: seq<Validator>, form: Submission, f: FieldName, errors: seq<string>): seq<string>
    decreases |vs|
  {
    if vs == [] then errors
    else
      match Apply(vs[0], form, f)
      case Continue => RunChain(vs[1..], form, f, errors)
      case Stop(m) => [m]
      case Error(m) => RunChain(vs[1..], form, f, errors + [m])
  }

  /** The messages of one field after validation. */
  function FieldErrors(form: Submission, f: FieldName): seq<string>
  {
    RunChain(FieldValidators(f), form, f, [])
  }

  /** `form.validate()`: true when no field has an error. */
  function Validate(form: Submission): (ok: bool)
    ensures ok <==> forall f :: FieldErrors(form, f) == []
  {
    EveryField(form);
    FieldErrors(form, Username) == [] && FieldErrors(form, Email) == [] &&
    FieldErrors(form, Password) == [] && FieldErrors(form, Confirm) == [] &&
    FieldErrors(form, PhoneNumber) == [] && FieldErrors(form, Connection) == []
  }

  lemma EveryField(form: Submission)
    ensures (forall f :: FieldErrors(form, f) == []) <==>
      FieldErrors(form, Username) == [] && FieldErrors(form, Email) == [] &&
      FieldErrors(form, Password) == [] && FieldErrors(form, Confirm) == [] &&
      FieldErrors(form, PhoneNumber) == [] && FieldErrors(form, Connection) == []
  {
    if FieldErrors(form, Username) == [] && FieldErrors(form, Email) == [] &&
      FieldErrors(form, Password) == [] && FieldErrors(form, Confirm) == [] &&
      FieldErrors(form, PhoneNumber) == [] && FieldErrors(form, Connection) == []
    {
      forall f ensures FieldErrors(form, f) == [] {
        match f
        case Username =>
        case Email =>
        case Password =>
        case Confirm =>
        case PhoneNumber =>
        case Connection =>
      }
    }
  }

  /** The message `password_validator` adds, if any. */
  function RuleMessages(data: string): seq<string>
  {
    match PasswordValidator(data)
    case Pass => []
    case Fail(m) => [m]
  }

  /** username, email and connection only need something besides whitespace. */
  lemma RequiredFieldErrors(form: Submission, f: FieldName)
    requires f == Username || f == Email || f == Connection
    ensures FieldErrors(form, f) == (if Blank(form.Data(f)) then [Required] else [])
  {
    var vs := FieldValidators(f);
    assert vs == [DataRequired] && vs[1..] == [];
    assert RunChain(vs[1..], form, f, []) == [];
  }

  /** phone_number has no validators. */
  lemma PhoneNumberErrors(form: Submission)
    ensures FieldErrors(form, PhoneNumber) == []
  {
  }

  /**
   * An empty password gets only the required message; otherwise "Too short"
   * when it is shorter than 8, followed by the password rule's message.
   */
  lemma PasswordErrors(form: Submission)
    ensures form.password == "" ==> FieldErrors(form, Password) == [Required]
    ensures form.password != "" ==>
      FieldErrors(form, Password) ==
        (if |form.password| < 8 then ["Too short"] else []) + RuleMessages(form.password)
  {
    var vs := FieldValidators(Password);
    if form.password != "" {
      assert vs[1..][1..] == [PasswordRule];
      assert vs[1..][1..][1..] == [];
    }
  }

  /**
   * An empty confirmation gets only the required message; otherwise
   * "Password mismatch" when it differs from the password, followed by the
   * password rule's message.
   */
  lemma ConfirmErrors(form: Submission)
    ensures form.confirm == "" ==> FieldErrors(form, Confirm) == [Required]
    ensures form.confirm != "" ==>
      FieldErrors(form, Confirm) ==
        (if form.confirm != form.password then ["Password mismatch"] else []) + RuleMessages(form.confirm)
  {
    var vs := FieldValidators(Confirm);
    if form.confirm != "" {
      assert vs[1..][1..] == [PasswordRule];
      assert vs[1..][1..][1..] == [];
    }
  }

  lemma PasswordAccepted(form: Submission)
    ensures FieldErrors(form, Password) == [] <==> |form.password| >= 8 && StrongPassword(form.password)
  {
    PasswordErrors(form);
  }

  lemma ConfirmAccepted(form: Submission)
    ensures FieldErrors(form, Confirm) == [] <==>
      form.confirm != "" && form.confirm == form.password && StrongPassword(form.confirm)
  {
    ConfirmErrors(form);
  }

  /**
   * The form validates exactly when username, email and connection hold
   * more than whitespace, the password has at least 8 characters, a digit, an
   * uppercase and a lowercase letter, and the confirmation equals it.
   */
  lemma ValidateIff(form: Submission)
    ensures Validate(form) <==>
      !Blank(form.username) && !Blank(form.email) && !Blank(form.connection) &&
      |form.password| >= 8 && StrongPassword(form.password) &&
      form.confirm == form.password
  {
    RequiredFieldErrors(form, Username);
    RequiredFieldErrors(form, Email);
    RequiredFieldErrors(form, Connection);
    PhoneNumberErrors(form);
    PasswordAccepted(form);
    ConfirmAccepted(form);
  }

  /** Whatever is submitted as phone_number, the verdict is the same. */
  lemma PhoneNumberIrrelevant(form: Submission, phone: string)
    ensures Validate(form.(phoneNumber := phone)) == Validate(form)
  {
    ValidateIff(form);
    ValidateIff(form.(phoneNumber := phone));
  }

  /**
   * A password without a digit is reported as lacking a number, and the
   * uppercase and lowercase checks are never reached.
   */
  lemma NumberReportedFirst(form: Submission)
    requires form.password != ""
    requires forall i :: 0 <= i < |form.password| ==> !IsDigit(form.password[i])
    ensures FieldErrors(form, Password) == (if |form.password| < 8 then ["Too short"] else []) + [NoNumber]
  {
    PasswordErrors(form);
  }
}
