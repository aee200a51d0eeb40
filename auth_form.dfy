/** The login and registration screen: the per-field rules, the e-mail and
    password-strength tests, the form-level rule, and the two pieces of
    screen state (`currentForm`, `isLoading`) that guard a submission. */
module AuthForm {
  import opened Text

  datatype FormKind = Login | Register

  /** An input of a form: its `name` attribute and its raw `value`. */
  datatype Field = Field(name: string, value: string)

  const MinNameLength := 2
  const MinPasswordLength := 6

  // ------------------------------------------------------------- e-mail

  /** A character of the class `[^\s@]`. */
  predicate EmailChar(c: char) {
    !IsSpace(c) && c != '@'
  }

  predicate EmailChars(s: string) {
    forall i :: 0 <= i < |s| ==> EmailChar(s[i])
  }

  /** `/^[^\s@]+@[^\s@]+\.[^\s@]+$/.test(email)`: the string splits, at an
      `@` and at a later `.`, into three non-empty runs of `[^\s@]`. */
  predicate IsValidEmail(email: string) {
    exists at, dot :: 0 < at < dot < |email| - 1 && Splits(email, at, dot)
  }

  predicate Splits(email: string, at: int, dot: int)
    requires 0 < at < dot < |email| - 1
  {
    && email[at] == '@' && email[dot] == '.' && at + 1 < dot
    && EmailChars(email[..at]) && EmailChars(email[at + 1..dot]) && EmailChars(email[dot + 1..])
  }

  /** The number of occurrences of `c` in `s`. */
  function Count(s: string, c: char): nat {
    if s == [] then 0 else (if s[0] == c then 1 else 0) + Count(s[1..], c)
  }

  lemma {:induction false} CountSplit(s: string, i: nat, c: char)
    requires i <= |s|
    ensures Count(s, c) == Count(s[..i], c) + Count(s[i..], c)
  {
    if i > 0 {
      assert s[..i][1..] == s[1..][..i - 1];
      assert s[i..] == s[1..][i - 1..];
      CountSplit(s[1..], i - 1, c);
    } else {
      assert s[..i] == [];
      assert s[i..] == s;
    }
  }

  lemma {:induction false} CountAbsent(s: string, c: char)
    requires forall i :: 0 <= i < |s| ==> s[i] != c
    ensures Count(s, c) == 0
  {
    if s != [] {
      CountAbsent(s[1..], c);
    }
  }

  /** The domain part of the pattern: a run of `[^\s@]` with a `.` that is
      neither its first nor its last character. */
  predicate DottedDomain(d: string) {
    EmailChars(d) && exists k :: 0 < k < |d| - 1 && d[k] == '.'
  }

  /** `email[at]` is an `@` between a local part without white space or
      `@` and a dotted domain. */
  predicate LocalAndDomain(email: string, at: int)
    requires 0 < at < |email|
  {
    email[at] == '@' && EmailChars(email[..at]) && DottedDomain(email[at + 1..])
  }

  /** The e-mail pattern read as a shape: one `@`, a non-empty local part
      before it without white space, and after it a domain without white
      space that has a `.` inside it. */
  lemma EmailShape(email: string)
    ensures IsValidEmail(email) <==> exists at :: 0 < at < |email| && LocalAndDomain(email, at)
  {
    if IsValidEmail(email) {
      var at, dot :| 0 < at < dot < |email| - 1 && Splits(email, at, dot);
      var d := email[at + 1..];
      assert d == email[at + 1..dot] + [email[dot]] + email[dot + 1..];
      assert d[dot - at - 1] == '.';
      assert EmailChars(d) by {
        forall i | 0 <= i < |d| ensures EmailChar(d[i]) {
          if i < dot - at - 1 {
            assert d[i] == email[at + 1..dot][i];
          } else if i > dot - at - 1 {
            assert d[i] == email[dot + 1..][i - (dot - at)];
          }
        }
      }
      assert DottedDomain(d);
      assert LocalAndDomain(email, at);
    }
    if exists at :: 0 < at < |email| && LocalAndDomain(email, at) {
      var at :| 0 < at < |email| && LocalAndDomain(email, at);
      var d := email[at + 1..];
      var k :| 0 < k < |d| - 1 && d[k] == '.';
      var dot := at + 1 + k;
      assert email[dot] == '.';
      assert email[at + 1..dot] == d[..k];
      assert email[dot + 1..] == d[k + 1..];
      assert Splits(email, at, dot);
    }
  }

  /** Hence a valid address has exactly one `@`: no `@` at all, or two or
      more, make it invalid. */
  lemma EmailHasOneAt(email: string)
    ensures IsValidEmail(email) ==> Count(email, '@') == 1
    ensures Count(email, '@') != 1 ==> !IsValidEmail(email)
  {
    if IsValidEmail(email) {
      EmailShape(email);
      var at :| 0 < at < |email| && LocalAndDomain(email, at);
      CountSplit(email, at, '@');
      CountAbsent(email[..at], '@');
      var rest := email[at..];
      assert rest[1..] == email[at + 1..];
      CountAbsent(rest[1..], '@');
    }
  }

  // ----------------------------------------------------------- password

  function HasLetter(s: string): (r: bool)
    ensures r <==> exists i :: 0 <= i < |s| && IsAsciiLetter(s[i])
  {
    if s == [] then false
    else if IsAsciiLetter(s[0]) then (assert IsAsciiLetter(s[0]); true)
    else (assert forall i :: 1 <= i < |s| ==> s[i] == s[1..][i - 1]; HasLetter(s[1..]))
  }

  function HasDigit(s: string): (r: bool)
    ensures r <==> exists i :: 0 <= i < |s| && IsAsciiDigit(s[i])
  {
    if s == [] then false
    else if IsAsciiDigit(s[0]) then (assert IsAsciiDigit(s[0]); true)
    else (assert forall i :: 1 <= i < |s| ==> s[i] == s[1..][i - 1]; HasDigit(s[1..]))
  }

  /** `/[a-zA-Z]/.test(p) && /\d/.test(p)`. */
  predicate IsStrongPassword(password: string) {
    HasLetter(password) && HasDigit(password)
  }

  /** Strength is about containing a letter and a digit, so adding
      characters on either side never makes a strong password weak. */
  lemma StrongPasswordExtends(password: string, before: string, after: string)
    requires IsStrongPassword(password)
    ensures IsStrongPassword(before + password + after)
  {
    var s := before + password + after;
    var i :| 0 <= i < |password| && IsAsciiLetter(password[i]);
    var j :| 0 <= j < |password| && IsAsciiDigit(password[j]);
    assert s[|before| + i] == password[i];
    assert s[|before| + j] == password[j];
  }

  // -------------------------------------------------------------- fields

  /** `validateField`: the rule selected by the field's name, on its
      trimmed value; a confirmation is compared with the raw value of the
      registration password; any other field is valid. */
  function ValidateField(field: Field, registerPassword: string): bool {
    var value := Trim(field.value);
    if field.name == "name" then |value| >= MinNameLength
    else if field.name == "email" then IsValidEmail(value)
    else if field.name == "password" then |value| >= MinPasswordLength
    else if field.name == "confirmPassword" then value == registerPassword
    else true
  }

  /** The rules field by field: the bounds on the trimmed name and password,
      the e-mail pattern on the trimmed address (so exactly one `@`), the
      confirmation against the raw password, and no rule for other inputs. */
  lemma FieldRules(field: Field, registerPassword: string)
    ensures var valid := ValidateField(field, registerPassword);
      && (field.name == "name" ==> (valid <==> |Trim(field.value)| >= MinNameLength))
      && (field.name == "email" ==> (valid <==> IsValidEmail(Trim(field.value))))
      && (field.name == "email" && valid ==> Count(Trim(field.value), '@') == 1)
      && (field.name == "password" ==> (valid <==> |Trim(field.value)| >= MinPasswordLength))
      && (field.name == "password" && valid ==> |field.value| >= MinPasswordLength)
      && (field.name == "confirmPassword" ==> (valid <==> Trim(field.value) == registerPassword))
      && (field.name !in ["name", "email", "password", "confirmPassword"] ==> valid)
  {
    EmailHasOneAt(Trim(field.value));
  }

  /** A name, e-mail or password keeps its verdict whatever white space
      surrounds it, because every rule but the confirmation's looks at the
      trimmed value only. */
  lemma ValidateFieldIgnoresPadding(name: string, value: string, pre: string, post: string, registerPassword: string)
    requires AllSpace(pre) && AllSpace(post)
    ensures ValidateField(Field(name, pre + value + post), registerPassword) == ValidateField(Field(name, value), registerPassword)
  {
    TrimIgnoresPadding(pre, value, post);
  }

  /** The confirmation compares a trimmed value with an untrimmed one: when
      the registration password begins or ends with white space, no
      confirmation value whatever, not even the password itself, passes. */
  lemma PaddedPasswordNeverConfirms(registerPassword: string, confirmation: string)
    requires |registerPassword| > 0
    requires IsSpace(registerPassword[0]) || IsSpace(registerPassword[|registerPassword| - 1])
    ensures !ValidateField(Field("confirmPassword", confirmation), registerPassword)
  {
    var t := TrimStart(confirmation);
    var r := TrimEnd(t);
    if r != [] {
      assert r[0] == t[0];
    }
  }

  /** The form-level condition `validateForm` computes: every input passes
      its rule and, on the registration form, the terms box is checked. */
  ghost predicate FormValid(form: FormKind, inputs: seq<Field>, registerPassword: string, termsChecked: bool) {
    && (forall i :: 0 <= i < |inputs| ==> ValidateField(inputs[i], registerPassword))
    && (form == Register ==> termsChecked)
  }

  /** `validateForm`: validates every input in turn, clearing the flag on
      the first failure and still validating the rest. */
  method ValidateForm(form: FormKind, inputs: seq<Field>, registerPassword: string, termsChecked: bool) returns (isValid: bool)
    ensures isValid <==> FormValid(form, inputs, registerPassword, termsChecked)
  {
    isValid := true;
    for i := 0 to |inputs|
      invariant isValid <==> forall j :: 0 <= j < i ==> ValidateField(inputs[j], registerPassword)
    {
      if !ValidateField(inputs[i], registerPassword) {
        isValid := false;
      }
    }
    if form == Register && !termsChecked {
      isValid := false;
    }
  }

  // -------------------------------------------------------------- screen

  /** What a submit handler did: returned at once because a request was in
      flight, stopped at validation, or sent the request. */
  datatype Submission = Ignored | Rejected | Sent

  /** The module-level state of the screen. */
  class AuthScreen {
    var currentForm: FormKind
    var isLoading: bool

    /** `init`: the login form is shown and nothing is loading. */
    constructor ()
      ensures currentForm == Login && !isLoading
    {
      currentForm := Login;
      isLoading := false;
    }

    /** `showForm`: records which form is shown. */
    method ShowForm(kind: FormKind)
      modifies this`currentForm
      ensures currentForm == kind
    {
      currentForm := kind;
    }

    method SetLoading(loading: bool)
      modifies this`isLoading
      ensures isLoading == loading
    {
      isLoading := loading;
    }

    /** `handleLogin` up to the request: ignored while loading; otherwise
      the login form is validated and, if valid, loading is set and the
      request goes out. */
    method HandleLogin(inputs: seq<Field>, registerPassword: string) returns (s: Submission)
      modifies this`isLoading
      ensures old(isLoading) ==> s == Ignored && isLoading
      ensures !old(isLoading) ==>
        if FormValid(Login, inputs, registerPassword, false) then s == Sent && isLoading
        else s == Rejected && !isLoading
    {
      s := Submit(Login, inputs, registerPassword, false);
    }

    /** `handleRegister` up to the request, with the terms box as input. */
    method HandleRegister(inputs: seq<Field>, registerPassword: string, termsChecked: bool) returns (s: Submission)
      modifies this`isLoading
      ensures old(isLoading) ==> s == Ignored && isLoading
      ensures !old(isLoading) ==>
        if FormValid(Register, inputs, registerPassword, termsChecked) then s == Sent && isLoading
        else s == Rejected && !isLoading
    {
      s := Submit(Register, inputs, registerPassword, termsChecked);
    }

    /** The guard and validation both handlers share. */
    method Submit(form: FormKind, inputs: seq<Field>, registerPassword: string, termsChecked: bool) returns (s: Submission)
      modifies this`isLoading
      ensures old(isLoading) ==> s == Ignored && isLoading
      ensures !old(isLoading) ==>
        if FormValid(form, inputs, registerPassword, termsChecked) then s == Sent && isLoading
        else s == Rejected && !isLoading
    {
      if isLoading {
        return Ignored;
      }
      var valid := ValidateForm(form, inputs, registerPassword, termsChecked);
      if !valid {
        return Rejected;
      }
      SetLoading(true);
      s := Sent;
    }

    /** The `finally` of both handlers, once the request has settled. */
    method FinishRequest()
      modifies this`isLoading
      ensures !isLoading
    {
      SetLoading(false);
    }
  }
}
