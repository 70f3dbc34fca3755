/** The contact form of `src/app/contact/page.tsx`: the three fields, the
    per-field error messages, the email pattern
    `/^[^\s@]+@[^\s@]+\.[^\s@]+$/`, and the submission status. Sending the
    message is left to the caller, which reports whether it succeeded. */
module Contact {
  import opened Types
  import opened JsStrings
  import opened Sequences

  datatype Field = Name | Email | Message

  datatype FormData = FormData(name: string, email: string, message: string)
  {
    function Get(f: Field): string {
      match f
      case Name => name
      case Email => email
      case Message => message
    }

    function Set(f: Field, value: string): (r: FormData)
      ensures r.Get(f) == value
      ensures forall g :: g != f ==> r.Get(g) == Get(g)
    {
      match f
      case Name => this.(name := value)
      case Email => this.(email := value)
      case Message => this.(message := value)
    }
  }

  const EmptyForm: FormData := FormData("", "", "")

  /** The error object: a key that is present carries its message; the
      message is shown only when it is not empty. */
  datatype FormErrors = FormErrors(name: Option<string>, email: Option<string>, message: Option<string>)
  {
    function Get(f: Field): Option<string> {
      match f
      case Name => name
      case Email => email
      case Message => message
    }

    function Set(f: Field, value: Option<string>): (r: FormErrors)
      ensures r.Get(f) == value
      ensures forall g :: g != f ==> r.Get(g) == Get(g)
    {
      match f
      case Name => this.(name := value)
      case Email => this.(email := value)
      case Message => this.(message := value)
    }

    /** `formErrors[f] && <p>...</p>`: shown when present and not empty. */
    predicate Shown(f: Field) {
      Get(f).Some? && Get(f).value != ""
    }

    /** `Object.keys(errors).length > 0` */
    predicate HasKeys() {
      name.Some? || email.Some? || message.Some?
    }
  }

  const NoErrors: FormErrors := FormErrors(None, None, None)

  datatype FormStatus = Idle | Submitting | Success | Failed

  /** A character `[^\s@]` accepts. */
  predicate Plain(c: char) {
    !IsWhitespace(c) && c != '@'
  }

  predicate AllPlain(p: string) {
    forall k :: 0 <= k < |p| ==> Plain(p[k])
  }

  /** What the regular expression accepts, read off its structure: the whole
      string is one or more plain characters, `@`, one or more plain
      characters, `.`, one or more plain characters. Only the `.` that the
      backtracking matcher settles on is named; the pieces may hold more. */
  ghost predicate MatchesEmailPattern(s: string) {
    exists i, j :: 0 < i && i + 1 < j < |s| - 1 && s[i] == '@' && s[j] == '.'
      && AllPlain(s[..i]) && AllPlain(s[i + 1..j]) && AllPlain(s[j + 1..])
  }

  /** The check the form performs, by a single scan: find the first `@`,
      then demand a plain local part, a plain domain, and a `.` in the
      domain with a character on each side. */
  function EmailFormatOk(s: string): (r: bool)
    ensures r ==> NoWhitespace(s) && |s| >= 5
  {
    if '@' !in s then false
    else
      var i := IndexOf(s, '@');
      var d := s[i + 1..];
      if i > 0 && AllPlain(s[..i]) && AllPlain(d) && |d| >= 3 && '.' in d[1..|d| - 1] then
        assert forall k :: 0 <= k < |s| && k != i ==> Plain(s[k]) by {
          forall k | 0 <= k < |s| && k != i ensures Plain(s[k]) {
            if k < i { assert s[k] == s[..i][k]; } else { assert s[k] == d[k - i - 1]; }
          }
        }
        true
      else false
  }

  /** The scan accepts exactly the strings the regular expression accepts. */
  lemma EmailFormatMatchesPattern(s: string)
    ensures EmailFormatOk(s) <==> MatchesEmailPattern(s)
  {
    if EmailFormatOk(s) {
      var i := IndexOf(s, '@');
      var d := s[i + 1..];
      var m := IndexOf(d[1..|d| - 1], '.');
      var j := i + 2 + m;
      assert s[j] == '.';
      assert s[i + 1..j] == d[..m + 1];
      assert s[j + 1..] == d[m + 2..];
      assert AllPlain(s[i + 1..j]) && AllPlain(s[j + 1..]);
    }
    if MatchesEmailPattern(s) {
      var i, j :| 0 < i && i + 1 < j < |s| - 1 && s[i] == '@' && s[j] == '.'
        && AllPlain(s[..i]) && AllPlain(s[i + 1..j]) && AllPlain(s[j + 1..]);
      PatternPieces(s, i, j);
    }
  }

  /** `s[i]` is the only `@` of `s`, and something precedes it. */
  predicate OnlyAtSignAt(s: string, i: int) {
    0 < i < |s| && s[i] == '@' && forall k :: 0 <= k < |s| && k != i ==> s[k] != '@'
  }

  /** A `.` follows position `i + 1` and is not the last character. */
  predicate InnerDotAfter(s: string, i: int) {
    exists j :: 0 <= i && i + 1 < j < |s| - 1 && s[j] == '.'
  }

  /** What the pattern demands, in plain terms: no white space, exactly one
      `@` with something before it, and a `.` after the `@` that is neither
      the first nor the last character of the domain. */
  lemma EmailPatternMeans(s: string)
    ensures MatchesEmailPattern(s) <==>
      NoWhitespace(s) && exists i :: OnlyAtSignAt(s, i) && InnerDotAfter(s, i)
  {
    EmailFormatMatchesPattern(s);
    if EmailFormatOk(s) {
      FormatOkShape(s);
    }
    if NoWhitespace(s) && exists i :: OnlyAtSignAt(s, i) && InnerDotAfter(s, i) {
      var i :| OnlyAtSignAt(s, i) && InnerDotAfter(s, i);
      ShapeMatches(s, i);
    }
  }

  lemma FormatOkShape(s: string)
    requires EmailFormatOk(s)
    ensures OnlyAtSignAt(s, IndexOf(s, '@')) && InnerDotAfter(s, IndexOf(s, '@'))
  {
    var i := IndexOf(s, '@');
    var d := s[i + 1..];
    var m := IndexOf(d[1..|d| - 1], '.');
    assert s[i + 2 + m] == '.';
    forall k | 0 <= k < |s| && k != i ensures s[k] != '@' {
      if k < i { assert s[k] == s[..i][k]; } else { assert s[k] == d[k - i - 1]; }
    }
  }

  lemma ShapeMatches(s: string, i: int)
    requires NoWhitespace(s) && OnlyAtSignAt(s, i) && InnerDotAfter(s, i)
    ensures MatchesEmailPattern(s)
  {
    var j :| 0 <= i && i + 1 < j < |s| - 1 && s[j] == '.';
    assert AllPlain(s[..i]) && AllPlain(s[i + 1..j]) && AllPlain(s[j + 1..]);
  }

  lemma PatternPieces(s: string, i: int, j: int)
    requires 0 < i && i + 1 < j < |s| - 1 && s[i] == '@' && s[j] == '.'
    requires AllPlain(s[..i]) && AllPlain(s[i + 1..j]) && AllPlain(s[j + 1..])
    ensures EmailFormatOk(s)
  {
    assert '@' !in s[..i] by {
      forall k | 0 <= k < i ensures s[..i][k] != '@' {
        assert Plain(s[..i][k]);
      }
    }
    assert s == s[..i] + s[i..];
    IndexOfAfterAbsent(s[..i], s[i..], '@');
    var d := s[i + 1..];
    forall k | 0 <= k < |d| ensures Plain(d[k]) {
      if k < j - i - 1 {
        assert d[k] == s[i + 1..j][k];
      } else if k > j - i - 1 {
        assert d[k] == s[j + 1..][k - (j - i)];
      }
    }
    assert d[1..|d| - 1][j - i - 2] == '.';
  }

  /** `validateForm`: one message per failing field. Name and message only
      need something other than white space; the email is checked for
      emptiness after trimming and against the pattern as typed. */
  function ValidateForm(data: FormData): (r: FormErrors)
    ensures forall f :: r.Get(f) == FieldError(f, data.Get(f))
  {
    FormErrors(FieldError(Name, data.name), FieldError(Email, data.email), FieldError(Message, data.message))
  }

  /** `!value.trim()`. The trim is empty exactly when the value is white
      space only (`TrimEmptyIff`), and the test is written that way here. */
  predicate Blank(value: string) {
    forall i :: 0 <= i < |value| ==> IsWhitespace(value[i])
  }

  /** The message for one field, which depends on that field's value only. */
  function FieldError(f: Field, value: string): Option<string> {
    match f
    case Name => if Blank(value) then Some("Name is required") else None
    case Email =>
      if Blank(value) then Some("Email is required")
      else if !EmailFormatOk(value) then Some("Invalid email format")
      else None
    case Message => if Blank(value) then Some("Message is required") else None
  }

  /** What each message means: "required" when the field holds only white
      space, "Invalid email format" for a non-blank email the pattern
      rejects, and no key at all otherwise. */
  lemma ValidateFormMeaning(data: FormData)
    ensures var r := ValidateForm(data);
      && (r.name.Some? <==> Trim(data.name) == "")
      && (r.message.Some? <==> Trim(data.message) == "")
      && (r.email == Some("Email is required") <==> Trim(data.email) == "")
      && (r.email == Some("Invalid email format") <==> Trim(data.email) != "" && !MatchesEmailPattern(data.email))
      && (r.email.None? <==> Trim(data.email) != "" && MatchesEmailPattern(data.email))
  {
    BlankIff(data.name);
    BlankIff(data.email);
    BlankIff(data.message);
    EmailFormatMatchesPattern(data.email);
    FieldMeaning(data);
  }

  /** The same, with "white space only" as the blank test. */
  lemma FieldMeaning(data: FormData)
    ensures var r := ValidateForm(data);
      && (r.name.Some? <==> Blank(data.name))
      && (r.message.Some? <==> Blank(data.message))
      && (r.email == Some("Email is required") <==> Blank(data.email))
      && (r.email == Some("Invalid email format") <==> !Blank(data.email) && !EmailFormatOk(data.email))
      && (r.email.None? <==> !Blank(data.email) && EmailFormatOk(data.email))
  {
  }

  lemma BlankIff(value: string)
    ensures Blank(value) <==> Trim(value) == ""
  {
    TrimEmptyIff(value);
  }

  /** Every key validation sets carries a message that is shown. */
  lemma ValidateFormMessagesShown(data: FormData, f: Field)
    ensures ValidateForm(data).Get(f).Some? ==> ValidateForm(data).Shown(f)
  {
  }

  /** A form passes validation exactly when every field has text and the
      email matches the pattern. */
  lemma ValidIff(data: FormData)
    ensures !ValidateForm(data).HasKeys()
        <==> Trim(data.name) != "" && Trim(data.message) != "" && MatchesEmailPattern(data.email)
  {
    BlankIff(data.name);
    BlankIff(data.message);
    EmailFormatMatchesPattern(data.email);
    ValidWhenFilled(data);
  }

  lemma ValidWhenFilled(data: FormData)
    ensures !ValidateForm(data).HasKeys()
        <==> !Blank(data.name) && !Blank(data.message) && EmailFormatOk(data.email)
  {
    if EmailFormatOk(data.email) {
      assert !IsWhitespace(data.email[0]);
    }
  }

  /** The emptied form never passes: all three fields report "required". */
  lemma EmptyFormFails()
    ensures ValidateForm(EmptyForm) == FormErrors(Some("Name is required"), Some("Email is required"), Some("Message is required"))
  {
  }

  /** The messages validation puts on screen are those of the fields'
      current values. */
  lemma ValidationMatchesFields(data: FormData)
    ensures forall f :: ValidateForm(data).Shown(f) ==> ValidateForm(data).Get(f) == FieldError(f, data.Get(f))
  {
  }

  /** When the current values pass validation, no message that matches its
      field's current value can be on screen. */
  lemma NoKeysNothingShown(data: FormData, errors: FormErrors)
    requires !ValidateForm(data).HasKeys()
    requires forall f :: errors.Shown(f) ==> errors.Get(f) == FieldError(f, data.Get(f))
    ensures forall f :: !errors.Shown(f)
  {
    forall f ensures !errors.Shown(f) {
      assert FieldError(f, data.Get(f)) == ValidateForm(data).Get(f);
    }
  }

  class ContactForm {
    var data: FormData
    var status: FormStatus
    var errors: FormErrors
    /** Sends started and not yet finished. The page keeps no such count, and
        a send finishes whatever the status has become in the meantime. */
    ghost var inFlight: nat

    /** Every message on screen is the one validation gives the current value
        of its field. */
    ghost predicate Consistent()
      reads this
    {
      forall f :: errors.Shown(f) ==> errors.Get(f) == FieldError(f, data.Get(f))
    }

    /** What the page keeps at every step. A message on screen matches its
        field's current value, unless a late successful send has emptied the
        field under it. While the status is `Submitting`, a send is in flight
        and no message is on screen. */
    ghost predicate Valid()
      reads this
    {
      && (forall f :: errors.Shown(f) ==> errors.Get(f) == FieldError(f, data.Get(f)) || data.Get(f) == "")
      && (status == Submitting ==> inFlight > 0 && forall f :: !errors.Shown(f))
    }

    constructor ()
      ensures data == EmptyForm && status == Idle && errors == NoErrors && inFlight == 0
      ensures Valid() && Consistent()
    {
      data := EmptyForm;
      status := Idle;
      errors := NoErrors;
      inFlight := 0;
    }

    /** `handleInputChange`: the edited field takes the new value and its
        message becomes the empty string; nothing else changes. */
    method HandleInputChange(f: Field, value: string)
      requires Valid()
      modifies this
      ensures data == old(data).Set(f, value)
      ensures errors == old(errors).Set(f, Some(""))
      ensures status == old(status) && inFlight == old(inFlight)
      ensures !errors.Shown(f)
      ensures Valid()
      ensures old(Consistent()) ==> Consistent()
    {
      var e := errors.Set(f, Some(""));
      assert forall g :: e.Shown(g) ==> g != f && errors.Shown(g) && e.Get(g) == errors.Get(g);
      data := data.Set(f, value);
      errors := e;
    }

    /** The synchronous part of `handleSubmit`. A form with errors gets the
        new error object and is not sent; a valid one moves to `Submitting`,
        starts a send and keeps its old error object. The submit button is
        disabled while submitting. Either way every message on screen then
        matches its field. */
    method BeginSubmit() returns (sent: bool)
      requires Valid() && status != Submitting
      modifies this
      ensures sent <==> !ValidateForm(data).HasKeys()
      ensures data == old(data)
      ensures !sent ==> errors == ValidateForm(data) && status == old(status) && inFlight == old(inFlight)
      ensures sent ==> errors == old(errors) && status == Submitting && inFlight == old(inFlight) + 1
      ensures Valid() && Consistent()
    {
      var v := ValidateForm(data);
      sent := !v.HasKeys();
      if !sent {
        ValidationMatchesFields(data);
        errors := v;
      } else {
        ValidFormNoStaleMessage(data, errors);
        NoKeysNothingShown(data, errors);
        status := Submitting;
        inFlight := inFlight + 1;
      }
    }

    /** The end of a send, at whatever status the form has by then: success
        empties the form, failure keeps it. The messages are left as they
        are. When the send ends the round it began, nothing is on screen;
        a failure keeps every message matching its field. */
    method FinishSubmit(sendOk: bool)
      requires Valid() && inFlight > 0
      modifies this
      ensures sendOk ==> status == Success && data == EmptyForm
      ensures !sendOk ==> status == Failed && data == old(data)
      ensures errors == old(errors) && inFlight == old(inFlight) - 1
      ensures old(status) == Submitting ==> forall f :: !errors.Shown(f)
      ensures old(Consistent()) && !sendOk ==> Consistent()
      ensures Valid()
    {
      if sendOk {
        status := Success;
        data := EmptyForm;
      } else {
        status := Failed;
      }
      inFlight := inFlight - 1;
    }

    /** The three-second timer after either outcome. */
    method ClearStatus()
      requires Valid()
      modifies this
      ensures status == Idle && data == old(data) && errors == old(errors) && inFlight == old(inFlight)
      ensures old(Consistent()) ==> Consistent()
      ensures Valid()
    {
      status := Idle;
    }
  }

  /** A form that passes validation has no field left empty, so every
      message on screen matches its field. */
  lemma ValidFormNoStaleMessage(data: FormData, errors: FormErrors)
    requires !ValidateForm(data).HasKeys()
    requires forall f :: errors.Shown(f) ==> errors.Get(f) == FieldError(f, data.Get(f)) || data.Get(f) == ""
    ensures forall f :: errors.Shown(f) ==> errors.Get(f) == FieldError(f, data.Get(f))
  {
    forall f | errors.Shown(f) ensures errors.Get(f) == FieldError(f, data.Get(f)) {
      assert ValidateForm(data).Get(f) == None;
    }
  }

  /** The page's race: a send still in flight when the timer has reset the
      status lets the user submit again. If that submission fails validation
      on the email and the earlier send then succeeds, the form is emptied
      while "Invalid email format" stays on screen over the empty field. */
  method LateSuccessLeavesStaleMessage(d: FormData, badEmail: string) returns (form: ContactForm)
    requires !ValidateForm(d).HasKeys()
    requires !Blank(badEmail) && !EmailFormatOk(badEmail)
    ensures form.Valid() && form.status == Success && form.data == EmptyForm
    ensures form.errors.Get(Email) == Some("Invalid email format")
    ensures !form.Consistent()
  {
    form := new ContactForm();
    form.HandleInputChange(Name, d.name);
    form.HandleInputChange(Email, d.email);
    form.HandleInputChange(Message, d.message);
    assert form.data == d;
    var sent := form.BeginSubmit();
    form.ClearStatus();
    form.HandleInputChange(Email, badEmail);
    sent := form.BeginSubmit();
    assert form.errors.Get(Email) == Some("Invalid email format");
    form.FinishSubmit(true);
    assert form.errors.Get(Email) != FieldError(Email, form.data.Get(Email));
  }

  /** A successful submission starting from a valid form ends with an
      emptied form, the success status and no message on screen. */
  method SubmitRound(form: ContactForm, sendOk: bool) returns (sent: bool)
    requires form.Valid() && form.status != Submitting
    modifies form
    ensures sent <==> !ValidateForm(old(form.data)).HasKeys()
    ensures sent && sendOk ==> form.status == Success && form.data == EmptyForm
    ensures sent && !sendOk ==> form.status == Failed && form.data == old(form.data)
    ensures sent ==> forall f :: !form.errors.Shown(f)
    ensures form.inFlight == old(form.inFlight)
    ensures form.Valid() && form.Consistent()
  {
    sent := form.BeginSubmit();
    if sent {
      form.FinishSubmit(sendOk);
    }
  }
}
