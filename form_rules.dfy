/**
 * The contact form's field rules: the ones `validateForm` applies at submit
 * time, the weaker ones the blur handler applies, and what each of them, and
 * the input handler, does to the table of error elements.
 */
module FormRules {
  import opened Wrappers
  import opened Text
  import opened EmailFormat

  /** The three validated inputs, by their element ids 'name', 'email', 'message'. */
  datatype Field = Name | Email | Message

  /** The form's values as the submit handler collects them. */
  datatype FormData = FormData(name: string, email: string, subject: string, message: string)

  function Value(d: FormData, f: Field): string
  {
    match f
    case Name => d.name
    case Email => d.email
    case Message => d.message
  }

  const NameRequired := "Name is required"
  const NameTooShort := "Name must be at least 2 characters"
  const EmailRequired := "Email is required"
  const EmailInvalid := "Please enter a valid email address"
  const MessageRequired := "Message is required"
  const MessageTooShort := "Message must be at least 10 characters"

  /** The minimum trimmed lengths of the name and the message. */
  const MinNameLength := 2
  const MinMessageLength := 10

  function RequiredMessage(f: Field): string
  {
    match f
    case Name => NameRequired
    case Email => EmailRequired
    case Message => MessageRequired
  }

  /** The second message of each field: the length or format complaint. */
  function FormatMessage(f: Field): string
  {
    match f
    case Name => NameTooShort
    case Email => EmailInvalid
    case Message => MessageTooShort
  }

  /** The rule of a field on a non-blank value: a trimmed length bound for the
      name and the message, the e-mail pattern for the address. The address is
      tested as given, so `e` is the raw value at submit time. */
  predicate PassesFormat(f: Field, value: string)
  {
    match f
    case Name => |Trim(value)| >= MinNameLength
    case Email => ValidateEmail(value)
    case Message => |Trim(value)| >= MinMessageLength
  }

  /** The message `validateForm` shows for field `f` holding `raw`, if any. */
  function SubmitError(f: Field, raw: string): Option<string>
  {
    if Trim(raw) == [] then Some(RequiredMessage(f))
    else if !PassesFormat(f, raw) then Some(FormatMessage(f))
    else None
  }

  /** Whether `validateForm` returns true: no field has a message. */
  predicate FormIsValid(d: FormData)
  {
    SubmitError(Name, d.name) == None &&
    SubmitError(Email, d.email) == None &&
    SubmitError(Message, d.message) == None
  }

  /** Each field gets at most one message, and "required" wins: it is shown
      exactly when the value is blank, and the format message exactly when the
      value is not blank and fails its rule. */
  lemma SubmitErrorPrecedence(f: Field, raw: string)
    ensures SubmitError(f, raw) == Some(RequiredMessage(f)) <==> IsBlank(raw)
    ensures SubmitError(f, raw) == Some(FormatMessage(f)) <==> !IsBlank(raw) && !PassesFormat(f, raw)
    ensures SubmitError(f, raw) == None <==> !IsBlank(raw) && PassesFormat(f, raw)
  {
    TrimSpec(raw);
    assert |RequiredMessage(f)| < |FormatMessage(f)|;
  }

  /** The form is valid exactly when the trimmed name has at least two
      characters, the trimmed address is not empty and the raw address matches
      the pattern, and the trimmed message has at least ten characters. */
  lemma FormIsValidIff(d: FormData)
    ensures FormIsValid(d) <==>
      |Trim(d.name)| >= 2 && Trim(d.email) != [] && ValidateEmail(d.email) && |Trim(d.message)| >= 10
  {
  }

  /** What the blur handler does to a field's error element. */
  datatype BlurAction = ShowMessage(message: string) | Clear | Keep

  /** The blur handler on field `f` holding `raw`: it trims the value once and
      tests the trimmed value, ending in a message, a clear, or nothing when the
      trimmed value is empty. */
  function OnBlurAction(f: Field, raw: string): BlurAction
  {
    var value := Trim(raw);
    if f == Name && value != [] && |value| < MinNameLength then ShowMessage(NameTooShort)
    else if f == Email && value != [] && !ValidateEmail(value) then ShowMessage(EmailInvalid)
    else if f == Message && value != [] && |value| < MinMessageLength then ShowMessage(MessageTooShort)
    else if value != [] then Clear
    else Keep
  }

  /** Blur never reports "required": it leaves a blank field alone, and on a
      non-blank field it shows the format message or clears. */
  lemma {:induction false} BlurNeverRequired(f: Field, raw: string)
    ensures OnBlurAction(f, raw) != ShowMessage(RequiredMessage(f))
    ensures OnBlurAction(f, raw) == Keep <==> IsBlank(raw)
    ensures OnBlurAction(f, raw) == Clear || OnBlurAction(f, raw) == Keep ||
            OnBlurAction(f, raw) == ShowMessage(FormatMessage(f))
  {
    TrimSpec(raw);
    assert |RequiredMessage(f)| < |FormatMessage(f)|;
  }

  /** On a non-blank value blur and submit agree, as long as the address has no
      surrounding white space: blur clears exactly when submit finds nothing, and
      otherwise both show the same format message. */
  lemma {:induction false} BlurAgreesWithSubmit(f: Field, raw: string)
    requires !IsBlank(raw)
    requires f == Email ==> Trim(raw) == raw
    ensures OnBlurAction(f, raw) == Clear <==> SubmitError(f, raw) == None
    ensures OnBlurAction(f, raw) == ShowMessage(FormatMessage(f)) <==> SubmitError(f, raw) == Some(FormatMessage(f))
  {
    TrimIdempotent(raw);
  }

  /** An accepted address is its own trim, so for a valid form submit and blur
      see the same address. */
  lemma AcceptedEmailIsTrimmed(raw: string)
    requires SubmitError(Email, raw) == None
    ensures Trim(raw) == raw
  {
    AcceptedEmailShape(raw);
    TrimOfSolid(raw);
  }

  /** The two handlers test different strings: blur tests the trimmed address,
      submit the raw one. A valid address behind leading white space therefore
      passes on blur and is rejected at submit. */
  lemma {:induction false} PaddedEmailPassesBlurFailsSubmit(pad: string, e: string)
    requires pad != [] && IsBlank(pad)
    requires ValidateEmail(e)
    ensures OnBlurAction(Email, pad + e) == Clear
    ensures SubmitError(Email, pad + e) == Some(EmailInvalid)
  {
    AcceptedEmailShape(e);
    TrimOfPaddedSolid(pad, e);
    assert (pad + e)[0] == pad[0];
    if ValidateEmail(pad + e) { AcceptedEmailShape(pad + e); }
  }

  /** The border colour `showError` and `clearError` give an input: the
      alert colour, the normal colour, or none yet (the style sheet's). */
  datatype Border = Unstyled | Alert | Neutral

  /** An error element with the input it belongs to. `clearError` only hides
      the element, so the text of an earlier message stays in it. */
  datatype ErrorSlot = ErrorSlot(text: string, shown: bool, border: Border)

  type ErrorTable = map<Field, ErrorSlot>

  /** `showError`: the message is written, the element shown, the border alerted. */
  function ShowSlot(message: string): ErrorSlot
  {
    ErrorSlot(message, true, Alert)
  }

  /** `clearError`: the element is hidden and the border reset; the text stays. */
  function HideSlot(slot: ErrorSlot): ErrorSlot
  {
    slot.(shown := false, border := Neutral)
  }

  /** Every field has its element, and a border is alerted exactly when its
      message is showing. */
  predicate TableWellFormed(t: ErrorTable)
  {
    (forall f: Field :: f in t) &&
    (forall f :: f in t ==> (t[f].shown <==> t[f].border == Alert))
  }

  /** What a visitor sees: the message of each field whose element is shown. */
  function Displayed(t: ErrorTable): (v: map<Field, Option<string>>)
    ensures v.Keys == t.Keys
    ensures forall f :: f in t ==> (v[f] == None <==> !t[f].shown)
  {
    map f | f in t :: if t[f].shown then Some(t[f].text) else None
  }

  /** The table after `clearAllErrors`. */
  function ClearAll(t: ErrorTable): (r: ErrorTable)
    ensures r.Keys == t.Keys
    ensures forall f :: f in r ==> !r[f].shown && r[f].text == t[f].text
  {
    map f | f in t :: HideSlot(t[f])
  }

  /** The messages `validateForm(d)` decides on, field by field. */
  function ValidationErrors(d: FormData): (e: map<Field, Option<string>>)
    ensures forall f: Field :: f in e
  {
    var e := map[Name := SubmitError(Name, d.name),
                 Email := SubmitError(Email, d.email),
                 Message := SubmitError(Message, d.message)];
    assert forall f: Field :: f in e by {
      forall f: Field ensures f in e {
        if f.Name? { assert f == Name; } else if f.Email? { assert f == Email; } else { assert f == Message; }
      }
    }
    e
  }

  /** Clearing every element and then showing the message each field has in `e`. */
  function ShowErrors(t: ErrorTable, e: map<Field, Option<string>>): (r: ErrorTable)
    requires t.Keys <= e.Keys
    ensures r.Keys == t.Keys
  {
    map f | f in t ::
      match e[f]
      case Some(m) => ShowSlot(m)
      case None => HideSlot(t[f])
  }

  /** The table after a field's message, if it has one, is shown. */
  function Decide(t: ErrorTable, f: Field, o: Option<string>): ErrorTable
  {
    match o
    case Some(m) => t[f := ShowSlot(m)]
    case None => t
  }

  /** Clearing every element and then deciding the fields one after the other
      is `ShowErrors`. */
  lemma DecideAll(t: ErrorTable, e: map<Field, Option<string>>)
    requires TableWellFormed(t) && forall f: Field :: f in e
    ensures Decide(Decide(Decide(ClearAll(t), Name, e[Name]), Email, e[Email]), Message, e[Message])
         == ShowErrors(t, e)
  {
    var lhs := Decide(Decide(Decide(ClearAll(t), Name, e[Name]), Email, e[Email]), Message, e[Message]);
    assert lhs.Keys == t.Keys;
    forall f | f in t ensures lhs[f] == ShowErrors(t, e)[f] {
      FieldCases(f);
    }
  }

  lemma FieldCases(f: Field)
    ensures f == Name || f == Email || f == Message
  {
  }

  /** The table after `validateForm(d)`. */
  function AfterValidate(t: ErrorTable, d: FormData): (r: ErrorTable)
    ensures r.Keys == t.Keys
  {
    ShowErrors(t, ValidationErrors(d))
  }

  /** The table after the blur handler of field `f`. Only `f`'s element can
      change; it changes as `OnBlurAction` says. */
  function AfterBlur(t: ErrorTable, f: Field, raw: string): (r: ErrorTable)
    requires f in t
    ensures r.Keys == t.Keys
    ensures forall g :: g in t && g != f ==> r[g] == t[g]
    ensures OnBlurAction(f, raw) == Keep ==> r == t
    ensures OnBlurAction(f, raw) == Clear ==> !r[f].shown && r[f].text == t[f].text
    ensures forall m :: OnBlurAction(f, raw) == ShowMessage(m) ==> r[f].shown && r[f].text == m
  {
    match OnBlurAction(f, raw)
    case ShowMessage(m) => t[f := ShowSlot(m)]
    case Clear => t[f := HideSlot(t[f])]
    case Keep => t
  }

  /** The table after the input handler of field `f`: the element of `f` is
      hidden when the trimmed value is not empty, and nothing else changes. */
  function AfterInput(t: ErrorTable, f: Field, raw: string): (r: ErrorTable)
    requires f in t
    ensures r.Keys == t.Keys
    ensures forall g :: g in t && g != f ==> r[g] == t[g]
    ensures Trim(raw) != [] ==> !r[f].shown && r[f].text == t[f].text
    ensures Trim(raw) == [] ==> r == t
  {
    if Trim(raw) != [] then t[f := HideSlot(t[f])] else t
  }

  /** The form is valid exactly when `validateForm` decides on no message. */
  lemma FormIsValidNoErrors(d: FormData)
    ensures FormIsValid(d) <==> forall f :: f in ValidationErrors(d) ==> ValidationErrors(d)[f] == None
  {
    var e := ValidationErrors(d);
    assert e[Name] == SubmitError(Name, d.name);
    assert e[Email] == SubmitError(Email, d.email);
    assert e[Message] == SubmitError(Message, d.message);
  }

  /** Showing decided messages leaves on display exactly those messages,
      whatever the table held before, keeps the table well formed and styles
      every border. */
  lemma ShowErrorsDisplays(t: ErrorTable, e: map<Field, Option<string>>)
    requires t.Keys <= e.Keys
    ensures Displayed(ShowErrors(t, e)) == map f | f in t :: e[f]
    ensures TableWellFormed(t) ==> TableWellFormed(ShowErrors(t, e))
    ensures forall f :: f in t ==> ShowErrors(t, e)[f].border != Unstyled
  {
    var r := ShowErrors(t, e);
    forall f | f in t ensures Displayed(r)[f] == e[f] {
      match e[f]
      case Some(m) =>
      case None =>
    }
  }

  /** Because `validateForm` clears every element first, what it leaves on
      display depends on the form's values alone: each field shows its
      `SubmitError`, whatever the table held before. */
  lemma ValidateDisplaysSubmitErrors(t: ErrorTable, d: FormData)
    requires TableWellFormed(t)
    ensures Displayed(AfterValidate(t, d)) == ValidationErrors(d)
    ensures TableWellFormed(AfterValidate(t, d))
  {
    ShowErrorsDisplays(t, ValidationErrors(d));
  }

  /** Two tables validated against the same values display the same messages. */
  lemma ValidateForgetsHistory(t1: ErrorTable, t2: ErrorTable, d: FormData)
    requires TableWellFormed(t1) && TableWellFormed(t2)
    ensures Displayed(AfterValidate(t1, d)) == Displayed(AfterValidate(t2, d))
  {
    ValidateDisplaysSubmitErrors(t1, d);
    ValidateDisplaysSubmitErrors(t2, d);
  }

  /** Validating twice on unchanged values leaves the table as the first
      validation left it, hidden texts included. */
  lemma ValidateIdempotent(t: ErrorTable, d: FormData)
    ensures AfterValidate(AfterValidate(t, d), d) == AfterValidate(t, d)
  {
    var e := ValidationErrors(d);
    var once := ShowErrors(t, e);
    var twice := ShowErrors(once, e);
    forall f | f in t ensures twice[f] == once[f] {
      match e[f]
      case Some(m) =>
      case None =>
    }
  }

  /** A valid form leaves every element hidden, as `clearAllErrors` would. */
  lemma ValidFormDisplaysNothing(t: ErrorTable, d: FormData)
    requires FormIsValid(d)
    ensures AfterValidate(t, d) == ClearAll(t)
  {
    FormIsValidNoErrors(d);
    var e := ValidationErrors(d);
    forall f | f in t ensures ShowErrors(t, e)[f] == ClearAll(t)[f] {
      assert e[f] == None;
    }
  }
}
