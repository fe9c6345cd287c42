/**
 * The contact form controller: the state the form's handlers change (the
 * input values, the error elements, the submit button's label, loader and
 * `disabled` flag, the success notice) and the handlers themselves:
 * `showError`, `clearError`, `clearAllErrors`, `validateForm`, the blur and
 * input listeners and the submit listener.
 */
module ContactForm {
  import opened Wrappers
  import opened Text
  import opened EmailFormat
  import opened FormRules

  /** How the awaited submission step settles: the promise resolves, or it
      rejects and the `catch` block runs. */
  datatype Outcome = Resolved | Rejected

  /** The order in which `clearAllErrors` visits the fields. */
  const FieldOrder: seq<Field> := [Name, Email, Message]

  /** The values `form.reset()` restores: the inputs' default values, taken
      here to be empty. */
  const EmptyForm := FormData("", "", "", "")

  class Controller {
    var name: string
    var email: string
    var subject: string
    var message: string
    var errors: ErrorTable
    /** The submit button's label span is hidden. */
    var textHidden: bool
    /** The submit button's loader span is hidden. */
    var loaderHidden: bool
    var disabled: bool
    var successShown: bool
    /** The submissions whose awaited step has not settled yet. */
    ghost var pending: nat

    /** The error table is well formed, and the button shows its loader, and
        is disabled, exactly while a submission it started is in flight. */
    ghost predicate Valid()
      reads this`errors, this`textHidden, this`loaderHidden, this`disabled, this`pending
    {
      TableWellFormed(errors) &&
      textHidden == disabled && loaderHidden == !disabled &&
      (disabled ==> pending > 0)
    }

    function Data(): FormData
      reads this`name, this`email, this`subject, this`message
    {
      FormData(name, email, subject, message)
    }

    function FieldValue(f: Field): string
      reads this`name, this`email, this`subject, this`message
    {
      Value(Data(), f)
    }

    /** The page as loaded: empty inputs, every error element hidden and
        unstyled, the button idle. */
    constructor ()
      ensures Valid()
      ensures Data() == EmptyForm
      ensures forall f :: f in errors ==> !errors[f].shown && errors[f].border == Unstyled
      ensures !disabled && !successShown && pending == 0
    {
      name, email, subject, message := "", "", "", "";
      var blank := ErrorSlot("", false, Unstyled);
      errors := map[Name := blank, Email := blank, Message := blank];
      textHidden, loaderHidden, disabled := false, true, false;
      successShown := false;
      pending := 0;
      new;
      assert forall f: Field :: f in errors by {
        forall f: Field ensures f in errors {
          if f.Name? { assert f == Name; } else if f.Email? { assert f == Email; } else { assert f == Message; }
        }
      }
    }

    /** The visitor types into input `f`; the browser then fires its input event. */
    method SetValue(f: Field, v: string)
      modifies this`name, this`email, this`message
      ensures FieldValue(f) == v
      ensures forall g :: g != f ==> FieldValue(g) == old(FieldValue(g))
      ensures subject == old(subject)
    {
      match f
      case Name => name := v;
      case Email => email := v;
      case Message => message := v;
    }

    /** The visitor types into the subject input, which no rule validates. */
    method SetSubject(v: string)
      modifies this`subject
      ensures Data() == old(Data()).(subject := v)
    {
      subject := v;
    }

    /** `showError(f, message)`. */
    method ShowError(f: Field, msg: string)
      requires Valid()
      modifies this`errors
      ensures Valid()
      ensures errors == old(errors)[f := ShowSlot(msg)]
    {
      errors := errors[f := ShowSlot(msg)];
    }

    /** `clearError(f)`: hides the element and resets the border, keeping the text. */
    method ClearError(f: Field)
      requires Valid()
      modifies this`errors
      ensures Valid()
      ensures errors == old(errors)[f := HideSlot(old(errors)[f])]
    {
      errors := errors[f := HideSlot(errors[f])];
    }

    /** `clearAllErrors()`: `clearError` on each field in turn. */
    method ClearAllErrors()
      requires Valid()
      modifies this`errors
      ensures Valid()
      ensures errors == ClearAll(old(errors))
    {
      var i := 0;
      while i < |FieldOrder|
        invariant 0 <= i <= |FieldOrder|
        invariant Valid()
        invariant errors.Keys == old(errors).Keys
        invariant forall f :: f in errors ==>
          errors[f] == if f in FieldOrder[..i] then HideSlot(old(errors)[f]) else old(errors)[f]
      {
        ClearError(FieldOrder[i]);
        i := i + 1;
      }
      assert FieldOrder[..i] == FieldOrder;
      assert forall f: Field :: f in FieldOrder by {
        forall f: Field ensures f in FieldOrder {
          if f.Name? { assert f == FieldOrder[0]; }
          else if f.Email? { assert f == FieldOrder[1]; }
          else { assert f == FieldOrder[2]; }
        }
      }
    }

    /** `validateForm(d)`: clears every error element, then runs the three
        field rules in turn, each showing at most one message. */
    method ValidateForm(d: FormData) returns (isValid: bool)
      requires Valid()
      modifies this`errors
      ensures Valid()
      ensures isValid <==> FormIsValid(d)
      ensures errors == AfterValidate(old(errors), d)
    {
      isValid := true;
      ClearAllErrors();
      ghost var t0 := errors;
      ghost var e := ValidationErrors(d);

      if Trim(d.name) == [] {
        ShowError(Name, NameRequired);
        isValid := false;
      } else if |Trim(d.name)| < MinNameLength {
        ShowError(Name, NameTooShort);
        isValid := false;
      }
      assert e[Name] == SubmitError(Name, d.name);
      ghost var t1 := errors;
      assert t1 == Decide(t0, Name, e[Name]);
      assert isValid <==> e[Name] == None;

      if Trim(d.email) == [] {
        ShowError(Email, EmailRequired);
        isValid := false;
      } else if !ValidateEmail(d.email) {
        ShowError(Email, EmailInvalid);
        isValid := false;
      }
      assert e[Email] == SubmitError(Email, d.email);
      ghost var t2 := errors;
      assert t2 == Decide(t1, Email, e[Email]);
      assert isValid <==> e[Name] == None && e[Email] == None;

      if Trim(d.message) == [] {
        ShowError(Message, MessageRequired);
        isValid := false;
      } else if |Trim(d.message)| < MinMessageLength {
        ShowError(Message, MessageTooShort);
        isValid := false;
      }
      assert e[Message] == SubmitError(Message, d.message);
      assert errors == Decide(t2, Message, e[Message]);
      assert isValid <==> e[Name] == None && e[Email] == None && e[Message] == None;

      DecideAll(old(errors), e);
    }

    /** The blur listener of input `f`. */
    method OnBlur(f: Field)
      requires Valid()
      modifies this`errors
      ensures Valid()
      ensures errors == AfterBlur(old(errors), f, FieldValue(f))
    {
      var raw := FieldValue(f);
      var value := Trim(raw);
      ghost var t := errors;
      if f == Name && value != [] && |value| < MinNameLength {
        ShowError(f, NameTooShort);
      } else if f == Email && value != [] && !ValidateEmail(value) {
        ShowError(f, EmailInvalid);
      } else if f == Message && value != [] && |value| < MinMessageLength {
        ShowError(f, MessageTooShort);
      } else if value != [] {
        ClearError(f);
      }
      assert errors == AfterBlur(t, f, raw);
    }

    /** The input listener of input `f`. */
    method OnInput(f: Field)
      requires Valid()
      modifies this`errors
      ensures Valid()
      ensures errors == AfterInput(old(errors), f, FieldValue(f))
    {
      if Trim(FieldValue(f)) != [] {
        ClearError(f);
      }
    }

    /** `showSuccessMessage()`: the notice is shown (its five-second timer
        that hides it again is not part of this model). */
    method ShowSuccessMessage()
      modifies this`successShown
      ensures successShown
    {
      successShown := true;
    }

    /** `form.reset()`. */
    method ResetForm()
      modifies this`name, this`email, this`subject, this`message
      ensures Data() == EmptyForm
    {
      name, email, subject, message := "", "", "", "";
    }

    /** The submit listener up to its `await`: the form is validated against
        the current values and, if invalid, the listener returns having changed
        only the error elements; otherwise the label is swapped for the loader
        and the button disabled. */
    method SubmitStart() returns (proceed: bool)
      requires Valid()
      modifies this`errors, this`textHidden, this`loaderHidden, this`disabled, this`pending
      ensures Valid()
      ensures errors == AfterValidate(old(errors), old(Data()))
      ensures proceed <==> FormIsValid(old(Data()))
      ensures !proceed ==>
        disabled == old(disabled) && textHidden == old(textHidden) &&
        loaderHidden == old(loaderHidden) && pending == old(pending)
      ensures proceed ==> disabled && textHidden && !loaderHidden && pending == old(pending) + 1
    {
      var formData := Data();
      var valid := ValidateForm(formData);
      if !valid {
        return false;
      }
      textHidden := true;
      loaderHidden := false;
      disabled := true;
      pending := pending + 1;
      return true;
    }

    /** The submit listener after its `await`. On success it shows the notice,
        resets the inputs and clears every error element; on failure the
        `catch` block only logs. The `finally` block restores the label and
        re-enables the button on both paths. */
    method SubmitSettle(outcome: Outcome)
      requires Valid() && pending > 0
      modifies this
      ensures Valid()
      ensures !disabled && !textHidden && loaderHidden && pending == old(pending) - 1
      ensures outcome == Resolved ==>
        Data() == EmptyForm && errors == ClearAll(old(errors)) && successShown
      ensures outcome == Rejected ==>
        Data() == old(Data()) && errors == old(errors) && successShown == old(successShown)
    {
      if outcome == Resolved {
        ShowSuccessMessage();
        ResetForm();
        ClearAllErrors();
      }
      textHidden := false;
      loaderHidden := true;
      disabled := false;
      pending := pending - 1;
    }

    /** The whole submit listener when its awaited step settles with `outcome`
        before any other event. Invalid input changes only the error elements
        and starts no submission; valid input always ends with the button
        idle again, and only a resolved submission empties the form. */
    method Submit(outcome: Outcome) returns (submitted: bool)
      requires Valid()
      modifies this
      ensures Valid()
      ensures pending == old(pending)
      ensures submitted <==> FormIsValid(old(Data()))
      ensures !submitted ==>
        Data() == old(Data()) && errors == AfterValidate(old(errors), old(Data())) &&
        disabled == old(disabled) && textHidden == old(textHidden) &&
        loaderHidden == old(loaderHidden) && successShown == old(successShown)
      ensures submitted ==> !disabled && !textHidden && loaderHidden
      ensures submitted && outcome == Resolved ==>
        Data() == EmptyForm && successShown && forall f :: f in errors ==> !errors[f].shown
      ensures submitted && outcome == Rejected ==>
        Data() == old(Data()) && successShown == old(successShown) &&
        forall f :: f in errors ==> !errors[f].shown
    {
      ghost var d := Data();
      ghost var t := errors;
      submitted := SubmitStart();
      if submitted {
        ValidFormDisplaysNothing(t, d);
        SubmitSettle(outcome);
      }
    }
  }
}
