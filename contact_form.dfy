/**
 * The contact form: three fields, each with an error state, the validator that
 * checks all three, and the submit handler that enters the loading state only
 * for a valid form. Timers are recorded as pending events that a later method
 * call resolves.
 */
module ContactForm {
  import opened Wrappers
  import opened JsText
  import opened Email

  const NameRequired := "Your name is required."
  const CompanyRequired := "Company name is required."
  const EmailRequired := "A work email is required."
  const EmailInvalid := "Please enter a valid email address."

  /** The verdict on one field: it passes, or it fails with the message shown. */
  datatype Check = Pass | Fail(message: string)

  /** JavaScript's falsiness test on a field's reading: the missing reading of
      an absent input and the empty string are both falsy. */
  predicate Blank(v: Option<string>) {
    v.None? || v.value == []
  }

  function CheckRequired(v: Option<string>, msg: string): Check {
    if Blank(v) then Fail(msg) else Pass
  }

  function CheckEmail(v: Option<string>): Check {
    if Blank(v) then Fail(EmailRequired)
    else if !MatchesEmailPattern(v.value) then Fail(EmailInvalid)
    else Pass
  }

  /** The value `validate` returns for the three trimmed readings. */
  predicate FormPasses(name: Option<string>, company: Option<string>, email: Option<string>) {
    && CheckRequired(name, NameRequired) == Pass
    && CheckRequired(company, CompanyRequired) == Pass
    && CheckEmail(email) == Pass
  }

  /** `validate` accepts exactly when the trimmed name and company are
      non-empty and the trimmed e-mail is non-empty and of e-mail shape. */
  lemma FormPassesIff(name: Option<string>, company: Option<string>, email: Option<string>)
    ensures FormPasses(name, company, email) <==>
      && name.Some? && name.value != []
      && company.Some? && company.value != []
      && email.Some? && email.value != [] && IsEmailShape(email.value)
  {
    if email.Some? { PatternIffShape(email.value); }
  }

  /** The e-mail field's two messages: "required" exactly for a blank value,
      "invalid" exactly for a non-blank value of the wrong shape. */
  lemma EmailMessages(email: Option<string>)
    ensures CheckEmail(email) == Fail(EmailRequired) <==> Blank(email)
    ensures CheckEmail(email) == Fail(EmailInvalid) <==>
      !Blank(email) && !IsEmailShape(email.value)
  {
    if email.Some? { PatternIffShape(email.value); }
  }

  /** Empty name, empty company and "bad@x": all three fields fail, the
      e-mail one with the "invalid" message, so `validate` is false. */
  lemma BlankFormRejected()
    ensures CheckRequired(Some(Trim("")), NameRequired) == Fail(NameRequired)
    ensures CheckRequired(Some(Trim("")), CompanyRequired) == Fail(CompanyRequired)
    ensures CheckEmail(Some(Trim("bad@x"))) == Fail(EmailInvalid)
    ensures !FormPasses(Some(Trim("")), Some(Trim("")), Some(Trim("bad@x")))
  {
    TrimFixesTrimmed("bad@x");
    RejectsBadAtX();
  }

  /** "Ada", "Acme" and "ada@acme.com" (already trimmed, see
      `TrimFixesTrimmed`) pass. */
  lemma FilledFormAccepted()
    ensures FormPasses(Some("Ada"), Some("Acme"), Some("ada@acme.com"))
  {
    AcceptsAdaAtAcme();
  }

  /** One form field: the input element with its current text, the wrapping
      `.fg` group (class `bad`) and the error element (class `on`, its text).
      The `has…` constants record which of those elements exist in the page. */
  class Field {
    var value: string
    var bad: bool
    var shown: bool
    var message: string
    const defaultValue: string
    const hasInput: bool
    const hasError: bool
    const hasGroup: bool

    constructor (hasInput: bool, hasError: bool, hasGroup: bool, defaultValue: string)
      ensures this.hasInput == hasInput && this.hasError == hasError && this.hasGroup == hasGroup
      ensures this.defaultValue == defaultValue && value == defaultValue
      ensures !bad && !shown && message == ""
    {
      this.hasInput, this.hasError, this.hasGroup := hasInput, hasError, hasGroup;
      this.defaultValue := defaultValue;
      value := defaultValue;
      bad, shown, message := false, false, "";
    }

    /** The field's reading as `validate` takes it: nothing when the input
        element is absent, otherwise the input's text with white space cut
        from both ends. The reading is blank exactly when there is no input or
        its text is all white space; a non-blank reading starts and ends with
        a character that is not white space, and is the stretch of the text
        left between an all-space prefix and an all-space suffix. */
    function Read(): (r: Option<string>)
      reads this
      ensures r.Some? <==> hasInput
      ensures Blank(r) <==> !hasInput || AllSpace(value)
      ensures r.Some? && r.value != [] ==>
        !IsSpace(r.value[0]) && !IsSpace(r.value[|r.value| - 1])
      ensures r.Some? ==> exists i :: PaddedAt(r.value, value, i)
    {
      if hasInput then
        TrimInfix(value);
        Some(Trim(value))
      else None
    }

    /** Both elements `setError` and `clearError` look up are present. */
    predicate Wired()
      reads this
    {
      hasInput && hasError
    }

    /** The field's error state after `setError` (for `Fail`) or `clearError`
      (for `Pass`): nothing changes when an element is missing; otherwise the
      error text is shown with the given message or hidden, and the group gets
      or loses `bad` when it exists. The input's text is never touched. */
    twostate predicate Reported(c: Check)
      reads this
    {
      && value == old(value)
      && if !Wired() then
           bad == old(bad) && shown == old(shown) && message == old(message)
         else match c
           case Fail(m) => shown && message == m && bad == (hasGroup || old(bad))
           case Pass => !shown && message == old(message) && bad == (!hasGroup && old(bad))
    }

    method SetError(msg: string)
      modifies this
      ensures Reported(Fail(msg))
    {
      if !hasInput || !hasError { return; }
      if hasGroup { bad := true; }
      message := msg;
      shown := true;
    }

    method ClearError()
      modifies this
      ensures Reported(Pass)
    {
      if !hasInput || !hasError { return; }
      if hasGroup { bad := false; }
      shown := false;
    }

    /** One required-field step of `validate`: `setError` with `msg` when the
        trimmed value is blank, `clearError` otherwise. */
    method CheckRequiredField(msg: string) returns (ok: bool)
      modifies this
      ensures ok == (CheckRequired(old(Read()), msg) == Pass)
      ensures Reported(CheckRequired(old(Read()), msg))
    {
      if Blank(Read()) {
        SetError(msg);
        ok := false;
      } else {
        ClearError();
        ok := true;
      }
    }

    /** The e-mail step of `validate`: "required" for a blank value, "invalid"
        for a value the pattern rejects, `clearError` otherwise. */
    method CheckEmailField() returns (ok: bool)
      modifies this
      ensures ok == (CheckEmail(old(Read())) == Pass)
      ensures Reported(CheckEmail(old(Read())))
    {
      var v := Read();
      if Blank(v) {
        SetError(EmailRequired);
        ok := false;
      } else if !MatchesEmailPattern(v.value) {
        SetError(EmailInvalid);
        ok := false;
      } else {
        ClearError();
        ok := true;
      }
    }

    /** The `input` listener: the user's edit, then `clearError`. It is only
        registered on an input that exists. */
    method OnInput(text: string)
      requires hasInput
      modifies this
      ensures value == text
      ensures hasError ==> !shown && bad == (!hasGroup && old(bad))
      ensures !hasError ==> shown == old(shown) && bad == old(bad)
      ensures message == old(message)
    {
      value := text;
      ClearError();
    }

    /** `form.reset()` restores the input's default text; error state stays. */
    method Reset()
      modifies this
      ensures value == defaultValue
      ensures bad == old(bad) && shown == old(shown) && message == old(message)
    {
      value := defaultValue;
    }
  }

  /** The submit button with its text and loading spans; each `has…`
      constant records whether that element exists in the page. */
  class SubmitButton {
    const hasButton: bool
    const hasText: bool
    const hasLoader: bool
    var disabled: bool
    var textHidden: bool
    var loaderHidden: bool

    /** The state the page starts in and returns to after a submission. */
    predicate Idle()
      reads this
    {
      !disabled && !textHidden && loaderHidden
    }

    /** A missing element is never touched, so it keeps its idle value. */
    ghost predicate Valid()
      reads this
    {
      && (!hasButton ==> !disabled)
      && (!hasText ==> !textHidden)
      && (!hasLoader ==> loaderHidden)
    }

    constructor (hasButton: bool, hasText: bool, hasLoader: bool)
      ensures Valid() && Idle()
      ensures this.hasButton == hasButton && this.hasText == hasText && this.hasLoader == hasLoader
    {
      this.hasButton, this.hasText, this.hasLoader := hasButton, hasText, hasLoader;
      disabled, textHidden, loaderHidden := false, false, true;
    }

    /** The loading state: disabled, text hidden, loader shown, each where the
        element exists. */
    method ShowLoading()
      requires Valid()
      modifies this
      ensures Valid()
      ensures disabled == (hasButton || old(disabled))
      ensures textHidden == (hasText || old(textHidden))
      ensures loaderHidden == (!hasLoader && old(loaderHidden))
    {
      if hasButton { disabled := true; }
      if hasText { textHidden := true; }
      if hasLoader { loaderHidden := false; }
    }

    /** Back from the loading state. */
    method ShowReady()
      requires Valid()
      modifies this
      ensures Valid() && Idle()
    {
      if hasButton { disabled := false; }
      if hasText { textHidden := false; }
      if hasLoader { loaderHidden := true; }
    }
  }

  /** The toast; `pendingHides` counts its 5500 ms hide timers still waiting. */
  class Toast {
    const present: bool
    var shown: bool
    var pendingHides: nat

    /** A shown toast always has a hide timer waiting. */
    ghost predicate Valid()
      reads this
    {
      pendingHides == 0 ==> !shown
    }

    constructor (present: bool)
      ensures Valid() && this.present == present && !shown && pendingHides == 0
    {
      this.present := present;
      shown, pendingHides := false, 0;
    }

    /** `showToast()`: show it and start its hide timer, if it exists. */
    method Show()
      requires Valid()
      modifies this
      ensures Valid()
      ensures shown == (present || old(shown))
      ensures pendingHides == old(pendingHides) + (if present then 1 else 0)
    {
      if !present { return; }
      shown := true;
      pendingHides := pendingHides + 1;
    }

    /** One hide timer fires. It hides the toast even when a later toast's
        timer is still waiting. */
    method Hide()
      requires Valid() && pendingHides > 0
      modifies this
      ensures Valid()
      ensures !shown && pendingHides == old(pendingHides) - 1
    {
      shown := false;
      pendingHides := pendingHides - 1;
    }
  }

  /** The form with its three fields, its button and the toast;
      `pendingSubmits` counts simulated 1800 ms submissions still waiting. */
  class Form {
    const name: Field
    const company: Field
    const email: Field
    const button: SubmitButton
    const toast: Toast
    var pendingSubmits: nat

    /** The three fields are distinct elements, and while no submission is in
        flight the button is idle. */
    ghost predicate Valid()
      reads this, button, toast
    {
      && name != company && company != email && name != email
      && button.Valid() && toast.Valid()
      && (pendingSubmits == 0 ==> button.Idle())
    }

    constructor (name: Field, company: Field, email: Field, button: SubmitButton, toast: Toast)
      requires name != company && company != email && name != email
      requires button.Valid() && button.Idle() && toast.Valid()
      ensures Valid() && pendingSubmits == 0
      ensures this.name == name && this.company == company && this.email == email
      ensures this.button == button && this.toast == toast
    {
      this.name, this.company, this.email := name, company, email;
      this.button, this.toast := button, toast;
      pendingSubmits := 0;
    }

    /** `validate()`: every field is checked, with no short circuit; each
        field's error state follows its own verdict only, and the result is
        true exactly when all three pass. */
    method Validate() returns (ok: bool)
      requires Valid()
      modifies name, company, email
      ensures ok == FormPasses(old(name.Read()), old(company.Read()), old(email.Read()))
      ensures name.Reported(CheckRequired(old(name.Read()), NameRequired))
      ensures company.Reported(CheckRequired(old(company.Read()), CompanyRequired))
      ensures email.Reported(CheckEmail(old(email.Read())))
    {
      ok := true;
      var nameOk := name.CheckRequiredField(NameRequired);
      if !nameOk { ok := false; }
      var companyOk := company.CheckRequiredField(CompanyRequired);
      if !companyOk { ok := false; }
      var emailOk := email.CheckEmailField();
      if !emailOk { ok := false; }
    }

    /** The submit listener up to its `await`: it runs `Validate`, so each
        field reports its own verdict on the text it held; a form that fails
        validation leaves the button and the pending work exactly as they
        were, so an idle button stays enabled with its loader hidden; a valid
        form enters the loading state and starts one simulated submission. */
    method Submit() returns (entered: bool)
      requires Valid()
      modifies this, name, company, email, button
      ensures Valid()
      ensures entered == FormPasses(old(name.Read()), old(company.Read()), old(email.Read()))
      ensures name.Reported(CheckRequired(old(name.Read()), NameRequired))
      ensures company.Reported(CheckRequired(old(company.Read()), CompanyRequired))
      ensures email.Reported(CheckEmail(old(email.Read())))
      ensures !entered ==> unchanged(button) && pendingSubmits == old(pendingSubmits)
      ensures !entered && old(pendingSubmits) == 0 ==> !button.disabled && button.loaderHidden
      ensures entered ==>
        && button.disabled == (button.hasButton || old(button.disabled))
        && button.textHidden == (button.hasText || old(button.textHidden))
        && button.loaderHidden == (!button.hasLoader && old(button.loaderHidden))
        && pendingSubmits == old(pendingSubmits) + 1
    {
      entered := Validate();
      if !entered { return; }
      EnterLoading();
    }

    /** The loading state of the submit listener, and one simulated
        submission started. */
    method EnterLoading()
      requires Valid()
      modifies this, button
      ensures Valid()
      ensures button.disabled == (button.hasButton || old(button.disabled))
      ensures button.textHidden == (button.hasText || old(button.textHidden))
      ensures button.loaderHidden == (!button.hasLoader && old(button.loaderHidden))
      ensures pendingSubmits == old(pendingSubmits) + 1
    {
      button.ShowLoading();
      pendingSubmits := pendingSubmits + 1;
    }

    /** The 1800 ms delay of one submission elapses: the form is reset (the
        inputs get their default text back, error marks stay as they are), the
        button leaves the loading state and the toast is shown. */
    method FinishSubmit()
      requires Valid() && pendingSubmits > 0
      modifies this, name, company, email, button, toast
      ensures Valid()
      ensures pendingSubmits == old(pendingSubmits) - 1
      ensures name.value == name.defaultValue && company.value == company.defaultValue
      ensures email.value == email.defaultValue
      ensures name.bad == old(name.bad) && name.shown == old(name.shown)
      ensures name.message == old(name.message)
      ensures company.bad == old(company.bad) && company.shown == old(company.shown)
      ensures company.message == old(company.message)
      ensures email.bad == old(email.bad) && email.shown == old(email.shown)
      ensures email.message == old(email.message)
      ensures button.Idle()
      ensures toast.shown == (toast.present || old(toast.shown))
      ensures toast.pendingHides == old(toast.pendingHides) + (if toast.present then 1 else 0)
    {
      pendingSubmits := pendingSubmits - 1;
      name.Reset();
      company.Reset();
      email.Reset();
      button.ShowReady();
      toast.Show();
    }
  }
}
