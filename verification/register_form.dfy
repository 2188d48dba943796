/**
  The registration screen of `src/components/Register.jsx`: its form state,
  the field validator, the input handler, and the submit/reply cycle.
  The request itself is an output (`Payload`), and its reply an input event.
 */
module RegisterForm {
  import opened Wrappers
  import opened JsText
  import opened EmailPattern
  import opened ClientTypes

  const MinNameLength: int := 2
  const MinPasswordLength: int := 6

  const NameRequired: string := "Full name is required"
  const NameTooShort: string := "Name must be at least 2 characters"
  const EmailRequired: string := "Email is required"
  const EmailInvalid: string := "Please enter a valid email address"
  const PasswordRequired: string := "Password is required"
  const PasswordTooShort: string := "Password must be at least 6 characters"
  const ConfirmRequired: string := "Please confirm your password"
  const PasswordsDiffer: string := "Passwords do not match"
  const RegistrationFailed: string := "Registration failed"

  datatype Field = Name | Email | Password | ConfirmPassword

  /** Keys of the `errors` object: one per input, plus `general`. */
  datatype ErrorKey = On(field: Field) | General

  /** The `errors` object: at most one entry per key. `None` is a missing key
      (or one set to `undefined`); `Some("")` is a key the input handler blanked. */
  datatype Errors = Errors(
    name: Option<string>, email: Option<string>, password: Option<string>,
    confirmPassword: Option<string>, general: Option<string>)
  {
    function Get(k: ErrorKey): Option<string> {
      match k
      case On(Name) => name
      case On(Email) => email
      case On(Password) => password
      case On(ConfirmPassword) => confirmPassword
      case General => general
    }

    /** `{ ...prev, [k]: v }`. */
    function Set(k: ErrorKey, v: Option<string>): (r: Errors)
      ensures r.Get(k) == v
      ensures forall j :: j != k ==> r.Get(j) == Get(j)
    {
      match k
      case On(Name) => this.(name := v)
      case On(Email) => this.(email := v)
      case On(Password) => this.(password := v)
      case On(ConfirmPassword) => this.(confirmPassword := v)
      case General => this.(general := v)
    }

    /** Every message present is visible (a non-empty string). */
    predicate MessagesNonEmpty() {
      && (name.Some? ==> name.value != "") && (email.Some? ==> email.value != "")
      && (password.Some? ==> password.value != "") && (confirmPassword.Some? ==> confirmPassword.value != "")
      && (general.Some? ==> general.value != "")
    }

    /** `Object.keys(errors).length === 0`. */
    predicate IsEmpty() {
      name.None? && email.None? && password.None? && confirmPassword.None? && general.None?
    }
  }

  const NoErrors: Errors := Errors(None, None, None, None, None)

  /** An error object holding one message under one key. */
  function Only(k: ErrorKey, message: Option<string>): (r: Errors)
    ensures r.Get(k) == message
    ensures forall j :: j != k ==> r.Get(j).None?
  {
    NoErrors.Set(k, message)
  }

  datatype Form = Form(name: string, email: string, password: string, confirmPassword: string) {
    function Get(f: Field): string {
      match f
      case Name => name
      case Email => email
      case Password => password
      case ConfirmPassword => confirmPassword
    }

    /** `{ ...prev, [name]: value }`. */
    function Set(f: Field, v: string): (r: Form)
      ensures r.Get(f) == v
      ensures forall g :: g != f ==> r.Get(g) == Get(g)
    {
      match f
      case Name => this.(name := v)
      case Email => this.(email := v)
      case Password => this.(password := v)
      case ConfirmPassword => this.(confirmPassword := v)
    }
  }

  datatype State = State(form: Form, errors: Errors, isLoading: bool, isSuccess: bool)

  const EmptyForm: Form := Form("", "", "", "")
  const Initial: State := State(EmptyForm, NoErrors, false, false)

  // ---------------------------------------------------------------------------
  // validateForm

  function NameError(name: string): (r: Option<string>)
    ensures r.Some? ==> r.value != ""
    ensures r.Some? <==> |Trim(name)| < MinNameLength
    ensures r.Some? ==> r.value == (if Trim(name) == "" then NameRequired else NameTooShort)
  {
    if Trim(name) == "" then Some(NameRequired)
    else if |Trim(name)| < MinNameLength then Some(NameTooShort)
    else None
  }

  function EmailError(email: string): (r: Option<string>)
    ensures r.Some? ==> r.value != ""
    ensures r.Some? <==> !MatchesPattern(email)
    ensures r.Some? ==> r.value == (if email == "" then EmailRequired else EmailInvalid)
  {
    EmptyIsNotEmail();
    EmailCharacterisation(email);
    if email == "" then Some(EmailRequired)
    else if !IsValidEmail(email) then Some(EmailInvalid)
    else None
  }

  function PasswordError(password: string): (r: Option<string>)
    ensures r.Some? ==> r.value != ""
    ensures r.Some? <==> |password| < MinPasswordLength
    ensures r.Some? ==> r.value == (if password == "" then PasswordRequired else PasswordTooShort)
  {
    if password == "" then Some(PasswordRequired)
    else if |password| < MinPasswordLength then Some(PasswordTooShort)
    else None
  }

  function ConfirmError(password: string, confirm: string): (r: Option<string>)
    ensures r.Some? ==> r.value != ""
    ensures r.Some? <==> confirm == "" || password != confirm
    ensures r.Some? ==> r.value == (if confirm == "" then ConfirmRequired else PasswordsDiffer)
  {
    if confirm == "" then Some(ConfirmRequired)
    else if password != confirm then Some(PasswordsDiffer)
    else None
  }

  /** The `newErrors` object `validateForm` builds: nothing under `general`,
      each field's message under that field's own key, and empty exactly when
      the name trims to two or more characters, the e-mail matches the
      pattern, the password has six or more characters and the confirmation
      equals it. */
  function Validate(form: Form): (errs: Errors)
    ensures errs.general.None?
    ensures errs.name == NameError(form.name) && errs.email == EmailError(form.email)
    ensures errs.password == PasswordError(form.password)
    ensures errs.confirmPassword == ConfirmError(form.password, form.confirmPassword)
    ensures errs.MessagesNonEmpty()
    ensures errs.IsEmpty() <==>
              && |Trim(form.name)| >= MinNameLength
              && MatchesPattern(form.email)
              && |form.password| >= MinPasswordLength
              && form.confirmPassword == form.password
  {
    RulesAcceptIff(form);
    Errors(NameError(form.name), EmailError(form.email), PasswordError(form.password),
           ConfirmError(form.password, form.confirmPassword), None)
  }

  lemma RulesAcceptIff(form: Form)
    ensures (&& NameError(form.name).None? && EmailError(form.email).None?
             && PasswordError(form.password).None? && ConfirmError(form.password, form.confirmPassword).None?)
            <==>
            (&& |Trim(form.name)| >= MinNameLength
             && MatchesPattern(form.email)
             && |form.password| >= MinPasswordLength
             && form.confirmPassword == form.password)
  {
  }

  // ---------------------------------------------------------------------------
  // handleInputChange

  /** Updates the one field and blanks its error if it had one; everything else is kept. */
  function InputChange(st: State, f: Field, v: string): (r: State)
    ensures r.form.Get(f) == v
    ensures forall g :: g != f ==> r.form.Get(g) == st.form.Get(g)
    ensures forall k :: k != On(f) ==> r.errors.Get(k) == st.errors.Get(k)
    ensures r.errors.Get(On(f)).Some? <==> st.errors.Get(On(f)).Some?
    ensures r.errors.Get(On(f)).Some? ==> r.errors.Get(On(f)).value == ""
    ensures r.isLoading == st.isLoading && r.isSuccess == st.isSuccess
  {
    var old_ := st.errors.Get(On(f));
    var errors := if old_.Some? && old_.value != "" then st.errors.Set(On(f), Some("")) else st.errors;
    st.(form := st.form.Set(f, v), errors := errors)
  }

  // ---------------------------------------------------------------------------
  // handleSubmit

  /** The JSON body posted to `/api/auth/register`. */
  datatype Payload = Payload(name: string, email: string, password: string)

  /** The synchronous part of `handleSubmit`: validate, then either stop with
      the errors (no request) or clear them and start the request with the
      trimmed name, the lower-cased e-mail and the password as typed. */
  function Submit(st: State): (r: (State, Option<Payload>))
    ensures r.1.Some? <==> Validate(st.form).IsEmpty()
    ensures r.1.None? ==> r.0 == st.(errors := Validate(st.form))
    ensures r.1.Some? ==>
              && r.0 == st.(errors := NoErrors, isLoading := true)
              && r.1.value.name == Trim(st.form.name)
              && |r.1.value.email| == |st.form.email|
              && (forall i :: 0 <= i < |st.form.email| ==> r.1.value.email[i] == ToLowerChar(st.form.email[i]))
              && r.1.value.password == st.form.password
  {
    var errs := Validate(st.form);
    if !errs.IsEmpty() then (st.(errors := errs), None)
    else (st.(errors := NoErrors, isLoading := true),
          Some(Payload(Trim(st.form.name), ToLowerAscii(st.form.email), st.form.password)))
  }

  /** What the component hands to its parent: `onRegistrationSuccess(data.user)`. */
  datatype Notice = Silent | RegistrationSucceeded(user: Option<ClientUser>)

  /** The awaited part of `handleSubmit`, including its `finally`. */
  function Receive(st: State, reply: Reply): (r: (State, Notice))
    ensures !r.0.isLoading
    ensures r.0.form == st.form
    ensures r.1.RegistrationSucceeded? <==> reply.Reply? && reply.success
    ensures r.1.RegistrationSucceeded? ==> r.0.isSuccess && r.0.errors == st.errors && r.1.user == reply.user
    ensures !r.1.RegistrationSucceeded? ==> r.0.isSuccess == st.isSuccess
    ensures reply.Reply? && !reply.success && reply.status == 409 ==>
              r.0.errors == Only(On(Email), reply.message)
    ensures reply.Reply? && !reply.success && reply.status != 409 ==>
              && r.0.errors == Only(General, r.0.errors.general)
              && r.0.errors.general.Some? && r.0.errors.general.value != ""
              && r.0.errors.general.value == (if reply.message.Some? && reply.message.value != ""
                                              then reply.message.value else RegistrationFailed)
    ensures reply.NetworkFailure? ==> r.0.errors == Only(General, Some(NetworkErrorMessage))
  {
    match reply
    case NetworkFailure =>
      (st.(errors := Only(General, Some(NetworkErrorMessage)), isLoading := false), Silent)
    case Reply(status, success, message, user) =>
      if success then (st.(isSuccess := true, isLoading := false), RegistrationSucceeded(user))
      else if status == 409 then (st.(errors := Only(On(Email), message), isLoading := false), Silent)
      else (st.(errors := Only(General, Some(OrElse(message, RegistrationFailed))), isLoading := false), Silent)
  }

  /** `handleBackToLogin`: clear the form, the errors and the success flag,
      then hand control back to the parent. */
  function BackToLogin(st: State): (r: State)
    ensures r.form == EmptyForm && r.errors.IsEmpty() && !r.isSuccess
    ensures r.isLoading == st.isLoading
  {
    st.(form := EmptyForm, errors := NoErrors, isSuccess := false)
  }

  /** After a 409 the message sits under `email` alone; typing into the
      e-mail field blanks it and leaves every other key absent. */
  lemma {:induction false} ConflictThenRetype(st: State, message: string, user: Option<ClientUser>, v: string)
    requires message != ""
    ensures var s1 := Receive(st, Reply(409, false, Some(message), user)).0;
            var s2 := InputChange(s1, Email, v);
            && s1.errors.email == Some(message)
            && s2.errors.email == Some("") && s2.form.email == v
            && (forall k :: k != On(Email) ==> s2.errors.Get(k).None?)
  {
    var s1 := Receive(st, Reply(409, false, Some(message), user)).0;
    assert s1.errors == Only(On(Email), Some(message));
  }
}
