/**
  The top-level screen switch of `src/App.jsx`: which screen is shown, the
  signed-in user, the sign-in form and its error banner. Each handler is a
  pure transition; the login request is an output and its reply an input
  event, and the two-second timer after a registration is an event of its own.
 */
module AppScreens {
  import opened Wrappers
  import opened ClientTypes

  const BothRequired: string := "Please enter both email and password"
  const LoginFailed: string := "Login failed"

  /** `currentScreen`: 'login', 'register', 'forgot-password' or 'dashboard'. */
  datatype Screen = LoginScreen | RegisterScreen | ForgotPasswordScreen | DashboardScreen

  /** `formData`, and the two input names that write into it. */
  datatype Credentials = Credentials(email: string, password: string)
  datatype Input = EmailInput | PasswordInput

  datatype State = State(
    screen: Screen, user: Option<ClientUser>, form: Credentials,
    loginError: string, isLoading: bool)

  const Blank: Credentials := Credentials("", "")
  const Initial: State := State(LoginScreen, None, Blank, "", false)

  /** `handleInputChange`: writes the one field and always leaves the banner empty. */
  function InputChange(st: State, input: Input, value: string): (r: State)
    ensures r.loginError == ""
    ensures input.EmailInput? ==> r.form == Credentials(value, st.form.password)
    ensures input.PasswordInput? ==> r.form == Credentials(st.form.email, value)
    ensures r.screen == st.screen && r.user == st.user && r.isLoading == st.isLoading
  {
    var form := match input
      case EmailInput => st.form.(email := value)
      case PasswordInput => st.form.(password := value);
    var loginError := if st.loginError != "" then "" else st.loginError;
    st.(form := form, loginError := loginError)
  }

  /** The synchronous part of `handleSubmit`: both fields must be non-empty,
      otherwise the banner asks for them and nothing is sent; when both are
      there, the credentials go out exactly as typed. */
  function Submit(st: State): (r: (State, Option<Credentials>))
    ensures r.1.None? <==> st.form.email == "" || st.form.password == ""
    ensures r.1.None? ==> r.0 == st.(loginError := BothRequired)
    ensures r.1.Some? ==> r.1.value == st.form && r.0 == st.(isLoading := true, loginError := "")
  {
    if st.form.email == "" || st.form.password == "" then (st.(loginError := BothRequired), None)
    else (st.(isLoading := true, loginError := ""), Some(st.form))
  }

  /** The awaited part of `handleSubmit` and its `finally`: a reply with
      `success` signs the user in and clears the form; any other reply or a
      failed request leaves the form and shows a non-empty banner. */
  function Receive(st: State, reply: Reply): (r: State)
    ensures !r.isLoading
    ensures reply.Reply? && reply.success ==>
              r == st.(user := reply.user, screen := DashboardScreen, form := Blank, isLoading := false)
    ensures !(reply.Reply? && reply.success) ==>
              && r.screen == st.screen && r.user == st.user && r.form == st.form
              && r.loginError != ""
    ensures reply.Reply? && !reply.success ==>
              r.loginError == (if reply.message.Some? && reply.message.value != "" then reply.message.value
                               else LoginFailed)
    ensures reply.NetworkFailure? ==> r.loginError == NetworkErrorMessage
  {
    match reply
    case NetworkFailure => st.(loginError := NetworkErrorMessage, isLoading := false)
    case Reply(_, success, message, user) =>
      if success then st.(user := user, screen := DashboardScreen, form := Blank, isLoading := false)
      else st.(loginError := OrElse(message, LoginFailed), isLoading := false)
  }

  /** `handleForgotPassword`, `handleBackToLogin`, `handleShowRegister`: switch
      the screen and clear the banner, nothing else. */
  function Navigate(st: State, to: Screen): (r: State)
    requires to != DashboardScreen
    ensures r.screen == to && r.loginError == ""
    ensures r.user == st.user && r.form == st.form && r.isLoading == st.isLoading
  {
    st.(screen := to, loginError := "")
  }

  /** The timer `handleRegistrationSuccess` sets, when it fires. The screen
      switch runs first; with a user the form is pre-filled with its e-mail
      and an empty password, and without one reading `newUser.email` throws,
      so the form stays as it was. */
  function RegistrationTimerFired(st: State, newUser: Option<ClientUser>): (r: State)
    ensures r.screen == LoginScreen
    ensures newUser.Some? ==> r.form == Credentials(newUser.value.email, "")
    ensures newUser.None? ==> r.form == st.form
    ensures r.user == st.user && r.loginError == st.loginError && r.isLoading == st.isLoading
  {
    match newUser
    case Some(u) => st.(screen := LoginScreen, form := Credentials(u.email, ""))
    case None => st.(screen := LoginScreen)
  }

  /** `handleLogout`: back to the initial state, whatever the session held. */
  function Logout(st: State): (r: State)
    ensures r.user.None? && r.screen == LoginScreen && r.form == Blank && r.loginError == ""
    ensures !st.isLoading ==> r == Initial
  {
    st.(user := None, screen := LoginScreen, form := Blank, loginError := "")
  }

  // ---------------------------------------------------------------------------
  // Rendering

  /** What `App` renders. The sign-in card shows the banner when the error is
      non-empty; `disabled` covers its two inputs, the sign-in button and the
      forgot-password button, while the register button below the card stays
      enabled during loading. */
  datatype View =
    | DashboardView(user: ClientUser)
    | SignInCard(banner: Option<string>, disabled: bool)
    | RegisterView
    | ForgotPasswordView

  /** The early return for a signed-in dashboard, then the three-way
      conditional in which every other screen falls through to
      `<ForgotPassword>`. */
  function Render(st: State): (v: View)
    ensures v.DashboardView? <==> st.screen == DashboardScreen && st.user.Some?
    ensures v.DashboardView? ==> v.user == st.user.value
    ensures v.SignInCard? <==> st.screen == LoginScreen
    ensures v.SignInCard? ==>
              v.disabled == st.isLoading && (v.banner.Some? <==> st.loginError != "")
              && (v.banner.Some? ==> v.banner.value == st.loginError)
    ensures v.RegisterView? <==> st.screen == RegisterScreen
    ensures v.ForgotPasswordView? <==>
              st.screen == ForgotPasswordScreen || (st.screen == DashboardScreen && st.user.None?)
  {
    if st.screen == DashboardScreen && st.user.Some? then DashboardView(st.user.value)
    else if st.screen == LoginScreen then
      SignInCard(if st.loginError != "" then Some(st.loginError) else None, st.isLoading)
    else if st.screen == RegisterScreen then RegisterView
    else
      assert st.screen.ForgotPasswordScreen? || st.screen.DashboardScreen?;
      ForgotPasswordView
  }

  // ---------------------------------------------------------------------------
  // Properties of whole interactions

  /** Signing in with both fields filled and a successful reply that carries
      the user shows that user's dashboard; signing out again shows the empty
      sign-in card and restores the initial state. */
  lemma {:induction false} SignInSignOut(st: State, u: ClientUser, status: int, message: Option<string>)
    requires st.form.email != "" && st.form.password != ""
    ensures var (s1, req) := Submit(st);
            var s2 := Receive(s1, Reply(status, true, message, Some(u)));
            && req == Some(st.form)
            && Render(s2) == DashboardView(u)
            && s2.form == Blank
            && Logout(s2) == Initial
            && Render(Logout(s2)) == SignInCard(None, false)
  {
    var (s1, req) := Submit(st);
    var s2 := Receive(s1, Reply(status, true, message, Some(u)));
    assert !s2.isLoading;
  }

  /** A successful reply without a `user` leaves `currentScreen` at
      'dashboard' with no user, which renders the forgot-password screen. */
  lemma SuccessWithoutUserShowsForgotPassword(st: State, status: int, message: Option<string>)
    ensures Render(Receive(st, Reply(status, true, message, None))) == ForgotPasswordView
  {
  }

  /** After a failed sign-in the card is shown again, enabled, with a banner. */
  lemma {:induction false} FailedSignInShowsBanner(st: State, reply: Reply)
    requires st.screen == LoginScreen
    requires st.form.email != "" && st.form.password != ""
    requires !(reply.Reply? && reply.success)
    ensures var s2 := Receive(Submit(st).0, reply);
            Render(s2).SignInCard? && !Render(s2).disabled && Render(s2).banner.Some?
  {
    var s2 := Receive(Submit(st).0, reply);
    assert s2.screen == LoginScreen && s2.loginError != "";
  }

  /** Registering hands back to the sign-in card with the new e-mail filled in
      and the password empty, ready to sign in once a password is typed. */
  lemma {:induction false} RegistrationPrefillsSignIn(st: State, u: ClientUser, password: string)
    requires u.email != "" && password != ""
    requires !st.isLoading
    ensures var s1 := RegistrationTimerFired(Navigate(st, RegisterScreen), Some(u));
            && Render(s1).SignInCard?
            && Submit(s1).1.None?
            && Submit(InputChange(s1, PasswordInput, password)).1 == Some(Credentials(u.email, password))
  {
    var s1 := RegistrationTimerFired(Navigate(st, RegisterScreen), Some(u));
    assert s1.form == Credentials(u.email, "");
  }
}
