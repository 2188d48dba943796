/**
  The password-reset screen of `src/components/ForgotPassword.jsx`. The screen
  checks the e-mail with the same pattern as the registration form and then
  waits two seconds in place of a request; that wait is an input event here.
 */
module ForgotPasswordForm {
  import opened Wrappers
  import opened EmailPattern
  import RegisterForm

  const InvalidEmail: string := "Please enter a valid email address"

  datatype State = State(email: string, isSubmitted: bool, isLoading: bool, error: string)

  const Initial: State := State("", false, false, "")

  /** The input's `onChange`. */
  function InputChange(st: State, value: string): (r: State)
    ensures r.email == value
    ensures r.isSubmitted == st.isSubmitted && r.isLoading == st.isLoading && r.error == st.error
  {
    st.(email := value)
  }

  /** The synchronous part of `handleSubmit`: clear the error, then either
      reject the address (nothing starts) or start the wait. The second
      component says whether the wait started. */
  function Submit(st: State): (r: (State, bool))
    ensures r.1 <==> MatchesPattern(st.email)
    ensures !r.1 ==> r.0 == st.(error := InvalidEmail)
    ensures r.1 ==> r.0 == st.(error := "", isLoading := true)
  {
    EmailCharacterisation(st.email);
    if !IsValidEmail(st.email) then (st.(error := InvalidEmail), false)
    else (st.(error := "", isLoading := true), true)
  }

  /** The two-second wait resolving, then the `finally`. */
  function TimerElapsed(st: State): (r: State)
    ensures r.isSubmitted && !r.isLoading
    ensures r.email == st.email && r.error == st.error
  {
    st.(isSubmitted := true, isLoading := false)
  }

  /** `handleBackToLogin`: forget the address, the confirmation and the error. */
  function BackToLogin(st: State): (r: State)
    ensures r.email == "" && !r.isSubmitted && r.error == ""
    ensures r.isLoading == st.isLoading
  {
    st.(email := "", isSubmitted := false, error := "")
  }

  /** "Resend Email": back to the request form, the address kept. */
  function Resend(st: State): (r: State)
    ensures !r.isSubmitted
    ensures r.email == st.email && r.isLoading == st.isLoading && r.error == st.error
  {
    st.(isSubmitted := false)
  }

  /** `disabled={isLoading || !email}` on the submit button. */
  predicate SubmitDisabled(st: State) {
    st.isLoading || st.email == ""
  }

  datatype View =
    | Confirmation(sentTo: string)
    | RequestForm(error: Option<string>, inputDisabled: bool, submitDisabled: bool)

  /** The confirmation card while `isSubmitted`, otherwise the request form. */
  function Render(st: State): (v: View)
    ensures v.Confirmation? <==> st.isSubmitted
    ensures v.Confirmation? ==> v.sentTo == st.email
    ensures v.RequestForm? ==>
              && v.inputDisabled == st.isLoading
              && v.submitDisabled == SubmitDisabled(st)
              && (v.error.Some? <==> st.error != "")
              && (v.error.Some? ==> v.error.value == st.error)
  {
    if st.isSubmitted then Confirmation(st.email)
    else RequestForm(if st.error != "" then Some(st.error) else None, st.isLoading, SubmitDisabled(st))
  }

  // ---------------------------------------------------------------------------
  // Properties

  /** A well-formed address leads to the confirmation naming it; "Resend"
      returns to the enabled form with the address still filled in. */
  lemma {:induction false} SubmitConfirmResend(st: State)
    requires !st.isSubmitted
    requires MatchesPattern(st.email)
    ensures var (s1, started) := Submit(st);
            var s2 := TimerElapsed(s1);
            && started
            && Render(s1) == RequestForm(None, true, true)
            && Render(s2) == Confirmation(st.email)
            && Render(Resend(s2)) == RequestForm(None, false, false)
  {
    EmailCharacterisation(st.email);
    EmptyIsNotEmail();
    var (s1, started) := Submit(st);
    assert s1.error == "" && s1.isLoading;
  }

  /** A malformed address never reaches the confirmation: the form stays,
      enabled, with the error shown. */
  lemma {:induction false} RejectedAddressShowsError(st: State)
    requires !st.isSubmitted && !st.isLoading
    requires !MatchesPattern(st.email)
    ensures var (s1, started) := Submit(st);
            && !started
            && Render(s1) == RequestForm(Some(InvalidEmail), false, st.email == "")
  {
  }

  /** The reset screen and the registration form accept exactly the same
      addresses. */
  lemma SameRuleAsRegistration(email: string)
    ensures Submit(Initial.(email := email)).1 <==> RegisterForm.EmailError(email).None?
  {
    EmailCharacterisation(email);
  }
}
