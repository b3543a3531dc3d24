/**
 * The sign-up page's email flow: three client-side checks in a fixed order,
 * then the mock registration, whose failure message picks one of three
 * error toasts.
 */
module SignupPage {
  import opened Wrappers
  import opened Text
  import MockAuth

  datatype SignupForm = SignupForm(name: string, email: string, password: string, confirmPassword: string)

  const PasswordsDiffer: string := "Passwords do not match"
  const PasswordTooShort: string := "Password must be at least 6 characters"
  const NameOrEmailMissing: string := "Email and name are required"
  const AccountExists: string := "\U{274C} Account already exists. Please try signing in instead."
  const PasswordRule: string := "\U{1F512} Password must be at least 6 characters long."
  const FailurePrefix: string := "\U{26A0}\U{FE0F} Sign up failed: "

  /** The toast a failed registration shows, chosen from the lower-cased message. */
  function FailureToast(message: string): (r: string)
    ensures Contains(Lower(message), "user already exists") ==> r == AccountExists
    ensures !Contains(Lower(message), "user already exists") && Contains(Lower(message), "password must be") ==> r == PasswordRule
    ensures !Contains(Lower(message), "user already exists") && !Contains(Lower(message), "password must be") ==>
      r == FailurePrefix + message
  {
    if Contains(Lower(message), "user already exists") then AccountExists
    else if Contains(Lower(message), "password must be") then PasswordRule
    else FailurePrefix + message
  }

  datatype Outcome =
    | ErrorToast(text: string)
    | Welcome(session: MockAuth.Session, message: string)

  /** `handleEmailSignUp`: the outcome and the authentication state afterwards. */
  function SignUp(st: MockAuth.AuthState, form: SignupForm, nowMs: nat): (r: (Outcome, MockAuth.AuthState))
    ensures r.0.ErrorToast? ==> r.1 == st
    ensures form.password != form.confirmPassword ==> r.0 == ErrorToast(PasswordsDiffer)
    ensures form.password == form.confirmPassword && |form.password| < 6 ==> r.0 == ErrorToast(PasswordTooShort)
    ensures form.password == form.confirmPassword && |form.password| >= 6 && (form.email == [] || form.name == []) ==>
      r.0 == ErrorToast(NameOrEmailMissing)
    ensures r.0.Welcome? <==>
      form.password == form.confirmPassword && |form.password| >= 6 && form.email != [] && form.name != []
      && MockAuth.FindByEmail(st.users, form.email).None?
    ensures r.0.Welcome? ==>
      var reg := MockAuth.Register(st, form.name, form.email, form.password, nowMs);
      && reg.0 == Success(r.0.session) && r.1 == reg.1
      && r.0.message == "Welcome to Mantra Tracker, " + form.name + "!"
  {
    if form.password != form.confirmPassword then (ErrorToast(PasswordsDiffer), st)
    else if |form.password| < 6 then (ErrorToast(PasswordTooShort), st)
    else if form.email == [] || form.name == [] then (ErrorToast(NameOrEmailMissing), st)
    else
      var (result, st') := MockAuth.Register(st, form.name, form.email, form.password, nowMs);
      match result
      case Success(session) => (Welcome(session, "Welcome to Mantra Tracker, " + session.user.name + "!"), st')
      case Failure(message) => (ErrorToast(FailureToast(message)), st)
  }

  /** Every text contains itself. */
  lemma ContainsItself(t: string)
    ensures Contains(t, t)
  {
    assert t[..|t|] == t;
  }

  lemma LowerUserExists()
    ensures Lower(MockAuth.UserExists) == "user already exists"
  {
  }

  /** `"User already exists"` lower-cases to the phrase the page looks for. */
  lemma UserExistsIsRecognised()
    ensures Contains(Lower(MockAuth.UserExists), "user already exists")
  {
    LowerUserExists();
    ContainsItself("user already exists");
  }

  /**
   * Signing up with a taken email shows the account-exists toast; the page's
   * own length check runs first, so the service's password message never
   * reaches the user through this page.
   */
  lemma TakenEmailShowsAccountExists(st: MockAuth.AuthState, form: SignupForm, nowMs: nat)
    requires form.password == form.confirmPassword && |form.password| >= 6
    requires form.email != [] && form.name != []
    requires MockAuth.FindByEmail(st.users, form.email).Some?
    ensures SignUp(st, form, nowMs) == (ErrorToast(AccountExists), st)
  {
    UserExistsIsRecognised();
  }
}
