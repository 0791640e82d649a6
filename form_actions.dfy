/**
 * The server actions behind the sign-up, log-in, password-reset and profile
 * forms. Each validates its input against its schema and answers with a
 * form state; none of them touches a store. The one-second delay and the
 * logging are not modelled.
 */
module FormActions {
  import opened Schemas

  datatype FormState = FormState(success: bool, message: string)

  const InvalidFormMessage: string := "Invalid form data."
  const SignupSuccessMessage: string := "Account created successfully! You can now log in."
  const LoginSuccessMessage: string := "Logged in successfully!"
  const LoginFailureMessage: string := "Invalid email or password."
  /** The one password the placeholder log-in accepts. */
  const AcceptedPassword: string := "password123"
  const ResetSentMessage: string := "If an account with that email exists, a reset link has been sent."
  const ProfileUpdatedMessage: string := "Your profile has been updated successfully."

  /** `signup(values)`. */
  function Signup(v: SignupValues, isEmail: string -> bool): (r: FormState)
    ensures r.success <==> isEmail(v.email) && |v.password| >= 8 && v.password == v.confirmPassword
    ensures r.message == if r.success then SignupSuccessMessage else InvalidFormMessage
  {
    if SignupIssues(v, isEmail) != [] then FormState(false, InvalidFormMessage)
    else FormState(true, SignupSuccessMessage)
  }

  /** `login(values)`: valid input with the placeholder password logs in; any other valid input is refused. */
  function Login(v: LoginValues, isEmail: string -> bool): (r: FormState)
    ensures r.success <==> isEmail(v.email) && v.password == AcceptedPassword
    ensures !isEmail(v.email) || v.password == "" ==> r == FormState(false, InvalidFormMessage)
    ensures isEmail(v.email) && v.password != "" && v.password != AcceptedPassword ==>
      r == FormState(false, LoginFailureMessage)
    ensures r.success ==> r.message == LoginSuccessMessage
  {
    if LoginIssues(v, isEmail) != [] then FormState(false, InvalidFormMessage)
    else if v.password == AcceptedPassword then FormState(true, LoginSuccessMessage)
    else FormState(false, LoginFailureMessage)
  }

  /** `forgotPassword(values)`. */
  function ForgotPassword(email: string, isEmail: string -> bool): (r: FormState)
    ensures r.success <==> isEmail(email)
    ensures r.message == if r.success then ResetSentMessage else InvalidFormMessage
  {
    if ForgotPasswordIssues(email, isEmail) != [] then FormState(false, InvalidFormMessage)
    else FormState(true, ResetSentMessage)
  }

  /** `updateProfile(values)`. */
  function UpdateProfile(v: ProfileValues, isEmail: string -> bool): (r: FormState)
    ensures r.success <==> |v.name| >= 2 && isEmail(v.email)
    ensures r.message == if r.success then ProfileUpdatedMessage else InvalidFormMessage
  {
    if ProfileIssues(v, isEmail) != [] then FormState(false, InvalidFormMessage)
    else FormState(true, ProfileUpdatedMessage)
  }

  /**
   * The reset answer does not reveal whether an account exists: every two
   * well-formed addresses get the same answer.
   */
  lemma ResetAnswerIsUniform(a: string, b: string, isEmail: string -> bool)
    requires isEmail(a) && isEmail(b)
    ensures ForgotPassword(a, isEmail) == ForgotPassword(b, isEmail)
  {
  }

  /**
   * Signing up with a password does not make it a log-in password: of all
   * passwords sign-up accepts, only the placeholder logs in.
   */
  lemma SignupThenLogin(v: SignupValues, isEmail: string -> bool)
    requires Signup(v, isEmail).success
    ensures Login(LoginValues(v.email, v.password), isEmail).success <==> v.password == AcceptedPassword
    ensures v.password != AcceptedPassword ==>
      Login(LoginValues(v.email, v.password), isEmail).message == LoginFailureMessage
  {
  }
}
