/**
 * The form schemas shared by the sign-up, log-in, password-reset and profile
 * forms. Validating a value yields the list of issues, each with the field it
 * is reported on and its message; the value is accepted when the list is
 * empty. A field check that fails does not stop the checks after it, and an
 * object refinement still runs when a field check has failed.
 *
 * The email format is the validator's own regular expression, which this
 * model leaves abstract: every schema takes it as the predicate `isEmail`.
 */
module Schemas {

  datatype Issue = Issue(path: string, message: string)

  const InvalidEmailMessage: string := "Please enter a valid email address."
  const ResetEmailMessage: string := "Please enter a valid email to reset your password."
  /** The validator's default message when no message is given. */
  const DefaultEmailMessage: string := "Invalid email"
  const ShortPasswordMessage: string := "Password must be at least 8 characters long."
  const MismatchMessage: string := "Passwords don't match."
  const PasswordRequiredMessage: string := "Password is required."
  const ShortNameMessage: string := "Name must be at least 2 characters."

  /** `.min(n, message)` on a string: one issue when the string is shorter than `n`. */
  function MinLength(path: string, s: string, n: nat, message: string): (issues: seq<Issue>)
    ensures issues == [] <==> |s| >= n
    ensures issues != [] ==> issues == [Issue(path, message)]
  {
    if |s| < n then [Issue(path, message)] else []
  }

  /** `.email(message)`: one issue when the string is not an email address. */
  function EmailFormat(path: string, s: string, message: string, isEmail: string -> bool): (issues: seq<Issue>)
    ensures issues == [] <==> isEmail(s)
    ensures issues != [] ==> issues == [Issue(path, message)]
  {
    if isEmail(s) then [] else [Issue(path, message)]
  }

  datatype SignupValues = SignupValues(email: string, password: string, confirmPassword: string)

  /** `SignupSchema`: a valid email, a password of at least 8 characters, and a matching confirmation. */
  function SignupIssues(v: SignupValues, isEmail: string -> bool): (issues: seq<Issue>)
    ensures issues == [] <==> isEmail(v.email) && |v.password| >= 8 && v.password == v.confirmPassword
    ensures !isEmail(v.email) ==> Issue("email", InvalidEmailMessage) in issues
    ensures |v.password| < 8 ==> Issue("password", ShortPasswordMessage) in issues
    ensures v.password != v.confirmPassword ==> Issue("confirmPassword", MismatchMessage) in issues
    ensures forall i :: i in issues ==> i.path in {"email", "password", "confirmPassword"}
  {
    EmailFormat("email", v.email, InvalidEmailMessage, isEmail)
    + MinLength("password", v.password, 8, ShortPasswordMessage)
    + (if v.password == v.confirmPassword then [] else [Issue("confirmPassword", MismatchMessage)])
  }

  datatype LoginValues = LoginValues(email: string, password: string)

  /** `LoginSchema`: a valid email and a non-empty password. */
  function LoginIssues(v: LoginValues, isEmail: string -> bool): (issues: seq<Issue>)
    ensures issues == [] <==> isEmail(v.email) && v.password != ""
    ensures v.password == "" ==> Issue("password", PasswordRequiredMessage) in issues
    ensures !isEmail(v.email) ==> Issue("email", InvalidEmailMessage) in issues
  {
    EmailFormat("email", v.email, InvalidEmailMessage, isEmail)
    + MinLength("password", v.password, 1, PasswordRequiredMessage)
  }

  /** `ForgotPasswordSchema`: a valid email, with its own message. */
  function ForgotPasswordIssues(email: string, isEmail: string -> bool): (issues: seq<Issue>)
    ensures issues == [] <==> isEmail(email)
    ensures !isEmail(email) ==> issues == [Issue("email", ResetEmailMessage)]
  {
    EmailFormat("email", email, ResetEmailMessage, isEmail)
  }

  datatype ProfileValues = ProfileValues(name: string, email: string)

  /** `ProfileSchema`: a name of at least 2 characters and a valid email. */
  function ProfileIssues(v: ProfileValues, isEmail: string -> bool): (issues: seq<Issue>)
    ensures issues == [] <==> |v.name| >= 2 && isEmail(v.email)
    ensures |v.name| < 2 ==> Issue("name", ShortNameMessage) in issues
    ensures !isEmail(v.email) ==> Issue("email", DefaultEmailMessage) in issues
  {
    MinLength("name", v.name, 2, ShortNameMessage)
    + EmailFormat("email", v.email, DefaultEmailMessage, isEmail)
  }

  /**
   * A password that is long enough but not confirmed fails only on
   * `confirmPassword`, and a short unconfirmed one is reported on both fields:
   * the refinement still runs after the length check has failed.
   */
  lemma SignupReportsBoth(email: string, isEmail: string -> bool)
    requires isEmail(email)
    ensures SignupIssues(SignupValues(email, "abc", "abd"), isEmail)
      == [Issue("password", ShortPasswordMessage), Issue("confirmPassword", MismatchMessage)]
    ensures SignupIssues(SignupValues(email, "abcdefgh", "abcdefgi"), isEmail)
      == [Issue("confirmPassword", MismatchMessage)]
  {
  }

  /** Every value the sign-up schema accepts has a password the log-in schema accepts. */
  lemma SignupPasswordLogsIn(v: SignupValues, isEmail: string -> bool)
    requires SignupIssues(v, isEmail) == []
    ensures LoginIssues(LoginValues(v.email, v.password), isEmail) == []
  {
  }
}
