/**
 * The admin sign-up page: its form schema, guarded by a shared admin secret,
 * and the profile document it writes for the new account. Creating the
 * account, setting its display name and sending the verification mail are
 * calls into the authentication service and are not modelled.
 */
module AdminSignup {
  import opened Wrappers
  import opened Schemas
  import DeleteActions

  const DefaultAdminSecret: string := "Iamtheonlyadminonearth"

  /** `process.env.NEXT_PUBLIC_ADMIN_SECRET || default`: an unset or empty variable falls back to the default. */
  function AdminSecret(env: Option<string>): (secret: string)
    ensures env.Some? && env.value != "" ==> secret == env.value
    ensures env.None? || env.value == "" ==> secret == DefaultAdminSecret
    ensures secret != ""
  {
    if env.Some? && env.value != "" then env.value else DefaultAdminSecret
  }

  const ShortAdminNameMessage: string := "Name must be at least 2 characters."
  const AdminEmailMessage: string := "Invalid email address."
  const ShortAdminPasswordMessage: string := "Password must be at least 6 characters."
  const WrongSecretMessage: string := "Incorrect admin secret. Access denied."
  const AdminMismatchMessage: string := "Passwords do not match"

  datatype AdminFormValues = AdminFormValues(
    name: string, email: string, password: string, confirmPassword: string, adminSecret: string)

  /**
   * `formSchema`: a name of at least 2 characters, a valid email, a password
   * of at least 6 characters, the admin secret, and a matching confirmation.
   */
  function AdminFormIssues(v: AdminFormValues, secret: string, isEmail: string -> bool): (issues: seq<Issue>)
    ensures issues == [] <==>
      |v.name| >= 2 && isEmail(v.email) && |v.password| >= 6
      && v.adminSecret == secret && v.password == v.confirmPassword
    ensures |v.name| < 2 ==> Issue("name", ShortAdminNameMessage) in issues
    ensures !isEmail(v.email) ==> Issue("email", AdminEmailMessage) in issues
    ensures |v.password| < 6 ==> Issue("password", ShortAdminPasswordMessage) in issues
    ensures v.adminSecret != secret ==> Issue("adminSecret", WrongSecretMessage) in issues
    ensures v.password != v.confirmPassword ==> Issue("confirmPassword", AdminMismatchMessage) in issues
  {
    MinLength("name", v.name, 2, ShortAdminNameMessage)
    + EmailFormat("email", v.email, AdminEmailMessage, isEmail)
    + MinLength("password", v.password, 6, ShortAdminPasswordMessage)
    + (if v.adminSecret == secret then [] else [Issue("adminSecret", WrongSecretMessage)])
    + (if v.password == v.confirmPassword then [] else [Issue("confirmPassword", AdminMismatchMessage)])
  }

  /**
   * The admin form asks for 6 characters where the student sign-up asks for
   * 8: a 6-character password passes here and is refused there.
   */
  lemma AdminPasswordRuleIsLooser(email: string, isEmail: string -> bool)
    requires isEmail(email)
    ensures AdminFormIssues(AdminFormValues("Ada", email, "sixsix", "sixsix", DefaultAdminSecret),
                            AdminSecret(None), isEmail) == []
    ensures SignupIssues(SignupValues(email, "sixsix", "sixsix"), isEmail)
      == [Issue("password", ShortPasswordMessage)]
  {
  }

  /**
   * Without the environment variable, the secret that opens admin sign-up is
   * the one the bulk delete asks for.
   */
  lemma DefaultSecretsAgree()
    ensures AdminSecret(None) == DeleteActions.AdminSecret
  {
  }

  /** The `users/{uid}` document of an admin. */
  datatype ProfileRecord = ProfileRecord(uid: string, name: string, email: string, role: string, school: string)

  /** The profile written after the account is created: the form's name and email, role `admin`, school `all`. */
  function AdminProfileRecord(uid: string, v: AdminFormValues): (r: ProfileRecord)
    ensures r.uid == uid && r.name == v.name && r.email == v.email
    ensures r.role == "admin" && r.school == "all"
  {
    ProfileRecord(uid, v.name, v.email, "admin", "all")
  }

  /**
   * The form only submits accepted values, so every admin profile written
   * has a name and email the profile form accepts as well.
   */
  lemma AdminRecordPassesProfileSchema(uid: string, v: AdminFormValues, secret: string, isEmail: string -> bool)
    requires AdminFormIssues(v, secret, isEmail) == []
    ensures var r := AdminProfileRecord(uid, v);
      ProfileIssues(ProfileValues(r.name, r.email), isEmail) == [] && r.role == "admin"
  {
  }
}
