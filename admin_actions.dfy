/**
 * The server action that deletes one user: first the profile document in
 * `users`, then the authentication account, where an account that is
 * already gone is not an error.
 */
module AdminActions {
  import opened Wrappers

  /** `{ success, message? }`, as the server actions return it. */
  datatype ActionResult = ActionResult(success: bool, message: Option<string>)

  const NotInitializedMessage: string := "Firebase Admin services are not initialized on the server."
  const UnexpectedMessage: string := "An unexpected error occurred during user deletion."

  /** `error.message || 'An unexpected error occurred during user deletion.'`. */
  function FailureMessage(errorMessage: string): (m: string)
    ensures m != ""
    ensures errorMessage != "" ==> m == errorMessage
  {
    if errorMessage != "" then errorMessage else UnexpectedMessage
  }

  /** The two stores the action touches: profile document ids and authentication uids. */
  datatype Accounts = Accounts(profiles: set<string>, accounts: set<string>)

  /**
   * How the backend behaves: whether the admin services are initialised,
   * whether it takes profile deletes (and the message it throws when not),
   * and the error other than `auth/user-not-found` that deleting an existing
   * account throws, if any.
   */
  datatype Backend = Backend(
    initialized: bool,
    profilesWritable: bool,
    profileError: string,
    authError: Option<string>)

  /** What `deleteUserAction` returns and leaves behind. */
  function DeleteUserOutcome(b: Backend, s: Accounts, userId: string): (r: (ActionResult, Accounts))
    ensures !b.initialized ==> r == (ActionResult(false, Some(NotInitializedMessage)), s)
    ensures r.0.success ==> userId !in r.1.profiles && userId !in r.1.accounts && r.0.message.None?
    ensures r.0.success <==> b.initialized && b.profilesWritable && (userId in s.accounts ==> b.authError.None?)
    ensures !r.0.success ==> r.0.message.Some? && r.0.message.value != ""
    ensures r.1.profiles == s.profiles || r.1.profiles == s.profiles - {userId}
    ensures r.1.accounts == s.accounts || r.1.accounts == s.accounts - {userId}
    ensures userId !in r.1.accounts ==> userId !in r.1.profiles || r.1 == s
  {
    if !b.initialized then (ActionResult(false, Some(NotInitializedMessage)), s)
    else if !b.profilesWritable then (ActionResult(false, Some(FailureMessage(b.profileError))), s)
    else
      var withoutProfile := s.(profiles := s.profiles - {userId});
      if userId !in s.accounts then (ActionResult(true, None), withoutProfile)
      else if b.authError.Some? then (ActionResult(false, Some(FailureMessage(b.authError.value))), withoutProfile)
      else (ActionResult(true, None), withoutProfile.(accounts := s.accounts - {userId}))
  }

  /**
   * The profile goes first: when deleting the account fails with another
   * error, the profile is already gone and the call still fails.
   */
  lemma ProfileDeletedFirst(b: Backend, s: Accounts, userId: string)
    requires b.initialized && b.profilesWritable && userId in s.accounts && b.authError.Some?
    ensures var r := DeleteUserOutcome(b, s, userId);
      && !r.0.success && userId !in r.1.profiles && userId in r.1.accounts
  {
  }

  /**
   * The action tolerates an account that is already gone, so once it has
   * succeeded, calling it again succeeds as well and changes nothing.
   */
  lemma DeleteUserRetry(b: Backend, s: Accounts, userId: string)
    requires DeleteUserOutcome(b, s, userId).0.success
    ensures var after := DeleteUserOutcome(b, s, userId).1;
      DeleteUserOutcome(b, after, userId) == (ActionResult(true, None), after)
  {
    var after := DeleteUserOutcome(b, s, userId).1;
    assert after.profiles - {userId} == after.profiles;
  }

  /** The server's view of the two stores. */
  class AdminServer {
    var profiles: set<string>
    var accounts: set<string>
    const backend: Backend

    function State(): Accounts
      reads this
    {
      Accounts(profiles, accounts)
    }

    constructor (initial: Accounts, backend: Backend)
      ensures State() == initial && this.backend == backend
    {
      profiles, accounts := initial.profiles, initial.accounts;
      this.backend := backend;
    }

    /** `deleteUserAction({ userId })`. */
    method DeleteUserAction(userId: string) returns (result: ActionResult)
      modifies this
      ensures (result, State()) == DeleteUserOutcome(backend, old(State()), userId)
    {
      if !backend.initialized {
        return ActionResult(false, Some(NotInitializedMessage));
      }
      // the profile document
      if !backend.profilesWritable {
        return ActionResult(false, Some(FailureMessage(backend.profileError)));
      }
      profiles := profiles - {userId};
      // the authentication account; `auth/user-not-found` is tolerated
      if userId in accounts {
        if backend.authError.Some? {
          return ActionResult(false, Some(FailureMessage(backend.authError.value)));
        }
        accounts := accounts - {userId};
      }
      result := ActionResult(true, None);
    }
  }
}
