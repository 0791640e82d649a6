/**
 * The admin dashboard's handlers and helpers: the batched delete of a
 * version, deleting the active schedule, clearing a classroom's
 * explanations, making a version active, the classroom key built from the
 * selection, and the user list with its filter and its delete-with-revert.
 */
module AdminDashboard {
  import opened Wrappers
  import opened Text
  import opened Classrooms
  import ScheduleAnalyzer
  import AdminActions

  // ---------------------------------------------------------------- delete a version

  /**
   * The end state of the dashboard's `handleDeleteVersion` under `rules`:
   * deleting the active version is one batch (delete it, move the active id to
   * the latest remaining version); deleting any other version is one delete.
   */
  function AdminDeleteOutcome(c: Classroom, rules: Rules, id: string): Classroom {
    if WasActive(c, id) then
      if rules.schedulesWritable && rules.classroomWritable then DeletedVersion(c, id) else c
    else if rules.schedulesWritable then c.(schedules := Without(c.schedules, id))
    else c
  }

  method HandleDeleteVersion(store: ClassroomStore, id: string)
    modifies store
    ensures store.State() == AdminDeleteOutcome(old(store.State()), store.rules, id)
  {
    if store.present && store.activeScheduleId == id {
      var remaining := Without(store.schedules, id);
      var newActiveId := LatestId(remaining);
      var _ := store.CommitDeleteAndRepoint(id, newActiveId);
    } else {
      var _ := store.DeleteVersion(id);
    }
  }

  /** Whatever the store refuses, the batched delete never leaves the store invalid. */
  lemma AdminDeleteKeepsValid(c: Classroom, rules: Rules, id: string)
    requires Valid(c)
    ensures Valid(AdminDeleteOutcome(c, rules, id))
  {
    if WasActive(c, id) {
      DeleteKeepsValid(c, id);
    } else {
      WithoutDistinct(c.schedules, id);
    }
  }

  /**
   * The two delete paths, the component's sequential one and the
   * dashboard's batched one, leave the same store when every write succeeds.
   */
  lemma DeletePathsAgree(c: Classroom, id: string)
    requires Valid(c)
    ensures ScheduleAnalyzer.StudentDeleteOutcome(c, AllWritable, id) == AdminDeleteOutcome(c, AllWritable, id)
    ensures AdminDeleteOutcome(c, AllWritable, id) == DeletedVersion(c, id)
  {
    ScheduleAnalyzer.StudentDeleteAgrees(c, id);
  }

  // ---------------------------------------------------------------- delete the active schedule

  /** The classroom after `handleDeleteSchedule` commits: the active version gone and the active id cleared. */
  function ScheduleCleared(c: Classroom): Classroom {
    c.(schedules := Without(c.schedules, c.activeScheduleId), activeScheduleId := "")
  }

  /** Clearing keeps the store valid, removes only the active version and leaves the active id "". */
  lemma ScheduleClearedKeepsOthers(c: Classroom)
    requires Valid(c)
    ensures Valid(ScheduleCleared(c))
    ensures ScheduleCleared(c).activeScheduleId == ""
    ensures c.activeScheduleId !in Ids(ScheduleCleared(c).schedules)
    ensures forall v :: v in c.schedules && v.id != c.activeScheduleId ==> v in ScheduleCleared(c).schedules
    ensures forall v :: v in ScheduleCleared(c).schedules ==> v in c.schedules
  {
    WithoutDistinct(c.schedules, c.activeScheduleId);
  }

  /**
   * `handleDeleteSchedule`: nothing happens when there is no active
   * schedule; otherwise one batch deletes the active version and clears the
   * active id, both or neither.
   */
  method HandleDeleteSchedule(store: ClassroomStore) returns (deleted: bool)
    modifies store
    ensures deleted == (old(store.activeScheduleId) != "" && old(store.present)
                        && store.rules.schedulesWritable && store.rules.classroomWritable)
    ensures store.State() == if deleted then ScheduleCleared(old(store.State())) else old(store.State())
  {
    if store.activeScheduleId == "" {
      return false;
    }
    deleted := store.CommitDeleteAndRepoint(store.activeScheduleId, "");
  }

  // ---------------------------------------------------------------- clear explanations

  datatype ClearOutcome = NothingToDelete | AllDeleted | DeleteFailed

  /** Deleting a set of ids that covers every explanation leaves none. */
  lemma {:induction false} WithoutCoveredExplanations(es: seq<Explanation>, ids: seq<string>)
    requires forall k :: 0 <= k < |es| ==> es[k].id in ids
    ensures WithoutExplanations(es, ids) == []
  {
    if es != [] {
      WithoutCoveredExplanations(es[1..], ids);
    }
  }

  /** Deleting every listed id leaves no explanation. */
  lemma WithoutAllExplanations(es: seq<Explanation>)
    ensures WithoutExplanations(es, ExplanationIds(es)) == []
  {
    forall k | 0 <= k < |es|
      ensures es[k].id in ExplanationIds(es)
    {
      assert ExplanationIds(es)[k] == es[k].id;
    }
    WithoutCoveredExplanations(es, ExplanationIds(es));
  }

  /**
   * `handleDeleteAllExplanations`: with no explanations it reports that
   * there is nothing to delete and writes nothing; otherwise one batch
   * deletes every explanation.
   */
  method HandleDeleteAllExplanations(store: ClassroomStore) returns (outcome: ClearOutcome)
    modifies store
    ensures old(store.explanations) == [] ==> outcome == NothingToDelete && store.State() == old(store.State())
    ensures old(store.explanations) != [] && store.rules.explanationsWritable ==>
      outcome == AllDeleted && store.State() == old(store.State()).(explanations := [])
    ensures old(store.explanations) != [] && !store.rules.explanationsWritable ==>
      outcome == DeleteFailed && store.State() == old(store.State())
  {
    if store.explanations == [] {
      return NothingToDelete;
    }
    var ids := ExplanationIds(store.explanations);
    WithoutAllExplanations(store.explanations);
    var ok := store.CommitDeleteExplanations(ids);
    outcome := if ok then AllDeleted else DeleteFailed;
  }

  // ---------------------------------------------------------------- set active

  /**
   * `handleSetActiveVersion` as written: its `not-found` fallback calls
   * `setDoc`, which the file does not import, so the fallback throws and a
   * classroom without a document is left without one.
   */
  function SetActiveAsWritten(c: Classroom, rules: Rules, id: string): (r: Classroom)
    ensures !c.present ==> r == c
    ensures c.present && rules.classroomWritable ==> r.activeScheduleId == id
    ensures r.present == c.present && r.schedules == c.schedules && r.explanations == c.explanations
    ensures !rules.classroomWritable ==> r == c
  {
    if rules.classroomWritable && c.present then c.(activeScheduleId := id) else c
  }

  /** `handleSetActiveVersion` with `setDoc` imported: the fallback creates the classroom document. */
  function SetActiveCorrected(c: Classroom, rules: Rules, id: string): (r: Classroom)
    ensures rules.classroomWritable ==> r.present && r.activeScheduleId == id
    ensures r.schedules == c.schedules && r.explanations == c.explanations
    ensures !rules.classroomWritable ==> r == c
  {
    if rules.classroomWritable then PointedAt(c, id) else c
  }

  /** For a classroom with no document yet, the code as written never sets the active id; the corrected code does. */
  lemma SetActiveMissingDocument(id: string)
    requires id != ""
    ensures var c := Classroom(false, "", [], []);
      && SetActiveAsWritten(c, AllWritable, id).activeScheduleId != id
      && SetActiveCorrected(c, AllWritable, id).activeScheduleId == id
  {
  }

  /** Where the document exists, the two agree. */
  lemma SetActiveAgreesWhenPresent(c: Classroom, rules: Rules, id: string)
    requires c.present
    ensures SetActiveAsWritten(c, rules, id) == SetActiveCorrected(c, rules, id)
  {
  }

  /** The dashboard's `handleSetActiveVersion`, with the fallback working as intended. */
  method HandleSetActiveVersion(store: ClassroomStore, id: string)
    modifies store
    ensures store.State() == SetActiveCorrected(old(store.State()), store.rules, id)
  {
    var r := store.UpdatePointer(id);
    if r == NotFound {
      var _ := store.SetPointer(id);
    }
  }

  // ---------------------------------------------------------------- classroom key

  /** The key of the selected classroom, `school-grade-class`; None when any part is empty. */
  function ClassroomKey(school: string, grade: string, cls: string): (key: Option<string>)
    ensures key.None? <==> school == "" || grade == "" || cls == ""
    ensures key.Some? ==> |key.value| == |school| + |grade| + |cls| + 2
  {
    if school == "" || grade == "" || cls == "" then None
    else Some(school + "-" + grade + "-" + cls)
  }

  /** Parts without '-' can be read back from the key by splitting it at '-'. */
  lemma ClassroomKeyParts(school: string, grade: string, cls: string)
    requires school != "" && grade != "" && cls != ""
    requires '-' !in school && '-' !in grade && '-' !in cls
    ensures Split(ClassroomKey(school, grade, cls).value, '-') == [school, grade, cls]
  {
    var key := school + "-" + grade + "-" + cls;
    assert key == school + ['-'] + (grade + ['-'] + cls);
    SplitAfter(school, '-', grade + ['-'] + cls);
    SplitAfter(grade, '-', cls);
    SplitWithoutSeparator(cls, '-');
  }

  /** Hence two selections of such parts never share a key. */
  lemma ClassroomKeyInjective(s1: string, g1: string, c1: string, s2: string, g2: string, c2: string)
    requires s1 != "" && g1 != "" && c1 != "" && s2 != "" && g2 != "" && c2 != ""
    requires '-' !in s1 && '-' !in g1 && '-' !in c1 && '-' !in s2 && '-' !in g2 && '-' !in c2
    requires ClassroomKey(s1, g1, c1) == ClassroomKey(s2, g2, c2)
    ensures s1 == s2 && g1 == g2 && c1 == c2
  {
    ClassroomKeyParts(s1, g1, c1);
    ClassroomKeyParts(s2, g2, c2);
  }

  // ---------------------------------------------------------------- user management

  datatype UserProfile = UserProfile(uid: string, name: string, email: string, role: string)

  /** `allUsers.filter(u => u.uid !== adminUid)`. */
  function WithoutUser(users: seq<UserProfile>, uid: string): (r: seq<UserProfile>)
    ensures forall u :: u in r <==> u in users && u.uid != uid
    ensures forall u :: multiset(r)[u] == if u.uid != uid then multiset(users)[u] else 0
    ensures |r| <= |users|
  {
    if users == [] then []
    else
      assert users == [users[0]] + users[1..];
      if users[0].uid == uid then WithoutUser(users[1..], uid) else [users[0]] + WithoutUser(users[1..], uid)
  }

  /** Dropping the admin keeps the list's order: it distributes over concatenation. */
  lemma {:induction false} WithoutUserConcat(a: seq<UserProfile>, b: seq<UserProfile>, uid: string)
    ensures WithoutUser(a + b, uid) == WithoutUser(a, uid) + WithoutUser(b, uid)
  {
    if a == [] {
      assert a + b == b;
    } else {
      assert (a + b)[0] == a[0] && (a + b)[1..] == a[1..] + b;
      WithoutUserConcat(a[1..], b, uid);
    }
  }

  /** The filter text, lower-cased, occurs in the lower-cased name, email or role. */
  predicate Matches(u: UserProfile, filter: string) {
    var f := ToLower(filter);
    Contains(ToLower(u.name), f) || Contains(ToLower(u.email), f) || Contains(ToLower(u.role), f)
  }

  /** `filteredUsers`: the listed users that match the filter text, in order. */
  function FilteredUsers(users: seq<UserProfile>, filter: string): (r: seq<UserProfile>)
    ensures forall u :: u in r <==> u in users && Matches(u, filter)
    ensures forall u :: multiset(r)[u] == if Matches(u, filter) then multiset(users)[u] else 0
    ensures |r| <= |users|
  {
    if users == [] then []
    else
      assert users == [users[0]] + users[1..];
      var rest := FilteredUsers(users[1..], filter);
      if Matches(users[0], filter) then [users[0]] + rest else rest
  }

  lemma FilteredUsersCons(users: seq<UserProfile>, filter: string)
    requires users != []
    ensures FilteredUsers(users, filter) ==
      (if Matches(users[0], filter) then [users[0]] else []) + FilteredUsers(users[1..], filter)
  {
  }

  /** Filtering keeps the list's order: it distributes over concatenation. */
  lemma {:induction false} FilteredUsersConcat(a: seq<UserProfile>, b: seq<UserProfile>, filter: string)
    ensures FilteredUsers(a + b, filter) == FilteredUsers(a, filter) + FilteredUsers(b, filter)
  {
    if a == [] {
      assert a + b == b;
    } else {
      assert (a + b)[0] == a[0] && (a + b)[1..] == a[1..] + b;
      FilteredUsersConcat(a[1..], b, filter);
    }
  }

  /** An empty filter lists everyone. */
  lemma {:induction false} EmptyFilterKeepsAll(users: seq<UserProfile>)
    ensures FilteredUsers(users, "") == users
  {
    if users != [] {
      assert Matches(users[0], "") by {
        assert OccursAt(ToLower(users[0].name), "", 0);
      }
      FilteredUsersCons(users, "");
      EmptyFilterKeepsAll(users[1..]);
      assert users == [users[0]] + users[1..];
    }
  }

  lemma ToLowerIdempotent(s: string)
    ensures ToLower(ToLower(s)) == ToLower(s)
  {
    assert forall k :: 0 <= k < |s| ==> LowerChar(LowerChar(s[k])) == LowerChar(s[k]);
  }

  /** The filter ignores the case of its text. */
  lemma FilterIgnoresCase(users: seq<UserProfile>, filter: string)
    ensures FilteredUsers(users, ToLower(filter)) == FilteredUsers(users, filter)
  {
    ToLowerIdempotent(filter);
    assert forall u :: Matches(u, ToLower(filter)) == Matches(u, filter);
    FilterSameWhenMatchesSame(users, ToLower(filter), filter);
  }

  lemma {:induction false} FilterSameWhenMatchesSame(users: seq<UserProfile>, f: string, g: string)
    requires forall u :: Matches(u, f) == Matches(u, g)
    ensures FilteredUsers(users, f) == FilteredUsers(users, g)
  {
    if users != [] {
      FilterSameWhenMatchesSame(users[1..], f, g);
    }
  }

  /** The admin never sees themself in the list, whatever the filter. */
  lemma AdminNeverListed(allUsers: seq<UserProfile>, adminUid: string, filter: string)
    ensures forall u :: u in FilteredUsers(WithoutUser(allUsers, adminUid), filter) ==> u.uid != adminUid
  {
  }

  /** The users table of the dashboard: the list it shows, without the signed-in admin. */
  class UserManagement {
    var users: seq<UserProfile>
    const adminUid: string

    constructor (adminUid: string)
      ensures users == [] && this.adminUid == adminUid
    {
      users := [];
      this.adminUid := adminUid;
    }

    /** The listener effect: every user but the admin. */
    method Refresh(allUsers: seq<UserProfile>)
      modifies this
      ensures users == WithoutUser(allUsers, adminUid)
    {
      users := WithoutUser(allUsers, adminUid);
    }

    /**
     * `handleDeleteUser`: the list is saved, the delete action runs (during
     * it the listener may deliver `arrived`), and then on success the user is
     * removed from the current list, while on failure the saved list is put
     * back, discarding whatever arrived meanwhile.
     */
    method HandleDeleteUser(userId: string, result: AdminActions.ActionResult, arrived: Option<seq<UserProfile>>)
      modifies this
      ensures result.success ==> users == WithoutUser(if arrived.Some? then WithoutUser(arrived.value, adminUid) else old(users), userId)
      ensures !result.success ==> users == old(users)
    {
      var originalUsers := users;
      if arrived.Some? {
        Refresh(arrived.value);
      }
      if result.success {
        users := WithoutUser(users, userId);
      } else {
        users := originalUsers;
      }
    }
  }
}
