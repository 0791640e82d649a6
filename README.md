# Accountable: a verified model of its classroom store and server actions

Accountable is a school web app. Students of a class share one weekly
schedule, which they upload as a photo that a model turns into rows. They
commit to explaining topics in given sessions, and they invite classmates
to co-explain. Admins manage users and classrooms. This project models in
Dafny the parts of the app that decide what is stored and what is answered,
and proves properties of them:

- **Schedule versions** (`Classrooms`, `ScheduleAnalyzer`, `AdminDashboard`).
  Each classroom keeps a history of schedule versions and an
  `activeScheduleId` field. The handlers upload a version, edit one, make
  one active, and delete one. The student view deletes with two separate
  writes; the admin view deletes in one batch. Both paths are modelled and
  shown to agree when every write succeeds. Only the batched one always keeps
  the active id valid.
- **Status rollover and reminders** (`SessionStatus`). The session end time
  is parsed from a row's time field ("13:45–15:00"). The timed pass marks
  past explanations `Finished`. The reminder alert lists upcoming
  explanations the user accepted that are due within two days.
- **Schedule history panel** (`ScheduleHistory`). Versions are shown newest
  first, with the active one marked.
- **Invitations** (`InvitationBell`). Answering an invitation rewrites the
  user's contributor status, then deletes the invitation.
- **Admin server actions** (`AdminActions`, `DeleteActions`). These delete
  one user (profile first, then account), or bulk-delete users and
  classrooms batch by batch behind a shared secret.
- **Forms** (`Schemas`, `FormActions`, `AdminSignup`). These cover the
  validation schemas, the placeholder server actions that use them, and the
  admin sign-up form with the profile it writes.

The shared helper modules are `Wrappers` (an `Option`), `Text` (JavaScript's
`split`, `join`, `trim`, `toLowerCase`, `includes` and `Number` on digit
strings) and `Sorting` (the stable descending sort the app uses on versions).

The document store is modelled in memory. `Classrooms.ClassroomStore`
holds one classroom: whether its document exists, the active id, the
`schedules` subcollection and the `explanations` subcollection. Its methods
are the single SDK calls the components make. A `Rules` value says which
writes the backend refuses. A refused write throws, so a handler that makes
two writes can stop half-way, and a batch commits all of its writes or none.
`DeleteActions.Database` maps collection paths to their document ids.
`InvitationBell.InvitationInbox` holds the explanation documents and the
user's invitations. A missing `activeScheduleId` is the empty string. The
app treats it the same way: both are falsy, and neither equals a document id.

## Model

| member | source | states |
|---|---|---|
| `Classrooms.Without` | src/components/app/schedule-analyzer.tsx:387 | the remaining history holds exactly the versions whose id differs, each as many times as before, and the id is no longer among the ids |
| `Classrooms.WithoutDistinct` | src/components/app/schedule-analyzer.tsx:387 | removing a version keeps the remaining document ids distinct |
| `Classrooms.LatestIdIsLatest` | src/components/app/schedule-analyzer.tsx:388-394 | the id chosen after a delete is "" for an empty history; otherwise it is the version with the greatest upload time (a missing time counts as 0), the first such in the model's collection order (see "## Left out"), and it belongs to the history |
| `Classrooms.DeleteKeepsValid` | src/components/app/schedule-analyzer.tsx:362-399 | deleting a version keeps every store invariant, and in particular the active id never dangles |
| `Classrooms.DeleteActiveRepoints` | src/components/app/schedule-analyzer.tsx:386-397 | deleting the active version moves the active id to the latest remaining version, or to "" when none remain |
| `Classrooms.DeleteInactiveKeepsPointer` | src/components/app/schedule-analyzer.tsx:377-386 | deleting a version that is not active leaves the active id and every other version in place |
| `Classrooms.DeleteTwiceExample` | src/components/app/schedule-analyzer.tsx:362-399 | with v2 newer than v1 and active: deleting v2 makes v1 active; deleting v1 next leaves an empty history and the active id "" |
| `Classrooms.PointedAtKeepsValid` | src/components/app/schedule-analyzer.tsx:335-360 | pointing at a version of the history, or at "", keeps the store valid |
| `Classrooms.WithRowsIds` | src/components/app/schedule-analyzer.tsx:304-312 | overwriting one version's rows keeps every id in place |
| `Classrooms.WithRows` | src/components/app/schedule-analyzer.tsx:307-311 | only the version with that id gets the new rows; every other version, and every other field, is kept |
| `Classrooms.MarkFinished` | src/components/app/schedule-analyzer.tsx:172-175 | exactly the explanations whose ids are batched become `Finished`; the rest are untouched |
| `Classrooms.WithoutExplanations` | src/components/app/admin-dashboard.tsx:316-317 | exactly the explanations whose ids are not deleted remain, each as many times as before |
| `Classrooms.ClassroomStore.UpdatePointer` | src/components/app/schedule-analyzer.tsx:340 | `updateDoc` of the active id: refused when the rules deny it, `not-found` when the document is missing, otherwise only the active id changes |
| `Classrooms.ClassroomStore.SetPointer` | src/components/app/schedule-analyzer.tsx:270 | `setDoc` of the active id: creates the document when it is missing and sets the active id; a refusal changes nothing |
| `Classrooms.ClassroomStore.AddVersion` | src/components/app/schedule-analyzer.tsx:266-267 | `addDoc` adds exactly one version, placed last in the model (see "## Left out"); a refusal changes nothing |
| `Classrooms.ClassroomStore.DeleteVersion` | src/components/app/schedule-analyzer.tsx:377-378 | `deleteDoc` removes the versions with that id and keeps every other one; a refusal changes nothing |
| `Classrooms.ClassroomStore.UpdateRows` | src/components/app/schedule-analyzer.tsx:311-313 | `updateDoc` of a version's rows is refused when the version is missing; otherwise only those rows change |
| `Classrooms.ClassroomStore.CommitDeleteAndRepoint` | src/components/app/admin-dashboard.tsx:356-360 | the batch of delete and active-id update applies both or neither |
| `Classrooms.ClassroomStore.CommitFinished` | src/components/app/schedule-analyzer.tsx:162-182 | the batch of status updates applies all of them or none |
| `Classrooms.ClassroomStore.CommitDeleteExplanations` | src/components/app/admin-dashboard.tsx:315-317 | the batch of deletes applies all of them or none |
| `ScheduleAnalyzer.Settle` | src/components/app/schedule-analyzer.tsx:136-150 | while loading, the state is `loading`; once loaded, `loading` turns into `displaying` (with the active rows to edit) exactly when the active schedule has a row, and into `idle` otherwise; any other state is kept |
| `ScheduleAnalyzer.SettleIsStable` | src/components/app/schedule-analyzer.tsx:136-150 | once everything has loaded, running the effect again changes nothing |
| `ScheduleAnalyzer.FileAndCancelSteps` | src/components/app/schedule-analyzer.tsx:196-248 | a non-image file leaves the view unchanged, an image leads to `previewing`, and cancelling returns to `displaying` exactly when there is an active schedule |
| `ScheduleAnalyzer.UploadingNeverEntered` | src/components/app/schedule-analyzer.tsx:48 | no sequence of events ever reaches the `uploading` state that the upload card tests for at line 691 |
| `ScheduleAnalyzer.UploadedKeepsValid` | src/components/app/schedule-analyzer.tsx:259-270 | an upload under a fresh id keeps the store valid, adds exactly that id, and points at it |
| `ScheduleAnalyzer.OnSubmit` | src/components/app/schedule-analyzer.tsx:251-291 | without a file or an uploader name, nothing happens; an empty answer or a refused `addDoc` returns to the preview and writes nothing; otherwise one version is appended and made active; a refused active-id write keeps the appended version |
| `ScheduleAnalyzer.HandleScheduleChange` | src/components/app/schedule-analyzer.tsx:294-302 | the copy differs from the rows only in the one cell, which holds the new subject; an index outside the rows yields nothing |
| `ScheduleAnalyzer.ScheduleChangeUndo` | src/components/app/schedule-analyzer.tsx:294-302 | writing the old subject back restores the rows exactly |
| `ScheduleAnalyzer.ScheduleChangeLastWins` | src/components/app/schedule-analyzer.tsx:294-302 | of two edits of one cell, the later wins |
| `ScheduleAnalyzer.SaveEditsKeepsValid` | src/components/app/schedule-analyzer.tsx:304-327 | saving edits keeps the store valid |
| `ScheduleAnalyzer.OnSaveEdits` | src/components/app/schedule-analyzer.tsx:304-327 | editing ends exactly when there is an uploader name and an active id; only that version's rows are overwritten; the active id never moves |
| `ScheduleAnalyzer.HandleSetActiveVersion` | src/components/app/schedule-analyzer.tsx:335-360 | when the rules allow it, the document exists and points at the id afterwards (created on `not-found`) and the view reloads; otherwise nothing changes |
| `ScheduleAnalyzer.HandleDeleteVersion` | src/components/app/schedule-analyzer.tsx:362-409 | the handler's end state is its write sequence under the rules: the last version clears the active id first, the general path deletes first and re-points afterwards, and an empty history changes nothing |
| `ScheduleAnalyzer.StudentDeleteAgrees` | src/components/app/schedule-analyzer.tsx:362-399 | when every write succeeds, the student delete is exactly the intended delete |
| `ScheduleAnalyzer.StudentDeleteCanDangle` | src/components/app/schedule-analyzer.tsx:378-397 | the two writes are not atomic: with the active id update refused, the active id names a deleted version |
| `SessionStatus.FindSession` | src/components/app/schedule-analyzer.tsx:60 | the first row whose `session` field is the session, or none when no row has it |
| `SessionStatus.GetSessionEndTime` | src/components/app/schedule-analyzer.tsx:56-72 | null when no row has the session or the first such row has no time field; when the first matching row has a time field, the result is exactly what that field parses to (and a result implies the field holds an en dash) |
| `SessionStatus.EndTimeOfField` | src/components/app/schedule-analyzer.tsx:63-71 | for any start without an en dash, any white space around the end part, hours and minutes as any digit strings (padded or not, `''` reading as 0) and any further `:`-fields, the end time is the value of the first two fields |
| `SessionStatus.EndTimeRoundTrip` | src/components/app/schedule-analyzer.tsx:63-71 | the canonical writing "start–H:MM" parses to exactly H and MM |
| `SessionStatus.EndTimeNeedsDashAndColon` | src/components/app/schedule-analyzer.tsx:63-69 | for every time field: no en dash gives null, and no `:` after the first en dash gives null (the minutes are `undefined`, hence `NaN`) |
| `SessionStatus.EndTimeNaN` | src/components/app/schedule-analyzer.tsx:67-69 | for every time field: an hours or minutes field that is not a digit string once trimmed (`NaN`) gives null |
| `SessionStatus.QualifyingIdsMembers` | src/components/app/schedule-analyzer.tsx:165-177 | the batch holds the id of every explanation that is upcoming, has an end time and a date, and whose end has passed, and no other id |
| `SessionStatus.QualifyingIdsExactly` | src/components/app/schedule-analyzer.tsx:165-174 | with distinct document ids, an explanation's id is in the batch exactly when that explanation qualifies |
| `SessionStatus.QualifyingIdsAreIds` | src/components/app/schedule-analyzer.tsx:172-174 | every id the batch updates names an explanation of the classroom |
| `SessionStatus.NoneQualifyEmptyBatch` | src/components/app/schedule-analyzer.tsx:172-179 | when no explanation qualifies, the batch is empty, so no commit is made |
| `SessionStatus.UpcomingOnlySameBatch` | src/components/app/schedule-analyzer.tsx:158 | filtering to upcoming explanations first does not change the batch |
| `SessionStatus.RolledOver` | src/components/app/schedule-analyzer.tsx:165-182 | after a pass, each qualifying explanation is `Finished` and every other one is unchanged |
| `SessionStatus.CommitIsRollover` | src/components/app/schedule-analyzer.tsx:172-182 | with distinct ids, committing the batch is exactly the pass |
| `SessionStatus.RolloverIdempotent` | src/components/app/schedule-analyzer.tsx:156-189 | a second pass at the same instant queues nothing and changes nothing |
| `SessionStatus.RolloverMonotone` | src/components/app/schedule-analyzer.tsx:172 | what qualifies now still qualifies later |
| `SessionStatus.PlanStatusUpdates` | src/components/app/schedule-analyzer.tsx:158-177 | the loop queues exactly the qualifying ids, in order, and `updatesMade` counts them |
| `SessionStatus.CheckAndUpdateStatuses` | src/components/app/schedule-analyzer.tsx:153-186 | for distinct explanation ids: without an active schedule nothing happens; a commit happens only when something qualifies, and it is the rollover; a refused commit changes nothing |
| `SessionStatus.SessionEndsAtThree` | src/components/app/schedule-analyzer.tsx:62-71 | the session "13:45–15:00" ends at 15:00 |
| `SessionStatus.RolloverAtSessionEnd` | src/components/app/schedule-analyzer.tsx:169-172 | on the explanation's day that session is still upcoming at 15:00:00.000 and finished one millisecond later |
| `SessionStatus.DiffDaysWindow` | src/components/app/schedule-analyzer.tsx:481-482 | a whole-day difference of 0 to 2 means the date is less than a day before now and less than three days after |
| `SessionStatus.ReminderFilter` | src/components/app/schedule-analyzer.tsx:477-483 | the alert keeps exactly the upcoming explanations the user accepted that are 0 to 2 days away, each as many times as the input holds it; a candidate without a date makes rendering fail |
| `SessionStatus.ReminderFilterConcat` | src/components/app/schedule-analyzer.tsx:477-483 | the filter keeps the input's order: filtering a concatenation is the concatenation of the filtered parts, and fails when either part fails |
| `SessionStatus.RemindersSpec` | src/components/app/schedule-analyzer.tsx:473-484 | the reminders are a rearrangement of the filtered explanations (same elements, same counts), ordered by date ascending |
| `ScheduleHistory.SortedHistory` | src/components/app/schedule-history.tsx:37-41 | the sorted copy is a permutation of the history, newest first (a missing time counts as 0), led by the first of the newest |
| `ScheduleHistory.Items` | src/components/app/schedule-history.tsx:57-120 | one item per version: the k-th item shows the k-th version of the sorted history, a permutation of the history; an item is active exactly when its id equals the active id; only an inactive item offers "Set Active"; every item offers delete |
| `ScheduleHistory.ShowsPlaceholder` | src/components/app/schedule-history.tsx:126-130 | the placeholder shows exactly when the history is empty |
| `ScheduleHistory.ActiveShownIffInHistory` | src/components/app/schedule-history.tsx:57-58 | some item is marked active exactly when the active id names a version of the history |
| `ScheduleHistory.AtMostOneActive` | src/components/app/schedule-history.tsx:57-58 | with distinct version ids, at most one item is marked active |
| `ScheduleHistory.SortKeepsDistinct` | src/components/app/schedule-history.tsx:37 | sorting keeps version ids distinct |
| `AdminDashboard.HandleDeleteVersion` | src/components/app/admin-dashboard.tsx:345-371 | deleting the active version is one batch that deletes it and re-points; deleting any other version is one delete |
| `AdminDashboard.AdminDeleteKeepsValid` | src/components/app/admin-dashboard.tsx:345-371 | whatever the rules refuse, the batched delete keeps the store valid |
| `AdminDashboard.DeletePathsAgree` | src/components/app/admin-dashboard.tsx:345-366 | the student and admin delete paths leave the same store when every write succeeds, and that store is the intended delete |
| `AdminDashboard.ScheduleClearedKeepsOthers` | src/components/app/admin-dashboard.tsx:282-295 | deleting the active schedule keeps the store valid, clears the active id, and removes only the active version |
| `AdminDashboard.HandleDeleteSchedule` | src/components/app/admin-dashboard.tsx:282-302 | without an active schedule nothing happens; otherwise the version delete and the active id clear commit together or not at all |
| `AdminDashboard.WithoutCoveredExplanations` | src/components/app/admin-dashboard.tsx:315-317 | deleting ids that cover every explanation leaves none |
| `AdminDashboard.WithoutAllExplanations` | src/components/app/admin-dashboard.tsx:307-317 | deleting every listed explanation id leaves no explanation |
| `AdminDashboard.HandleDeleteAllExplanations` | src/components/app/admin-dashboard.tsx:304-325 | with no explanations it reports nothing to delete and writes nothing; otherwise one batch clears them all, or a refusal changes nothing |
| `AdminDashboard.SetActiveAsWritten` | src/components/app/admin-dashboard.tsx:327-343 | as written, the active id is set only on an existing document; a missing document stays missing, a refused write changes nothing, and the schedules and explanations are kept |
| `AdminDashboard.SetActiveCorrected` | src/components/app/admin-dashboard.tsx:327-343 | with the fallback working, the document exists and points at the id whenever the rules allow the write |
| `AdminDashboard.SetActiveMissingDocument` | src/components/app/admin-dashboard.tsx:333-336 | for a classroom with no document, the code as written never sets the active id; the corrected code does |
| `AdminDashboard.SetActiveAgreesWhenPresent` | src/components/app/admin-dashboard.tsx:327-331 | where the document exists, the two agree |
| `AdminDashboard.HandleSetActiveVersion` | src/components/app/admin-dashboard.tsx:327-343 | the handler with `setDoc` imported (see Findings) ends in the corrected outcome |
| `AdminDashboard.ClassroomKey` | src/components/app/admin-dashboard.tsx:238-241 | no key when a part is empty; otherwise `school-grade-class` |
| `AdminDashboard.ClassroomKeyParts` | src/components/app/admin-dashboard.tsx:238-241 | for parts without '-', splitting the key at '-' gives back the three parts |
| `AdminDashboard.ClassroomKeyInjective` | src/components/app/admin-dashboard.tsx:238-241 | two selections of such parts never share a key |
| `AdminDashboard.WithoutUser` | src/components/app/admin-dashboard.tsx:82-87 | the list holds exactly the users whose uid differs, each as many times as the input holds it |
| `AdminDashboard.WithoutUserConcat` | src/components/app/admin-dashboard.tsx:82-87 | dropping the admin keeps the input's order: it distributes over concatenation |
| `AdminDashboard.FilteredUsers` | src/components/app/admin-dashboard.tsx:111-118 | the list holds exactly the users whose lower-cased name, email or role contains the lower-cased filter, each as many times as the input holds it |
| `AdminDashboard.FilteredUsersConcat` | src/components/app/admin-dashboard.tsx:111-118 | filtering keeps the input's order: it distributes over concatenation |
| `AdminDashboard.EmptyFilterKeepsAll` | src/components/app/admin-dashboard.tsx:111-118 | an empty filter lists everyone, in order |
| `AdminDashboard.FilterIgnoresCase` | src/components/app/admin-dashboard.tsx:113-117 | lower-casing the filter text does not change the list |
| `AdminDashboard.FilterSameWhenMatchesSame` | src/components/app/admin-dashboard.tsx:111-118 | two filter texts that match the same users list the same users, in the same order |
| `AdminDashboard.AdminNeverListed` | src/components/app/admin-dashboard.tsx:82-118 | the signed-in admin is never listed, whatever the filter |
| `AdminDashboard.UserManagement.Refresh` | src/components/app/admin-dashboard.tsx:82-87 | the listener sets the list to every user but the admin |
| `AdminDashboard.UserManagement.HandleDeleteUser` | src/components/app/admin-dashboard.tsx:90-109 | on success the user is removed from the current list; on failure the saved list is restored, discarding what arrived meanwhile |
| `AdminActions.DeleteUserOutcome` | src/app/admin/actions.ts:16-50 | uninitialised services fail before any delete; success holds exactly when the profile delete succeeds and the account is missing or deleted; on success neither store holds the user and there is no message; failures carry a non-empty message; the account is never deleted while the profile remains |
| `AdminActions.ProfileDeletedFirst` | src/app/admin/actions.ts:26-41 | when deleting the account fails with another error, the profile is already gone and the call fails |
| `AdminActions.DeleteUserRetry` | src/app/admin/actions.ts:31-44 | after a success, calling again succeeds and changes nothing |
| `AdminActions.AdminServer.DeleteUserAction` | src/app/admin/actions.ts:16-50 | the action's result and end state are the outcome above |
| `DeleteActions.Database.DeleteCollection` | src/app/admin/delete-actions.ts:15-27 | batches of at most the batch size, all full but the last, add up to the documents; the collection ends empty; an empty collection makes no commit; a refused commit changes nothing; other collections are untouched |
| `DeleteActions.Take` | src/app/admin/delete-actions.ts:16-17 | `limit(n)` returns the first n documents, or all of them when there are fewer |
| `DeleteActions.BatchCount` | src/app/admin/delete-actions.ts:15-27 | N documents take ceil(N / batch size) commits |
| `DeleteActions.FullBatches` | src/app/admin/delete-actions.ts:16-24 | full batches add up to their count times the batch size |
| `DeleteActions.Database.DeleteSubcollections` | src/app/admin/delete-actions.ts:30-35 | every collection directly under the document ends empty, unless one was refused; nothing else is touched, nested subcollections included |
| `DeleteActions.Database.DeleteUsersData` | src/app/admin/delete-actions.ts:46-57 | the accounts of the first page of at most 1000 are deleted, none excluded, and then `users` is emptied |
| `DeleteActions.Database.DeleteClassroom` | src/app/admin/delete-actions.ts:63-66 | one classroom's subcollections are emptied before its document is deleted, and nothing outside `classrooms` changes |
| `DeleteActions.Database.DeleteClassroomsData` | src/app/admin/delete-actions.ts:59-67 | every classroom document deleted has all of its subcollections empty; on success `classrooms` is empty; users and accounts are untouched |
| `DeleteActions.Database.DeleteAllDataAction` | src/app/admin/delete-actions.ts:38-75 | a wrong secret changes nothing and answers "Incorrect admin secret."; `users` leaves classrooms alone and `schedules` leaves users alone; success answers "Successfully deleted all \<target\>."; an error answers with its message and keeps what was already deleted: after a correct secret the first page of accounts is gone for `users` and `all` whatever follows, every classroom removed from `classrooms` has its subcollections emptied, and for `all` any change outside `users` means `users` was emptied first |
| `InvitationBell.FirstContributor` | src/components/app/invitation-bell.tsx:56 | the first position whose user is the signed-in user, or -1 when there is none |
| `InvitationBell.Respond` | src/components/app/invitation-bell.tsx:56-60 | only the user's first contributor entry changes, to `accepted` or `declined`; every other entry and field is kept |
| `InvitationBell.InvitationInbox.HandleInvitation` | src/components/app/invitation-bell.tsx:28-84 | a missing explanation aborts and keeps the invitation; a non-contributor causes no write but still deletes the invitation; a refused update aborts; the invitation is deleted only after the transaction, and a refused delete keeps it |
| `InvitationBell.RespondIdempotent` | src/components/app/invitation-bell.tsx:56-60 | answering again with the same answer changes nothing more |
| `InvitationBell.LastAnswerWins` | src/components/app/invitation-bell.tsx:56-60 | a later answer replaces an earlier one |
| `InvitationBell.RespondKeepsContributors` | src/components/app/invitation-bell.tsx:56-60 | an answer changes no entry's user, and no other user's entry |
| `InvitationBell.RespondAsStranger` | src/components/app/invitation-bell.tsx:58-61 | answering as a non-contributor leaves the explanation as it was |
| `InvitationBell.WithoutInvitation` | src/components/app/invitation-bell.tsx:71-72 | exactly the invitations with another id remain, each as many times as before |
| `InvitationBell.NoneWithId` | src/components/app/invitation-bell.tsx:71-72 | deleting an id that no invitation has leaves the list as it was |
| `InvitationBell.UnreadCount` | src/components/app/invitation-bell.tsx:87 | the badge counts the loaded invitations, and is 0 when none are loaded |
| `InvitationBell.AnsweringLowersCount` | src/components/app/invitation-bell.tsx:71-87 | with distinct ids, answering one invitation lowers the count by exactly one and keeps every other invitation |
| `Schemas.SignupIssues` | src/lib/schemas.ts:3-14 | accepted exactly with a valid email, a password of at least 8 characters, and a matching confirmation; each failure is reported on its field with its message, the mismatch on `confirmPassword` |
| `Schemas.LoginIssues` | src/lib/schemas.ts:16-19 | accepted exactly with a valid email and a non-empty password |
| `Schemas.ForgotPasswordIssues` | src/lib/schemas.ts:21-25 | accepted exactly with a valid email; otherwise one issue with the reset message |
| `Schemas.ProfileIssues` | src/lib/schemas.ts:27-30 | accepted exactly with a name of at least 2 characters and a valid email |
| `Schemas.SignupReportsBoth` | src/lib/schemas.ts:6-14 | the confirmation check still runs when the length check has failed |
| `Schemas.SignupPasswordLogsIn` | src/lib/schemas.ts:3-19 | every value sign-up accepts passes the log-in schema |
| `FormActions.Signup` | src/lib/actions.ts:19-35 | success exactly when the sign-up schema accepts; "Invalid form data." otherwise |
| `FormActions.Login` | src/lib/actions.ts:37-53 | success exactly for valid input with the password "password123"; invalid input gets "Invalid form data."; other valid input gets "Invalid email or password." |
| `FormActions.ForgotPassword` | src/lib/actions.ts:55-71 | every valid email gets the same success message |
| `FormActions.UpdateProfile` | src/lib/actions.ts:73-89 | fails exactly when the profile schema rejects |
| `FormActions.ResetAnswerIsUniform` | src/lib/actions.ts:60-70 | two valid addresses get the same answer, so the answer reveals no account |
| `FormActions.SignupThenLogin` | src/lib/actions.ts:24-52 | of the passwords sign-up accepts, only "password123" logs in |
| `AdminSignup.AdminSecret` | src/app/signup/admin/page.tsx:27 | the environment value when it is set and non-empty, otherwise "Iamtheonlyadminonearth" |
| `AdminSignup.AdminFormIssues` | src/app/signup/admin/page.tsx:29-40 | accepted exactly with a name of at least 2 characters, a valid email, a password of at least 6, the admin secret and a matching confirmation; each failure is reported on its field |
| `AdminSignup.AdminPasswordRuleIsLooser` | src/app/signup/admin/page.tsx:32 | a 6-character password passes here and is refused by the student sign-up |
| `AdminSignup.DefaultSecretsAgree` | src/app/signup/admin/page.tsx:27 | without the variable, the sign-up secret is the bulk delete's secret |
| `AdminSignup.AdminProfileRecord` | src/app/signup/admin/page.tsx:82-88 | the profile carries the account's uid and the form's name and email, with role `admin` and school `all` |
| `AdminSignup.AdminRecordPassesProfileSchema` | src/app/signup/admin/page.tsx:76-88 | every admin profile written has a name and email the profile schema accepts |

## Left out

- The model call that extracts rows from the photo is outside the model. Its answer is a parameter: some rows or none, plus an error text.
- Firebase listeners, the 60-second timer of the status pass, toasts, dialogs and JSX are left out. The transaction's automatic retry is left out too. A handler is one run against a store snapshot.
- Concurrency is left out. Two handlers or two clients never interleave, and there are no listener updates during a handler. The one exception is `AdminDashboard.UserManagement.HandleDeleteUser`, which takes one listener update as a parameter.
- Backend failures are modelled as refused writes (`Rules`, `refused`, writability flags). Network errors and quotas are not modelled separately.
- Strings are sequences of characters. The model has no UTF-16 code units, so `length` counts characters. `toLowerCase` maps only A–Z. `trim` removes space, tab, line feed, carriage return, U+000B, U+000C, U+00A0 and U+FEFF; the other characters JavaScript's `trim` removes (U+1680, U+2000–U+200A, U+2028, U+2029, U+202F, U+205F, U+3000) are kept.
- `Number` reads only digit strings; the empty string reads as 0. Any other text is `NaN`, so signs, decimals and exponents in a time field are not modelled.
- The validator's email regular expression is not modelled; every schema takes it as the predicate `isEmail`.
- Instants are integers in milliseconds, with days of constant length. Time zones and daylight saving time are left out.
- Server timestamps are a parameter (`now`). A missing upload time is `None` and sorts as 0.
- `SessionStatus.CheckAndUpdateStatuses`: a batched id that no longer names a document makes the commit fail as a whole. The pass reads the collection it writes, so this only arises under concurrency.
- `Classrooms.ClassroomStore.AddVersion`: a sequence stands for the order in which the store lists a collection. The store lists a query without `orderBy` by document id, and `addDoc` picks a random id, so a new version lands at an arbitrary position; the model appends it. `ScheduleAnalyzer.OnSubmit` (through `ScheduleAnalyzer.Uploaded`) inherits this. The stable sorts of the analyzer and the history list break ties by that order, so when several versions share an upload time (every missing upload time counts as 0), which of them comes first, and which `Classrooms.LatestIdIsLatest` picks, may differ from the running app.
- `DeleteActions.Database.DeleteUsersData`: `deleteUsers` is modelled as deleting every listed account. Per-account failures, which that call reports without throwing, are not modelled.
- `DeleteActions.Database.DeleteClassroomsData`: `listDocuments` returns the documents of `classrooms`. Documents that exist only as ancestors of subcollections are not modelled.
- `DeleteActions.Database.DeleteCollection` requires a positive batch size; a query with `limit(0)` is not modelled. Every call site passes 100.
- `DeleteActions.Database.DeleteSubcollections` visits the non-empty subcollections. `listCollections` also lists empty ones, and deleting those writes nothing.
- Email verification, account creation and display-name updates on the sign-up pages call the authentication service. They are not modelled, and neither are the profile's own read-only pages.
- `InvitationBell.InvitationInbox.HandleInvitation` keys explanations by classroom id and explanation id. The invitation's sender and creation time only feed the popover text and are not modelled.

## Findings

| source | as written | input that shows it | evidently intended | confidence | as-written member | corrected member |
|---|---|---|---|---|---|---|
| src/components/app/admin-dashboard.tsx:51 | the not-found fallback of `handleSetActiveVersion` (lines 333-336) calls `setDoc`, which the file does not import, so the fallback throws a `ReferenceError` | a classroom key with no classroom document: `updateDoc` fails with `not-found`, then the fallback throws, and neither the document nor the active id is ever written | `setDoc` imported as in the schedule analyzer, so the fallback creates the document with the active id | not executed | `AdminDashboard.SetActiveAsWritten` | `AdminDashboard.SetActiveCorrected` |
