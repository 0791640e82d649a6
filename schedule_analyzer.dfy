/**
 * The schedule analyzer as far as it decides things: its view state machine,
 * and the handlers that upload a version, edit the active version, make a
 * version active and delete a version. The handlers are written over the
 * classroom store's single SDK calls, in the order the component awaits
 * them; a call that throws ends the handler (the component's `catch` only
 * shows a message).
 */
module ScheduleAnalyzer {
  import opened Wrappers
  import opened Classrooms

  datatype AnalysisState = Idle | Previewing | Loading | Displaying | Uploading

  /** The component state the model keeps: the analysis state and the rows being edited (`editableSchedule`). */
  datatype View = View(state: AnalysisState, editable: seq<Row>)

  // ---------------------------------------------------------------- view state machine

  /**
   * The loading effect: while any listener is loading the state is `Loading`;
   * once all have loaded, a `Loading` state resolves to `Displaying` (with a
   * copy of the active rows to edit) when the active schedule has at least
   * one row, and to `Idle` otherwise. Any other state is left alone.
   * `activeRows` is the active version's rows, None when there is none.
   */
  function Settle(v: View, isLoading: bool, activeRows: Option<seq<Row>>): (w: View)
    ensures isLoading ==> w == v.(state := Loading)
    ensures !isLoading && v.state == Loading ==>
      && (w.state == Displaying <==> activeRows.Some? && |activeRows.value| > 0)
      && (w.state == Idle <==> !(activeRows.Some? && |activeRows.value| > 0))
    ensures !isLoading && w.state == Displaying && v.state == Loading ==> w.editable == activeRows.value
    ensures !isLoading && v.state != Loading ==> w == v
  {
    if isLoading then v.(state := Loading)
    else if v.state == Loading then
      if activeRows.Some? && |activeRows.value| > 0 then View(Displaying, activeRows.value)
      else v.(state := Idle)
    else v
  }

  /** The effect runs again after every state change; once everything has loaded, a second run changes nothing. */
  lemma SettleIsStable(v: View, activeRows: Option<seq<Row>>)
    ensures Settle(Settle(v, false, activeRows), false, activeRows) == Settle(v, false, activeRows)
    ensures Settle(v, false, activeRows).state != Loading
            || (v.state != Loading && v.state == Settle(v, false, activeRows).state)
  {
  }

  /** What can happen to the view. */
  datatype Event =
    | Settled(isLoading: bool, activeRows: Option<seq<Row>>)  // the loading effect runs
    | FileChosen(isImage: bool)                               // `handleFileSelect`
    | EnterUploadMode                                         // `onEnterUploadMode`
    | CancelUpload(hasActiveSchedule: bool)                   // `onCancelUpload`
    | SubmitStarted                                           // `onSubmit` passed its guard
    | SubmitFailed                                            // `onSubmit` caught an error
    | Reload                                                  // a handler asks for a reload

  function Step(v: View, e: Event): View {
    match e
    case Settled(isLoading, activeRows) => Settle(v, isLoading, activeRows)
    case FileChosen(isImage) => if isImage then v.(state := Previewing) else v
    case EnterUploadMode => v.(state := Idle)
    case CancelUpload(hasActiveSchedule) => v.(state := if hasActiveSchedule then Displaying else Idle)
    case SubmitStarted => v.(state := Loading)
    case SubmitFailed => v.(state := Previewing)
    case Reload => v.(state := Loading)
  }

  function Run(v: View, events: seq<Event>): View
    decreases |events|
  {
    if events == [] then v else Run(Step(v, events[0]), events[1..])
  }

  /**
   * A file that is not an image leaves the view as it was; cancelling an
   * upload shows the active schedule exactly when there is one.
   */
  lemma FileAndCancelSteps(v: View, hasActiveSchedule: bool)
    ensures Step(v, FileChosen(false)) == v
    ensures Step(v, FileChosen(true)).state == Previewing
    ensures Step(v, CancelUpload(hasActiveSchedule)).state == Displaying <==> hasActiveSchedule
    ensures Step(v, CancelUpload(hasActiveSchedule)).state == Idle <==> !hasActiveSchedule
  {
  }

  /**
   * `Uploading` is declared and tested by the upload card, but no
   * transition enters it: from any other state it is never reached.
   */
  lemma {:induction false} UploadingNeverEntered(v: View, events: seq<Event>)
    requires v.state != Uploading
    ensures Run(v, events).state != Uploading
    decreases |events|
  {
    if events != [] {
      UploadingNeverEntered(Step(v, events[0]), events[1..]);
    }
  }

  // ---------------------------------------------------------------- upload

  /** The model's answer: the extracted rows, if any, and an error text. */
  datatype AiResult = AiResult(schedule: Option<seq<Row>>, errors: Option<string>)

  /** The answer counts only with at least one row. */
  predicate Extracted(ai: AiResult) {
    ai.schedule.Some? && |ai.schedule.value| > 0
  }

  /** The classroom after a successful upload of version `v`: appended to the history and made active. */
  function Uploaded(c: Classroom, v: Version): Classroom {
    c.(schedules := c.schedules + [v], present := true, activeScheduleId := v.id)
  }

  /** An upload with a fresh id keeps the store valid, adds exactly one version and points at it. */
  lemma UploadedKeepsValid(c: Classroom, v: Version)
    requires Valid(c) && v.id != "" && v.id !in Ids(c.schedules)
    ensures Valid(Uploaded(c, v))
    ensures Ids(Uploaded(c, v).schedules) == Ids(c.schedules) + [v.id]
    ensures Uploaded(c, v).activeScheduleId in Ids(Uploaded(c, v).schedules)
  {
    var h := c.schedules + [v];
    assert Ids(h) == Ids(c.schedules) + [v.id];
  }

  /**
   * `onSubmit`. Without a file or an uploader name nothing happens. Otherwise
   * a non-empty answer is stored as a new version (`addDoc`; `newId` is the
   * id the store assigns, `now` the server time) and the active id is set to it
   * (`setDoc` with merge, which creates the classroom document if needed);
   * the view then reloads. An empty answer, or a refused write, returns to
   * the preview. A refused active-id write after a stored version keeps that
   * version.
   */
  method OnSubmit(store: ClassroomStore, v: View, hasFile: bool, uploaderName: string,
                  ai: AiResult, newId: string, now: int) returns (w: View)
    requires newId != "" && newId !in Ids(store.schedules)
    modifies store
    ensures !hasFile || uploaderName == "" ==> w == v && store.State() == old(store.State())
    ensures hasFile && uploaderName != "" && (!Extracted(ai) || !store.rules.schedulesWritable) ==>
      w == v.(state := Previewing) && store.State() == old(store.State())
    ensures hasFile && uploaderName != "" && Extracted(ai) && store.rules.schedulesWritable ==>
      var nv := Version(newId, ai.schedule.value, uploaderName, Some(now));
      if store.rules.classroomWritable then
        w == v.(state := Loading) && store.State() == Uploaded(old(store.State()), nv)
      else
        w == v.(state := Previewing) && store.State() == old(store.State()).(schedules := old(store.schedules) + [nv])
  {
    if !hasFile || uploaderName == "" {
      return v;
    }
    w := v.(state := Loading);
    if !Extracted(ai) {
      return v.(state := Previewing);
    }
    var nv := Version(newId, ai.schedule.value, uploaderName, Some(now));
    var added := store.AddVersion(nv);
    if !added {
      return v.(state := Previewing);
    }
    var pointed := store.SetPointer(newId);
    if !pointed {
      return v.(state := Previewing);
    }
    w := v.(state := Loading);
  }

  // ---------------------------------------------------------------- editing

  /**
   * `handleScheduleChange`: a copy of the rows with cell `[rowIndex][day]`
   * set to `subject`. None when `rowIndex` is not a row (the update throws).
   */
  function HandleScheduleChange(rows: seq<Row>, rowIndex: int, day: string, subject: string): (r: Option<seq<Row>>)
    ensures r.Some? <==> 0 <= rowIndex < |rows|
    ensures r.Some? ==> |r.value| == |rows|
    ensures r.Some? ==> day in r.value[rowIndex] && r.value[rowIndex][day] == subject
    ensures r.Some? ==> forall d :: d in rows[rowIndex] && d != day ==> d in r.value[rowIndex] && r.value[rowIndex][d] == rows[rowIndex][d]
    ensures r.Some? ==> r.value[rowIndex].Keys == rows[rowIndex].Keys + {day}
    ensures r.Some? ==> forall k :: 0 <= k < |rows| && k != rowIndex ==> r.value[k] == rows[k]
  {
    if 0 <= rowIndex < |rows| then Some(rows[rowIndex := rows[rowIndex][day := subject]]) else None
  }

  /** Writing a cell's old subject back undoes an edit. */
  lemma ScheduleChangeUndo(rows: seq<Row>, rowIndex: int, day: string, subject: string)
    requires 0 <= rowIndex < |rows| && day in rows[rowIndex]
    ensures HandleScheduleChange(HandleScheduleChange(rows, rowIndex, day, subject).value,
                                 rowIndex, day, rows[rowIndex][day]) == Some(rows)
  {
    var r := HandleScheduleChange(rows, rowIndex, day, subject).value;
    var back := HandleScheduleChange(r, rowIndex, day, rows[rowIndex][day]).value;
    assert back[rowIndex] == rows[rowIndex] by {
      assert back[rowIndex].Keys == rows[rowIndex].Keys;
    }
    assert forall k :: 0 <= k < |rows| ==> back[k] == rows[k];
    assert back == rows;
  }

  /** Of two edits of the same cell, the later one wins. */
  lemma ScheduleChangeLastWins(rows: seq<Row>, rowIndex: int, day: string, first: string, second: string)
    requires 0 <= rowIndex < |rows|
    ensures HandleScheduleChange(HandleScheduleChange(rows, rowIndex, day, first).value, rowIndex, day, second)
            == HandleScheduleChange(rows, rowIndex, day, second)
  {
    var a := HandleScheduleChange(HandleScheduleChange(rows, rowIndex, day, first).value, rowIndex, day, second).value;
    var b := HandleScheduleChange(rows, rowIndex, day, second).value;
    assert a[rowIndex] == b[rowIndex] by {
      assert a[rowIndex].Keys == b[rowIndex].Keys;
    }
    assert forall k :: 0 <= k < |rows| ==> a[k] == b[k];
    assert a == b;
  }

  /** Saving edits replaces one version's rows and keeps the store valid. */
  lemma SaveEditsKeepsValid(c: Classroom, id: string, rows: seq<Row>)
    requires Valid(c)
    ensures Valid(c.(schedules := WithRows(c.schedules, id, rows)))
  {
    WithRowsIds(c.schedules, id, rows);
  }

  /**
   * `onSaveEdits`: without an uploader name or an active version id nothing
   * happens; otherwise the active version's rows are overwritten with the
   * edited rows (a refused write is only reported). The active id never moves.
   * Returns whether editing ends. `activeId` stands for the listener's
   * `activeSchedule?.id`: the classroom's active id when it names a loaded
   * version, "" otherwise.
   */
  method OnSaveEdits(store: ClassroomStore, editable: seq<Row>, uploaderName: string, activeId: string)
    returns (editingEnded: bool)
    requires activeId == "" || activeId == store.activeScheduleId
    modifies store
    ensures editingEnded == (uploaderName != "" && activeId != "")
    ensures store.activeScheduleId == old(store.activeScheduleId) && store.present == old(store.present)
    ensures editingEnded && store.rules.schedulesWritable && activeId in Ids(old(store.schedules)) ==>
      store.State() == old(store.State()).(schedules := WithRows(old(store.schedules), activeId, editable))
    ensures !(editingEnded && store.rules.schedulesWritable && activeId in Ids(old(store.schedules))) ==>
      store.State() == old(store.State())
  {
    if uploaderName == "" || activeId == "" {
      return false;
    }
    var _ := store.UpdateRows(activeId, editable);
    editingEnded := true;
  }

  // ---------------------------------------------------------------- set active

  /**
   * `handleSetActiveVersion`: `updateDoc` of the active id; when the classroom
   * document is missing (`not-found`), `setDoc` creates it with the active id.
   * On success the view reloads; a refused write changes nothing.
   */
  method HandleSetActiveVersion(store: ClassroomStore, v: View, id: string) returns (w: View)
    modifies store
    ensures store.State() == if store.rules.classroomWritable then PointedAt(old(store.State()), id) else old(store.State())
    ensures w == if store.rules.classroomWritable then v.(state := Loading) else v
  {
    w := v;
    var r := store.UpdatePointer(id);
    if r == Written {
      w := v.(state := Loading);
    } else if r == NotFound {
      var created := store.SetPointer(id);
      if created {
        w := v.(state := Loading);
      }
    }
  }

  // ---------------------------------------------------------------- delete a version

  /**
   * The end state of the component's `handleDeleteVersion` under `rules`.
   * An empty history makes `scheduleHistory[0]` throw: nothing changes.
   * When the only version is deleted, the active id is cleared first (if it
   * pointed there) and the version deleted next. Otherwise the version is
   * deleted first and the active id moved afterwards, in a separate write.
   */
  function StudentDeleteOutcome(c: Classroom, rules: Rules, id: string): Classroom {
    var h := c.schedules;
    if h == [] then c
    else if |h| <= 1 && h[0].id == id then
      if WasActive(c, id) && !rules.classroomWritable then c
      else
        var cleared := if WasActive(c, id) then c.(activeScheduleId := "") else c;
        if rules.schedulesWritable then cleared.(schedules := Without(h, id)) else cleared
    else if !rules.schedulesWritable then c
    else
      var rest := Without(h, id);
      if WasActive(c, id) && rules.classroomWritable then c.(schedules := rest, activeScheduleId := LatestId(rest))
      else c.(schedules := rest)
  }

  /** Whether the handler ends by reloading: only the general path, when every write it makes succeeds. */
  predicate StudentDeleteReloads(c: Classroom, rules: Rules, id: string) {
    && c.schedules != []
    && !(|c.schedules| <= 1 && c.schedules[0].id == id)
    && rules.schedulesWritable
    && (WasActive(c, id) ==> rules.classroomWritable)
  }

  method HandleDeleteVersion(store: ClassroomStore, v: View, id: string) returns (w: View)
    modifies store
    ensures store.State() == StudentDeleteOutcome(old(store.State()), store.rules, id)
    ensures w == if StudentDeleteReloads(old(store.State()), store.rules, id) then v.(state := Loading) else v
  {
    w := v;
    var history := store.schedules;
    if |history| == 0 {
      return;
    }
    if |history| <= 1 && history[0].id == id {
      if store.present && store.activeScheduleId == id {
        var r := store.UpdatePointer("");
        if r != Written {
          return;
        }
      }
      var _ := store.DeleteVersion(id);
      return;
    }
    var deleted := store.DeleteVersion(id);
    if !deleted {
      return;
    }
    if store.present && store.activeScheduleId == id {
      var newActiveId := LatestId(Without(history, id));
      var r := store.UpdatePointer(newActiveId);
      if r != Written {
        return;
      }
    }
    w := v.(state := Loading);
  }

  /** When every write succeeds, the component's delete does what deleting a version is meant to do. */
  lemma StudentDeleteAgrees(c: Classroom, id: string)
    requires Valid(c)
    ensures StudentDeleteOutcome(c, AllWritable, id) == DeletedVersion(c, id)
  {
    var h := c.schedules;
    if h == [] {
      assert Without(h, id) == [];
      LatestIdIsLatest([]);
    } else if |h| <= 1 && h[0].id == id {
      assert Without(h, id) == [] by {
        assert h == [h[0]];
      }
      LatestIdIsLatest([]);
    }
  }

  /**
   * The two writes of the general path are not atomic: when the store takes
   * the delete but refuses the active id update, the active version is gone and
   * the active id still names it.
   */
  lemma StudentDeleteCanDangle(v1: Version, v2: Version)
    requires v1.id != v2.id && v1.id != "" && v2.id != ""
    ensures var c := Classroom(true, v2.id, [v1, v2], []);
      && Valid(c)
      && !PointerValid(StudentDeleteOutcome(c, Rules(false, true, true), v2.id))
  {
    var c := Classroom(true, v2.id, [v1, v2], []);
    assert Ids([v1, v2]) == [v1.id, v2.id];
    var rest := Without([v1, v2], v2.id);
    assert v2.id !in Ids(rest);
  }
}
