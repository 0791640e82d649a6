/**
 * A classroom as the document store holds it: the classroom document (keyed
 * `school-grade-class`) with its `activeScheduleId` field, the `schedules`
 * subcollection (every uploaded version, the history) and the
 * `explanations` subcollection (the students' commitments).
 *
 * `ClassroomStore` is that part of the store, held in memory. Its methods are
 * the single SDK calls the components make (`addDoc`, `updateDoc`, `setDoc`,
 * `deleteDoc`, a committed `writeBatch`); each says exactly what it does to
 * the store and when the backend refuses it. The handlers of the schedule
 * analyzer and of the admin dashboard are written on top of them.
 */
module Classrooms {
  import opened Wrappers
  import Sorting

  /** One row of an extracted schedule: a JSON object of string fields ("session", "time", and one per weekday). */
  type Row = map<string, string>

  /** One schedule version: a document of the `schedules` subcollection. */
  datatype Version = Version(id: string, rows: seq<Row>, uploadedBy: string, uploadedAt: Option<int>)

  datatype ContributorStatus = Pending | Accepted | Declined
  datatype Contributor = Contributor(userId: string, userName: string, status: ContributorStatus)
  datatype ExplanationStatus = Upcoming | Finished

  /** A commitment to explain a topic in one session; `explanationDate` is an instant in milliseconds. */
  datatype Explanation = Explanation(
    id: string,
    subject: string,
    session: string,
    status: ExplanationStatus,
    explanationDate: Option<int>,
    contributors: seq<Contributor>)

  /**
   * The classroom document and its two subcollections. A missing
   * `activeScheduleId` field is represented by "", which is how every guard
   * of the source treats it (both are falsy, and neither equals a document id).
   */
  datatype Classroom = Classroom(
    present: bool,
    activeScheduleId: string,
    schedules: seq<Version>,
    explanations: seq<Explanation>)

  /** Which writes the backend's security rules accept. A refused write throws. */
  datatype Rules = Rules(classroomWritable: bool, schedulesWritable: bool, explanationsWritable: bool)

  const AllWritable := Rules(true, true, true)

  /** How a single `updateDoc` ends: written, or thrown with `permission-denied` or `not-found`. */
  datatype WriteResult = Written | Denied | NotFound

  /** `uploadedAt?.toDate()?.getTime() || 0`: a missing upload time counts as 0. */
  function Stamp(v: Version): int {
    v.uploadedAt.GetOr(0)
  }

  function Ids(h: seq<Version>): (ids: seq<string>)
    ensures |ids| == |h| && forall k :: 0 <= k < |h| ==> ids[k] == h[k].id
  {
    if h == [] then [] else [h[0].id] + Ids(h[1..])
  }

  /** The same id projection as `Ids`, over explanations rather than versions. */
  function ExplanationIds(es: seq<Explanation>): (ids: seq<string>)
    ensures |ids| == |es| && forall k :: 0 <= k < |es| ==> ids[k] == es[k].id
  {
    if es == [] then [] else [es[0].id] + ExplanationIds(es[1..])
  }

  ghost predicate Distinct(ids: seq<string>) {
    forall i, j :: 0 <= i < j < |ids| ==> ids[i] != ids[j]
  }

  /** In a sequence of distinct ids, equal entries sit at the same index. */
  lemma DistinctIndex(ids: seq<string>, i: nat, j: nat)
    requires Distinct(ids) && i < |ids| && j < |ids| && ids[i] == ids[j]
    ensures i == j
  {
  }

  /** The key invariant: the active id is "" or names a version still in the history. */
  ghost predicate PointerValid(c: Classroom) {
    c.activeScheduleId == "" || c.activeScheduleId in Ids(c.schedules)
  }

  /** What the store guarantees of every classroom: document ids are unique and non-empty, and the active id is valid. */
  ghost predicate Valid(c: Classroom) {
    && Distinct(Ids(c.schedules))
    && "" !in Ids(c.schedules)
    && Distinct(ExplanationIds(c.explanations))
    && PointerValid(c)
    && (!c.present ==> c.activeScheduleId == "")
  }

  /** `history.filter(s => s.id !== id)`. */
  function Without(h: seq<Version>, id: string): (r: seq<Version>)
    ensures |r| <= |h|
    ensures forall v :: v in r <==> v in h && v.id != id
    ensures forall v :: multiset(r)[v] == if v.id != id then multiset(h)[v] else 0
    ensures id !in Ids(r)
    ensures forall x :: x in Ids(r) <==> x in Ids(h) && x != id
  {
    if h == [] then []
    else
      assert h == [h[0]] + h[1..];
      if h[0].id == id then Without(h[1..], id)
      else [h[0]] + Without(h[1..], id)
  }

  /** The ids of two histories one after the other. */
  lemma IdsConcat(a: seq<Version>, b: seq<Version>)
    ensures Ids(a + b) == Ids(a) + Ids(b)
  {
  }

  /** A version in front of a history: its ids stay distinct exactly when its id is new and theirs are distinct. */
  lemma DistinctCons(x: Version, h: seq<Version>)
    ensures Distinct(Ids([x] + h)) <==> x.id !in Ids(h) && Distinct(Ids(h))
  {
    IdsConcat([x], h);
    var ids := Ids([x] + h);
    assert ids == [x.id] + Ids(h);
    if Distinct(ids) {
      forall i, j | 0 <= i < j < |h| ensures Ids(h)[i] != Ids(h)[j] {
        assert ids[i + 1] != ids[j + 1];
      }
      forall k | 0 <= k < |h| ensures Ids(h)[k] != x.id {
        assert ids[0] != ids[k + 1];
      }
    }
  }

  /** A rearranged history has no id the original lacks. */
  lemma PermSameIds(h: seq<Version>, r: seq<Version>)
    requires multiset(r) == multiset(h)
    ensures forall id :: id in Ids(r) ==> id in Ids(h)
  {
    forall id | id in Ids(r) ensures id in Ids(h) {
      var k :| 0 <= k < |r| && Ids(r)[k] == id;
      assert r[k] in multiset(h);
      var j :| 0 <= j < |h| && h[j] == r[k];
      assert Ids(h)[j] == id;
    }
  }

  /** Removing an id keeps the remaining ids distinct. */
  lemma {:induction false} WithoutDistinct(h: seq<Version>, id: string)
    requires Distinct(Ids(h))
    ensures Distinct(Ids(Without(h, id)))
  {
    if h != [] {
      var rest := h[1..];
      assert h == [h[0]] + rest;
      DistinctCons(h[0], rest);
      WithoutDistinct(rest, id);
      if h[0].id != id {
        var t := Without(rest, id);
        assert Without(h, id) == [h[0]] + t;
        DistinctCons(h[0], t);
      }
    }
  }

  /**
   * The version that becomes active when the active one is deleted: sort the
   * remaining versions by upload time, latest first, and take the first id,
   * or "" when none remain.
   */
  function LatestId(h: seq<Version>): string {
    var sorted := Sorting.SortDesc(h, Stamp);
    if |sorted| > 0 then sorted[0].id else ""
  }

  /**
   * `LatestId` is "" for an empty history; otherwise it is the id of the
   * version with the greatest upload time, the earliest of them in
   * collection order when several share that time.
   */
  lemma LatestIdIsLatest(h: seq<Version>)
    ensures h == [] ==> LatestId(h) == ""
    ensures h != [] ==> LatestId(h) == h[Sorting.FirstMax(h, Stamp)].id
    ensures h != [] ==> LatestId(h) in Ids(h)
  {
    if h != [] {
      Sorting.SortDescHead(h, Stamp);
    }
  }

  /** Overwriting rows keeps every id in place. */
  lemma {:induction false} WithRowsIds(h: seq<Version>, id: string, rows: seq<Row>)
    ensures Ids(WithRows(h, id, rows)) == Ids(h)
  {
    var r := WithRows(h, id, rows);
    assert forall k :: 0 <= k < |h| ==> Ids(r)[k] == Ids(h)[k];
  }

  /**
   * The guard both delete handlers use, `classroom?.activeScheduleId === id`:
   * the classroom document exists and points at `id`.
   */
  predicate WasActive(c: Classroom, id: string) {
    c.present && c.activeScheduleId == id
  }

  /**
   * What deleting a version is meant to leave: the version gone from the
   * history and, when it was the active one, the active id moved to the latest
   * remaining version (or "" when none remain).
   */
  function DeletedVersion(c: Classroom, id: string): Classroom {
    var rest := Without(c.schedules, id);
    c.(schedules := rest, activeScheduleId := if WasActive(c, id) then LatestId(rest) else c.activeScheduleId)
  }

  /** Deleting a version keeps the store valid: in particular the active id never dangles. */
  lemma DeleteKeepsValid(c: Classroom, id: string)
    requires Valid(c)
    ensures Valid(DeletedVersion(c, id))
    ensures id !in Ids(DeletedVersion(c, id).schedules)
  {
    var rest := Without(c.schedules, id);
    WithoutDistinct(c.schedules, id);
    LatestIdIsLatest(rest);
  }

  /** Deleting the active version re-points to the latest remaining one, or to "" when it was the last. */
  lemma DeleteActiveRepoints(c: Classroom, id: string)
    requires WasActive(c, id)
    ensures var rest := Without(c.schedules, id);
      && (rest == [] ==> DeletedVersion(c, id).activeScheduleId == "")
      && (rest != [] ==> DeletedVersion(c, id).activeScheduleId == rest[Sorting.FirstMax(rest, Stamp)].id)
  {
    LatestIdIsLatest(Without(c.schedules, id));
  }

  /** Deleting a version that is not active leaves the active id and every other version as they were. */
  lemma DeleteInactiveKeepsPointer(c: Classroom, id: string)
    requires !WasActive(c, id)
    ensures DeletedVersion(c, id).activeScheduleId == c.activeScheduleId
    ensures forall v :: v in c.schedules && v.id != id ==> v in DeletedVersion(c, id).schedules
  {
  }

  /**
   * Two versions, v2 uploaded after v1 and active. Deleting v2 makes v1
   * active; deleting v1 next leaves an empty history and the active id "".
   */
  lemma DeleteTwiceExample(v1: Version, v2: Version, es: seq<Explanation>)
    requires v1.id != v2.id && v1.id != "" && v2.id != ""
    requires v1.uploadedAt.Some? && v2.uploadedAt.Some? && v1.uploadedAt.value < v2.uploadedAt.value
    ensures var c1 := DeletedVersion(Classroom(true, v2.id, [v1, v2], es), v2.id);
      && c1.schedules == [v1] && c1.activeScheduleId == v1.id
      && DeletedVersion(c1, v1.id) == Classroom(true, "", [], es)
  {
    var c := Classroom(true, v2.id, [v1, v2], es);
    assert Without([v1, v2], v2.id) == [v1] by {
      assert [v1, v2][1..] == [v2];
    }
    LatestIdIsLatest([v1]);
    assert Without([v1], v1.id) == [];
    LatestIdIsLatest([]);
  }

  /** Making `id` active: the classroom document exists afterwards and points at `id`. */
  function PointedAt(c: Classroom, id: string): Classroom {
    c.(present := true, activeScheduleId := id)
  }

  /** Pointing at a version of the history (or at "") keeps the store valid. */
  lemma PointedAtKeepsValid(c: Classroom, id: string)
    requires Valid(c) && (id == "" || id in Ids(c.schedules))
    ensures Valid(PointedAt(c, id))
  {
  }

  /** The part of the store that holds one classroom. */
  class ClassroomStore {
    var present: bool
    var activeScheduleId: string
    var schedules: seq<Version>
    var explanations: seq<Explanation>
    const rules: Rules

    function State(): Classroom
      reads this
    {
      Classroom(present, activeScheduleId, schedules, explanations)
    }

    constructor (initial: Classroom, rules: Rules)
      ensures State() == initial && this.rules == rules
    {
      present := initial.present;
      activeScheduleId := initial.activeScheduleId;
      schedules := initial.schedules;
      explanations := initial.explanations;
      this.rules := rules;
    }

    /**
     * `updateDoc(classroom, { activeScheduleId: id })`: refused by the rules
     * (`permission-denied`) when the document is not writable, refused with
     * `not-found` when it is missing.
     */
    method UpdatePointer(id: string) returns (r: WriteResult)
      modifies this
      ensures r == if !rules.classroomWritable then Denied else if !old(present) then NotFound else Written
      ensures State() == if r == Written then old(State()).(activeScheduleId := id) else old(State())
    {
      if !rules.classroomWritable {
        r := Denied;
      } else if !present {
        r := NotFound;
      } else {
        r := Written;
        activeScheduleId := id;
      }
    }

    /** `setDoc(classroom, { activeScheduleId: id })`, merged or not: creates the document when it is missing. */
    method SetPointer(id: string) returns (ok: bool)
      modifies this
      ensures ok == rules.classroomWritable
      ensures State() == if ok then old(State()).(present := true, activeScheduleId := id) else old(State())
    {
      ok := rules.classroomWritable;
      if ok {
        present, activeScheduleId := true, id;
      }
    }

    /** `addDoc(schedules, v)`: appends a version under a fresh id. */
    method AddVersion(v: Version) returns (ok: bool)
      modifies this
      ensures ok == rules.schedulesWritable
      ensures State() == if ok then old(State()).(schedules := old(schedules) + [v]) else old(State())
    {
      ok := rules.schedulesWritable;
      if ok {
        schedules := schedules + [v];
      }
    }

    /** `deleteDoc(schedules/id)`: deleting a document that is not there succeeds and changes nothing. */
    method DeleteVersion(id: string) returns (ok: bool)
      modifies this
      ensures ok == rules.schedulesWritable
      ensures State() == if ok then old(State()).(schedules := Without(old(schedules), id)) else old(State())
    {
      ok := rules.schedulesWritable;
      if ok {
        schedules := Without(schedules, id);
      }
    }

    /** `updateDoc(schedules/id, { schedule: rows })`: overwrites one version's rows; refused when it is missing. */
    method UpdateRows(id: string, rows: seq<Row>) returns (ok: bool)
      modifies this
      ensures ok == (rules.schedulesWritable && id in Ids(old(schedules)))
      ensures !ok ==> State() == old(State())
      ensures ok ==> State() == old(State()).(schedules := WithRows(old(schedules), id, rows))
    {
      ok := rules.schedulesWritable && id in Ids(schedules);
      if ok {
        schedules := WithRows(schedules, id, rows);
      }
    }

    /**
     * A committed batch of `delete(schedules/id)` and
     * `update(classroom, { activeScheduleId: newActive })`: both or neither.
     */
    method CommitDeleteAndRepoint(id: string, newActive: string) returns (ok: bool)
      modifies this
      ensures ok == (rules.schedulesWritable && rules.classroomWritable && old(present))
      ensures State() == if ok then old(State()).(schedules := Without(old(schedules), id), activeScheduleId := newActive)
                         else old(State())
    {
      ok := rules.schedulesWritable && rules.classroomWritable && present;
      if ok {
        schedules, activeScheduleId := Without(schedules, id), newActive;
      }
    }

    /** A committed batch of `update(explanations/id, { status: 'Finished' })` for each id of `ids`. */
    method CommitFinished(ids: seq<string>) returns (ok: bool)
      modifies this
      ensures ok == (rules.explanationsWritable && forall id :: id in ids ==> id in ExplanationIds(old(explanations)))
      ensures State() == if ok then old(State()).(explanations := MarkFinished(old(explanations), ids)) else old(State())
    {
      ok := rules.explanationsWritable && forall id :: id in ids ==> id in ExplanationIds(explanations);
      if ok {
        explanations := MarkFinished(explanations, ids);
      }
    }

    /** A committed batch of `delete(explanations/id)` for each id of `ids`. */
    method CommitDeleteExplanations(ids: seq<string>) returns (ok: bool)
      modifies this
      ensures ok == rules.explanationsWritable
      ensures State() == if ok then old(State()).(explanations := WithoutExplanations(old(explanations), ids)) else old(State())
    {
      ok := rules.explanationsWritable;
      if ok {
        explanations := WithoutExplanations(explanations, ids);
      }
    }
  }

  /** The history with the rows of version `id` replaced; every other field and version is kept. */
  function WithRows(h: seq<Version>, id: string, rows: seq<Row>): (r: seq<Version>)
    ensures |r| == |h|
    ensures forall k :: 0 <= k < |h| ==> r[k] == if h[k].id == id then h[k].(rows := rows) else h[k]
  {
    if h == [] then []
    else [if h[0].id == id then h[0].(rows := rows) else h[0]] + WithRows(h[1..], id, rows)
  }

  /** The explanations with those whose id is in `ids` set to `Finished`. */
  function MarkFinished(es: seq<Explanation>, ids: seq<string>): (r: seq<Explanation>)
    ensures |r| == |es|
    ensures forall k :: 0 <= k < |es| ==> r[k] == if es[k].id in ids then es[k].(status := Finished) else es[k]
  {
    if es == [] then []
    else [if es[0].id in ids then es[0].(status := Finished) else es[0]] + MarkFinished(es[1..], ids)
  }

  /** The explanations whose id is not in `ids`, in order. */
  function WithoutExplanations(es: seq<Explanation>, ids: seq<string>): (r: seq<Explanation>)
    ensures forall e :: e in r <==> e in es && e.id !in ids
    ensures forall e :: multiset(r)[e] == if e.id !in ids then multiset(es)[e] else 0
  {
    if es == [] then []
    else
      assert es == [es[0]] + es[1..];
      if es[0].id in ids then WithoutExplanations(es[1..], ids)
      else [es[0]] + WithoutExplanations(es[1..], ids)
  }
}
