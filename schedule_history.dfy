/**
 * The schedule history panel: every version of a classroom's schedule,
 * newest first, with the active one marked. The active item offers no
 * "Set Active" button; every item offers delete. An empty history shows a
 * placeholder instead.
 */
module ScheduleHistory {
  import opened Wrappers
  import opened Classrooms
  import Sorting

  /**
   * `[...history].sort(...)`: a copy of the history ordered by upload time,
   * newest first, a missing time counting as 0; versions with the same time
   * keep their order.
   */
  function SortedHistory(history: seq<Version>): (r: seq<Version>)
    ensures multiset(r) == multiset(history)
    ensures forall i, j :: 0 <= i < j < |r| ==> Stamp(r[i]) >= Stamp(r[j])
    ensures history != [] ==> r[0] == history[Sorting.FirstMax(history, Stamp)]
    ensures forall k :: 0 <= k < |r| ==> r[k] in history
  {
    if history == [] then []
    else
      Sorting.SortDescHead(history, Stamp);
      Sorting.SortDescFrom(history, Stamp);
      Sorting.SortDesc(history, Stamp)
  }

  /** One entry of the panel and the buttons it shows. */
  datatype Item = Item(version: Version, isActive: bool, canSetActive: bool, canDelete: bool)

  function ItemOf(v: Version, activeScheduleId: Option<string>): Item {
    var isActive := activeScheduleId == Some(v.id);
    Item(v, isActive, !isActive, true)
  }

  function ItemsOf(sorted: seq<Version>, activeScheduleId: Option<string>): (items: seq<Item>)
    ensures |items| == |sorted|
    ensures forall k :: 0 <= k < |sorted| ==> items[k] == ItemOf(sorted[k], activeScheduleId)
  {
    if sorted == [] then [] else [ItemOf(sorted[0], activeScheduleId)] + ItemsOf(sorted[1..], activeScheduleId)
  }

  /**
   * The items the panel renders. `activeScheduleId` is the optional prop:
   * an item is active exactly when its id equals it, and only an inactive
   * item can be set active.
   */
  function Items(history: seq<Version>, activeScheduleId: Option<string>): (items: seq<Item>)
    ensures |items| == |history|
    ensures forall k :: 0 <= k < |items| ==> items[k].version == SortedHistory(history)[k]
    ensures forall k :: 0 <= k < |items| ==>
      && items[k].version in history
      && (items[k].isActive <==> activeScheduleId == Some(items[k].version.id))
      && items[k].canSetActive == !items[k].isActive
      && items[k].canDelete
    ensures forall k :: 0 <= k < |items| - 1 ==> Stamp(items[k].version) >= Stamp(items[k + 1].version)
  {
    ItemsOf(SortedHistory(history), activeScheduleId)
  }

  /** `sortedHistory.length === 0`: the placeholder is shown exactly when there is no version. */
  function ShowsPlaceholder(history: seq<Version>): (shown: bool)
    ensures shown <==> history == []
  {
    |SortedHistory(history)| == 0
  }

  /** Some item is marked active exactly when the active id names a version of the history. */
  lemma ActiveShownIffInHistory(history: seq<Version>, activeScheduleId: Option<string>)
    ensures (exists k :: 0 <= k < |history| && Items(history, activeScheduleId)[k].isActive)
      <==> activeScheduleId.Some? && activeScheduleId.value in Ids(history)
  {
    var sorted := SortedHistory(history);
    assert Items(history, activeScheduleId) == ItemsOf(sorted, activeScheduleId);
    ItemsOfActive(sorted, activeScheduleId);
    PermSameIds(history, sorted);
    PermSameIds(sorted, history);
  }

  /** Before sorting comes in: an item is active exactly when the active id is among the ids. */
  lemma ItemsOfActive(sorted: seq<Version>, activeScheduleId: Option<string>)
    ensures (exists k :: 0 <= k < |sorted| && ItemsOf(sorted, activeScheduleId)[k].isActive)
      <==> activeScheduleId.Some? && activeScheduleId.value in Ids(sorted)
  {
    var items := ItemsOf(sorted, activeScheduleId);
    forall k | 0 <= k < |items| && items[k].isActive
      ensures activeScheduleId.Some? && activeScheduleId.value in Ids(sorted)
    {
      assert items[k] == ItemOf(sorted[k], activeScheduleId);
      assert Ids(sorted)[k] == sorted[k].id;
    }
    if activeScheduleId.Some? && activeScheduleId.value in Ids(sorted) {
      var k :| 0 <= k < |sorted| && Ids(sorted)[k] == activeScheduleId.value;
      assert items[k] == ItemOf(sorted[k], activeScheduleId);
      assert ItemsOf(sorted, activeScheduleId)[k].isActive;
    }
  }

  /** With distinct version ids, at most one item is marked active. */
  lemma AtMostOneActive(history: seq<Version>, activeScheduleId: Option<string>)
    requires Distinct(Ids(history))
    ensures var items := Items(history, activeScheduleId);
      forall i, j :: 0 <= i < j < |items| && items[i].isActive ==> !items[j].isActive
  {
    if history != [] {
      var sorted := SortedHistory(history);
      SortKeepsDistinct(history);
      var items := Items(history, activeScheduleId);
      assert items == ItemsOf(sorted, activeScheduleId);
      forall i, j | 0 <= i < j < |items| && items[i].isActive
        ensures !items[j].isActive
      {
        assert items[i].version == sorted[i] && items[j].version == sorted[j];
        assert Ids(sorted)[i] != Ids(sorted)[j];
      }
    }
  }

  /** Sorting keeps version ids distinct. */
  lemma {:induction false} SortKeepsDistinct(history: seq<Version>)
    requires Distinct(Ids(history))
    ensures Distinct(Ids(Sorting.SortDesc(history, Stamp)))
  {
    if history != [] {
      var rest := history[1..];
      assert history == [history[0]] + rest;
      DistinctCons(history[0], rest);
      SortKeepsDistinct(rest);
      var sortedRest := Sorting.SortDesc(rest, Stamp);
      PermSameIds(rest, sortedRest);
      InsertKeepsDistinct(history[0], sortedRest);
    }
  }

  lemma {:induction false} InsertKeepsDistinct(x: Version, s: seq<Version>)
    requires Sorting.SortedDesc(s, Stamp)
    requires Distinct(Ids(s))
    requires x.id !in Ids(s)
    ensures Distinct(Ids(Sorting.Insert(x, s, Stamp)))
  {
    if s == [] || Stamp(x) >= Stamp(s[0]) {
      DistinctCons(x, s);
    } else {
      var rest := s[1..];
      assert s == [s[0]] + rest;
      DistinctCons(s[0], rest);
      assert x.id !in Ids(rest) by { IdsConcat([s[0]], rest); }
      Sorting.SortedTail(s, Stamp);
      InsertKeepsDistinct(x, rest);
      var t := Sorting.Insert(x, rest, Stamp);
      assert s[0].id != x.id by { assert Ids(s)[0] == s[0].id; }
      InsertKeepsIdOut(s[0].id, x, rest);
      DistinctCons(s[0], t);
      assert Sorting.Insert(x, s, Stamp) == [s[0]] + t;
    }
  }

  /** Inserting a version with another id does not bring in an id that was absent. */
  lemma InsertKeepsIdOut(id: string, x: Version, s: seq<Version>)
    requires Sorting.SortedDesc(s, Stamp)
    requires id !in Ids(s) && id != x.id
    ensures id !in Ids(Sorting.Insert(x, s, Stamp))
  {
    var u := s + [x];
    IdsConcat(s, [x]);
    assert multiset(u) == multiset(s) + multiset{x};
    PermSameIds(u, Sorting.Insert(x, s, Stamp));
  }
}
