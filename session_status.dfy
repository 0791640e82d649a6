/**
 * The time-driven part of the schedule analyzer: reading a session's end
 * time from the active schedule, the pass that turns every `Upcoming`
 * explanation whose session is over into `Finished`, and the list of
 * reminders shown to a contributor.
 *
 * Instants are integers (milliseconds) in local time with days of constant
 * length; the pass is one run of `checkAndUpdateStatuses` at instant `now`.
 */
module SessionStatus {
  import opened Wrappers
  import opened Text
  import opened Classrooms
  import Sorting

  const MinuteMs: int := 60_000
  const HourMs: int := 3_600_000
  const DayMs: int := 86_400_000

  /** The en dash that separates the start and the end of a session ("7:45–9:05"). */
  const EnDash: char := '\U{2013}'

  const SessionField: string := "session"
  const TimeField: string := "time"

  datatype EndTime = EndTime(hours: nat, minutes: nat)

  // ---------------------------------------------------------------- end time of a session

  /** `schedule.find(r => r.session === session)`: the first row whose `session` field is `session`. */
  function FindSession(session: string, schedule: seq<Row>): (r: Option<nat>)
    ensures r.Some? ==> r.value < |schedule| && SessionField in schedule[r.value]
                        && schedule[r.value][SessionField] == session
    ensures r.Some? ==> forall k :: 0 <= k < r.value ==> !(SessionField in schedule[k] && schedule[k][SessionField] == session)
    ensures r.None? ==> forall k :: 0 <= k < |schedule| ==> !(SessionField in schedule[k] && schedule[k][SessionField] == session)
  {
    if schedule == [] then None
    else if SessionField in schedule[0] && schedule[0][SessionField] == session then Some(0)
    else match FindSession(session, schedule[1..])
      case None => None
      case Some(k) => Some(k + 1)
  }

  /**
   * The end time written in a time field: the text after the first en dash
   * (up to a second one, if any), trimmed, split at ':' into hours and
   * minutes, each read as `Number` reads it. None when the field is empty,
   * has no en dash, or either number is `NaN` (a missing minutes part included).
   */
  function ParseEndTime(time: string): Option<EndTime> {
    if time == "" then None
    else
      var parts := Split(time, EnDash);
      if |parts| < 2 then None
      else
        var fields := Split(Trim(parts[1]), ':');
        var hours := NumberOf(fields[0]);
        var minutes := if |fields| >= 2 then NumberOf(fields[1]) else None;
        if hours.None? || minutes.None? then None
        else Some(EndTime(hours.value, minutes.value))
  }

  /** `getSessionEndTime(session, schedule)`. */
  function GetSessionEndTime(session: string, schedule: seq<Row>): (r: Option<EndTime>)
    ensures FindSession(session, schedule).None? ==> r.None?
    ensures FindSession(session, schedule).Some? && TimeField !in schedule[FindSession(session, schedule).value] ==> r.None?
    ensures var k := FindSession(session, schedule);
      k.Some? && TimeField in schedule[k.value] ==> r == ParseEndTime(schedule[k.value][TimeField])
    ensures r.Some? ==> var k := FindSession(session, schedule).value;
      TimeField in schedule[k] && EnDash in schedule[k][TimeField] && r == ParseEndTime(schedule[k][TimeField])
  {
    match FindSession(session, schedule)
    case None => None
    case Some(k) =>
      if TimeField !in schedule[k] then None
      else
        var t := schedule[k][TimeField];
        assert ParseEndTime(t).Some? ==> EnDash in t by { SplitHasTwoPieces(t, EnDash); }
        ParseEndTime(t)
  }

  /** A digit string holds neither separator. */
  lemma DigitsHaveNoSeparator(s: string)
    requires IsDigits(s)
    ensures EnDash !in s && ':' !in s
  {
    assert forall k :: 0 <= k < |s| ==> IsDigit(s[k]);
  }

  /** A digit string (the empty one included, which `Number` reads as 0) reads as its decimal value. */
  lemma DigitsNumber(s: string)
    requires IsDigits(s)
    ensures NumberOf(s) == Some(DigitsValue(s))
  {
    if s != [] {
      assert IsDigit(s[0]) && IsDigit(s[|s| - 1]);
      TrimSurrounded("", s, "");
      assert "" + s + "" == s;
    }
  }

  /** The end part splits at its colons into the hours, the minutes and whatever further fields follow. */
  lemma EndFields(h: string, m: string, extra: string)
    requires IsDigits(h) && IsDigits(m)
    requires extra == [] || extra[0] == ':'
    ensures var fields := Split(h + ":" + m + extra, ':');
      |fields| >= 2 && fields[0] == h && fields[1] == m
  {
    DigitsHaveNoSeparator(h);
    DigitsHaveNoSeparator(m);
    assert h + ":" + m + extra == h + [':'] + (m + extra);
    SplitAfter(h, ':', m + extra);
    if extra == [] {
      assert m + extra == m;
      SplitWithoutSeparator(m, ':');
    } else {
      assert m + extra == m + [':'] + extra[1..];
      SplitAfter(m, ':', extra[1..]);
    }
  }

  /** The end part begins and ends with a character that is not white space. */
  lemma EndPartEnds(h: string, m: string, extra: string)
    requires IsDigits(h) && IsDigits(m)
    requires extra == [] || (extra[0] == ':' && !IsWhitespace(extra[|extra| - 1]))
    ensures var c := h + ":" + m + extra;
      c != [] && !IsWhitespace(c[0]) && !IsWhitespace(c[|c| - 1])
  {
    var c := h + ":" + m + extra;
    if h != [] {
      assert c[0] == h[0] && IsDigit(h[0]);
    } else {
      assert c[0] == ':';
    }
    if extra != [] {
      assert c[|c| - 1] == extra[|extra| - 1];
    } else if m != [] {
      assert c[|c| - 1] == m[|m| - 1] && IsDigit(m[|m| - 1]);
    } else {
      assert c[|c| - 1] == ':';
    }
  }

  /** White space, digits, colons and a dash-free tail hold no en dash. */
  lemma EndPartHasNoDash(w1: string, h: string, m: string, extra: string, w2: string)
    requires AllWhitespace(w1) && AllWhitespace(w2) && IsDigits(h) && IsDigits(m) && EnDash !in extra
    ensures EnDash !in w1 + (h + ":" + m + extra) + w2
  {
    DigitsHaveNoSeparator(h);
    DigitsHaveNoSeparator(m);
    assert !IsWhitespace(EnDash);
  }

  /** With no en dash on either side, the text after the en dash is the second piece. */
  lemma SecondPiece(start: string, end: string)
    requires EnDash !in start && EnDash !in end
    ensures var parts := Split(start + [EnDash] + end, EnDash);
      |parts| >= 2 && parts[1] == end
  {
    SplitAfter(start, EnDash, end);
    SplitWithoutSeparator(end, EnDash);
  }

  /**
   * What the parser reads is what the en dash is followed by: for any start
   * text without an en dash, any white space around the end part, hours and
   * minutes written as any digit strings (padded or not) and any further
   * ':'-fields, the end time is the value of the first two fields.
   */
  lemma EndTimeOfField(start: string, w1: string, h: string, m: string, extra: string, w2: string)
    requires EnDash !in start && AllWhitespace(w1) && AllWhitespace(w2)
    requires IsDigits(h) && IsDigits(m)
    requires extra == [] || (extra[0] == ':' && EnDash !in extra && !IsWhitespace(extra[|extra| - 1]))
    ensures ParseEndTime(start + [EnDash] + (w1 + (h + ":" + m + extra) + w2))
            == Some(EndTime(DigitsValue(h), DigitsValue(m)))
  {
    var c := h + ":" + m + extra;
    var end := w1 + c + w2;
    assert EnDash !in end by { EndPartHasNoDash(w1, h, m, extra, w2); }
    SecondPiece(start, end);
    assert Trim(end) == c by {
      EndPartEnds(h, m, extra);
      TrimSurrounded(w1, c, w2);
    }
    EndFields(h, m, extra);
    DigitsNumber(h);
    DigitsNumber(m);
  }

  /**
   * The canonical writing "start–H:MM" (hours without leading zeros,
   * minutes padded to two digits) parses to exactly those numbers.
   */
  lemma EndTimeRoundTrip(start: string, hours: nat, minutes: nat)
    requires EnDash !in start && minutes < 60
    ensures ParseEndTime(start + [EnDash] + (NatToString(hours) + ":" + TwoDigits(minutes)))
            == Some(EndTime(hours, minutes))
  {
    var h := NatToString(hours);
    var m := TwoDigits(minutes);
    var end := h + ":" + m;
    assert "" + (h + ":" + m + "") + "" == end by {
      assert h + ":" + m + "" == end;
      assert "" + end + "" == end;
    }
    assert ParseEndTime(start + [EnDash] + end) == Some(EndTime(DigitsValue(h), DigitsValue(m))) by {
      EndTimeOfField(start, "", h, m, "", "");
    }
    assert DigitsValue(h) == hours && DigitsValue(m) == minutes by {
      NatToStringValue(hours);
      TwoDigitsValue(minutes);
    }
  }

  /**
   * No end time without an en dash, nor when the text after the first en
   * dash holds no ':' (the minutes are then `undefined`, hence `NaN`).
   */
  lemma EndTimeNeedsDashAndColon(t: string)
    ensures EnDash !in t ==> ParseEndTime(t).None?
    ensures var parts := Split(t, EnDash);
      |parts| >= 2 && ':' !in parts[1] ==> ParseEndTime(t).None?
  {
    SplitHasTwoPieces(t, EnDash);
    var parts := Split(t, EnDash);
    if |parts| >= 2 && ':' !in parts[1] {
      TrimKeepsOut(parts[1], ':');
      SplitWithoutSeparator(Trim(parts[1]), ':');
    }
  }

  /**
   * `isNaN(hours) || isNaN(minutes)`: when the hours field, or the minutes
   * field, is not a digit string once trimmed, there is no end time.
   */
  lemma EndTimeNaN(t: string)
    ensures var parts := Split(t, EnDash);
      |parts| >= 2 ==>
        var fields := Split(Trim(parts[1]), ':');
        !IsDigits(Trim(fields[0])) || (|fields| >= 2 && !IsDigits(Trim(fields[1]))) ==> ParseEndTime(t).None?
  {
  }

  /** Minutes as a time is written: two digits, with a leading zero below ten. */
  function TwoDigits(n: nat): (s: string)
    requires n < 60
    ensures |s| == 2 && IsDigits(s)
  {
    [('0' as int + n / 10) as char, ('0' as int + n % 10) as char]
  }

  lemma TwoDigitsValue(n: nat)
    requires n < 60
    ensures DigitsValue(TwoDigits(n)) == n
  {
    var s := TwoDigits(n);
    assert s[..1] == [s[0]];
    assert DigitsValue(s[..1]) == n / 10 by { assert s[..1][..0] == []; }
  }

  // ---------------------------------------------------------------- status rollover

  /** `date.setHours(hours, minutes, 0, 0)`: the instant on the day of `date` at that time (hours past 23 run into the next day). */
  function EndInstant(date: int, end: EndTime): int {
    (date / DayMs) * DayMs + end.hours * HourMs + end.minutes * MinuteMs
  }

  /**
   * The end-time lookup of one pass: `getSessionEndTime` against the active schedule's rows.
   * Its ensures only exposes the lambda's value to the verifier; the end-time facts are on
   * `GetSessionEndTime` and the lemmas about `ParseEndTime`.
   */
  function EndsOf(schedule: seq<Row>): (ends: string -> Option<EndTime>)
    ensures forall session :: ends(session) == GetSessionEndTime(session, schedule)
  {
    session => GetSessionEndTime(session, schedule)
  }

  /**
   * An explanation the pass turns to `Finished`: upcoming, with a resolvable
   * end time and a date, and `now` strictly after its end. `ends` gives the
   * end time of a session (`EndsOf` of the active schedule).
   */
  predicate Qualifies(e: Explanation, ends: string -> Option<EndTime>, now: int) {
    && e.status == Upcoming
    && ends(e.session).Some?
    && e.explanationDate.Some?
    && now > EndInstant(e.explanationDate.value, ends(e.session).value)
  }

  /** `explanations.filter(e => e.status === 'Upcoming')`. */
  function UpcomingOnly(es: seq<Explanation>): (r: seq<Explanation>)
    ensures forall e :: e in r <==> e in es && e.status == Upcoming
    ensures forall k :: 0 <= k < |r| ==> r[k].status == Upcoming
  {
    if es == [] then []
    else
      var rest := UpcomingOnly(es[1..]);
      assert es == [es[0]] + es[1..];
      if es[0].status == Upcoming then [es[0]] + rest else rest
  }

  /** The ids of the qualifying explanations, in collection order: the updates one pass puts in its batch. */
  function QualifyingIds(es: seq<Explanation>, ends: string -> Option<EndTime>, now: int): (ids: seq<string>)
    ensures |ids| <= |es|
  {
    if es == [] then []
    else
      var last := es[|es| - 1];
      var prefix := QualifyingIds(es[..|es| - 1], ends, now);
      if Qualifies(last, ends, now) then prefix + [last.id] else prefix
  }

  /**
   * The batch holds the id of every qualifying explanation and no id of
   * any other.
   */
  lemma {:induction false} QualifyingIdsMembers(es: seq<Explanation>, ends: string -> Option<EndTime>, now: int)
    ensures forall id :: id in QualifyingIds(es, ends, now) ==>
      exists k :: 0 <= k < |es| && es[k].id == id && Qualifies(es[k], ends, now)
    ensures forall k :: 0 <= k < |es| && Qualifies(es[k], ends, now) ==> es[k].id in QualifyingIds(es, ends, now)
  {
    if es != [] {
      var prefix := es[..|es| - 1];
      QualifyingIdsMembers(prefix, ends, now);
      assert forall k :: 0 <= k < |es| - 1 ==> prefix[k] == es[k];
    }
  }

  /** Dropping the explanations that are not upcoming first leaves the batch as it was. */
  lemma {:induction false} UpcomingOnlySameBatch(es: seq<Explanation>, ends: string -> Option<EndTime>, now: int)
    ensures QualifyingIds(UpcomingOnly(es), ends, now) == QualifyingIds(es, ends, now)
  {
    if es != [] {
      var u := UpcomingOnly(es[1..]);
      UpcomingOnlySameBatch(es[1..], ends, now);
      QualifyingIdsCons(es[0], es[1..], ends, now);
      if es[0].status == Upcoming {
        QualifyingIdsCons(es[0], u, ends, now);
      }
      assert es == [es[0]] + es[1..];
    }
  }

  /** The batch of a sequence with one more explanation in front. */
  lemma {:induction false} QualifyingIdsCons(e: Explanation, es: seq<Explanation>, ends: string -> Option<EndTime>, now: int)
    ensures QualifyingIds([e] + es, ends, now)
            == (if Qualifies(e, ends, now) then [e.id] else []) + QualifyingIds(es, ends, now)
  {
    var s := [e] + es;
    if es != [] {
      assert s[..|s| - 1] == [e] + es[..|es| - 1];
      QualifyingIdsCons(e, es[..|es| - 1], ends, now);
    } else {
      assert s[..|s| - 1] == [];
    }
  }

  /** The batch of a prefix with one more explanation. */
  lemma QualifyingIdsSnoc(es: seq<Explanation>, i: nat, ends: string -> Option<EndTime>, now: int)
    requires i < |es|
    ensures QualifyingIds(es[..i + 1], ends, now)
            == QualifyingIds(es[..i], ends, now) + (if Qualifies(es[i], ends, now) then [es[i].id] else [])
  {
    assert es[..i + 1][..i] == es[..i];
  }

  /** Every id in the batch is the id of one of the explanations. */
  lemma {:induction false} QualifyingIdsAreIds(es: seq<Explanation>, ends: string -> Option<EndTime>, now: int)
    ensures forall id :: id in QualifyingIds(es, ends, now) ==> id in ExplanationIds(es)
  {
    if es != [] {
      var prefix := es[..|es| - 1];
      QualifyingIdsAreIds(prefix, ends, now);
      forall id | id in QualifyingIds(es, ends, now) ensures id in ExplanationIds(es) {
        if id in QualifyingIds(prefix, ends, now) {
          var k :| 0 <= k < |prefix| && ExplanationIds(prefix)[k] == id;
          assert ExplanationIds(es)[k] == id;
        } else {
          assert ExplanationIds(es)[|es| - 1] == id;
        }
      }
    }
  }

  /** When no explanation qualifies, the batch is empty. */
  lemma {:induction false} NoneQualifyEmptyBatch(es: seq<Explanation>, ends: string -> Option<EndTime>, now: int)
    requires forall k :: 0 <= k < |es| ==> !Qualifies(es[k], ends, now)
    ensures QualifyingIds(es, ends, now) == []
  {
    if es != [] {
      NoneQualifyEmptyBatch(es[..|es| - 1], ends, now);
    }
  }

  /** The explanations after one pass: each qualifying one is `Finished`, every other is unchanged. */
  function RolledOver(es: seq<Explanation>, ends: string -> Option<EndTime>, now: int): (r: seq<Explanation>)
    ensures |r| == |es|
    ensures forall k :: 0 <= k < |es| ==>
      r[k] == if Qualifies(es[k], ends, now) then es[k].(status := Finished) else es[k]
  {
    if es == [] then []
    else [if Qualifies(es[0], ends, now) then es[0].(status := Finished) else es[0]] + RolledOver(es[1..], ends, now)
  }

  /**
   * Committing the batch is the pass: with distinct document ids, marking
   * the batched ids `Finished` changes exactly the qualifying explanations.
   */
  lemma CommitIsRollover(es: seq<Explanation>, ends: string -> Option<EndTime>, now: int)
    requires Distinct(ExplanationIds(es))
    ensures MarkFinished(es, QualifyingIds(es, ends, now)) == RolledOver(es, ends, now)
  {
    QualifyingIdsExactly(es, ends, now);
  }

  /** With distinct ids, the batch names exactly the qualifying explanations. */
  lemma QualifyingIdsExactly(es: seq<Explanation>, ends: string -> Option<EndTime>, now: int)
    requires Distinct(ExplanationIds(es))
    ensures forall k :: 0 <= k < |es| ==> (es[k].id in QualifyingIds(es, ends, now) <==> Qualifies(es[k], ends, now))
  {
    forall k | 0 <= k < |es|
      ensures es[k].id in QualifyingIds(es, ends, now) <==> Qualifies(es[k], ends, now)
    {
      QualifyingIdAt(es, ends, now, k);
    }
  }

  /** With distinct ids, an explanation's id is in the batch exactly when that explanation qualifies. */
  lemma QualifyingIdAt(es: seq<Explanation>, ends: string -> Option<EndTime>, now: int, k: nat)
    requires Distinct(ExplanationIds(es)) && k < |es|
    ensures es[k].id in QualifyingIds(es, ends, now) <==> Qualifies(es[k], ends, now)
  {
    QualifyingIdsMembers(es, ends, now);
    if es[k].id in QualifyingIds(es, ends, now) {
      var j :| 0 <= j < |es| && es[j].id == es[k].id && Qualifies(es[j], ends, now);
      var ids := ExplanationIds(es);
      assert ids[j] == ids[k];
      DistinctIndex(ids, j, k);
    }
  }

  /** A second pass at the same instant finds nothing to do: the pass is idempotent. */
  lemma RolloverIdempotent(es: seq<Explanation>, ends: string -> Option<EndTime>, now: int)
    ensures QualifyingIds(RolledOver(es, ends, now), ends, now) == []
    ensures RolledOver(RolledOver(es, ends, now), ends, now) == RolledOver(es, ends, now)
  {
    var r := RolledOver(es, ends, now);
    assert forall k :: 0 <= k < |r| ==> !Qualifies(r[k], ends, now);
    NoneQualifyEmptyBatch(r, ends, now);
  }

  /** Time only moves explanations forward: what one pass finishes, a later pass finishes too. */
  lemma RolloverMonotone(e: Explanation, ends: string -> Option<EndTime>, now: int, later: int)
    requires now <= later && Qualifies(e, ends, now)
    ensures Qualifies(e, ends, later)
  {
  }

  /**
   * The loop of `checkAndUpdateStatuses` without its commit: it goes through
   * the upcoming explanations, skips those without an end time or a date,
   * and queues an update for each whose end has passed. `ends` is the
   * end-time lookup against the active schedule (`EndsOf`).
   */
  method PlanStatusUpdates(explanations: seq<Explanation>, ends: string -> Option<EndTime>, now: int)
    returns (batch: seq<string>, updatesMade: nat)
    ensures batch == QualifyingIds(explanations, ends, now)
    ensures updatesMade == |batch|
  {
    var upcoming := UpcomingOnly(explanations);
    UpcomingOnlySameBatch(explanations, ends, now);
    batch, updatesMade := [], 0;
    if |upcoming| == 0 {
      return;
    }
    for i := 0 to |upcoming|
      invariant batch == QualifyingIds(upcoming[..i], ends, now)
      invariant updatesMade == |batch|
    {
      QualifyingIdsSnoc(upcoming, i, ends, now);
      var exp := upcoming[i];
      assert exp.status == Upcoming;
      var sessionEndTime := ends(exp.session);
      if sessionEndTime.None? || exp.explanationDate.None? {
        continue;
      }
      var explanationEnd := EndInstant(exp.explanationDate.value, sessionEndTime.value);
      if now > explanationEnd {
        batch := batch + [exp.id];
        updatesMade := updatesMade + 1;
      }
    }
    assert upcoming[..|upcoming|] == upcoming;
  }

  /**
   * One run of `checkAndUpdateStatuses` against the store: nothing happens
   * without an active schedule; otherwise the batch is committed only when
   * it holds at least one update, and a refused commit changes nothing.
   * `activeRows` stands for the listener's `activeSchedule`: the rows of the
   * version the active id names, None when the id is "" or names no loaded
   * version. Explanation ids are document ids, hence distinct.
   */
  method CheckAndUpdateStatuses(store: ClassroomStore, activeRows: Option<seq<Row>>, now: int)
    returns (committed: bool)
    requires Distinct(ExplanationIds(store.explanations))
    modifies store
    ensures committed ==> activeRows.Some?
    ensures committed ==> store.State() == old(store.State()).(explanations := RolledOver(old(store.explanations), EndsOf(activeRows.value), now))
    ensures !committed ==> store.State() == old(store.State())
    ensures activeRows.Some? && store.rules.explanationsWritable ==>
      (committed <==> QualifyingIds(old(store.explanations), EndsOf(activeRows.value), now) != [])
  {
    committed := false;
    if activeRows.None? {
      return;
    }
    var schedule := activeRows.value;
    var batch, updatesMade := PlanStatusUpdates(store.explanations, EndsOf(schedule), now);
    if updatesMade > 0 {
      CommitIsRollover(store.explanations, EndsOf(schedule), now);
      QualifyingIdsAreIds(store.explanations, EndsOf(schedule), now);
      committed := store.CommitFinished(batch);
    }
  }

  /** The session "13:45–15:00" of a one-row schedule ends at 15:00. */
  lemma SessionEndsAtThree()
    ensures GetSessionEndTime("2", [map[SessionField := "2", TimeField := "13:45" + [EnDash] + "15:00"]])
            == Some(EndTime(15, 0))
  {
    var time := "13:45" + [EnDash] + "15:00";
    var schedule := [map[SessionField := "2", TimeField := time]];
    assert FindSession("2", schedule) == Some(0);
    assert schedule[0][TimeField] == time;
    assert ParseEndTime(time) == Some(EndTime(15, 0)) by {
      assert NatToString(15) + ":" + TwoDigits(0) == "15:00" by {
        assert NatToString(15) == "15";
        assert TwoDigits(0) == "00";
      }
      EndTimeRoundTrip("13:45", 15, 0);
    }
  }

  /**
   * The example of a session "13:45–15:00": on the day of the explanation
   * it is still upcoming at 15:00:00.000 and finished one millisecond later.
   */
  lemma RolloverAtSessionEnd(day: int, e: Explanation)
    requires e.status == Upcoming && e.session == "2" && e.explanationDate == Some(day * DayMs)
    ensures var ends := EndsOf([map[SessionField := "2", TimeField := "13:45" + [EnDash] + "15:00"]]);
      && !Qualifies(e, ends, day * DayMs + 15 * HourMs)
      && !Qualifies(e, ends, day * DayMs + 14 * HourMs + 59 * MinuteMs)
      && Qualifies(e, ends, day * DayMs + 15 * HourMs + 1)
  {
    var ends := EndsOf([map[SessionField := "2", TimeField := "13:45" + [EnDash] + "15:00"]]);
    assert ends(e.session) == Some(EndTime(15, 0)) by { SessionEndsAtThree(); }
    assert EndInstant(day * DayMs, EndTime(15, 0)) == day * DayMs + 15 * HourMs by { DayStart(day); }
  }

  /** Midnight of day `day` lies on a day boundary. */
  lemma DayStart(day: int)
    ensures (day * DayMs) / DayMs == day
  {
  }

  // ---------------------------------------------------------------- reminders

  /** `differenceInDays(a, b)`: whole days from `b` to `a`, rounded toward zero. */
  function DiffDays(a: int, b: int): int {
    if a >= b then (a - b) / DayMs else -((b - a) / DayMs)
  }

  /**
   * A difference of 0, 1 or 2 whole days means the date lies less than one
   * day before `now` or less than three days after it.
   */
  lemma DiffDaysWindow(date: int, now: int)
    ensures 0 <= DiffDays(date, now) <= 2 <==> now - DayMs < date < now + 3 * DayMs
  {
    if date >= now {
      assert (date - now) / DayMs <= 2 <==> date - now < 3 * DayMs by {
        DivBelow(date - now, 3);
      }
    } else {
      assert (now - date) / DayMs == 0 <==> now - date < DayMs by {
        DivBelow(now - date, 1);
      }
    }
  }

  lemma DivBelow(x: nat, n: nat)
    requires n >= 1
    ensures x / DayMs <= n - 1 <==> x < n * DayMs
  {
  }

  /** The user is a contributor who has accepted. */
  predicate AcceptedBy(e: Explanation, uid: string) {
    exists c :: c in e.contributors && c.userId == uid && c.status == Accepted
  }

  /** An explanation the reminder is about, as far as it can be told without the date. */
  predicate ReminderCandidate(e: Explanation, uid: string) {
    e.status == Upcoming && AcceptedBy(e, uid)
  }

  /**
   * The filter of `ReminderAlert`. None when a candidate has no date:
   * `exp.explanationDate.toDate()` then throws and the component fails to render.
   */
  function ReminderFilter(es: seq<Explanation>, uid: string, now: int): (r: Option<seq<Explanation>>)
    ensures r.None? <==> exists e :: e in es && ReminderCandidate(e, uid) && e.explanationDate.None?
    ensures r.Some? ==> forall e :: e in r.value <==>
      e in es && ReminderCandidate(e, uid) && e.explanationDate.Some? && 0 <= DiffDays(e.explanationDate.value, now) <= 2
    ensures r.Some? ==> forall e :: multiset(r.value)[e] ==
                          if ReminderCandidate(e, uid) && e.explanationDate.Some? && 0 <= DiffDays(e.explanationDate.value, now) <= 2
                          then multiset(es)[e] else 0
  {
    if es == [] then Some([])
    else
      assert es == [es[0]] + es[1..];
      var e := es[0];
      if !ReminderCandidate(e, uid) then ReminderFilter(es[1..], uid, now)
      else if e.explanationDate.None? then None
      else
        match ReminderFilter(es[1..], uid, now)
        case None => None
        case Some(rest) =>
          if 0 <= DiffDays(e.explanationDate.value, now) <= 2 then Some([e] + rest) else Some(rest)
  }

  /** One step of `ReminderFilter`: what the explanation `e` adds in front of the rest's result `rest`. */
  function ReminderStep(e: Explanation, uid: string, now: int, rest: Option<seq<Explanation>>): Option<seq<Explanation>> {
    if !ReminderCandidate(e, uid) then rest
    else if e.explanationDate.None? || rest.None? then None
    else if 0 <= DiffDays(e.explanationDate.value, now) <= 2 then Some([e] + rest.value)
    else rest
  }

  /** Both results present: their concatenation; otherwise the failure. */
  function BothOrNone<T>(x: Option<seq<T>>, y: Option<seq<T>>): Option<seq<T>> {
    if x.Some? && y.Some? then Some(x.value + y.value) else None
  }

  lemma ReminderFilterCons(es: seq<Explanation>, uid: string, now: int)
    requires es != []
    ensures ReminderFilter(es, uid, now) == ReminderStep(es[0], uid, now, ReminderFilter(es[1..], uid, now))
  {
  }

  lemma ReminderStepBoth(e: Explanation, uid: string, now: int, x: Option<seq<Explanation>>, y: Option<seq<Explanation>>)
    ensures ReminderStep(e, uid, now, BothOrNone(x, y)) == BothOrNone(ReminderStep(e, uid, now, x), y)
  {
    if x.Some? && y.Some? {
      assert [e] + (x.value + y.value) == ([e] + x.value) + y.value;
    }
  }

  /** The filter keeps the list's order: it distributes over concatenation, and fails when either part does. */
  lemma {:induction false} ReminderFilterConcat(a: seq<Explanation>, b: seq<Explanation>, uid: string, now: int)
    ensures ReminderFilter(a + b, uid, now) == BothOrNone(ReminderFilter(a, uid, now), ReminderFilter(b, uid, now))
  {
    if a == [] {
      assert a + b == b;
      assert ReminderFilter(a, uid, now) == Some([]);
      var rb := ReminderFilter(b, uid, now);
      if rb.Some? {
        assert [] + rb.value == rb.value;
      }
    } else {
      assert (a + b)[0] == a[0] && (a + b)[1..] == a[1..] + b;
      ReminderFilterCons(a + b, uid, now);
      ReminderFilterCons(a, uid, now);
      ReminderFilterConcat(a[1..], b, uid, now);
      ReminderStepBoth(a[0], uid, now, ReminderFilter(a[1..], uid, now), ReminderFilter(b, uid, now));
    }
  }

  /** Sort key for "date ascending": the negated instant. */
  function EarlierFirst(e: Explanation): int {
    -e.explanationDate.GetOr(0)
  }

  /** The reminders shown to the signed-in user (`currentUser` None: no one signed in). */
  function Reminders(es: seq<Explanation>, currentUser: Option<string>, now: int): Option<seq<Explanation>> {
    if currentUser.None? then Some([])
    else
      match ReminderFilter(es, currentUser.value, now)
      case None => None
      case Some(kept) => Some(Sorting.SortDesc(kept, EarlierFirst))
  }

  /**
   * The reminder list holds exactly the upcoming explanations the user has
   * accepted whose date is 0 to 2 whole days away, each as often as the
   * filter keeps it, ordered by date ascending.
   */
  lemma RemindersSpec(es: seq<Explanation>, uid: string, now: int)
    requires forall e :: e in es && ReminderCandidate(e, uid) ==> e.explanationDate.Some?
    ensures Reminders(es, Some(uid), now).Some?
    ensures var r := Reminders(es, Some(uid), now).value;
      && (forall e :: e in r <==> e in es && ReminderCandidate(e, uid) && 0 <= DiffDays(e.explanationDate.value, now) <= 2)
      && (forall i, j :: 0 <= i < j < |r| ==> r[i].explanationDate.value <= r[j].explanationDate.value)
      && multiset(r) == multiset(ReminderFilter(es, uid, now).value)
  {
    var kept := ReminderFilter(es, uid, now).value;
    var r := Sorting.SortDesc(kept, EarlierFirst);
    forall e ensures e in r <==> e in kept {
      Sorting.SortDescSameElements(kept, EarlierFirst, e);
    }
    forall i, j | 0 <= i < j < |r| ensures r[i].explanationDate.value <= r[j].explanationDate.value {
      assert r[i] in r && r[j] in r;
      assert EarlierFirst(r[i]) >= EarlierFirst(r[j]);
    }
  }
}
