/** The entry clock (cadence.py): which sessions of a calendar open the book to
    new entries. */
module Cadence {
  import opened Calendar
  import opened Common

  datatype EntryClock = EntryClock(
    cadence: int,
    isEntryDate: bool,
    sinceAnchor: Option<nat>,
    nextEntryDate: Option<Date>)

  /** Position of the first session equal to `day`. */
  function IndexOf(sessions: seq<Date>, day: Date): (r: Option<nat>)
    ensures r.Some? ==> r.value < |sessions| && sessions[r.value] == day
    ensures r.None? <==> day !in sessions
  {
    if sessions == [] then None
    else if sessions[0] == day then Some(0)
    else match IndexOf(sessions[1..], day)
         case None => None
         case Some(i) => Some(i + 1)
  }

  /** Position of the first session on or after the anchor. */
  function AnchorIndex(sessions: seq<Date>, anchor: Date): (r: Option<nat>)
    ensures r.None? <==> forall k :: 0 <= k < |sessions| ==> sessions[k] < anchor
    ensures r.Some? ==> r.value < |sessions| && anchor <= sessions[r.value]
    ensures r.Some? ==> forall k :: 0 <= k < r.value ==> sessions[k] < anchor
  {
    if sessions == [] then None
    else if anchor <= sessions[0] then Some(0)
    else match AnchorIndex(sessions[1..], anchor)
         case None => None
         case Some(i) => Some(i + 1)
  }

  function Resolve(sessions: seq<Date>, asOf: Date, cadenceSessions: int, anchor: Date): EntryClock {
    var cadence := MaxInt(cadenceSessions, 1);
    if cadence == 1 then EntryClock(1, true, None, None)
    else
      ClockAt(sessions, asOf, cadence, AnchorIndex(sessions, anchor), IndexOf(sessions, asOf))
  }

  /** The clock of a run date at position `ti` of a calendar anchored at position `ai`. */
  function ClockAt(sessions: seq<Date>, asOf: Date, cadence: int, ai: Option<nat>, ti: Option<nat>): EntryClock
    requires cadence > 1
  {
    if ai.None? || ti.None? || ti.value < ai.value then EntryClock(cadence, true, None, None)
    else
      var since := ti.value - ai.value;
      var phase := since % cadence;
      if phase == 0 then EntryClock(cadence, true, Some(since), Some(asOf))
      else
        var next := ti.value + (cadence - phase);
        EntryClock(cadence, false, Some(since), if next < |sessions| then Some(sessions[next]) else None)
  }

  /** The session count of `_clock_record`; a count of zero is reported as none. */
  function SessionsUntilNext(clock: EntryClock, sessions: seq<Date>, asOf: Date): Option<nat> {
    if clock.nextEntryDate.None? then None
    else
      var n := CountBetween(sessions, asOf, clock.nextEntryDate.value);
      if n == 0 then None else Some(n)
  }

  predicate Opens(sessions: seq<Date>, asOf: Date, cadence: int, anchor: Date) {
    Resolve(sessions, asOf, cadence, anchor).isEntryDate
  }

  lemma IndexOfSession(sessions: seq<Date>, i: nat)
    requires Increasing(sessions) && i < |sessions|
    ensures IndexOf(sessions, sessions[i]) == Some(i)
  {
    var r := IndexOf(sessions, sessions[i]);
    assert sessions[i] in sessions;
    assert r.Some? && sessions[r.value] == sessions[i];
  }

  lemma AnchorOfCalendar(sessions: seq<Date>, anchor: Date, a: nat)
    requires a < |sessions| && anchor <= sessions[a]
    requires forall k :: 0 <= k < a ==> sessions[k] < anchor
    ensures AnchorIndex(sessions, anchor) == Some(a)
  {
    assert sessions[a] in sessions;
  }

  /** The clock of session `i` of a calendar whose cadence date zero is session `a`. */
  lemma {:induction false} OpensOnMultiples(sessions: seq<Date>, i: nat, cadence: int, anchor: Date, a: nat)
    requires Increasing(sessions) && cadence > 1 && i < |sessions|
    requires AnchorIndex(sessions, anchor) == Some(a)
    ensures Opens(sessions, sessions[i], cadence, anchor) <==> i < a || (i - a) % cadence == 0
  {
    IndexOfSession(sessions, i);
  }

  /** Sessions still to go after `since` of them, counting none on a multiple. */
  function Ahead(since: nat, cadence: int): nat
    requires cadence > 1
  {
    if since % cadence == 0 then 0 else cadence - since % cadence
  }

  lemma AheadReachesTheMultiple(since: nat, c: int, j: nat)
    requires c > 1 && j < c
    ensures (since + j) % c == 0 <==> j == Ahead(since, c)
  {
    var q, r := since / c, since % c;
    assert since == c * q + r;
    if r + j < c {
      QuotientIs(c, q, r + j);
    } else {
      QuotientIs(c, q + 1, r + j - c);
      assert c * (q + 1) == c * q + c;
    }
  }

  lemma QuotientIs(c: int, q: nat, r: nat)
    requires r < c
    ensures (c * q + r) % c == r
  {
    var x := c * q + r;
    assert x == c * (x / c) + x % c;
    var d := x / c - q;
    assert c * d == c * (x / c) - c * q;
    if d != 0 {
      MultipleIsLarge(c, d);
    }
  }

  lemma MultipleIsLarge(c: int, d: int)
    requires c > 0 && d != 0
    ensures c * d >= c || c * d <= -c
  {
  }

  lemma {:induction false} OpensWithin(sessions: seq<Date>, from: nat, j: nat, cadence: int, anchor: Date, a: nat)
    requires Increasing(sessions) && cadence > 1 && j < cadence
    requires AnchorIndex(sessions, anchor) == Some(a)
    requires a <= from && from + j < |sessions|
    ensures Opens(sessions, sessions[from + j], cadence, anchor) <==> j == Ahead(from - a, cadence)
  {
    OpensOnMultiples(sessions, from + j, cadence, anchor, a);
    AheadReachesTheMultiple(from - a, cadence, j);
    assert from + j - a == (from - a) + j;
  }

  /** Once the schedule has begun, every `cadence` consecutive sessions hold exactly
      one entry date. */
  lemma {:induction false} OneEntryPerCycle(sessions: seq<Date>, from: nat, cadence: int, anchor: Date, a: nat)
    returns (k: nat)
    requires Increasing(sessions) && cadence > 1
    requires AnchorIndex(sessions, anchor) == Some(a)
    requires a <= from && from + cadence <= |sessions|
    ensures from <= k < from + cadence
    ensures forall i :: from <= i < from + cadence ==>
              (Opens(sessions, sessions[i], cadence, anchor) <==> i == k)
  {
    k := from + Ahead(from - a, cadence);
    forall i | from <= i < from + cadence
      ensures Opens(sessions, sessions[i], cadence, anchor) <==> i == k
    {
      OpensWithin(sessions, from, i - from, cadence, anchor, a);
    }
  }

  /** While entries are closed, where in the calendar the clock looks for the next. */
  lemma ClosedClock(sessions: seq<Date>, i: nat, cadence: int, anchor: Date) returns (a: nat)
    requires Increasing(sessions) && i < |sessions|
    requires !Opens(sessions, sessions[i], cadence, anchor)
    ensures cadence > 1 && AnchorIndex(sessions, anchor) == Some(a) && a <= i && Ahead(i - a, cadence) > 0
    ensures Resolve(sessions, sessions[i], cadence, anchor).nextEntryDate
            == var next := i + Ahead(i - a, cadence);
               if next < |sessions| then Some(sessions[next]) else None
  {
    IndexOfSession(sessions, i);
    a := AnchorIndex(sessions, anchor).value;
  }

  lemma NoEarlierEntry(sessions: seq<Date>, i: nat, s: Date, cadence: int, anchor: Date, a: nat)
    requires Increasing(sessions) && cadence > 1 && a <= i < |sessions|
    requires AnchorIndex(sessions, anchor) == Some(a)
    requires s in sessions && sessions[i] < s && Opens(sessions, s, cadence, anchor)
    ensures var next := i + Ahead(i - a, cadence); next < |sessions| && sessions[next] <= s
  {
    var j :| 0 <= j < |sessions| && sessions[j] == s;
    assert i < j;
    if j - i < cadence {
      OpensWithin(sessions, i, j - i, cadence, anchor, a);
    }
  }

  /** While entries are closed the clock names the earliest later entry date, or
      none when the calendar holds none. */
  lemma {:induction false} NextIsTheEarliest(sessions: seq<Date>, i: nat, cadence: int, anchor: Date)
    requires Increasing(sessions) && i < |sessions|
    requires !Opens(sessions, sessions[i], cadence, anchor)
    ensures var next := Resolve(sessions, sessions[i], cadence, anchor).nextEntryDate;
            && (next.Some? ==> next.value in sessions && sessions[i] < next.value
                               && Opens(sessions, next.value, cadence, anchor))
            && forall s :: s in sessions && sessions[i] < s && Opens(sessions, s, cadence, anchor)
                           ==> next.Some? && next.value <= s
  {
    var a := ClosedClock(sessions, i, cadence, anchor);
    var ahead := Ahead(i - a, cadence);
    if i + ahead < |sessions| {
      OpensWithin(sessions, i, ahead, cadence, anchor, a);
    }
    forall s | s in sessions && sessions[i] < s && Opens(sessions, s, cadence, anchor)
      ensures i + ahead < |sessions| && sessions[i + ahead] <= s
    {
      NoEarlierEntry(sessions, i, s, cadence, anchor, a);
    }
  }

  /** The count shown beside a known next entry date is what is left of the cycle. */
  lemma {:induction false} CountdownIsWhatIsLeft(sessions: seq<Date>, i: nat, cadence: int, anchor: Date)
    requires Increasing(sessions) && i < |sessions|
    requires !Opens(sessions, sessions[i], cadence, anchor)
    ensures var clock := Resolve(sessions, sessions[i], cadence, anchor);
            SessionsUntilNext(clock, sessions, sessions[i])
            == if clock.nextEntryDate.None? then None
               else Some(cadence - clock.sinceAnchor.value % cadence)
  {
    var a := ClosedClock(sessions, i, cadence, anchor);
    IndexOfSession(sessions, i);
    var clock := Resolve(sessions, sessions[i], cadence, anchor);
    assert clock.sinceAnchor == Some(i - a);
    if clock.nextEntryDate.Some? {
      var ahead := Ahead(i - a, cadence);
      CountIsDistance(sessions, i, i + ahead, sessions[i + ahead]);
    }
  }

  /** On an entry date the next entry date is today, so no count is shown. */
  lemma {:induction false} NoCountdownOnAnEntryDate(sessions: seq<Date>, asOf: Date, cadence: int, anchor: Date)
    requires Opens(sessions, asOf, cadence, anchor)
    ensures SessionsUntilNext(Resolve(sessions, asOf, cadence, anchor), sessions, asOf) == None
  {
    NoneBetween(sessions, asOf, asOf);
  }

  /** Before the anchor the schedule has not begun, wherever the calendar ends. */
  lemma {:induction false} BeforeTheAnchor(sessions: seq<Date>, i: nat, cadence: int, anchor: Date)
    requires Increasing(sessions) && i < |sessions| && sessions[i] < anchor
    ensures Resolve(sessions, sessions[i], cadence, anchor) == EntryClock(MaxInt(cadence, 1), true, None, None)
  {
    IndexOfSession(sessions, i);
    var ai := AnchorIndex(sessions, anchor);
    assert ai.Some? ==> i < ai.value;
  }

  lemma {:induction false} AppendingKeepsTheSchedule(sessions: seq<Date>, more: seq<Date>, i: nat, cadence: int,
                                                     anchor: Date)
    requires Increasing(sessions) && Increasing(sessions + more) && i < |sessions| && anchor <= sessions[i]
    ensures AnchorIndex(sessions + more, anchor) == AnchorIndex(sessions, anchor)
    ensures IndexOf(sessions + more, sessions[i]) == IndexOf(sessions, sessions[i]) == Some(i)
  {
    var whole := sessions + more;
    IndexOfSession(sessions, i);
    assert whole[i] == sessions[i];
    IndexOfSession(whole, i);
    var ai := AnchorIndex(sessions, anchor);
    AnchorOfCalendar(whole, anchor, ai.value);
  }

  /** The clock depends on the calendar through two positions and the session it names. */
  lemma SamePlacesSameClock(sessions: seq<Date>, whole: seq<Date>, asOf: Date, cadence: int,
                            ai: Option<nat>, ti: Option<nat>)
    requires sessions <= whole && cadence > 1
    ensures var before, after := ClockAt(sessions, asOf, cadence, ai, ti), ClockAt(whole, asOf, cadence, ai, ti);
            after == before.(nextEntryDate := after.nextEntryDate)
            && (before.nextEntryDate.Some? ==> after.nextEntryDate == before.nextEntryDate)
  {
  }

  /** New sessions at the end of the calendar never change the answer for a session in it,
      even while the anchor is still to come. A next entry date that was not known yet may
      become known, and one that was known stays. */
  lemma {:induction false} AppendingKeepsTheClock(sessions: seq<Date>, more: seq<Date>, asOf: Date,
                                                  cadence: int, anchor: Date)
    requires Increasing(sessions + more) && asOf in sessions
    ensures var before := Resolve(sessions, asOf, cadence, anchor);
            var after := Resolve(sessions + more, asOf, cadence, anchor);
            after == before.(nextEntryDate := after.nextEntryDate)
            && (before.nextEntryDate.Some? ==> after.nextEntryDate == before.nextEntryDate)
  {
    var whole := sessions + more;
    var i := IndexOf(sessions, asOf).value;
    assert Increasing(sessions) by {
      assert forall j :: 0 <= j < |sessions| ==> whole[j] == sessions[j];
    }
    assert whole[i] == asOf;
    if asOf < anchor {
      BeforeTheAnchor(sessions, i, cadence, anchor);
      BeforeTheAnchor(whole, i, cadence, anchor);
    } else {
      AppendingKeepsTheSchedule(sessions, more, i, cadence, anchor);
      if cadence > 1 {
        SamePlacesSameClock(sessions, whole, asOf, cadence, AnchorIndex(sessions, anchor), Some(i));
      }
    }
  }

  /** The whole record, from the calendar alone: session `a` is the first on or after the anchor,
      or the end of the calendar if there is none. */
  lemma {:induction false} ClockMeans(sessions: seq<Date>, asOf: Date, i: nat, cadence: int, anchor: Date, a: nat)
    requires Increasing(sessions) && (if i < |sessions| then sessions[i] == asOf else asOf !in sessions)
    requires a <= |sessions| && (forall k :: 0 <= k < a ==> sessions[k] < anchor)
    requires a < |sessions| ==> anchor <= sessions[a]
    ensures var clock := Resolve(sessions, asOf, cadence, anchor);
            && clock.cadence == (if cadence < 1 then 1 else cadence)
            && if cadence <= 1 || i >= |sessions| || i < a then
                 clock.isEntryDate && clock.sinceAnchor.None? && clock.nextEntryDate.None?
               else
                 && clock.sinceAnchor == Some(i - a)
                 && (clock.isEntryDate <==> (i - a) % cadence == 0)
                 && clock.nextEntryDate ==
                    if clock.isEntryDate then Some(asOf)
                    else if i + (cadence - (i - a) % cadence) < |sessions|
                    then Some(sessions[i + (cadence - (i - a) % cadence)]) else None
  {
    if i < |sessions| {
      IndexOfSession(sessions, i);
    }
    if a < |sessions| {
      AnchorOfCalendar(sessions, anchor, a);
    }
  }

  /** The answer is open, with no count since the anchor, exactly when the calendar cannot
      place the run date on the schedule. */
  lemma {:induction false} FailsOpenExactlyWhen(sessions: seq<Date>, asOf: Date, cadence: int, anchor: Date)
    requires Increasing(sessions)
    ensures var clock := Resolve(sessions, asOf, cadence, anchor);
            && (clock.sinceAnchor.None? ==> clock.isEntryDate)
            && (clock.sinceAnchor.None?
                <==> cadence <= 1 || asOf !in sessions || asOf < anchor)
  {
    if cadence > 1 && asOf in sessions {
      var i := IndexOf(sessions, asOf).value;
      var ai := AnchorIndex(sessions, anchor);
      if anchor <= asOf {
        assert ai.Some? && ai.value <= i;
      } else if ai.Some? {
        assert sessions[i] < sessions[ai.value];
      }
    }
  }
}
