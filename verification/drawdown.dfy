/** The drawdown of an equity curve (v3_monitor.py): one pass over running peaks, and
    what it says about every pair of points. */
module Drawdowns {
  import opened Common

  /** The highest of the first `j + 1` points. */
  function Peak(e: seq<real>, j: nat): real
    requires j < |e|
  {
    if j == 0 then e[0] else Max(Peak(e, j - 1), e[j])
  }

  /** How far below its running peak a point is; undefined under a peak that is not positive. */
  function Drop(e: seq<real>, j: nat): Option<real>
    requires j < |e|
  {
    if Peak(e, j) > 0.0 then Some(Div(e[j], Peak(e, j)) - 1.0) else None
  }

  /** The first of the deepest defined drops among the first `n` points. */
  function Trough(e: seq<real>, n: nat): (r: Option<nat>)
    requires n <= |e|
    ensures r.Some? ==> r.value < n && Drop(e, r.value).Some?
  {
    if n == 0 then None
    else
      var before := Trough(e, n - 1);
      var drop := Drop(e, n - 1);
      if drop.Some? && (before.None? || drop.value < Drop(e, before.value).value) then Some(n - 1) else before
  }

  /** The first of the highest among the first `n` points. */
  function Highest(e: seq<real>, n: nat): (i: nat)
    requires 0 < n <= |e|
    ensures i < n
  {
    if n == 1 then 0
    else
      var before := Highest(e, n - 1);
      if e[n - 1] > e[before] then n - 1 else before
  }

  /** `Raises` is the exception of a curve whose every drop is undefined. */
  datatype DrawdownFlag =
    | NothingToMeasure
    | Raises
    | Measured(flagged: bool, drawdown: real, peakAt: nat, troughAt: nat)

  /** `review_drawdown`. */
  function ReviewDrawdown(e: seq<real>, threshold: real): DrawdownFlag {
    if e == [] then NothingToMeasure
    else
      var trough := Trough(e, |e|);
      var current := Drop(e, |e| - 1);
      if trough.None? || current.None? then Raises
      else Measured(current.value <= threshold, current.value, Highest(e, trough.value + 1), trough.value)
  }

  // ---- running peaks ------------------------------------------------------------------------

  lemma {:induction false} PeakIsHighest(e: seq<real>, j: nat, i: nat)
    requires i <= j < |e|
    ensures e[i] <= Peak(e, j)
  {
    if i < j {
      PeakIsHighest(e, j - 1, i);
    }
  }

  lemma {:induction false} HighestIsPeak(e: seq<real>, j: nat)
    requires j < |e|
    ensures e[Highest(e, j + 1)] == Peak(e, j)
  {
    if j == 0 {
    } else {
      HighestIsPeak(e, j - 1);
    }
  }

  lemma {:induction false} PeaksRise(e: seq<real>, i: nat, j: nat)
    requires i <= j < |e|
    ensures Peak(e, i) <= Peak(e, j)
  {
    if i < j {
      PeaksRise(e, i, j - 1);
    }
  }

  lemma {:induction false} TroughIsDeepest(e: seq<real>, n: nat)
    requires n <= |e|
    ensures Trough(e, n).None? ==> forall j :: 0 <= j < n ==> Drop(e, j).None?
    ensures Trough(e, n).Some? ==>
              forall j :: 0 <= j < n && Drop(e, j).Some? ==> Drop(e, Trough(e, n).value).value <= Drop(e, j).value
  {
    if n == 0 {
    } else {
      TroughIsDeepest(e, n - 1);
    }
  }

  /** Only an empty curve has nothing to measure; one that is not empty and never above zero
      raises instead of being reported; every other curve is measured. */
  lemma {:induction false} MeasuredExactlyWhen(e: seq<real>, threshold: real)
    ensures ReviewDrawdown(e, threshold).NothingToMeasure? <==> e == []
    ensures ReviewDrawdown(e, threshold).Raises? <==> e != [] && forall i :: 0 <= i < |e| ==> e[i] <= 0.0
    ensures ReviewDrawdown(e, threshold).Measured? <==> exists i :: 0 <= i < |e| && e[i] > 0.0
  {
    if i :| 0 <= i < |e| && e[i] > 0.0 {
      PeakIsHighest(e, |e| - 1, i);
      TroughIsDeepest(e, |e|);
    } else if e != [] {
      HighestIsPeak(e, |e| - 1);
    }
  }

  lemma DivFalls(a: real, b: real, c: real)
    requires a >= 0.0 && 0.0 < b <= c
    ensures Div(a, c) <= Div(a, b)
  {
    var x, y := Div(a, b), Div(a, c);
    assert x * b == a && y * c == a;
    Sign(x, b);
    ScaleUp(x, b, c);
    CancelWeakly(y, x, c);
  }

  lemma CancelWeakly(y: real, x: real, c: real)
    requires y * c <= x * c && c > 0.0
    ensures y <= x
  {
  }

  lemma Scale(x: real, y: real, c: real)
    requires x < y && c > 0.0
    ensures x * c < y * c
  {
  }

  lemma ScaleUp(x: real, b: real, c: real)
    requires x >= 0.0 && b <= c
    ensures x * b <= x * c
  {
  }

  lemma Sign(x: real, b: real)
    requires b > 0.0 && x * b >= 0.0
    ensures x >= 0.0
  {
  }

  lemma DivRises(a: real, b: real, c: real)
    requires a < 0.0 && 0.0 < b < c
    ensures Div(a, b) < Div(a, c)
  {
    var x, y := Div(a, b), Div(a, c);
    assert x * b == a && y * c == a;
    BelowZero(x, b);
    ScaleDown(x, b, c);
    CancelScale(x, y, c);
  }

  lemma BelowZero(x: real, b: real)
    requires b > 0.0 && x * b < 0.0
    ensures x < 0.0
  {
  }

  lemma ScaleDown(x: real, b: real, c: real)
    requires x < 0.0 && b < c
    ensures x * c < x * b
  {
  }

  lemma CancelScale(x: real, y: real, c: real)
    requires x * c < y * c && c > 0.0
    ensures x < y
  {
  }

  /** No fall to point `j` from an earlier positive point is deeper than the one from the peak. */
  ghost predicate PeakFallIsDeepest(e: seq<real>, j: nat)
    requires j < |e| && Peak(e, j) > 0.0
  {
    forall i :: 0 <= i <= j && e[i] > 0.0 ==> Div(e[j], Peak(e, j)) <= Div(e[j], e[i])
  }

  /** Every positive point up to `j` is as high as the peak. */
  ghost predicate FlatUpTo(e: seq<real>, j: nat)
    requires j < |e|
  {
    forall i :: 0 <= i <= j && e[i] > 0.0 ==> e[i] == Peak(e, j)
  }

  lemma {:induction false} FallsFrom(e: seq<real>, j: nat, i: nat)
    requires i <= j < |e| && e[i] > 0.0
    ensures Peak(e, j) > 0.0
    ensures Div(e[j], Peak(e, j)) <= Div(e[j], e[i]) <==> e[j] >= 0.0 || e[i] == Peak(e, j)
  {
    PeakIsHighest(e, j, i);
    if e[j] >= 0.0 {
      DivFalls(e[j], e[i], Peak(e, j));
    } else if e[i] < Peak(e, j) {
      DivRises(e[j], e[i], Peak(e, j));
    }
  }

  /** Measuring a fall from the running peak finds the deepest one exactly when the curve is not
      below zero there, or has stood at no other positive height: below zero a smaller base
      makes a deeper ratio. */
  lemma {:induction false} PeakFallIsDeepestExactlyWhen(e: seq<real>, j: nat)
    requires j < |e| && Peak(e, j) > 0.0
    ensures PeakFallIsDeepest(e, j) <==> e[j] >= 0.0 || FlatUpTo(e, j)
  {
    forall i: nat | i <= j && e[i] > 0.0
      ensures Div(e[j], Peak(e, j)) <= Div(e[j], e[i]) <==> e[j] >= 0.0 || e[i] == Peak(e, j)
    {
      FallsFrom(e, j, i);
    }
  }

  /** The one pass finds the point furthest below its running peak, and the points it names
      are that peak and that point. No fall at all is deeper, except to a point below zero of a
      curve that has stood at different positive heights. */
  lemma {:induction false} DeepestFall(e: seq<real>, threshold: real)
    requires ReviewDrawdown(e, threshold).Measured?
    ensures var r := ReviewDrawdown(e, threshold);
            && r.peakAt <= r.troughAt < |e| && e[r.peakAt] == Peak(e, r.troughAt) > 0.0
            && (forall j :: 0 <= j < |e| && Peak(e, j) > 0.0 ==>
                  Div(e[r.troughAt], e[r.peakAt]) <= Div(e[j], Peak(e, j)))
            && (forall i, j :: 0 <= i <= j < |e| && e[i] > 0.0 && (e[j] >= 0.0 || FlatUpTo(e, j)) ==>
                  Div(e[r.troughAt], e[r.peakAt]) <= Div(e[j], e[i]))
  {
    var r := ReviewDrawdown(e, threshold);
    HighestIsPeak(e, r.troughAt);
    TroughIsDeepest(e, |e|);
    forall j | 0 <= j < |e| && Peak(e, j) > 0.0
      ensures Div(e[r.troughAt], e[r.peakAt]) <= Div(e[j], Peak(e, j))
    {
      assert Drop(e, j).Some?;
    }
    forall i, j | 0 <= i <= j < |e| && e[i] > 0.0 && (e[j] >= 0.0 || FlatUpTo(e, j))
      ensures Div(e[r.troughAt], e[r.peakAt]) <= Div(e[j], e[i])
    {
      FallsFrom(e, j, i);
    }
  }

  /** An instance of the exception. */
  lemma FallsBelowZero()
    ensures var e := [1.0, 4.0, -2.0];
            Peak(e, 2) == 4.0 && !PeakFallIsDeepest(e, 2)
  {
    var e := [1.0, 4.0, -2.0];
    assert Peak(e, 0) == 1.0 && Peak(e, 1) == 4.0 && Peak(e, 2) == 4.0;
    PeakFallIsDeepestExactlyWhen(e, 2);
    assert e[0] > 0.0 && e[0] != Peak(e, 2);
  }

  lemma DivAtMost(a: real, b: real, c: real)
    requires b > 0.0
    ensures Div(a, b) <= c <==> a <= Mul(c, b)
  {
    var x := Div(a, b);
    assert x * b == a;
    if x > c {
      Scale(c, x, b);
    } else if x < c {
      Scale(x, c, b);
    }
  }

  /** The curve ends at or under what `threshold` allows of its value at point `i`. */
  predicate FellFrom(e: seq<real>, threshold: real, i: nat)
    requires i < |e|
  {
    e[i] > 0.0 && e[|e| - 1] <= Mul(1.0 + threshold, e[i])
  }

  lemma FellFromPeak(e: seq<real>, threshold: real, i: nat)
    requires i < |e| && threshold >= -1.0 && FellFrom(e, threshold, i)
    ensures e[|e| - 1] <= Mul(1.0 + threshold, Peak(e, |e| - 1))
  {
    PeakIsHighest(e, |e| - 1, i);
    ScaleUp(1.0 + threshold, e[i], Peak(e, |e| - 1));
  }

  /** The flag is raised exactly when the last point is at or under the allowed part of some
      earlier point, for every threshold that allows a part of it to be lost. */
  lemma {:induction false} FlaggedExactlyWhen(e: seq<real>, threshold: real)
    requires ReviewDrawdown(e, threshold).Measured? && threshold >= -1.0
    ensures ReviewDrawdown(e, threshold).flagged
            <==> exists i: nat :: i < |e| && FellFrom(e, threshold, i)
  {
    var last, part := |e| - 1, 1.0 + threshold;
    DivAtMost(e[last], Peak(e, last), part);
    HighestIsPeak(e, last);
    if e[last] <= Mul(part, Peak(e, last)) {
      assert FellFrom(e, threshold, Highest(e, last + 1));
    }
    forall i: nat | i < |e| && FellFrom(e, threshold, i) ensures e[last] <= Mul(part, Peak(e, last)) {
      FellFromPeak(e, threshold, i);
    }
  }

  /** Point `p` is the first of the highest up to point `j`. */
  ghost predicate FirstHighest(e: seq<real>, j: nat, p: nat)
    requires j < |e|
  {
    p <= j && forall i :: 0 <= i <= j ==> e[i] <= e[p] && (i < p ==> e[i] < e[p])
  }

  lemma {:induction false} HighestIsFirst(e: seq<real>, j: nat)
    requires j < |e|
    ensures FirstHighest(e, j, Highest(e, j + 1)) && e[Highest(e, j + 1)] == Peak(e, j)
  {
    HighestIsPeak(e, j);
    if j == 0 {
    } else {
      HighestIsFirst(e, j - 1);
    }
  }

  /** Point `j` stands at this part of the highest point up to it. */
  ghost predicate StandsAt(e: seq<real>, j: nat, part: real) {
    j < |e| && exists p :: 0 <= p <= j && FirstHighest(e, j, p) && e[p] > 0.0 && part == Div(e[j], e[p])
  }

  lemma {:induction false} DropStandsAt(e: seq<real>, j: nat, part: real)
    requires j < |e|
    ensures StandsAt(e, j, part) <==> Drop(e, j) == Some(part - 1.0)
  {
    HighestIsFirst(e, j);
    if p :| 0 <= p <= j && FirstHighest(e, j, p) && e[p] > 0.0 && part == Div(e[j], e[p]) {
      assert e[p] == Peak(e, j);
    }
    if Drop(e, j) == Some(part - 1.0) {
      assert part == Div(e[j], e[Highest(e, j + 1)]);
    }
  }

  lemma {:induction false} TroughIsFirst(e: seq<real>, n: nat)
    requires n <= |e| && Trough(e, n).Some?
    ensures forall j :: 0 <= j < Trough(e, n).value && Drop(e, j).Some? ==>
              Drop(e, Trough(e, n).value).value < Drop(e, j).value
  {
    if n > 0 && Trough(e, n - 1).Some? {
      TroughIsFirst(e, n - 1);
      TroughIsDeepest(e, n - 1);
    } else if n > 0 {
      TroughIsDeepest(e, n - 1);
    }
  }

  /** No point stands at a lesser part, and none before point `t` at as little. */
  ghost predicate NoneStandsLower(e: seq<real>, t: nat, low: real) {
    forall j: nat, part: real :: StandsAt(e, j, part) ==> low <= part && (j < t ==> low < part)
  }

  lemma {:induction false} DeepestStandsLowest(e: seq<real>)
    requires Trough(e, |e|).Some?
    ensures var t := Trough(e, |e|).value; NoneStandsLower(e, t, Drop(e, t).value + 1.0)
  {
    var t := Trough(e, |e|).value;
    var low := Drop(e, t).value + 1.0;
    TroughIsDeepest(e, |e|);
    TroughIsFirst(e, |e|);
    forall j: nat, part: real | StandsAt(e, j, part) ensures low <= part && (j < t ==> low < part) {
      DropStandsAt(e, j, part);
    }
  }

  /** What is reported of the worst fall: the first point to stand at the least part of the highest
      up to it, and the first highest point before it. */
  lemma {:induction false} WorstFallMeans(e: seq<real>, threshold: real) returns (low: real)
    requires ReviewDrawdown(e, threshold).Measured?
    ensures var r := ReviewDrawdown(e, threshold);
            && r.troughAt < |e| && StandsAt(e, r.troughAt, low) && NoneStandsLower(e, r.troughAt, low)
            && FirstHighest(e, r.troughAt, r.peakAt)
  {
    low := TroughOf(e);
    HighestIsFirst(e, Trough(e, |e|).value);
  }

  lemma {:induction false} TroughOf(e: seq<real>) returns (low: real)
    requires Trough(e, |e|).Some?
    ensures var t := Trough(e, |e|).value; StandsAt(e, t, low) && NoneStandsLower(e, t, low)
  {
    var t := Trough(e, |e|).value;
    low := Drop(e, t).value + 1.0;
    DeepestStandsLowest(e);
    DropStandsAt(e, t, low);
  }

  /** What is reported of today: how far under one the last point stands, flagged when that is at or
      under the threshold. */
  lemma {:induction false} TodayMeans(e: seq<real>, threshold: real)
    requires ReviewDrawdown(e, threshold).Measured?
    ensures var r := ReviewDrawdown(e, threshold);
            StandsAt(e, |e| - 1, r.drawdown + 1.0) && (r.flagged <==> r.drawdown <= threshold)
  {
    DropStandsAt(e, |e| - 1, ReviewDrawdown(e, threshold).drawdown + 1.0);
  }
}
