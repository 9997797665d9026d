/** How many independent columns a composite carries (v3_monitor.py): the
    participation ratio of a correlation matrix, per date and averaged. The
    eigenvalues come from a linear-algebra routine that is not part of this model;
    their number and their sum, the matrix's size and trace, are all that is known. */
module Breadth {
  import opened Common

  function Squares(x: seq<real>): real {
    if x == [] then 0.0 else Squares(x[..|x| - 1]) + Mul(x[|x| - 1], x[|x| - 1])
  }

  function Clipped(x: seq<real>): (r: seq<real>)
    ensures |r| == |x| && forall i :: 0 <= i < |x| ==> r[i] == Max(x[i], 0.0)
  {
    seq(|x|, i requires 0 <= i < |x| => Max(x[i], 0.0))
  }

  /** `participation_ratio` of the eigenvalues; `None` where the original has NaN. */
  function Participation(eigenvalues: seq<real>): Option<real> {
    var ev := Clipped(eigenvalues);
    if Squares(ev) > 0.0 then Some(Div(Mul(Total(ev), Total(ev)), Squares(ev))) else None
  }

  ghost predicate NonNegative(x: seq<real>) {
    forall i :: 0 <= i < |x| ==> x[i] >= 0.0
  }

  ghost predicate AllEqual(x: seq<real>) {
    forall i, j :: 0 <= i < |x| && 0 <= j < |x| ==> x[i] == x[j]
  }

  ghost predicate AtMostOnePositive(x: seq<real>) {
    forall i, j :: 0 <= i < j < |x| ==> x[i] <= 0.0 || x[j] <= 0.0
  }

  // ---- Cauchy and Schwarz ---------------------------------------------------------------

  /** Sum of the squared distances of the elements from `y`. */
  function Spread(x: seq<real>, y: real): real {
    if x == [] then 0.0 else Spread(x[..|x| - 1], y) + Mul(x[|x| - 1] - y, x[|x| - 1] - y)
  }

  lemma ProductOf(a: real, b: real)
    requires a >= 0.0 && b >= 0.0
    ensures Mul(a, b) >= 0.0
    ensures Mul(a, b) == 0.0 <==> a == 0.0 || b == 0.0
  {
  }

  lemma SquareOf(a: real)
    ensures Mul(a, a) >= 0.0
    ensures Mul(a, a) == 0.0 <==> a == 0.0
  {
    if a >= 0.0 {
      ProductOf(a, a);
    } else {
      ProductOf(-a, -a);
      assert Mul(-a, -a) == Mul(a, a);
    }
  }

  lemma DifferenceSquared(a: real, b: real)
    ensures Mul(a - b, a - b) == Mul(a, a) - 2.0 * Mul(a, b) + Mul(b, b)
  {
  }

  lemma SumSquared(a: real, b: real)
    ensures Mul(a + b, a + b) == Mul(a, a) + 2.0 * Mul(a, b) + Mul(b, b)
  {
  }

  lemma AddedTo(a: real, b: real, c: real)
    ensures Mul(a + b, c) == Mul(a, c) + Mul(b, c)
  {
  }

  lemma {:induction false} SpreadExpands(x: seq<real>, y: real)
    ensures Spread(x, y) == Squares(x) - 2.0 * Mul(Total(x), y) + Mul(|x| as real, Mul(y, y))
    ensures Spread(x, y) >= 0.0
    ensures Spread(x, y) == 0.0 <==> forall i :: 0 <= i < |x| ==> x[i] == y
  {
    if x == [] {
    } else {
      var n := |x| - 1;
      SpreadExpands(x[..n], y);
      DifferenceSquared(x[n], y);
      SquareOf(x[n] - y);
      AddedTo(Total(x[..n]), x[n], y);
      AddedTo(n as real, 1.0, Mul(y, y));
      assert n as real + 1.0 == |x| as real;
      assert forall i :: 0 <= i < n ==> x[..n][i] == x[i];
      assert (forall i :: 0 <= i < |x| ==> x[i] == y) <==> (forall i :: 0 <= i < n ==> x[..n][i] == y) && x[n] == y;
    }
  }

  function Slack(x: seq<real>): real {
    Mul(|x| as real, Squares(x)) - Mul(Total(x), Total(x))
  }

  lemma SlackArithmetic(n: real, s: real, q: real, y: real)
    ensures Mul(n + 1.0, q + Mul(y, y)) - Mul(s + y, s + y)
            == Mul(n, q) - Mul(s, s) + (q - 2.0 * Mul(s, y) + Mul(n, Mul(y, y)))
  {
    SumSquared(s, y);
    AddedTo(n, 1.0, q + Mul(y, y));
    AddedTo(q, Mul(y, y), n);
  }

  lemma SlackGrows(x: seq<real>)
    requires x != []
    ensures Slack(x) == Slack(x[..|x| - 1]) + Spread(x[..|x| - 1], x[|x| - 1])
  {
    var n := |x| - 1;
    var s, q, y := Total(x[..n]), Squares(x[..n]), x[n];
    SpreadExpands(x[..n], y);
    SlackArithmetic(n as real, s, q, y);
    assert |x| as real == n as real + 1.0;
  }

  /** The square of the sum is at most the number times the sum of squares, and equal to it
      only when the elements are equal. */
  lemma {:induction false} CauchySchwarz(x: seq<real>)
    ensures Slack(x) >= 0.0
    ensures Slack(x) == 0.0 <==> AllEqual(x)
  {
    if x == [] {
    } else {
      var n := |x| - 1;
      CauchySchwarz(x[..n]);
      SlackGrows(x);
      SpreadExpands(x[..n], x[n]);
      if Slack(x) == 0.0 {
        forall i, j | 0 <= i < |x| && 0 <= j < |x| ensures x[i] == x[j] {
          assert i < n ==> x[..n][i] == x[n];
          assert j < n ==> x[..n][j] == x[n];
        }
      }
    }
  }

  lemma {:induction false} TotalFacts(x: seq<real>)
    requires NonNegative(x)
    ensures Total(x) >= 0.0 && Squares(x) >= 0.0
    ensures Total(x) == 0.0 <==> forall i :: 0 <= i < |x| ==> x[i] == 0.0
    ensures Squares(x) == 0.0 <==> forall i :: 0 <= i < |x| ==> x[i] == 0.0
  {
    if x == [] {
    } else {
      var n := |x| - 1;
      TotalFacts(x[..n]);
      SquareOf(x[n]);
      assert (forall i :: 0 <= i < |x| ==> x[i] == 0.0)
             <==> (forall i :: 0 <= i < n ==> x[..n][i] == 0.0) && x[n] == 0.0;
    }
  }

  /** Over non-negative elements the square of the sum is at least the sum of squares, and
      equal to it only when no two of them are positive. */
  lemma {:induction false} SquaresBelow(x: seq<real>)
    requires NonNegative(x)
    ensures Squares(x) <= Mul(Total(x), Total(x))
    ensures Squares(x) == Mul(Total(x), Total(x)) <==> AtMostOnePositive(x)
  {
    if x == [] {
    } else {
      var n := |x| - 1;
      var front := x[..n];
      SquaresBelow(front);
      TotalFacts(front);
      SumSquared(Total(front), x[n]);
      ProductOf(Total(front), x[n]);
      AtMostOneSplits(x);
      assert (forall i :: 0 <= i < n ==> front[i] == 0.0) <==> (forall i :: 0 <= i < n ==> x[i] == 0.0);
    }
  }

  lemma AtMostOneSplits(x: seq<real>)
    requires NonNegative(x) && x != []
    ensures AtMostOnePositive(x)
            <==> AtMostOnePositive(x[..|x| - 1])
                 && (x[|x| - 1] == 0.0 || forall i :: 0 <= i < |x| - 1 ==> x[i] == 0.0)
  {
    var n := |x| - 1;
    var front := x[..n];
    assert forall i :: 0 <= i < n ==> front[i] == x[i];
    if AtMostOnePositive(x) && x[n] != 0.0 {
      forall i | 0 <= i < n ensures x[i] == 0.0 {
        assert x[i] <= 0.0;
      }
    }
  }

  lemma DivBounds(a: real, b: real, c: real)
    requires b > 0.0
    ensures c <= Div(a, b) <==> Mul(c, b) <= a
    ensures Div(a, b) <= c <==> a <= Mul(c, b)
  {
    assert Div(a, b) * b == a;
    if c <= Div(a, b) {
      assert c * b <= Div(a, b) * b;
    } else {
      assert c * b > Div(a, b) * b;
    }
    if Div(a, b) <= c {
      assert Div(a, b) * b <= c * b;
    } else {
      assert Div(a, b) * b > c * b;
    }
  }

  /** The ratio exists when some eigenvalue is positive, and then lies between one and the
      number of columns: one exactly when a single direction carries everything, all of them
      exactly when every direction carries the same. */
  lemma {:induction false} ParticipationBounds(eigenvalues: seq<real>)
    ensures var r := Participation(eigenvalues);
            && (r.Some? <==> exists i :: 0 <= i < |eigenvalues| && eigenvalues[i] > 0.0)
            && (r.Some? ==> 1.0 <= r.value <= |eigenvalues| as real
                            && (r.value == 1.0 <==> AtMostOnePositive(Clipped(eigenvalues)))
                            && (r.value == |eigenvalues| as real <==> AllEqual(Clipped(eigenvalues))))
  {
    var ev := Clipped(eigenvalues);
    var s, q, n := Total(ev), Squares(ev), |ev| as real;
    TotalFacts(ev);
    CauchySchwarz(ev);
    SquaresBelow(ev);
    if q > 0.0 {
      assert Mul(1.0, q) == q;
      DivBounds(Mul(s, s), q, 1.0);
      DivBounds(Mul(s, s), q, n);
    }
    PositiveSurvives(eigenvalues);
  }

  lemma PositiveSurvives(x: seq<real>)
    ensures (forall i :: 0 <= i < |x| ==> Clipped(x)[i] == 0.0) <==> !(exists i :: 0 <= i < |x| && x[i] > 0.0)
  {
    if i :| 0 <= i < |x| && x[i] > 0.0 {
      assert Clipped(x)[i] == x[i];
    } else {
      forall i | 0 <= i < |x| ensures Clipped(x)[i] == 0.0 {
        assert !(x[i] > 0.0);
      }
    }
  }

  /** The two sums, element by element. */
  lemma {:induction false} SumsMean(a: seq<real>, b: seq<real>, y: real)
    ensures Total(a + b) == Total(a) + Total(b) && Total([y]) == y
    ensures Squares(a + b) == Squares(a) + Squares(b) && Squares([y]) == y * y
  {
    assert [y][..0] == [];
    if b == [] {
      assert a + b == a;
    } else {
      var n := |b| - 1;
      SumsMean(a, b[..n], y);
      assert (a + b)[..|a| + n] == a + b[..n];
    }
  }

  /** The ratio is that of the squared sum of the positive eigenvalues to the sum of their squares. */
  lemma ParticipationMeans(eigenvalues: seq<real>)
    requires Participation(eigenvalues).Some?
    ensures var ev := Clipped(eigenvalues);
            && (forall i :: 0 <= i < |ev| ==> ev[i] == if eigenvalues[i] > 0.0 then eigenvalues[i] else 0.0)
            && Mul(Participation(eigenvalues).value, Squares(ev)) == Mul(Total(ev), Total(ev))
    ensures forall a, b :: Mul(a, b) == a * b
  {
    var ev := Clipped(eigenvalues);
    QuotientTimes(Mul(Total(ev), Total(ev)), Squares(ev));
  }

  lemma QuotientTimes(a: real, b: real)
    requires b != 0.0
    ensures Mul(Div(a, b), b) == a
  {
  }

  // ---- the average over dates ---------------------------------------------------------------

  /** One date: how many names each declared column covers, and the eigenvalues of the
      correlation matrix of the columns that cover enough of them. */
  datatype Section = Section(covered: seq<nat>, eigenvalues: seq<real>)

  /** How many columns cover at least `minNames` names. */
  function Present(covered: seq<nat>, minNames: nat): nat {
    if covered == [] then 0
    else Present(covered[..|covered| - 1], minNames) + (if covered[|covered| - 1] >= minNames then 1 else 0)
  }

  ghost function Covering(covered: seq<nat>, n: nat, minNames: nat): set<nat>
    requires n <= |covered|
  {
    set i: nat | i < n && covered[i] >= minNames
  }

  lemma {:induction false} PresentCounts(covered: seq<nat>, n: nat, minNames: nat)
    requires n <= |covered|
    ensures Present(covered[..n], minNames) == |Covering(covered, n, minNames)|
  {
    if n == 0 {
      assert Covering(covered, n, minNames) == {};
    } else {
      PresentCounts(covered, n - 1, minNames);
      assert covered[..n][..n - 1] == covered[..n - 1];
      var last: set<nat> := if covered[n - 1] >= minNames then {n - 1} else {};
      assert Covering(covered, n, minNames) == Covering(covered, n - 1, minNames) + last;
    }
  }

  /** The matrix has one eigenvalue a column, and ones on its diagonal. */
  ghost predicate IsSection(section: Section, minNames: nat) {
    var n := Present(section.covered, minNames);
    n >= 2 ==> |section.eigenvalues| == n && Total(section.eigenvalues) == n as real
  }

  function EffectiveCount(section: Section, minNames: nat): Option<real> {
    if Present(section.covered, minNames) < 2 then None else Participation(section.eigenvalues)
  }

  lemma {:induction false} SomePositive(x: seq<real>)
    requires Total(x) > 0.0
    ensures exists i :: 0 <= i < |x| && x[i] > 0.0
  {
    var n := |x| - 1;
    if x[n] <= 0.0 {
      SomePositive(x[..n]);
      var i :| 0 <= i < n && x[..n][i] > 0.0;
      assert x[i] > 0.0;
    }
  }

  /** A date is measured exactly when two columns cover enough names, and its effective
      count never exceeds the columns present. */
  lemma {:induction false} EffectiveNeverExceedsPresent(section: Section, minNames: nat)
    requires IsSection(section, minNames)
    ensures var e, n := EffectiveCount(section, minNames), Present(section.covered, minNames);
            (e.Some? <==> n >= 2) && (e.Some? ==> 1.0 <= e.value <= n as real)
  {
    var n := Present(section.covered, minNames);
    if n >= 2 {
      SomePositive(section.eigenvalues);
      ParticipationBounds(section.eigenvalues);
    }
  }

  function Measured(sections: seq<Section>, minNames: nat): seq<Section> {
    if sections == [] then []
    else
      var n := |sections| - 1;
      var before := Measured(sections[..n], minNames);
      if EffectiveCount(sections[n], minNames).Some? then before + [sections[n]] else before
  }

  /** Date by date, in order: those on which two columns cover enough names. */
  lemma {:induction false} MeasuredMeans(a: seq<Section>, b: seq<Section>, section: Section, minNames: nat)
    ensures Measured(a + b, minNames) == Measured(a, minNames) + Measured(b, minNames)
    ensures IsSection(section, minNames) ==>
              Measured([section], minNames)
              == if |Covering(section.covered, |section.covered|, minNames)| >= 2 then [section] else []
  {
    assert [section][..0] == [];
    PresentCounts(section.covered, |section.covered|, minNames);
    assert section.covered[..|section.covered|] == section.covered;
    if IsSection(section, minNames) {
      EffectiveNeverExceedsPresent(section, minNames);
    }
    if b == [] {
      assert a + b == a;
    } else {
      var n := |b| - 1;
      MeasuredMeans(a, b[..n], section, minNames);
      assert (a + b)[..|a| + n] == a + b[..n];
    }
  }

  // ---- the median ---------------------------------------------------------------------------

  function InsertReal(x: real, sorted: seq<real>): seq<real> {
    if sorted == [] || x <= sorted[0] then [x] + sorted else [sorted[0]] + InsertReal(x, sorted[1..])
  }

  function SortReals(s: seq<real>): (sorted: seq<real>)
    ensures |sorted| == |s|
  {
    if s == [] then [] else InsertFacts(s[0], SortReals(s[1..])); InsertReal(s[0], SortReals(s[1..]))
  }

  /** The middle value, or half way between the two middle ones. */
  function Median(s: seq<real>): real
    requires s != []
  {
    var sorted, n := SortReals(s), |s|;
    if n % 2 == 1 then sorted[n / 2] else Div(sorted[n / 2 - 1] + sorted[n / 2], 2.0)
  }

  ghost predicate Rising(s: seq<real>) {
    forall i, j :: 0 <= i < j < |s| ==> s[i] <= s[j]
  }

  lemma InsertFacts(x: real, sorted: seq<real>)
    ensures |InsertReal(x, sorted)| == |sorted| + 1
    ensures forall y :: y in InsertReal(x, sorted) <==> y == x || y in sorted
  {
    if sorted != [] && x > sorted[0] {
      InsertFacts(x, sorted[1..]);
      assert sorted == [sorted[0]] + sorted[1..];
    }
  }

  lemma RisingCons(x: real, s: seq<real>)
    requires Rising(s) && forall y :: y in s ==> x <= y
    ensures Rising([x] + s)
  {
    forall i, j | 0 <= i < j < |s| + 1 ensures ([x] + s)[i] <= ([x] + s)[j] {
      assert ([x] + s)[j] == s[j - 1] && s[j - 1] in s;
    }
  }

  lemma {:induction false} InsertRises(x: real, sorted: seq<real>)
    requires Rising(sorted)
    ensures Rising(InsertReal(x, sorted))
  {
    if sorted == [] || x <= sorted[0] {
      forall y | y in sorted ensures x <= y {
        var i :| 0 <= i < |sorted| && sorted[i] == y;
      }
      RisingCons(x, sorted);
    } else {
      InsertRises(x, sorted[1..]);
      InsertFacts(x, sorted[1..]);
      forall y | y in InsertReal(x, sorted[1..]) ensures sorted[0] <= y {
        if y in sorted[1..] {
          var i :| 0 <= i < |sorted| - 1 && sorted[1..][i] == y;
          assert sorted[i + 1] == y;
        }
      }
      RisingCons(sorted[0], InsertReal(x, sorted[1..]));
    }
  }

  lemma {:induction false} SortedReals(s: seq<real>)
    ensures Rising(SortReals(s))
    ensures forall y :: y in SortReals(s) <==> y in s
  {
    if s == [] {
    } else {
      SortedReals(s[1..]);
      InsertRises(s[0], SortReals(s[1..]));
      InsertFacts(s[0], SortReals(s[1..]));
      assert s == [s[0]] + s[1..];
    }
  }

  lemma InsertRealPermutes(x: real, sorted: seq<real>)
    ensures multiset(InsertReal(x, sorted)) == multiset(sorted) + multiset{x}
  {
    if sorted != [] && x > sorted[0] {
      InsertRealPermutes(x, sorted[1..]);
      assert sorted == [sorted[0]] + sorted[1..];
    }
  }

  lemma {:induction false} SortRealsPermutes(s: seq<real>)
    ensures multiset(SortReals(s)) == multiset(s)
  {
    if s == [] {
    } else {
      SortRealsPermutes(s[1..]);
      InsertRealPermutes(s[0], SortReals(s[1..]));
      assert s == [s[0]] + s[1..];
    }
  }

  /** Of the values in rising order the median is the middle one, or the mean of the middle two. */
  lemma {:induction false} MedianMeans(s: seq<real>) returns (sorted: seq<real>)
    requires s != []
    ensures Rising(sorted) && multiset(sorted) == multiset(s) && |sorted| == |s|
    ensures |s| % 2 == 1 ==> Median(s) == sorted[(|s| - 1) / 2]
    ensures |s| % 2 == 0 ==> Median(s) == (sorted[|s| / 2 - 1] + sorted[|s| / 2]) / 2.0
  {
    sorted := SortReals(s);
    SortedReals(s);
    SortRealsPermutes(s);
  }

  lemma {:induction false} MedianBetween(s: seq<real>, lo: real, hi: real)
    requires s != [] && forall i :: 0 <= i < |s| ==> lo <= s[i] <= hi
    ensures lo <= Median(s) <= hi
  {
    var sorted, n := SortReals(s), |s|;
    SortedReals(s);
    forall i | 0 <= i < n ensures lo <= sorted[i] <= hi {
      assert sorted[i] in sorted;
    }
    if n % 2 == 0 {
      assert Div(sorted[n / 2 - 1] + sorted[n / 2], 2.0) * 2.0 == sorted[n / 2 - 1] + sorted[n / 2];
    }
  }

  // ---- the report ---------------------------------------------------------------------------

  /** What is reported of the measured dates. */
  datatype BreadthReport = BreadthReport(
    dates: nat,
    columnsDeclared: nat,
    presentMean: real,
    effectiveMean: real,
    effectiveMedian: real,
    overstatement: real)

  ghost predicate Averages(report: BreadthReport, measured: seq<Section>, minNames: nat, sqrt: real -> real)
    requires measured != []
    requires forall s :: s in measured ==> EffectiveCount(s, minNames).Some?
  {
    var n := |measured| as real;
    && report.dates == |measured|
    && report.presentMean == Div(Total(PresentOf(measured, minNames)), n)
    && report.effectiveMean == Div(Total(EffectiveOf(measured, minNames)), n)
    && report.effectiveMedian == Median(EffectiveOf(measured, minNames))
    && report.effectiveMean > 0.0
    && report.overstatement == sqrt(Div(report.presentMean, report.effectiveMean))
  }

  function PresentOf(measured: seq<Section>, minNames: nat): seq<real> {
    seq(|measured|, i requires 0 <= i < |measured| => Present(measured[i].covered, minNames) as real)
  }

  function EffectiveOf(measured: seq<Section>, minNames: nat): seq<real>
    requires forall s :: s in measured ==> EffectiveCount(s, minNames).Some?
  {
    seq(|measured|, i requires 0 <= i < |measured| => EffectiveCount(measured[i], minNames).value)
  }

  /** What is averaged: of each measured date the ratio of its own eigenvalues, and the number of
      columns that cover enough names. */
  lemma AveragedMeans(measured: seq<Section>, minNames: nat, i: nat)
    requires i < |measured| && forall s :: s in measured ==> EffectiveCount(s, minNames).Some?
    ensures |EffectiveOf(measured, minNames)| == |PresentOf(measured, minNames)| == |measured|
    ensures Participation(measured[i].eigenvalues) == Some(EffectiveOf(measured, minNames)[i])
    ensures PresentOf(measured, minNames)[i]
            == |Covering(measured[i].covered, |measured[i].covered|, minNames)| as real
  {
    assert measured[i] in measured;
    PresentCounts(measured[i].covered, |measured[i].covered|, minNames);
    assert measured[i].covered[..|measured[i].covered|] == measured[i].covered;
  }

  lemma {:induction false} MeasuredAreMeasured(sections: seq<Section>, minNames: nat)
    ensures forall s :: s in Measured(sections, minNames) <==> s in sections && EffectiveCount(s, minNames).Some?
  {
    if sections == [] {
    } else {
      var n := |sections| - 1;
      MeasuredAreMeasured(sections[..n], minNames);
      assert sections == sections[..n] + [sections[n]];
    }
  }

  lemma {:induction false} TotalsOrdered(a: seq<real>, b: seq<real>)
    requires |a| == |b|
    requires forall i :: 0 <= i < |a| ==> 1.0 <= a[i] <= b[i]
    ensures |a| as real <= Total(a) <= Total(b)
  {
    if a == [] {
    } else {
      TotalsOrdered(a[..|a| - 1], b[..|a| - 1]);
    }
  }

  lemma AveragesOrdered(low: real, high: real, n: real)
    requires n >= 1.0 && n <= low <= high
    ensures 1.0 <= Div(low, n) <= Div(high, n)
    ensures Div(Div(high, n), Div(low, n)) >= 1.0
  {
    var e, p := Div(low, n), Div(high, n);
    assert Mul(1.0, n) == n;
    DivBounds(low, n, 1.0);
    assert Mul(e, n) == low;
    DivBounds(high, n, e);
    assert Mul(1.0, e) == e;
    DivBounds(p, e, 1.0);
  }

  /** The loop over dates: the effective and the present counts of the measured ones. */
  method MeasureDates(sections: seq<Section>, minNames: nat)
    returns (effective: seq<real>, present: seq<real>)
    ensures forall s :: s in Measured(sections, minNames) ==> EffectiveCount(s, minNames).Some?
    ensures effective == EffectiveOf(Measured(sections, minNames), minNames)
    ensures present == PresentOf(Measured(sections, minNames), minNames)
  {
    effective, present := [], [];
    MeasuredAreMeasured([], minNames);
    for i := 0 to |sections|
      invariant forall s :: s in Measured(sections[..i], minNames) ==> EffectiveCount(s, minNames).Some?
      invariant effective == EffectiveOf(Measured(sections[..i], minNames), minNames)
      invariant present == PresentOf(Measured(sections[..i], minNames), minNames)
    {
      assert sections[..i + 1][..i] == sections[..i];
      MeasuredAreMeasured(sections[..i + 1], minNames);
      var e := EffectiveCount(sections[i], minNames);
      if e.Some? {
        effective := effective + [e.value];
        present := present + [Present(sections[i].covered, minNames) as real];
      }
    }
    assert sections[..|sections|] == sections;
  }

  lemma PresentAtMost(covered: seq<nat>, minNames: nat)
    ensures Present(covered, minNames) <= |covered|
  {
    if covered == [] {
    } else {
      PresentAtMost(covered[..|covered| - 1], minNames);
    }
  }

  lemma {:induction false} TotalAtMost(x: seq<real>, c: real)
    requires forall i :: 0 <= i < |x| ==> x[i] <= c
    ensures Total(x) <= Mul(c, |x| as real)
  {
    if x == [] {
    } else {
      TotalAtMost(x[..|x| - 1], c);
      AddedTo((|x| - 1) as real, 1.0, c);
    }
  }

  lemma MeasuredBounds(sections: seq<Section>, columns: nat, minNames: nat, effective: seq<real>, present: seq<real>)
    requires forall s :: s in sections ==> IsSection(s, minNames) && |s.covered| == columns
    requires forall s :: s in Measured(sections, minNames) ==> EffectiveCount(s, minNames).Some?
    requires effective == EffectiveOf(Measured(sections, minNames), minNames)
    requires present == PresentOf(Measured(sections, minNames), minNames)
    ensures |effective| as real <= Total(effective) <= Total(present)
    ensures |effective| == |present|
    ensures forall i :: 0 <= i < |effective| ==> 1.0 <= effective[i] <= present[i] <= columns as real
    ensures effective == [] <==> forall s :: s in sections ==> Present(s.covered, minNames) < 2
  {
    var measured := Measured(sections, minNames);
    MeasuredAreMeasured(sections, minNames);
    forall s | s in sections
      ensures var e, n := EffectiveCount(s, minNames), Present(s.covered, minNames);
              (e.Some? <==> n >= 2) && (e.Some? ==> 1.0 <= e.value <= n as real)
    {
      EffectiveNeverExceedsPresent(s, minNames);
    }
    forall i | 0 <= i < |measured| ensures 1.0 <= effective[i] <= present[i] <= columns as real {
      assert measured[i] in measured;
      PresentAtMost(measured[i].covered, minNames);
    }
    TotalsOrdered(effective, present);
    if effective != [] {
      assert measured[0] in measured;
    }
  }

  lemma RootAtLeastOne(root: real, x: real)
    requires root >= 0.0 && Mul(root, root) == x && x >= 1.0
    ensures root >= 1.0
  {
    if root < 1.0 {
      SquareBelowOne(root);
    }
  }

  lemma SquareBelowOne(root: real)
    requires 0.0 <= root < 1.0
    ensures Mul(root, root) < 1.0
  {
    ProductOf(root, 1.0 - root);
    assert root * root == root - root * (1.0 - root);
  }

  /** `effective_breadth`: the report never claims fewer columns than are independent, nor more
      than were declared. */
  method EffectiveBreadth(sections: seq<Section>, columns: nat, minNames: nat, sqrt: real -> real)
    returns (r: Option<BreadthReport>)
    requires forall s :: s in sections ==> IsSection(s, minNames) && |s.covered| == columns
    ensures r.None? <==> forall s :: s in sections ==> Present(s.covered, minNames) < 2
    ensures r.Some? ==> Measured(sections, minNames) != []
                        && (forall s :: s in Measured(sections, minNames) ==> EffectiveCount(s, minNames).Some?)
                        && Averages(r.value, Measured(sections, minNames), minNames, sqrt)
    ensures r.Some? ==> r.value.columnsDeclared == columns
                        && 1.0 <= r.value.effectiveMean <= r.value.presentMean <= columns as real
                        && 1.0 <= r.value.effectiveMedian <= columns as real
    ensures r.Some? && r.value.overstatement >= 0.0
            && Mul(r.value.overstatement, r.value.overstatement) == Div(r.value.presentMean, r.value.effectiveMean) ==>
              r.value.overstatement >= 1.0
  {
    var effective, present := MeasureDates(sections, minNames);
    MeasuredBounds(sections, columns, minNames, effective, present);
    if effective == [] {
      return None;
    }
    var n := |effective| as real;
    AveragesOrdered(Total(effective), Total(present), n);
    var p, e := Div(Total(present), n), Div(Total(effective), n);
    MedianBetween(effective, 1.0, columns as real);
    var root := sqrt(Div(p, e));
    if root >= 0.0 && Mul(root, root) == Div(p, e) {
      RootAtLeastOne(root, Div(p, e));
    }
    TotalAtMost(present, columns as real);
    DivBounds(Total(present), n, columns as real);
    r := Some(BreadthReport(|effective|, columns, p, e, Median(effective), root));
  }

  // ---- the window in which the model has settled ------------------------------------------------

  /** The dates from the `i`-th on are good. */
  predicate AllFrom(ok: seq<bool>, i: nat)
    requires i <= |ok|
  {
    forall k :: i <= k < |ok| ==> ok[k]
  }

  /** `stable_model_window`: the start of the unbroken stretch that reaches the last date,
      which exists exactly when the last date itself is good. */
  method StableWindow(ok: seq<bool>) returns (r: Option<nat>)
    ensures r.None? <==> ok == [] || !ok[|ok| - 1]
    ensures r.Some? ==> r.value < |ok| && (forall k :: r.value <= k < |ok| ==> ok[k])
                        && (r.value > 0 ==> !ok[r.value - 1])
  {
    for i := 0 to |ok|
      invariant forall k :: 0 <= k < i ==> !AllFrom(ok, k)
    {
      if AllFrom(ok, i) {
        assert i > 0 ==> !AllFrom(ok, i - 1);
        return Some(i);
      }
    }
    assert ok != [] ==> !AllFrom(ok, |ok| - 1);
    r := None;
  }
}
