/** One position per holding (`dedupe`, `merge_reentries` and `overlaps` in
    performance.py). */
module Merging {
  import opened Common

  /** Tickers and dates are compared, never computed with: both are ranks. */
  type Ticker = int
  type Date = int

  /** One resolved outcome; `legs` is 0 when `merged_legs` is absent. */
  datatype Row = Row(
    ticker: Ticker,
    signalDate: Date,
    entry: Date,
    exit: Date,
    entryPrice: real,
    exitPrice: real,
    reason: string,
    gross: real,
    net: real,
    sessions: int,
    legs: nat)
  {
    function Call(): (Ticker, Date) { (ticker, signalDate) }

    function Legs(): nat { if legs == 0 then 1 else legs }

    function Slip(): real { gross - net }

    predicate Holds(t: Ticker, d: Date) { ticker == t && entry <= d <= exit }
  }

  function EntryKey(r: Row): (int, int) { (r.ticker, r.entry) }

  // ---- one call is one call ---------------------------------------------------------

  function Calls(rows: seq<Row>): set<(Ticker, Date)> {
    set r | r in rows :: r.Call()
  }

  function Deduped(rows: seq<Row>): seq<Row> {
    if rows == [] then []
    else
      var before := Deduped(rows[..|rows| - 1]);
      var last := rows[|rows| - 1];
      if last.Call() in Calls(before) then before else before + [last]
  }

  ghost predicate DistinctCalls(rows: seq<Row>) {
    forall i, j :: 0 <= i < j < |rows| ==> rows[i].Call() != rows[j].Call()
  }

  /** One row per call, no call lost. */
  lemma {:induction false} DedupeKeepsOnePerCall(rows: seq<Row>)
    ensures DistinctCalls(Deduped(rows)) && Calls(Deduped(rows)) == Calls(rows)
    ensures forall r :: r in Deduped(rows) ==> r in rows
  {
    if rows == [] {
    } else {
      var n := |rows| - 1;
      DedupeKeepsOnePerCall(rows[..n]);
      var before := Deduped(rows[..n]);
      assert rows == rows[..n] + [rows[n]];
      assert Calls(rows) == Calls(rows[..n]) + {rows[n].Call()};
      assert Calls(before + [rows[n]]) == Calls(before) + {rows[n].Call()};
      forall i | 0 <= i < |before| ensures before[i].Call() in Calls(before) {
        assert before[i] in before;
      }
    }
  }

  lemma {:induction false} DedupeOfDistinct(rows: seq<Row>)
    requires DistinctCalls(rows)
    ensures Deduped(rows) == rows
  {
    if rows == [] {
    } else {
      var n := |rows| - 1;
      DedupeOfDistinct(rows[..n]);
      forall r | r in rows[..n] ensures r.Call() != rows[n].Call() {
      }
      assert rows == rows[..n] + [rows[n]];
    }
  }

  method Dedupe(outcomes: seq<Row>) returns (out: seq<Row>)
    ensures out == Deduped(outcomes)
  {
    var seen: set<(Ticker, Date)> := {};
    out := [];
    for i := 0 to |outcomes|
      invariant out == Deduped(outcomes[..i]) && seen == Calls(out)
    {
      assert outcomes[..i + 1][..i] == outcomes[..i];
      var key := outcomes[i].Call();
      if key in seen {
        continue;
      }
      assert Calls(out + [outcomes[i]]) == Calls(out) + {key};
      seen := seen + {key};
      out := out + [outcomes[i]];
    }
    assert outcomes[..|outcomes|] == outcomes;
  }

  // ---- merging re-entries -----------------------------------------------------------

  predicate Continues(prev: Row, next: Row) {
    prev.ticker == next.ticker && next.entry <= prev.exit
  }

  /** `prev` after absorbing the leg `next`. */
  function Extended(prev: Row, next: Row): Row {
    var later := if next.exit > prev.exit
                 then prev.(exit := next.exit, exitPrice := next.exitPrice, reason := next.reason)
                 else prev;
    var priced := if later.entryPrice > 0.0
                  then var gross := Div(later.exitPrice, later.entryPrice) - 1.0;
                       later.(gross := gross, net := gross - prev.Slip())
                  else later;
    priced.(sessions := prev.sessions + next.sessions, legs := prev.Legs() + 1)
  }

  predicate JoinsLast(out: seq<Row>, next: Row) {
    out != [] && Continues(out[|out| - 1], next)
  }

  function Merged(rows: seq<Row>): seq<Row> {
    if rows == [] then []
    else
      var out := Merged(rows[..|rows| - 1]);
      var next := rows[|rows| - 1];
      if JoinsLast(out, next) then out[|out| - 1 := Extended(out[|out| - 1], next)] else out + [next]
  }

  function Positions(outcomes: seq<Row>): seq<Row> {
    Merged(SortBy(Deduped(outcomes), EntryKey))
  }

  /** The scan of `merge_reentries`, which writes into the row it last kept. */
  method MergeReentries(outcomes: seq<Row>) returns (out: seq<Row>)
    ensures out == Positions(outcomes)
  {
    var once := Dedupe(outcomes);
    var rows := SortBy(once, EntryKey);
    out := [];
    for i := 0 to |rows|
      invariant out == Merged(rows[..i])
    {
      assert rows[..i + 1][..i] == rows[..i];
      var o := rows[i];
      if out == [] || !Continues(out[|out| - 1], o) {
        out := out + [o];
        continue;
      }
      var prev := Extend(out[|out| - 1], o);
      out := out[|out| - 1 := prev];
    }
    assert rows[..|rows|] == rows;
  }

  /** The writes the scan makes into the position it extends. */
  method Extend(kept: Row, o: Row) returns (prev: Row)
    ensures prev == Extended(kept, o)
  {
    prev := kept;
    var slip := prev.gross - prev.net;
    if o.exit > prev.exit {
      prev := prev.(exit := o.exit, exitPrice := o.exitPrice, reason := o.reason);
    }
    if prev.entryPrice > 0.0 {
      var gross := Div(prev.exitPrice, prev.entryPrice) - 1.0;
      prev := prev.(gross := gross, net := gross - slip);
    }
    prev := prev.(sessions := prev.sessions + o.sessions, legs := prev.Legs() + 1);
  }

  // ---- what a merged position is ------------------------------------------------------

  /** Two positions of one ticker never share a day, and come in order. */
  ghost predicate Separated(out: seq<Row>) {
    forall i, j :: 0 <= i < j < |out| ==>
      out[i].ticker <= out[j].ticker && (out[i].ticker == out[j].ticker ==> out[i].exit < out[j].entry)
  }

  lemma SeparatedStep(out: seq<Row>, next: Row)
    requires Separated(out) && Ordered(out, EntryKey)
    requires out != [] ==> KeyLe(EntryKey(out[|out| - 1]), EntryKey(next))
    ensures JoinsLast(out, next) ==>
              var grown := out[|out| - 1 := Extended(out[|out| - 1], next)];
              Separated(grown) && Ordered(grown, EntryKey)
              && KeyLe(EntryKey(grown[|grown| - 1]), EntryKey(next))
    ensures !JoinsLast(out, next) ==> Separated(out + [next]) && Ordered(out + [next], EntryKey)
  {
    if JoinsLast(out, next) {
      assert EntryKey(Extended(out[|out| - 1], next)) == EntryKey(out[|out| - 1]);
    }
  }

  lemma {:induction false} MergedIsSeparated(rows: seq<Row>)
    requires Ordered(rows, EntryKey)
    ensures Separated(Merged(rows))
    ensures rows != [] ==>
              Merged(rows) != []
              && KeyLe(EntryKey(Merged(rows)[|Merged(rows)| - 1]), EntryKey(rows[|rows| - 1]))
    ensures Ordered(Merged(rows), EntryKey)
  {
    if rows == [] {
    } else {
      var n := |rows| - 1;
      MergedIsSeparated(rows[..n]);
      var out, next := Merged(rows[..n]), rows[n];
      if n > 0 {
        assert KeyLe(EntryKey(rows[n - 1]), EntryKey(next));
        assert KeyLe(EntryKey(out[|out| - 1]), EntryKey(next));
      }
      SeparatedStep(out, next);
      assert Merged(rows) == if JoinsLast(out, next) then out[|out| - 1 := Extended(out[|out| - 1], next)]
                             else out + [next];
    }
  }

  ghost predicate Covers(rows: seq<Row>, t: Ticker, d: Date) {
    exists r :: r in rows && r.Holds(t, d)
  }

  lemma CoversOneMore(rows: seq<Row>, next: Row, t: Ticker, d: Date)
    ensures Covers(rows + [next], t, d) <==> Covers(rows, t, d) || next.Holds(t, d)
  {
  }

  /** One step of the scan adds the days of the leg, and no others. */
  lemma CoversStep(out: seq<Row>, next: Row, t: Ticker, d: Date)
    requires out != [] ==> KeyLe(EntryKey(out[|out| - 1]), EntryKey(next))
    ensures var after := if JoinsLast(out, next) then out[|out| - 1 := Extended(out[|out| - 1], next)]
                         else out + [next];
            Covers(after, t, d) <==> Covers(out, t, d) || next.Holds(t, d)
  {
    if JoinsLast(out, next) {
      var last, grown := out[|out| - 1], Extended(out[|out| - 1], next);
      assert grown.Holds(t, d) <==> last.Holds(t, d) || next.Holds(t, d);
      CoversLast(out, grown, t, d);
    } else {
      CoversOneMore(out, next, t, d);
    }
  }

  /** The merged positions cover exactly the days the legs covered. */
  lemma {:induction false} MergedCoversTheSameDays(rows: seq<Row>, t: Ticker, d: Date)
    requires Ordered(rows, EntryKey)
    ensures Covers(Merged(rows), t, d) <==> Covers(rows, t, d)
  {
    if rows == [] {
    } else {
      var n := |rows| - 1;
      var init, next := rows[..n], rows[n];
      MergedIsSeparated(init);
      MergedCoversTheSameDays(init, t, d);
      var out := Merged(init);
      assert n > 0 ==> KeyLe(EntryKey(rows[n - 1]), EntryKey(next));
      CoversOneMore(init, next, t, d);
      assert rows == init + [next];
      CoversStep(out, next, t, d);
    }
  }

  lemma CoversLast(out: seq<Row>, grown: Row, t: Ticker, d: Date)
    requires out != []
    ensures Covers(out[|out| - 1 := grown], t, d) <==> Covers(out[..|out| - 1], t, d) || grown.Holds(t, d)
    ensures Covers(out, t, d) <==> Covers(out[..|out| - 1], t, d) || out[|out| - 1].Holds(t, d)
  {
    var init := out[..|out| - 1];
    assert out[|out| - 1 := grown] == init + [grown];
    assert out == init + [out[|out| - 1]];
  }

  function TotalSessions(rows: seq<Row>): int {
    if rows == [] then 0 else TotalSessions(rows[..|rows| - 1]) + rows[|rows| - 1].sessions
  }

  function TotalLegs(rows: seq<Row>): nat {
    if rows == [] then 0 else TotalLegs(rows[..|rows| - 1]) + rows[|rows| - 1].Legs()
  }

  lemma {:induction false} TotalsOfCons(x: Row, rows: seq<Row>)
    ensures TotalSessions([x] + rows) == x.sessions + TotalSessions(rows)
    ensures TotalLegs([x] + rows) == x.Legs() + TotalLegs(rows)
  {
    if rows == [] {
      assert ([x] + rows)[..0] == [];
    } else {
      assert ([x] + rows)[..|rows|] == [x] + rows[..|rows| - 1];
      TotalsOfCons(x, rows[..|rows| - 1]);
    }
  }

  lemma {:induction false} TotalsOfInsert(x: Row, sorted: seq<Row>)
    ensures TotalSessions(InsertBy(x, sorted, EntryKey)) == x.sessions + TotalSessions(sorted)
    ensures TotalLegs(InsertBy(x, sorted, EntryKey)) == x.Legs() + TotalLegs(sorted)
  {
    TotalsOfCons(x, sorted);
    if sorted != [] && !KeyLe(EntryKey(x), EntryKey(sorted[0])) {
      TotalsOfInsert(x, sorted[1..]);
      TotalsOfCons(sorted[0], sorted[1..]);
      TotalsOfCons(sorted[0], InsertBy(x, sorted[1..], EntryKey));
      assert sorted == [sorted[0]] + sorted[1..];
    }
  }

  /** Totals do not see the order. */
  lemma {:induction false} TotalsOfSort(rows: seq<Row>)
    ensures TotalSessions(SortBy(rows, EntryKey)) == TotalSessions(rows)
    ensures TotalLegs(SortBy(rows, EntryKey)) == TotalLegs(rows)
  {
    if rows == [] {
    } else {
      TotalsOfSort(rows[1..]);
      TotalsOfInsert(rows[0], SortBy(rows[1..], EntryKey));
      TotalsOfCons(rows[0], rows[1..]);
      assert rows == [rows[0]] + rows[1..];
    }
  }

  /** The rows that the scan merges into the position before them. */
  function Absorbed(rows: seq<Row>): seq<Row> {
    if rows == [] then []
    else
      var n := |rows| - 1;
      var before, out := Absorbed(rows[..n]), Merged(rows[..n]);
      if out != [] && Continues(out[|out| - 1], rows[n]) then before + [rows[n]] else before
  }

  lemma TotalsOfUpdate(out: seq<Row>, last: Row)
    requires out != []
    ensures TotalSessions(out[|out| - 1 := last]) == TotalSessions(out) - out[|out| - 1].sessions + last.sessions
    ensures TotalLegs(out[|out| - 1 := last]) == TotalLegs(out) - out[|out| - 1].Legs() + last.Legs()
  {
    assert out[|out| - 1 := last][..|out| - 1] == out[..|out| - 1];
  }

  lemma TotalsOfSnoc(rows: seq<Row>, last: Row)
    ensures TotalSessions(rows + [last]) == TotalSessions(rows) + last.sessions
    ensures TotalLegs(rows + [last]) == TotalLegs(rows) + last.Legs()
  {
    assert (rows + [last])[..|rows|] == rows;
  }

  /** One step of the scan, on what it has kept and absorbed so far. */
  lemma ScanConserves(out: seq<Row>, absorbed: seq<Row>, next: Row)
    ensures out != [] && Continues(out[|out| - 1], next) ==>
              var grown := out[|out| - 1 := Extended(out[|out| - 1], next)];
              && TotalSessions(grown) == TotalSessions(out) + next.sessions
              && TotalLegs(grown) == TotalLegs(out) + 1
              && TotalLegs(absorbed + [next]) == TotalLegs(absorbed) + next.Legs()
    ensures TotalSessions(out + [next]) == TotalSessions(out) + next.sessions
    ensures TotalLegs(out + [next]) == TotalLegs(out) + next.Legs()
  {
    TotalsOfSnoc(out, next);
    TotalsOfSnoc(absorbed, next);
    if out != [] {
      TotalsOfUpdate(out, Extended(out[|out| - 1], next));
    }
  }

  /** Sessions are conserved. An absorbed row counts as one leg however many it stood for,
      so legs are conserved exactly when no absorbed row had been merged before. */
  lemma {:induction false} MergedConserves(rows: seq<Row>)
    ensures TotalSessions(Merged(rows)) == TotalSessions(rows)
    ensures TotalLegs(Merged(rows)) == TotalLegs(rows) - TotalLegs(Absorbed(rows)) + |Absorbed(rows)|
  {
    if rows == [] {
    } else {
      var n := |rows| - 1;
      MergedConserves(rows[..n]);
      var out, absorbed, next := Merged(rows[..n]), Absorbed(rows[..n]), rows[n];
      ScanConserves(out, absorbed, next);
      if out != [] && Continues(out[|out| - 1], next) {
        assert Merged(rows) == out[|out| - 1 := Extended(out[|out| - 1], next)];
        assert Absorbed(rows) == absorbed + [next];
      } else {
        assert Merged(rows) == out + [next] && Absorbed(rows) == absorbed;
      }
    }
  }

  lemma {:induction false} LegsAtLeastOne(rows: seq<Row>)
    ensures TotalLegs(rows) >= |rows|
    ensures TotalLegs(rows) == |rows| <==> forall r :: r in rows ==> r.Legs() == 1
  {
    if rows == [] {
    } else {
      var n := |rows| - 1;
      LegsAtLeastOne(rows[..n]);
      assert rows == rows[..n] + [rows[n]];
    }
  }

  /** How a position relates to its legs: it opens as its first leg did and
      keeps that leg's costs, it closes as some leg closed, and once legs were
      merged its return is measured over the whole span. */
  ghost predicate Explained(p: Row, legs: seq<Row>) {
    && (exists first :: first in legs && first.Call() == p.Call() && first.entry == p.entry
                        && first.entryPrice == p.entryPrice && first.Slip() == p.Slip()
                        && (p.entryPrice > 0.0 && p != first ==> p.gross == Div(p.exitPrice, p.entryPrice) - 1.0))
    && (exists last :: last in legs && last.ticker == p.ticker && last.exit == p.exit
                       && last.exitPrice == p.exitPrice && last.reason == p.reason)
  }

  lemma ExplainedByMore(p: Row, legs: seq<Row>, more: seq<Row>)
    requires Explained(p, legs) && forall r :: r in legs ==> r in more
    ensures Explained(p, more)
  {
  }

  lemma {:induction false} ExtendedIsExplained(prev: Row, next: Row, legs: seq<Row>)
    requires Explained(prev, legs) && next in legs && Continues(prev, next)
    ensures Explained(Extended(prev, next), legs)
  {
    var p := Extended(prev, next);
    var first :| first in legs && first.Call() == prev.Call() && first.entry == prev.entry
                 && first.entryPrice == prev.entryPrice && first.Slip() == prev.Slip();
    assert p.Slip() == prev.Slip();
    assert first.Call() == p.Call() && first.entry == p.entry && first.entryPrice == p.entryPrice;
  }

  lemma {:induction false} PositionsAreExplained(rows: seq<Row>)
    ensures forall p :: p in Merged(rows) ==> Explained(p, rows)
  {
    if rows == [] {
    } else {
      var n := |rows| - 1;
      PositionsAreExplained(rows[..n]);
      var out, next := Merged(rows[..n]), rows[n];
      assert rows == rows[..n] + [next];
      forall p | p in out ensures Explained(p, rows) {
        ExplainedByMore(p, rows[..n], rows);
      }
      if out != [] && Continues(out[|out| - 1], next) {
        ExtendedIsExplained(out[|out| - 1], next, rows);
      } else {
        assert Explained(next, rows);
      }
    }
  }

  // ---- which rows are absorbed ---------------------------------------------------------

  /** An earlier row of the same ticker was still held when row `k` was entered. */
  predicate Reenters(rows: seq<Row>, k: nat)
    requires k < |rows|
  {
    exists j :: 0 <= j < k && rows[j].ticker == rows[k].ticker && rows[k].entry <= rows[j].exit
  }

  lemma {:induction false} JoinedWasHeld(rows: seq<Row>, k: nat)
    requires k < |rows| && JoinsLast(Merged(rows[..k]), rows[k])
    ensures Reenters(rows, k)
  {
    var out := Merged(rows[..k]);
    var last := out[|out| - 1];
    PositionsAreExplained(rows[..k]);
    assert last in out;
    var leg :| leg in rows[..k] && leg.ticker == last.ticker && leg.exit == last.exit
               && leg.exitPrice == last.exitPrice && leg.reason == last.reason;
    var j :| 0 <= j < k && rows[..k][j] == leg;
    assert rows[j] == leg;
  }

  lemma {:induction false} HeldIsJoined(rows: seq<Row>, k: nat)
    requires Ordered(rows, EntryKey) && k < |rows| && Reenters(rows, k)
    ensures JoinsLast(Merged(rows[..k]), rows[k])
  {
    var next := rows[k];
    var out := Merged(rows[..k]);
    var j :| 0 <= j < k && rows[j].ticker == next.ticker && next.entry <= rows[j].exit;
    assert KeyLe(EntryKey(rows[j]), EntryKey(next));
    assert rows[..k][j] in rows[..k] && rows[j].Holds(next.ticker, next.entry);
    MergedIsSeparated(rows[..k]);
    MergedCoversTheSameDays(rows[..k], next.ticker, next.entry);
    var p :| p in out && p.Holds(next.ticker, next.entry);
    assert KeyLe(EntryKey(rows[k - 1]), EntryKey(next));
    LastIsTheOneHolding(out, p, next);
  }

  lemma LastIsTheOneHolding(out: seq<Row>, p: Row, next: Row)
    requires Separated(out) && Ordered(out, EntryKey) && p in out && p.Holds(next.ticker, next.entry)
    requires KeyLe(EntryKey(out[|out| - 1]), EntryKey(next))
    ensures out[|out| - 1] == p
  {
    var last := out[|out| - 1];
    var i :| 0 <= i < |out| && out[i] == p;
    assert i <= |out| - 1 && (i < |out| - 1 ==> KeyLe(EntryKey(p), EntryKey(last)));
  }

  /** The legs of the rows that join a position count once each exactly when each had one. */
  ghost predicate ReentriesAreSingle(rows: seq<Row>) {
    forall k :: 0 <= k < |rows| && Reenters(rows, k) ==> rows[k].Legs() == 1
  }

  lemma {:induction false} AbsorbedAreReentries(rows: seq<Row>)
    requires Ordered(rows, EntryKey)
    ensures (forall r :: r in Absorbed(rows) ==> r.Legs() == 1) <==> ReentriesAreSingle(rows)
  {
    if rows == [] {
    } else {
      var n := |rows| - 1;
      AbsorbedAreReentries(rows[..n]);
      forall k | 0 <= k < n ensures Reenters(rows[..n], k) <==> Reenters(rows, k) {
        assert forall j :: 0 <= j < k ==> rows[..n][j] == rows[j];
      }
      if JoinsLast(Merged(rows[..n]), rows[n]) {
        JoinedWasHeld(rows, n);
        assert Absorbed(rows) == Absorbed(rows[..n]) + [rows[n]];
      } else if Reenters(rows, n) {
        HeldIsJoined(rows, n);
      }
      SingleOneMore(rows);
    }
  }

  lemma SingleOneMore(rows: seq<Row>)
    requires rows != []
    requires forall k :: 0 <= k < |rows| - 1 ==> (Reenters(rows[..|rows| - 1], k) <==> Reenters(rows, k))
    ensures ReentriesAreSingle(rows)
            <==> ReentriesAreSingle(rows[..|rows| - 1])
                 && (Reenters(rows, |rows| - 1) ==> rows[|rows| - 1].Legs() == 1)
  {
  }

  /** Legs are conserved exactly when no row that re-enters a name still held had been merged
      before. */
  lemma {:induction false} LegsConservedExactlyWhen(rows: seq<Row>)
    requires Ordered(rows, EntryKey)
    ensures TotalLegs(Merged(rows)) == TotalLegs(rows) <==> ReentriesAreSingle(rows)
  {
    MergedConserves(rows);
    LegsAtLeastOne(Absorbed(rows));
    AbsorbedAreReentries(rows);
  }

  /** Rows straight from the resolver have never been merged: every leg is counted. */
  lemma {:induction false} FreshRowsKeepTheirLegs(rows: seq<Row>)
    requires Ordered(rows, EntryKey) && forall r :: r in rows ==> r.legs == 0
    ensures TotalLegs(Merged(rows)) == |rows|
  {
    LegsConservedExactlyWhen(rows);
    LegsAtLeastOne(rows);
  }

  lemma OneRow(row: Row)
    ensures Merged([row]) == [row] && Absorbed([row]) == [] && TotalLegs([row]) == row.Legs()
  {
    assert [row] == [] + [row] && ([] + [row])[..0] == [];
  }

  lemma JoinedPair(first: Row, again: Row)
    requires Continues(first, again)
    ensures Merged([first, again]) == [Extended(first, again)] && Absorbed([first, again]) == [again]
  {
    OneRow(first);
    assert [first, again][..1] == [first];
  }

  /** A re-entry that stands for two legs is counted as one. */
  lemma LegsCanBeLost(first: Row, again: Row)
    requires first.ticker == again.ticker && first.entry <= again.entry <= first.exit
    requires first.Legs() == 1 && again.legs == 2
    ensures TotalLegs([first, again]) == 3 && TotalLegs(Merged([first, again])) == 2
  {
    JoinedPair(first, again);
    OneRow(first);
    OneRow(Extended(first, again));
    TotalsOfSnoc([first], again);
    assert [first] + [again] == [first, again];
  }

  // ---- merging twice, and overlaps ----------------------------------------------------

  lemma {:induction false} MergeOfSeparated(out: seq<Row>)
    requires Separated(out)
    ensures Merged(out) == out
  {
    if out == [] {
    } else {
      var n := |out| - 1;
      MergeOfSeparated(out[..n]);
      assert !JoinsLast(out[..n], out[n]);
      assert out == out[..n] + [out[n]];
    }
  }

  lemma {:induction false} MergedCalls(rows: seq<Row>)
    ensures forall p :: p in Merged(rows) ==> exists r :: r in rows && r.Call() == p.Call()
  {
    PositionsAreExplained(rows);
  }

  lemma {:induction false} MergedCallsAreDistinct(rows: seq<Row>)
    requires DistinctCalls(rows)
    ensures DistinctCalls(Merged(rows))
  {
    if rows == [] {
    } else {
      var n := |rows| - 1;
      MergedCallsAreDistinct(rows[..n]);
      MergedCalls(rows[..n]);
      var out, next := Merged(rows[..n]), rows[n];
      forall i | 0 <= i < |out| ensures out[i].Call() != next.Call() {
        assert out[i] in out;
        var r :| r in rows[..n] && r.Call() == out[i].Call();
      }
    }
  }

  lemma {:induction false} SortKeepsDistinctCalls(rows: seq<Row>)
    requires DistinctCalls(rows)
    ensures DistinctCalls(SortBy(rows, EntryKey))
  {
    SortFacts(rows, EntryKey);
    var sorted := SortBy(rows, EntryKey);
    forall i, j | 0 <= i < j < |sorted| ensures sorted[i].Call() != sorted[j].Call() {
      if sorted[i].Call() == sorted[j].Call() {
        OneRowOneCall(rows, sorted[i], sorted[j]);
        TwiceInSorted(sorted, i, j);
        OnceInDistinct(rows, sorted[i]);
        assert false;
      }
    }
  }

  lemma OneRowOneCall(rows: seq<Row>, a: Row, b: Row)
    requires DistinctCalls(rows) && a in rows && b in rows && a.Call() == b.Call()
    ensures a == b
  {
  }

  lemma TwiceInSorted(s: seq<Row>, i: nat, j: nat)
    requires i < j < |s| && s[i] == s[j]
    ensures multiset(s)[s[i]] >= 2
  {
    assert s == s[..j] + [s[j]] + s[j + 1..];
    assert s[i] in s[..j];
    assert multiset(s) == multiset(s[..j]) + multiset{s[j]} + multiset(s[j + 1..]);
  }

  lemma {:induction false} OnceInDistinct(rows: seq<Row>, r: Row)
    requires DistinctCalls(rows) && r in rows
    ensures multiset(rows)[r] == 1
  {
    var i :| 0 <= i < |rows| && rows[i] == r;
    assert rows == rows[..i] + [r] + rows[i + 1..];
    assert r !in rows[..i] && r !in rows[i + 1..];
    assert multiset(rows) == multiset(rows[..i]) + multiset{r} + multiset(rows[i + 1..]);
  }

  /** What `merge_reentries` returns, in one statement. */
  lemma {:induction false} PositionsAreHoldings(outcomes: seq<Row>)
    ensures var out := Positions(outcomes);
            && Separated(out)
            && (forall t, d :: Covers(out, t, d) <==> Covers(Deduped(outcomes), t, d))
            && TotalSessions(out) == TotalSessions(Deduped(outcomes))
            && (TotalLegs(out) == TotalLegs(Deduped(outcomes))
                <==> ReentriesAreSingle(SortBy(Deduped(outcomes), EntryKey)))
            && (forall p :: p in out ==> Explained(p, Deduped(outcomes)))
            && Positions(out) == out
  {
    var once := Deduped(outcomes);
    var rows := SortBy(once, EntryKey);
    var out := Merged(rows);
    DedupeKeepsOnePerCall(outcomes);
    SortFacts(once, EntryKey);
    MergedIsSeparated(rows);
    MergedConserves(rows);
    LegsConservedExactlyWhen(rows);
    TotalsOfSort(once);
    forall t, d ensures Covers(out, t, d) <==> Covers(once, t, d) {
      MergedCoversTheSameDays(rows, t, d);
    }
    PositionsAreExplained(rows);
    forall p | p in out ensures Explained(p, once) {
      ExplainedByMore(p, rows, once);
    }
    SortKeepsDistinctCalls(once);
    MergedCallsAreDistinct(rows);
    DedupeOfDistinct(out);
    SortOfOrdered(out, EntryKey);
    MergeOfSeparated(out);
  }

  predicate Meet(a: Row, b: Row) { a.entry <= b.exit && b.entry <= a.exit }

  predicate MeetsEarlier(rows: seq<Row>, i: nat)
    requires i < |rows|
  {
    exists j :: 0 <= j < i && Meet(rows[j], rows[i])
  }

  function CountMeeting(rows: seq<Row>, n: nat): nat
    requires n <= |rows|
  {
    if n == 0 then 0 else CountMeeting(rows, n - 1) + (if MeetsEarlier(rows, n - 1) then 1 else 0)
  }

  /** How many rows share a day with an earlier one. */
  function Meeting(rows: seq<Row>): nat { CountMeeting(rows, |rows|) }

  function DateKey(r: Row): (int, int) { (r.entry, 0) }

  method Overlaps(trades: seq<Row>) returns (n: nat)
    ensures n == Meeting(SortBy(trades, DateKey))
  {
    var rows := SortBy(trades, DateKey);
    SortFacts(trades, DateKey);
    n := 0;
    for i := 0 to |rows|
      invariant n == CountMeeting(rows, i)
    {
      var any := false;
      for j := 0 to i
        invariant any <==> exists k :: 0 <= k < j && Meet(rows[k], rows[i])
      {
        any := any || (rows[j].entry <= rows[i].exit && rows[i].entry <= rows[j].exit);
      }
      if any {
        n := n + 1;
      }
    }
  }

  lemma {:induction false} NoneMeet(rows: seq<Row>, n: nat)
    requires n <= |rows|
    ensures CountMeeting(rows, n) == 0 <==> forall i, j :: 0 <= j < i < n ==> !Meet(rows[j], rows[i])
  {
    if n == 0 {
    } else {
      NoneMeet(rows, n - 1);
    }
  }

  /** The rows of one ticker, in order. */
  function OfTicker(rows: seq<Row>, t: Ticker): seq<Row> {
    if rows == [] then []
    else if rows[0].ticker == t then [rows[0]] + OfTicker(rows[1..], t)
    else OfTicker(rows[1..], t)
  }

  lemma {:induction false} OfTickerMembers(rows: seq<Row>, t: Ticker)
    ensures forall r :: r in OfTicker(rows, t) <==> r in rows && r.ticker == t
  {
    if rows == [] {
    } else {
      OfTickerMembers(rows[1..], t);
      assert rows == [rows[0]] + rows[1..];
    }
  }

  lemma LaterRow(rows: seq<Row>, r: Row)
    requires Separated(rows) && Ordered(rows, EntryKey) && rows != [] && r in rows[1..]
    ensures KeyLe(EntryKey(rows[0]), EntryKey(r)) && rows[0].ticker <= r.ticker
    ensures rows[0].ticker == r.ticker ==> rows[0].exit < r.entry
  {
    var i :| 0 <= i < |rows| - 1 && rows[1..][i] == r;
    assert rows[i + 1] == r;
  }

  lemma SeparatedCons(first: Row, rest: seq<Row>)
    requires Separated(rest) && Ordered(rest, EntryKey)
    requires forall r :: r in rest ==> KeyLe(EntryKey(first), EntryKey(r)) && first.ticker <= r.ticker
    requires forall r :: r in rest && first.ticker == r.ticker ==> first.exit < r.entry
    ensures Separated([first] + rest) && Ordered([first] + rest, EntryKey)
  {
  }

  lemma {:induction false} OfTickerFacts(rows: seq<Row>, t: Ticker)
    requires Separated(rows) && Ordered(rows, EntryKey)
    ensures Separated(OfTicker(rows, t)) && Ordered(OfTicker(rows, t), EntryKey)
  {
    if rows == [] {
    } else {
      OfTickerFacts(rows[1..], t);
      OfTickerMembers(rows[1..], t);
      forall r | r in OfTicker(rows[1..], t)
        ensures KeyLe(EntryKey(rows[0]), EntryKey(r)) && rows[0].ticker <= r.ticker
        ensures rows[0].ticker == r.ticker ==> rows[0].exit < r.entry
      {
        LaterRow(rows, r);
      }
      SeparatedCons(rows[0], OfTicker(rows[1..], t));
    }
  }

  lemma {:induction false} SeparatedDoNotOverlap(out: seq<Row>, t: Ticker)
    requires Separated(out) && Ordered(out, EntryKey) && forall p :: p in out ==> p.ticker == t
    ensures Meeting(SortBy(out, DateKey)) == 0
  {
    assert Ordered(out, DateKey) by {
      forall i, j | 0 <= i < j < |out| ensures KeyLe(DateKey(out[i]), DateKey(out[j])) {
        assert out[i] in out && out[j] in out && KeyLe(EntryKey(out[i]), EntryKey(out[j]));
      }
    }
    SortOfOrdered(out, DateKey);
    forall i, j | 0 <= j < i < |out| ensures !Meet(out[j], out[i]) {
      assert out[i] in out && out[j] in out;
    }
    NoneMeet(out, |out|);
  }

  /** What `overlaps` reports of the merged positions of one name is zero. */
  lemma {:induction false} PositionsOfOneNameDoNotOverlap(outcomes: seq<Row>, t: Ticker)
    ensures Meeting(SortBy(OfTicker(Positions(outcomes), t), DateKey)) == 0
  {
    var rows := SortBy(Deduped(outcomes), EntryKey);
    SortFacts(Deduped(outcomes), EntryKey);
    MergedIsSeparated(rows);
    OfTickerFacts(Merged(rows), t);
    OfTickerMembers(Merged(rows), t);
    SeparatedDoNotOverlap(OfTicker(Merged(rows), t), t);
  }

  // ---- the three scans, from their rows alone -----------------------------------------

  /** Row `i` is the first of its call. */
  ghost predicate FirstOfCall(rows: seq<Row>, i: nat)
    requires i < |rows|
  {
    forall j :: 0 <= j < i ==> rows[j].ticker != rows[i].ticker || rows[j].signalDate != rows[i].signalDate
  }

  /** `out` are the rows at the places `at`, which are those of the first row of every call. */
  ghost predicate KeepsFirsts(rows: seq<Row>, out: seq<Row>, at: seq<nat>) {
    && |at| == |out| && (forall k, l :: 0 <= k < l < |at| ==> at[k] < at[l])
    && (forall k :: 0 <= k < |at| ==> at[k] < |rows| && rows[at[k]] == out[k])
    && forall i :: 0 <= i < |rows| ==> (FirstOfCall(rows, i) <==> i in at)
  }

  lemma FirstOfMore(rows: seq<Row>, next: Row, i: nat)
    requires i < |rows|
    ensures FirstOfCall(rows + [next], i) <==> FirstOfCall(rows, i)
  {
    assert forall j :: 0 <= j <= i ==> (rows + [next])[j] == rows[j];
  }

  lemma KeepsFirstsOneMore(rows: seq<Row>, out: seq<Row>, at: seq<nat>, next: Row)
    requires KeepsFirsts(rows, out, at)
    ensures if FirstOfCall(rows + [next], |rows|) then KeepsFirsts(rows + [next], out + [next], at + [|rows|])
            else KeepsFirsts(rows + [next], out, at)
  {
    var more, n := rows + [next], |rows|;
    forall i | 0 <= i < n ensures FirstOfCall(more, i) <==> i in at {
      FirstOfMore(rows, next, i);
    }
    forall i | i in at ensures i < n {
      var k :| 0 <= k < |at| && at[k] == i;
    }
    assert forall k :: 0 <= k < |at| ==> at[k] in at;
    assert forall i :: i in at + [n] <==> i in at || i == n;
  }

  /** What is kept is the first row of every call, in the order of the rows. */
  lemma {:induction false} DedupedMeans(rows: seq<Row>) returns (at: seq<nat>)
    ensures KeepsFirsts(rows, Deduped(rows), at)
  {
    if rows == [] {
      at := [];
    } else {
      var n := |rows| - 1;
      at := DedupedMeans(rows[..n]);
      assert rows == rows[..n] + [rows[n]];
      KeepsFirstsOneMore(rows[..n], Deduped(rows[..n]), at, rows[n]);
      NewCall(rows);
      if FirstOfCall(rows, n) {
        at := at + [n];
      }
    }
  }

  lemma NewCall(rows: seq<Row>)
    requires rows != []
    ensures FirstOfCall(rows, |rows| - 1) <==> rows[|rows| - 1].Call() !in Calls(Deduped(rows[..|rows| - 1]))
  {
    var n := |rows| - 1;
    DedupeKeepsOnePerCall(rows[..n]);
    forall j | 0 <= j < n ensures rows[j].Call() in Calls(rows[..n]) {
      assert rows[..n][j] in rows[..n];
    }
    if rows[n].Call() in Calls(rows[..n]) {
      var r :| r in rows[..n] && r.Call() == rows[n].Call();
      var j :| 0 <= j < n && rows[..n][j] == r;
      assert rows[j].Call() == rows[n].Call();
    }
  }

  /** Row `e` is the first of rows `a` to `b` to close as late as any of them. */
  ghost predicate ClosesLast(rows: seq<Row>, a: nat, b: nat, e: nat)
    requires a <= e < b <= |rows|
  {
    forall i :: a <= i < b ==> rows[i].exit <= rows[e].exit && (i < e ==> rows[i].exit < rows[e].exit)
  }

  /** One position for rows `a` to `b`: opened by the first, closed by the last to close, with the
      return over that span less what the first cost, the sessions of all and a leg for each. */
  ghost predicate IsSpan(rows: seq<Row>, a: nat, b: nat, p: Row) {
    && a < b <= |rows|
    && p.ticker == rows[a].ticker && p.signalDate == rows[a].signalDate
    && p.entry == rows[a].entry && p.entryPrice == rows[a].entryPrice
    && (exists e :: a <= e < b && ClosesLast(rows, a, b, e)
                    && p.exit == rows[e].exit && p.exitPrice == rows[e].exitPrice && p.reason == rows[e].reason)
    && p.sessions == TotalSessions(rows[a..b])
    && (if b == a + 1 then p == rows[a] else p.legs == (if rows[a].legs == 0 then 1 else rows[a].legs) + (b - a - 1))
    && (if b == a + 1 || p.entryPrice <= 0.0 then p.gross == rows[a].gross && p.net == rows[a].net
        else p.gross == Div(p.exitPrice, p.entryPrice) - 1.0 && p.net == p.gross - (rows[a].gross - rows[a].net))
  }

  lemma OneRowSpans(rows: seq<Row>, a: nat)
    requires a < |rows|
    ensures IsSpan(rows, a, a + 1, rows[a])
  {
    assert rows[a..a + 1] == [rows[a]];
    TotalsOfSnoc([], rows[a]);
    assert [] + [rows[a]] == [rows[a]];
    assert ClosesLast(rows, a, a + 1, a);
  }

  lemma {:induction false} ExtendedSpans(rows: seq<Row>, a: nat, b: nat, p: Row)
    requires b < |rows| && IsSpan(rows, a, b, p)
    ensures IsSpan(rows, a, b + 1, Extended(p, rows[b]))
  {
    var e :| a <= e < b && ClosesLast(rows, a, b, e)
             && p.exit == rows[e].exit && p.exitPrice == rows[e].exitPrice && p.reason == rows[e].reason;
    assert ClosesLast(rows, a, b + 1, if rows[b].exit > p.exit then b else e);
    assert rows[a..b + 1][..b - a] == rows[a..b];
  }

  /** Where the rows of position `k` end. */
  ghost function SpanEnd(at: seq<nat>, k: nat, n: nat): nat {
    if k + 1 < |at| then at[k + 1] else n
  }

  /** `at` says with which row each position opens. */
  ghost predicate Spans(rows: seq<Row>, out: seq<Row>, at: seq<nat>) {
    && |at| == |out| && (forall k, l :: 0 <= k < l < |at| ==> at[k] < at[l])
    && forall k :: 0 <= k < |at| ==> IsSpan(rows, at[k], SpanEnd(at, k, |rows|), out[k])
  }

  lemma SpansStartInside(rows: seq<Row>, out: seq<Row>, at: seq<nat>)
    requires Spans(rows, out, at)
    ensures forall i :: i in at ==> i < |rows|
  {
    forall i | i in at ensures i < |rows| {
      var k :| 0 <= k < |at| && at[k] == i;
      assert IsSpan(rows, at[k], SpanEnd(at, k, |rows|), out[k]);
    }
  }

  lemma SpanOfMore(rows: seq<Row>, more: seq<Row>, a: nat, b: nat, p: Row)
    requires IsSpan(rows, a, b, p)
    ensures IsSpan(rows + more, a, b, p)
  {
    var e :| a <= e < b && ClosesLast(rows, a, b, e)
             && p.exit == rows[e].exit && p.exitPrice == rows[e].exitPrice && p.reason == rows[e].reason;
    assert ClosesLast(rows + more, a, b, e);
    assert (rows + more)[a..b] == rows[a..b];
  }

  lemma {:induction false} SpansOneMore(rows: seq<Row>, out: seq<Row>, at: seq<nat>, next: Row)
    requires Spans(rows, out, at)
    ensures Spans(rows + [next], out + [next], at + [|rows|])
  {
    var grown, at' := rows + [next], at + [|rows|];
    SpansStartInside(rows, out, at);
    OneRowSpans(grown, |rows|);
    forall k | 0 <= k < |at'| ensures IsSpan(grown, at'[k], SpanEnd(at', k, |grown|), (out + [next])[k]) {
      if k < |at| {
        SpanOfMore(rows, [next], at[k], SpanEnd(at, k, |rows|), out[k]);
      }
    }
    forall k, l | 0 <= k < l < |at'| ensures at'[k] < at'[l] {
      assert at[k] in at;
    }
  }

  lemma {:induction false} SpansExtended(rows: seq<Row>, out: seq<Row>, at: seq<nat>, next: Row)
    requires Spans(rows, out, at) && out != []
    ensures Spans(rows + [next], out[|out| - 1 := Extended(out[|out| - 1], next)], at)
  {
    var grown, last := rows + [next], |out| - 1;
    forall k | 0 <= k < last ensures IsSpan(grown, at[k], SpanEnd(at, k, |grown|), out[k]) {
      SpanOfMore(rows, [next], at[k], SpanEnd(at, k, |rows|), out[k]);
    }
    assert IsSpan(rows, at[last], SpanEnd(at, last, |rows|), out[last]);
    SpanOfMore(rows, [next], at[last], |rows|, out[last]);
    ExtendedSpans(grown, at[last], |rows|, out[last]);
  }

  /** The places `at` are those of the rows entered after every earlier row of their ticker closed. */
  ghost predicate OpensAt(rows: seq<Row>, at: seq<nat>) {
    forall i :: 0 <= i < |rows| ==> (i in at <==> !Reenters(rows, i))
  }

  lemma OpensOneMore(rows: seq<Row>, at: seq<nat>, next: Row)
    requires OpensAt(rows, at) && forall i :: i in at ==> i < |rows|
    ensures if Reenters(rows + [next], |rows|) then OpensAt(rows + [next], at)
            else OpensAt(rows + [next], at + [|rows|])
  {
    forall i | 0 <= i < |rows| ensures Reenters(rows + [next], i) <==> Reenters(rows, i) {
      assert forall j :: 0 <= j <= i ==> (rows + [next])[j] == rows[j];
    }
    assert forall i :: i in at + [|rows|] <==> i in at || i == |rows|;
  }

  lemma {:induction false} JoinsExactlyWhen(rows: seq<Row>, k: nat)
    requires Ordered(rows, EntryKey) && k < |rows|
    ensures JoinsLast(Merged(rows[..k]), rows[k]) <==> Reenters(rows, k)
  {
    if JoinsLast(Merged(rows[..k]), rows[k]) {
      JoinedWasHeld(rows, k);
    }
    if Reenters(rows, k) {
      HeldIsJoined(rows, k);
    }
  }

  /** The merged rows, from the rows alone: a position opens with each row entered after every
      earlier row of its ticker had closed, and spans the rows up to the next that opens one. */
  lemma {:induction false} MergedMeans(rows: seq<Row>) returns (at: seq<nat>)
    requires Ordered(rows, EntryKey)
    ensures Spans(rows, Merged(rows), at) && OpensAt(rows, at)
  {
    if rows == [] {
      at := [];
    } else {
      var n := |rows| - 1;
      at := MergedMeans(rows[..n]);
      var out := Merged(rows[..n]);
      assert rows == rows[..n] + [rows[n]];
      SpansStartInside(rows[..n], out, at);
      OpensOneMore(rows[..n], at, rows[n]);
      JoinsExactlyWhen(rows, n);
      if JoinsLast(out, rows[n]) {
        SpansExtended(rows[..n], out, at, rows[n]);
      } else {
        SpansOneMore(rows[..n], out, at, rows[n]);
        at := at + [n];
      }
    }
  }

  ghost predicate SharesADay(rows: seq<Row>, i: nat)
    requires i < |rows|
  {
    exists j :: 0 <= j < i && rows[j].entry <= rows[i].exit && rows[i].entry <= rows[j].exit
  }

  ghost function MeetingAt(rows: seq<Row>, n: nat): set<nat>
    requires n <= |rows|
  {
    set i: nat | i < n && SharesADay(rows, i)
  }

  lemma {:induction false} MeetingCounts(rows: seq<Row>, n: nat)
    requires n <= |rows|
    ensures CountMeeting(rows, n) == |MeetingAt(rows, n)|
  {
    if n == 0 {
      assert MeetingAt(rows, n) == {};
    } else {
      MeetingCounts(rows, n - 1);
      var last: set<nat> := if SharesADay(rows, n - 1) then {n - 1} else {};
      assert MeetsEarlier(rows, n - 1) <==> SharesADay(rows, n - 1);
      assert MeetingAt(rows, n) == MeetingAt(rows, n - 1) + last;
    }
  }

  /** What `overlaps` counts: in the order of entry, the rows that share a day with an earlier one. */
  lemma {:induction false} OverlapsMean(trades: seq<Row>)
    ensures var rows := SortBy(trades, DateKey);
            && multiset(rows) == multiset(trades)
            && (forall i, j :: 0 <= i < j < |rows| ==> rows[i].entry <= rows[j].entry)
            && Meeting(rows) == |MeetingAt(rows, |rows|)|
  {
    var rows := SortBy(trades, DateKey);
    SortFacts(trades, DateKey);
    MeetingCounts(rows, |rows|);
    forall i, j | 0 <= i < j < |rows| ensures rows[i].entry <= rows[j].entry {
      assert KeyLe(DateKey(rows[i]), DateKey(rows[j]));
    }
  }
}
