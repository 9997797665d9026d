/** Scoring every pending call once (`book_by_date`, `_pending` and
    `resolve_pending` in outcomes.py). */
module Resolution {
  import opened Common
  import opened Circuit
  import opened Resolver
  import opened ResolverLaws

  const EXIT_MODEL := "band-time-v5"

  datatype Scored = Scored(
    ticker: Ticker,
    stop: Option<real>,
    target1: Option<real>,
    target2: Option<real>,
    lastClose: Option<real>)

  /** One recorded run. `loggedAt` is the rank of its time stamp. */
  datatype Run = Run(
    runId: string,
    date: Date,
    loggedAt: int,
    failed: bool,
    signals: set<Ticker>,
    scored: seq<Scored>)

  /** One row of the outcome file. */
  datatype Row = Row(runId: string, ticker: Ticker, signalDate: Date, exitModel: string, outcome: Outcome)
  {
    function Call(): (Ticker, Date) { (ticker, signalDate) }
  }

  // ---- what the engine held -----------------------------------------------------

  function Latest(runs: seq<Run>): map<Date, (int, set<Ticker>)> {
    if runs == [] then map[]
    else
      var before := Latest(runs[..|runs| - 1]);
      var run := runs[|runs| - 1];
      if run.failed || (run.date in before && run.loggedAt < before[run.date].0) then before
      else before[run.date := (run.loggedAt, run.signals)]
  }

  function Books(runs: seq<Run>): BookByDate {
    var latest := Latest(runs);
    map d | d in latest :: latest[d].1
  }

  /** Run `i` stands for its date: no completed run of that date carries a later
      stamp, and among equal stamps it is the last. */
  ghost predicate Stands(runs: seq<Run>, i: nat)
    requires i < |runs|
  {
    && !runs[i].failed
    && forall j :: 0 <= j < |runs| && !runs[j].failed && runs[j].date == runs[i].date ==>
         runs[j].loggedAt <= runs[i].loggedAt && (j > i ==> runs[j].loggedAt < runs[i].loggedAt)
  }

  /** Run `i` stands for `date`, and this is its stamp and what it signalled. */
  ghost predicate StandsFor(runs: seq<Run>, i: nat, date: Date, entry: (int, set<Ticker>)) {
    i < |runs| && Stands(runs, i) && runs[i].date == date && entry == (runs[i].loggedAt, runs[i].signals)
  }

  lemma StillStands(runs: seq<Run>, i: nat, date: Date, entry: (int, set<Ticker>))
    requires runs != [] && StandsFor(runs[..|runs| - 1], i, date, entry)
    requires var run := runs[|runs| - 1]; run.failed || run.date != date || run.loggedAt < entry.0
    ensures StandsFor(runs, i, date, entry)
  {
    var init := runs[..|runs| - 1];
    forall j | 0 <= j < |runs| && !runs[j].failed && runs[j].date == date
      ensures runs[j].loggedAt <= runs[i].loggedAt && (j > i ==> runs[j].loggedAt < runs[i].loggedAt)
    {
      assert j < |init| ==> init[j] == runs[j];
    }
  }

  lemma NowStands(runs: seq<Run>)
    requires runs != [] && !runs[|runs| - 1].failed
    requires var run := runs[|runs| - 1];
             forall j :: 0 <= j < |runs| - 1 && !runs[j].failed && runs[j].date == run.date ==>
               runs[j].loggedAt <= run.loggedAt
    ensures var run := runs[|runs| - 1]; StandsFor(runs, |runs| - 1, run.date, (run.loggedAt, run.signals))
  {
  }

  /** A date has a book exactly when a run completed on it, and the book is what
      the standing run of that date signalled. */
  lemma {:induction false} BookOfTheStandingRun(runs: seq<Run>)
    ensures forall i :: 0 <= i < |runs| && !runs[i].failed ==> runs[i].date in Latest(runs)
    ensures forall d :: d in Latest(runs) ==> exists i: nat :: StandsFor(runs, i, d, Latest(runs)[d])
  {
    if runs == [] {
    } else {
      var n := |runs| - 1;
      var init := runs[..n];
      BookOfTheStandingRun(init);
      forall d | d in Latest(runs) ensures exists i: nat :: StandsFor(runs, i, d, Latest(runs)[d]) {
        LatestStands(runs, d);
      }
    }
  }

  lemma {:induction false} LatestStands(runs: seq<Run>, d: Date)
    requires runs != [] && d in Latest(runs)
    requires var init := runs[..|runs| - 1];
             && (forall i :: 0 <= i < |init| && !init[i].failed ==> init[i].date in Latest(init))
             && forall e :: e in Latest(init) ==> exists i: nat :: StandsFor(init, i, e, Latest(init)[e])
    ensures exists i: nat :: StandsFor(runs, i, d, Latest(runs)[d])
  {
    var n := |runs| - 1;
    var init, run := runs[..n], runs[n];
    if d in Latest(init) && (run.failed || run.date != d || run.loggedAt < Latest(init)[d].0) {
      var i: nat :| StandsFor(init, i, d, Latest(init)[d]);
      StillStands(runs, i, d, Latest(init)[d]);
    } else {
      forall j | 0 <= j < n && !runs[j].failed && runs[j].date == run.date
        ensures runs[j].loggedAt <= run.loggedAt
      {
        assert init[j] == runs[j];
        var i: nat :| StandsFor(init, i, run.date, Latest(init)[run.date]);
      }
      NowStands(runs);
    }
  }

  /** The books, said of the runs: a date has one exactly when some run of it completed, even one
      that signalled nothing, and it holds what the run standing for the date signalled. */
  lemma {:induction false} BooksMean(runs: seq<Run>)
    ensures forall d :: d in Books(runs) <==> exists i :: 0 <= i < |runs| && !runs[i].failed && runs[i].date == d
    ensures forall d :: d in Books(runs) ==>
              exists i :: 0 <= i < |runs| && Stands(runs, i) && runs[i].date == d && Books(runs)[d] == runs[i].signals
  {
    BookOfTheStandingRun(runs);
    forall d | d in Books(runs)
      ensures exists i :: 0 <= i < |runs| && Stands(runs, i) && runs[i].date == d && Books(runs)[d] == runs[i].signals
    {
      var i: nat :| StandsFor(runs, i, d, Latest(runs)[d]);
    }
  }

  method BookByDateOf(runs: seq<Run>) returns (book: BookByDate)
    ensures book == Books(runs)
  {
    var latest: map<Date, (int, set<Ticker>)> := map[];
    for i := 0 to |runs|
      invariant latest == Latest(runs[..i])
    {
      var run := runs[i];
      assert runs[..i + 1][..i] == runs[..i];
      if run.failed {
        continue;
      }
      if run.date !in latest || run.loggedAt >= latest[run.date].0 {
        latest := latest[run.date := (run.loggedAt, run.signals)];
      }
    }
    assert runs[..|runs|] == runs;
    book := map d | d in latest :: latest[d].1;
  }

  /** Runs of later sessions leave every earlier book alone. */
  lemma {:induction false} LaterRunsKeepBooks(runs: seq<Run>, more: seq<Run>, date: Date)
    requires forall i :: 0 <= i < |more| ==> more[i].date >= date
    ensures AgreeBefore(Books(runs), Books(runs + more), date)
    decreases |more|
  {
    if more == [] {
      assert runs + more == runs;
    } else {
      var n := |more| - 1;
      LaterRunsKeepBooks(runs, more[..n], date);
      assert (runs + more)[..|runs| + n] == runs + more[..n];
    }
  }

  // ---- pending calls ------------------------------------------------------------

  datatype Item = Item(runId: string, date: Date, rec: Scored, signalled: bool)
  {
    function Call(): (Ticker, Date) { (rec.ticker, date) }

    function Key(): (string, Ticker) { (runId, rec.ticker) }
  }

  function ItemsOf(run: Run): seq<Item> {
    seq(|run.scored|, i requires 0 <= i < |run.scored| =>
      Item(run.runId, run.date, run.scored[i], run.scored[i].ticker in run.signals))
  }

  function Candidates(runs: seq<Run>): seq<Item> {
    if runs == [] then []
    else Candidates(runs[..|runs| - 1]) + ItemsOf(runs[|runs| - 1])
  }

  function CallsOf(items: seq<Item>): set<(Ticker, Date)> {
    set i | 0 <= i < |items| :: items[i].Call()
  }

  predicate Eligible(item: Item, keys: set<(string, Ticker)>, calls: set<(Ticker, Date)>) {
    item.signalled && item.Key() !in keys && item.Call() !in calls && item.rec.stop.Some?
  }

  function Collect(items: seq<Item>, keys: set<(string, Ticker)>, calls: set<(Ticker, Date)>): seq<Item> {
    if items == [] then []
    else
      var before := Collect(items[..|items| - 1], keys, calls);
      var item := items[|items| - 1];
      if Eligible(item, keys, calls) && item.Call() !in CallsOf(before) then before + [item] else before
  }

  function ResolvedKeys(file: seq<Row>): set<(string, Ticker)> {
    set r | r in file && r.exitModel == EXIT_MODEL :: (r.runId, r.ticker)
  }

  function ResolvedCalls(file: seq<Row>): set<(Ticker, Date)> {
    set r | r in file && r.exitModel == EXIT_MODEL :: r.Call()
  }

  function Pending(runs: seq<Run>, file: seq<Row>): seq<Item> {
    Collect(Candidates(runs), ResolvedKeys(file), ResolvedCalls(file))
  }

  ghost predicate DistinctCalls(items: seq<Item>) {
    forall i, j :: 0 <= i < j < |items| ==> items[i].Call() != items[j].Call()
  }

  /** One entry per call, none of them on file, and none lost: a signalled
      record with a stop is represented unless its run or its call is on file. */
  lemma {:induction false} PendingIsOnePerCall(items: seq<Item>, keys: set<(string, Ticker)>,
                                               calls: set<(Ticker, Date)>)
    ensures var pending := Collect(items, keys, calls);
            && DistinctCalls(pending)
            && (forall p :: p in pending ==> p in items && Eligible(p, keys, calls))
            && (forall p :: p in items && Eligible(p, keys, calls) ==> p.Call() in CallsOf(pending))
  {
    if items == [] {
    } else {
      var n := |items| - 1;
      var init := items[..n];
      PendingIsOnePerCall(init, keys, calls);
      var before, item := Collect(init, keys, calls), items[n];
      assert items == init + [item];
      if Eligible(item, keys, calls) && item.Call() !in CallsOf(before) {
        forall i | 0 <= i < |before| ensures before[i].Call() != item.Call() {
          assert before[i].Call() in CallsOf(before);
        }
        assert CallsOf(before + [item]) >= CallsOf(before) by {
          forall i | 0 <= i < |before| ensures before[i].Call() in CallsOf(before + [item]) {
            assert (before + [item])[i] == before[i];
          }
        }
        assert (before + [item])[|before|] == item;
      }
    }
  }

  method PendingOf(runs: seq<Run>, file: seq<Row>) returns (out: seq<Item>)
    ensures out == Pending(runs, file)
  {
    var keys, calls := ResolvedKeys(file), ResolvedCalls(file);
    out := [];
    var seen: set<(Ticker, Date)> := {};
    for i := 0 to |runs|
      invariant out == Collect(Candidates(runs[..i]), keys, calls)
      invariant seen == CallsOf(out)
    {
      var run := runs[i];
      assert runs[..i + 1][..i] == runs[..i];
      ghost var before := Candidates(runs[..i]);
      if run.signals == {} {
        NothingSignalled(before, ItemsOf(run), keys, calls);
        continue;
      }
      out, seen := PendingOfRun(run, before, keys, calls, out, seen);
    }
    assert runs[..|runs|] == runs;
  }

  lemma CollectNext(items: seq<Item>, item: Item, keys: set<(string, Ticker)>, calls: set<(Ticker, Date)>)
    ensures var before := Collect(items, keys, calls);
            Collect(items + [item], keys, calls)
            == if Eligible(item, keys, calls) && item.Call() !in CallsOf(before) then before + [item] else before
  {
    assert (items + [item])[..|items|] == items;
  }

  /** The scored records of one run. */
  method PendingOfRun(run: Run, ghost before: seq<Item>, keys: set<(string, Ticker)>, calls: set<(Ticker, Date)>,
                      out0: seq<Item>, seen0: set<(Ticker, Date)>)
    returns (out: seq<Item>, seen: set<(Ticker, Date)>)
    requires out0 == Collect(before, keys, calls) && seen0 == CallsOf(out0)
    ensures out == Collect(before + ItemsOf(run), keys, calls) && seen == CallsOf(out)
  {
    out, seen := out0, seen0;
    assert before + ItemsOf(run)[..0] == before;
    for j := 0 to |run.scored|
      invariant out == Collect(before + ItemsOf(run)[..j], keys, calls)
      invariant seen == CallsOf(out)
    {
      var rec := run.scored[j];
      var item := Item(run.runId, run.date, rec, rec.ticker in run.signals);
      assert before + ItemsOf(run)[..j + 1] == before + ItemsOf(run)[..j] + [item];
      CollectNext(before + ItemsOf(run)[..j], item, keys, calls);
      assert Eligible(item, keys, calls)
             <==> rec.ticker in run.signals && (run.runId, rec.ticker) !in keys
                  && (rec.ticker, run.date) !in calls && rec.stop.Some?;
      if rec.ticker !in run.signals {
        continue;
      }
      if (run.runId, rec.ticker) in keys {
        continue;
      }
      var call := (rec.ticker, run.date);
      if call in calls || call in seen {
        continue;
      }
      if rec.stop.None? {
        continue;
      }
      CallsOfAppend(out, item);
      seen := seen + {call};
      out := out + [item];
    }
    assert ItemsOf(run)[..|run.scored|] == ItemsOf(run);
  }

  lemma CallsOfAppend(items: seq<Item>, item: Item)
    ensures CallsOf(items + [item]) == CallsOf(items) + {item.Call()}
  {
    forall c | c in CallsOf(items) + {item.Call()} ensures c in CallsOf(items + [item]) {
      if c in CallsOf(items) {
        var i :| 0 <= i < |items| && items[i].Call() == c;
        assert (items + [item])[i] == items[i];
      } else {
        assert (items + [item])[|items|] == item;
      }
    }
  }

  lemma {:induction false} NothingSignalled(before: seq<Item>, items: seq<Item>, keys: set<(string, Ticker)>,
                                            calls: set<(Ticker, Date)>)
    requires forall i :: 0 <= i < |items| ==> !items[i].signalled
    ensures Collect(before + items, keys, calls) == Collect(before, keys, calls)
    decreases |items|
  {
    if items == [] {
      assert before + items == before;
    } else {
      var n := |items| - 1;
      NothingSignalled(before, items[..n], keys, calls);
      assert (before + items)[..|before| + n] == before + items[..n];
    }
  }

  // ---- resolving ----------------------------------------------------------------

  /** What one call of `resolve_pending` is given. `history` is all the store holds of
      each ticker on that day; `hasCalendar` is false when it lists no session at all. */
  datatype Visit = Visit(
    runs: seq<Run>,
    history: map<Ticker, seq<Bar>>,
    hasCalendar: bool,
    maxHold: nat,
    useTarget: bool)

  /** `refused` is absent on the paths that never reach the resolution loop. */
  datatype Report = Report(pending: nat, resolved: nat, stillOpen: nat, refused: Option<nat>)

  function SignalOf(item: Item): Signal
    requires item.rec.stop.Some?
  {
    Signal(item.rec.ticker, item.date, item.rec.stop.value, item.rec.target1, item.rec.target2, item.rec.lastClose)
  }

  function ResolveItem(item: Item, visit: Visit): Resolution
    requires item.rec.stop.Some?
  {
    if item.rec.ticker in visit.history then
      Resolve(SignalOf(item), visit.history[item.rec.ticker], visit.maxHold, Books(visit.runs), visit.useTarget)
    else StillOpen
  }

  /** The first session of any pending call, from which prices are read. */
  function Earliest(items: seq<Item>): (date: Date)
    requires items != []
    ensures forall i :: 0 <= i < |items| ==> date <= items[i].date
  {
    var n := |items| - 1;
    if n == 0 then items[0].date else MinInt(Earliest(items[..n]), items[n].date)
  }

  function Wanted(items: seq<Item>): set<Ticker> {
    set i | 0 <= i < |items| :: items[i].rec.ticker
  }

  /** The price frames read: each wanted ticker with a bar on or after `from`. */
  function ReadPrices(history: map<Ticker, seq<Bar>>, tickers: set<Ticker>, from: Date): map<Ticker, seq<Bar>> {
    map t | t in history && t in tickers && From(history[t], from) != [] :: From(history[t], from)
  }

  /** What one visit reads, which depends on everything that happens to be pending. */
  function PricesOf(items: seq<Item>, visit: Visit): map<Ticker, seq<Bar>> {
    if items == [] then map[] else ReadPrices(visit.history, Wanted(items), Earliest(items))
  }

  /** Reading from the earliest pending call on is enough to resolve every one of them. */
  lemma {:induction false} ReadIsEnough(items: seq<Item>, i: nat, visit: Visit)
    requires i < |items| && items[i].rec.stop.Some?
    ensures var item := items[i];
            var frames := ReadPrices(visit.history, Wanted(items), Earliest(items));
            ResolveItem(item, visit)
            == if item.rec.ticker in frames
               then Resolve(SignalOf(item), frames[item.rec.ticker], visit.maxHold, Books(visit.runs), visit.useTarget)
               else StillOpen
  {
    var item := items[i];
    assert item.rec.ticker in Wanted(items);
    if item.rec.ticker in visit.history {
      EarlierBarsDoNotMatter(SignalOf(item), visit.history[item.rec.ticker], Earliest(items), visit.maxHold,
                             Books(visit.runs), visit.useTarget);
    }
  }

  lemma {:induction false} EarliestIsADate(items: seq<Item>)
    requires items != []
    ensures exists i :: 0 <= i < |items| && items[i].date == Earliest(items)
  {
    var n := |items| - 1;
    if n > 0 {
      EarliestIsADate(items[..n]);
      var i :| 0 <= i < n && items[..n][i].date == Earliest(items[..n]);
      assert items[i].date == Earliest(items) || items[n].date == Earliest(items);
    } else {
      assert items[0].date == Earliest(items);
    }
  }

  lemma FromKeeps(frame: seq<Bar>, date: Date)
    ensures From(frame, date) != [] <==> exists b :: 0 <= b < |frame| && frame[b].date >= date
  {
    if frame == [] {
    } else {
      FromKeeps(frame[1..], date);
      if b :| 0 <= b < |frame| && frame[b].date >= date {
        assert b > 0 ==> frame[1..][b - 1] == frame[b];
      }
      if b :| 0 <= b < |frame| - 1 && frame[1..][b].date >= date {
        assert frame[b + 1] == frame[1..][b];
      }
    }
  }

  /** The store holds a bar of a pending name no earlier than some pending call. */
  ghost predicate SomethingToRead(items: seq<Item>, history: map<Ticker, seq<Bar>>) {
    exists i, j, b :: 0 <= i < |items| && 0 <= j < |items| && items[i].rec.ticker in history
                      && 0 <= b < |history[items[i].rec.ticker]|
                      && history[items[i].rec.ticker][b].date >= items[j].date
  }

  /** When the price frames come back empty, and nothing is resolved or refused. */
  lemma {:induction false} ReadMeans(items: seq<Item>, visit: Visit)
    requires items != []
    ensures PricesOf(items, visit) != map[] <==> SomethingToRead(items, visit.history)
  {
    var from, history := Earliest(items), visit.history;
    var frames := PricesOf(items, visit);
    EarliestIsADate(items);
    var first :| 0 <= first < |items| && items[first].date == from;
    if t :| t in frames {
      FromKeeps(history[t], from);
      var i :| 0 <= i < |items| && items[i].rec.ticker == t;
      var b :| 0 <= b < |history[t]| && history[t][b].date >= from;
      assert history[items[i].rec.ticker][b].date >= items[first].date;
    }
    if i, j, b :| 0 <= i < |items| && 0 <= j < |items| && items[i].rec.ticker in history
                  && 0 <= b < |history[items[i].rec.ticker]|
                  && history[items[i].rec.ticker][b].date >= items[j].date {
      FromKeeps(history[items[i].rec.ticker], from);
      assert items[i].rec.ticker in frames;
    }
  }

  lemma {:induction false} NothingReadNothingNew(items: seq<Item>, n: nat, visit: Visit)
    requires n <= |items| && items != [] && forall p :: p in items ==> p.rec.stop.Some?
    requires ReadPrices(visit.history, Wanted(items), Earliest(items)) == map[]
    ensures NewRows(items[..n], visit) == []
  {
    if n == 0 {
    } else {
      NothingReadNothingNew(items, n - 1, visit);
      ReadIsEnough(items, n - 1, visit);
      assert items[..n][..n - 1] == items[..n - 1];
    }
  }

  function RowOf(item: Item, o: Outcome): Row {
    Row(item.runId, item.rec.ticker, item.date, EXIT_MODEL, o)
  }

  function NewRows(items: seq<Item>, visit: Visit): seq<Row>
    requires forall p :: p in items ==> p.rec.stop.Some?
  {
    if items == [] then []
    else
      var before := NewRows(items[..|items| - 1], visit);
      var r := ResolveItem(items[|items| - 1], visit);
      if r.Closed? then before + [RowOf(items[|items| - 1], r.outcome)] else before
  }

  /** The pending items that cannot be priced honestly. */
  function RefusedItems(items: seq<Item>, visit: Visit): seq<Item>
    requires forall p :: p in items ==> p.rec.stop.Some?
  {
    if items == [] then []
    else
      var before := RefusedItems(items[..|items| - 1], visit);
      if ResolveItem(items[|items| - 1], visit) == Refused then before + [items[|items| - 1]] else before
  }

  /** The outcome file after a visit. */
  function FileAfter(file: seq<Row>, visit: Visit): seq<Row> {
    var pending := Pending(visit.runs, file);
    PendingIsOnePerCall(Candidates(visit.runs), ResolvedKeys(file), ResolvedCalls(file));
    if visit.hasCalendar then file + NewRows(pending, visit) else file
  }

  /** What resolving one more item adds. */
  lemma ScoreNext(items: seq<Item>, i: nat, visit: Visit)
    requires i < |items| && forall p :: p in items ==> p.rec.stop.Some?
    ensures var r := ResolveItem(items[i], visit);
            && NewRows(items[..i + 1], visit)
               == NewRows(items[..i], visit) + (if r.Closed? then [RowOf(items[i], r.outcome)] else [])
            && |RefusedItems(items[..i + 1], visit)|
               == |RefusedItems(items[..i], visit)| + (if r == Refused then 1 else 0)
  {
    assert items[..i + 1][..i] == items[..i];
  }

  class OutcomeFile {
    var rows: seq<Row>

    constructor ()
      ensures rows == []
    {
      rows := [];
    }

    method ScoreItem(items: seq<Item>, i: nat, visit: Visit, frames: map<Ticker, seq<Bar>>, book: BookByDate)
      returns (res: Resolution)
      requires i < |items| && items[i].rec.stop.Some? && book == Books(visit.runs)
      requires frames == PricesOf(items, visit)
      ensures res == ResolveItem(items[i], visit)
    {
      ReadIsEnough(items, i, visit);
      res := ResolveOne(SignalOf(items[i]), frames, visit.maxHold, book, visit.useTarget);
    }

    /** The resolution loop: every item is written, still open or refused. */
    method ScoreAll(items: seq<Item>, visit: Visit, frames: map<Ticker, seq<Bar>>, book: BookByDate)
      returns (written: nat, stillOpen: nat, refused: nat)
      requires book == Books(visit.runs) && forall p :: p in items ==> p.rec.stop.Some?
      requires items != [] && frames == PricesOf(items, visit)
      modifies this
      ensures rows == old(rows) + NewRows(items, visit)
      ensures written == |NewRows(items, visit)| && refused == |RefusedItems(items, visit)|
      ensures written + stillOpen + refused == |items|
    {
      written, stillOpen, refused := 0, 0, 0;
      for i := 0 to |items|
        invariant rows == old(rows) + NewRows(items[..i], visit)
        invariant written == |NewRows(items[..i], visit)| && refused == |RefusedItems(items[..i], visit)|
        invariant written + stillOpen + refused == i
      {
        var item := items[i];
        ScoreNext(items, i, visit);
        var res := ScoreItem(items, i, visit, frames, book);
        if res == Refused {
          refused := refused + 1;
          continue;
        }
        if res == StillOpen {
          stillOpen := stillOpen + 1;
          continue;
        }
        rows := rows + [RowOf(item, res.outcome)];
        written := written + 1;
      }
      assert items[..|items|] == items;
    }

    /** `resolve_pending`: append one row per call that has ended; every pending
        call is resolved, still open or refused. */
    method ResolvePending(visit: Visit) returns (report: Report)
      modifies this
      ensures rows == FileAfter(old(rows), visit)
      ensures report.pending == |Pending(visit.runs, old(rows))|
      ensures forall p :: p in Pending(visit.runs, old(rows)) ==> p.rec.stop.Some?
      ensures report.resolved == |rows| - |old(rows)|
      ensures report.refused.Some? ==>
                report.pending == report.resolved + report.stillOpen + report.refused.value
                && report.refused.value == |RefusedItems(Pending(visit.runs, old(rows)), visit)|
      ensures report.refused.None? ==> report.pending == report.stillOpen && report.resolved == 0
      ensures report.refused.Some? <==>
                visit.hasCalendar && report.pending > 0 && PricesOf(Pending(visit.runs, old(rows)), visit) != map[]
    {
      var pending := PendingOf(visit.runs, rows);
      PendingIsOnePerCall(Candidates(visit.runs), ResolvedKeys(rows), ResolvedCalls(rows));
      if pending == [] {
        return Report(0, 0, 0, None);
      }
      if !visit.hasCalendar {
        return Report(|pending|, 0, |pending|, None);
      }
      var book := BookByDateOf(visit.runs);
      var frames := PricesOf(pending, visit);
      if frames == map[] {
        NothingReadNothingNew(pending, |pending|, visit);
        assert pending[..|pending|] == pending;
        return Report(|pending|, 0, |pending|, None);
      }
      var written, stillOpen, refused := ScoreAll(pending, visit, frames, book);
      return Report(|pending|, written, stillOpen, Some(refused));
    }
  }

  // ---- over any sequence of visits ------------------------------------------------

  ghost predicate OneRowPerCall(file: seq<Row>) {
    forall i, j :: 0 <= i < j < |file| && file[i].exitModel == file[j].exitModel == EXIT_MODEL ==>
      file[i].Call() != file[j].Call()
  }

  lemma {:induction false} NewRowsFacts(items: seq<Item>, visit: Visit)
    requires DistinctCalls(items) && forall p :: p in items ==> p.rec.stop.Some?
    ensures forall r :: r in NewRows(items, visit) ==>
              r.exitModel == EXIT_MODEL
              && exists p :: p in items && p.Call() == r.Call() && ResolveItem(p, visit) == Closed(r.outcome)
    ensures OneRowPerCall(NewRows(items, visit))
  {
    if items == [] {
    } else {
      var n := |items| - 1;
      var init := items[..n];
      NewRowsFacts(init, visit);
      assert forall p :: p in init ==> p in items;
      forall i | 0 <= i < |NewRows(init, visit)|
        ensures NewRows(init, visit)[i].Call() != items[n].Call()
      {
        var p :| p in init && p.Call() == NewRows(init, visit)[i].Call();
      }
    }
  }

  lemma {:induction false} VisitKeepsOneRowPerCall(file: seq<Row>, visit: Visit)
    requires OneRowPerCall(file)
    ensures OneRowPerCall(FileAfter(file, visit)) && file <= FileAfter(file, visit)
  {
    var pending := Pending(visit.runs, file);
    PendingIsOnePerCall(Candidates(visit.runs), ResolvedKeys(file), ResolvedCalls(file));
    NewRowsFacts(pending, visit);
    var added := NewRows(pending, visit);
    forall i, j | 0 <= i < |file| && file[i].exitModel == EXIT_MODEL && 0 <= j < |added|
      ensures file[i].Call() != added[j].Call()
    {
      assert added[j] in added;
      var p :| p in pending && p.Call() == added[j].Call();
      assert file[i].Call() in ResolvedCalls(file);
    }
  }

  function FileAfterAll(file: seq<Row>, visits: seq<Visit>): seq<Row> {
    if visits == [] then file
    else FileAfter(FileAfterAll(file, visits[..|visits| - 1]), visits[|visits| - 1])
  }

  /** Whatever ledgers and prices the visits see, in whatever order, a call has
      at most one row under the current exit rule, and no row is ever removed. */
  lemma {:induction false} AtMostOneRowPerCall(file: seq<Row>, visits: seq<Visit>)
    requires OneRowPerCall(file)
    ensures OneRowPerCall(FileAfterAll(file, visits)) && file <= FileAfterAll(file, visits)
  {
    if visits == [] {
    } else {
      AtMostOneRowPerCall(file, visits[..|visits| - 1]);
      VisitKeepsOneRowPerCall(FileAfterAll(file, visits[..|visits| - 1]), visits[|visits| - 1]);
    }
  }

  /** A call on file is never pending again. */
  lemma {:induction false} ResolvedStaysResolved(file: seq<Row>, row: Row, visits: seq<Visit>, runs: seq<Run>)
    requires OneRowPerCall(file) && row in file && row.exitModel == EXIT_MODEL
    ensures row.Call() !in CallsOf(Pending(runs, FileAfterAll(file, visits)))
  {
    var grown := FileAfterAll(file, visits);
    AtMostOneRowPerCall(file, visits);
    var i :| 0 <= i < |file| && file[i] == row;
    assert grown[i] == row;
    assert row.Call() in ResolvedCalls(grown);
    PendingIsOnePerCall(Candidates(runs), ResolvedKeys(grown), ResolvedCalls(grown));
  }

  /** When it is asked does not matter, nor what else is pending then: an answer given on one
      history and ledger is the answer on any history that, from the signal session on, it grows
      into, and on any ledger it grows into by runs of the exit session and later. A refusal
      stands whatever is recorded. */
  lemma {:induction false} AnswerIndependentOfVisit(item: Item, early: Visit, late: Visit,
                                                    laterBars: seq<Bar>, laterRuns: seq<Run>)
    requires item.rec.stop.Some? && item.rec.ticker in early.history && item.rec.ticker in late.history
    requires late.maxHold == early.maxHold && late.useTarget == early.useTarget
    requires late.runs == early.runs + laterRuns
    requires var frame, grown := early.history[item.rec.ticker], late.history[item.rec.ticker];
             Sorted(frame) && Sorted(grown) && From(grown, item.date) == From(frame, item.date) + laterBars
    requires var r := ResolveItem(item, early);
             && r != StillOpen
             && (r.Closed? ==> forall j :: 0 <= j < |laterRuns| ==> laterRuns[j].date >= r.outcome.exitDate)
    ensures ResolveItem(item, late) == ResolveItem(item, early)
  {
    var frame, grown := early.history[item.rec.ticker], late.history[item.rec.ticker];
    var r := ResolveItem(item, early);
    if r.Closed? {
      LaterRunsKeepBooks(early.runs, laterRuns, r.outcome.exitDate);
    }
    LaterReadingsAgree(SignalOf(item), frame, grown, laterBars, early.maxHold,
                       Books(early.runs), Books(late.runs), early.useTarget);
  }

  // ---- pending calls and rows, from the ledger and the file alone -------------------

  /** Records are read run by run, each with whether its run signalled its name. */
  lemma {:induction false} CandidatesMean(a: seq<Run>, b: seq<Run>, run: Run)
    ensures Candidates(a + b) == Candidates(a) + Candidates(b)
    ensures |Candidates([run])| == |run.scored|
    ensures forall j :: 0 <= j < |run.scored| ==>
              Candidates([run])[j] == Item(run.runId, run.date, run.scored[j], run.scored[j].ticker in run.signals)
  {
    assert [run][..0] == [];
    if b == [] {
      assert a + b == a;
    } else {
      var n := |b| - 1;
      CandidatesMean(a, b[..n], run);
      assert (a + b)[..|a| + n] == a + b[..n];
    }
  }

  /** A signalled record with a stop, of which no row under the current exit rule is on file,
      neither for its run nor for its session. */
  ghost predicate Waits(item: Item, file: seq<Row>) {
    && item.signalled && item.rec.stop.Some?
    && forall r :: r in file && r.exitModel == "band-time-v5" && r.ticker == item.rec.ticker ==>
         r.runId != item.runId && r.signalDate != item.date
  }

  ghost predicate SameCall(a: Item, b: Item) {
    a.rec.ticker == b.rec.ticker && a.date == b.date
  }

  lemma EligibleMeans(item: Item, file: seq<Row>)
    ensures Eligible(item, ResolvedKeys(file), ResolvedCalls(file)) <==> Waits(item, file)
  {
    if Eligible(item, ResolvedKeys(file), ResolvedCalls(file)) {
      forall r | r in file && r.exitModel == "band-time-v5" && r.ticker == item.rec.ticker
        ensures r.runId != item.runId && r.signalDate != item.date
      {
        assert (r.runId, r.ticker) in ResolvedKeys(file) && r.Call() in ResolvedCalls(file);
      }
    }
  }

  /** `at` says where in `items` each of `out` stands; they stand in that order. */
  ghost predicate DrawnFrom(out: seq<Item>, items: seq<Item>, at: seq<nat>) {
    && |at| == |out|
    && (forall k :: 0 <= k < |at| ==> at[k] < |items| && items[at[k]] == out[k])
    && forall k, l :: 0 <= k < l < |at| ==> at[k] < at[l]
  }

  ghost predicate FirstToWait(items: seq<Item>, c: nat, file: seq<Row>)
    requires c < |items|
  {
    Waits(items[c], file) && forall e :: 0 <= e < c && Waits(items[e], file) ==> !SameCall(items[e], items[c])
  }

  lemma AppendDrawn(out: seq<Item>, items: seq<Item>, at: seq<nat>, item: Item)
    requires DrawnFrom(out, items, at)
    ensures DrawnFrom(out, items + [item], at) && DrawnFrom(out + [item], items + [item], at + [|items|])
  {
  }

  lemma {:induction false} CollectDraws(items: seq<Item>, file: seq<Row>) returns (at: seq<nat>)
    ensures var out := Collect(items, ResolvedKeys(file), ResolvedCalls(file));
            DrawnFrom(out, items, at) && forall k :: 0 <= k < |at| ==> FirstToWait(items, at[k], file)
  {
    if items == [] {
      at := [];
    } else {
      var n := |items| - 1;
      var keys, calls := ResolvedKeys(file), ResolvedCalls(file);
      var before := Collect(items[..n], keys, calls);
      at := CollectDraws(items[..n], file);
      assert items == items[..n] + [items[n]];
      AppendDrawn(before, items[..n], at, items[n]);
      forall k | 0 <= k < |at| ensures FirstToWait(items, at[k], file) {
        assert FirstToWait(items[..n], at[k], file);
      }
      EligibleMeans(items[n], file);
      if Eligible(items[n], keys, calls) && items[n].Call() !in CallsOf(before) {
        FirstOfItsCall(items, file);
        at := at + [n];
      }
    }
  }

  lemma {:induction false} FirstOfItsCall(items: seq<Item>, file: seq<Row>)
    requires items != [] && Waits(items[|items| - 1], file)
    requires items[|items| - 1].Call()
             !in CallsOf(Collect(items[..|items| - 1], ResolvedKeys(file), ResolvedCalls(file)))
    ensures FirstToWait(items, |items| - 1, file)
  {
    var n := |items| - 1;
    PendingIsOnePerCall(items[..n], ResolvedKeys(file), ResolvedCalls(file));
    forall e | 0 <= e < n && Waits(items[e], file) ensures !SameCall(items[e], items[n]) {
      EligibleMeans(items[e], file);
      assert items[e] in items[..n];
    }
  }

  /** The pending calls, in ledger order, are each the first record of its call that waits, and
      every record that waits has its call among them. */
  lemma {:induction false} PendingMeans(runs: seq<Run>, file: seq<Row>) returns (at: seq<nat>)
    ensures DrawnFrom(Pending(runs, file), Candidates(runs), at)
    ensures forall k :: 0 <= k < |at| ==> FirstToWait(Candidates(runs), at[k], file)
    ensures forall item :: item in Candidates(runs) && Waits(item, file) ==>
              exists p :: p in Pending(runs, file) && SameCall(p, item)
  {
    at := CollectDraws(Candidates(runs), file);
    PendingIsOnePerCall(Candidates(runs), ResolvedKeys(file), ResolvedCalls(file));
    forall item | item in Candidates(runs) && Waits(item, file)
      ensures exists p :: p in Pending(runs, file) && SameCall(p, item)
    {
      EligibleMeans(item, file);
      var i :| 0 <= i < |Pending(runs, file)| && Pending(runs, file)[i].Call() == item.Call();
      assert SameCall(Pending(runs, file)[i], item);
    }
  }

  /** What the resolver says of a pending call, asked on all the store holds of its name. */
  ghost function AnswerTo(p: Item, visit: Visit): Resolution
    requires p.rec.stop.Some?
  {
    if p.rec.ticker !in visit.history then StillOpen
    else
      Resolve(Signal(p.rec.ticker, p.date, p.rec.stop.value, p.rec.target1, p.rec.target2, p.rec.lastClose),
              visit.history[p.rec.ticker], visit.maxHold, Books(visit.runs), visit.useTarget)
  }

  ghost predicate AllStopped(items: seq<Item>) {
    forall p :: p in items ==> p.rec.stop.Some?
  }

  ghost function Answers(items: seq<Item>, visit: Visit): seq<Resolution>
    requires AllStopped(items)
  {
    seq(|items|, k requires 0 <= k < |items| => AnswerTo(items[k], visit))
  }

  /** Where the resolver closes a call, and where it refuses one. */
  ghost function ClosedAt(answers: seq<Resolution>): set<nat> {
    set k: nat | k < |answers| && answers[k].Closed?
  }

  ghost function RefusedAt(answers: seq<Resolution>): set<nat> {
    set k: nat | k < |answers| && answers[k] == Refused
  }

  ghost predicate IsRowOf(row: Row, p: Item, answer: Resolution) {
    && answer == Closed(row.outcome) && row.exitModel == "band-time-v5"
    && row.runId == p.runId && row.ticker == p.rec.ticker && row.signalDate == p.date
  }

  /** The rows are one for each closed call, in the order of the calls; `at` says of which. */
  ghost predicate RowsFollow(rows: seq<Row>, items: seq<Item>, answers: seq<Resolution>, at: seq<nat>) {
    && |answers| == |items| && |at| == |rows|
    && (forall k :: 0 <= k < |at| ==> at[k] < |items| && IsRowOf(rows[k], items[at[k]], answers[at[k]]))
    && (forall k, l :: 0 <= k < l < |at| ==> at[k] < at[l])
    && forall k :: k in at <==> k in ClosedAt(answers)
  }

  lemma AnswersOneFewer(items: seq<Item>, visit: Visit)
    requires AllStopped(items) && items != []
    ensures var n := |items| - 1;
            && AllStopped(items[..n])
            && Answers(items, visit) == Answers(items[..n], visit) + [ResolveItem(items[n], visit)]
  {
  }

  /** An answer that writes no row. */
  lemma RowsFollowOpen(rows: seq<Row>, items: seq<Item>, answers: seq<Resolution>, at: seq<nat>,
                       p: Item, answer: Resolution)
    requires RowsFollow(rows, items, answers, at) && !answer.Closed?
    ensures RowsFollow(rows, items + [p], answers + [answer], at)
  {
    ClosedOneMore(answers, answer);
  }

  /** An answer that writes the last row. */
  lemma RowsFollowClosed(rows: seq<Row>, items: seq<Item>, answers: seq<Resolution>, at: seq<nat>,
                         p: Item, answer: Resolution, row: Row)
    requires RowsFollow(rows, items, answers, at) && IsRowOf(row, p, answer)
    ensures RowsFollow(rows + [row], items + [p], answers + [answer], at + [|answers|])
  {
    var n, at' := |answers|, at + [|answers|];
    forall k | 0 <= k < |at'|
      ensures at'[k] <= n && IsRowOf((rows + [row])[k], (items + [p])[at'[k]], (answers + [answer])[at'[k]])
    {
      if k < |at| {
        assert IsRowOf(rows[k], items[at[k]], answers[at[k]]);
      }
    }
    forall k, l | 0 <= k < l < |at'| ensures at'[k] < at'[l] {
      assert at[k] < n;
    }
    ClosedOneMore(answers, answer);
    assert forall k :: k in at' <==> k in at || k == n;
  }

  lemma RowsFollowOneMore(rows: seq<Row>, items: seq<Item>, answers: seq<Resolution>, at: seq<nat>,
                          p: Item, answer: Resolution) returns (at': seq<nat>)
    requires RowsFollow(rows, items, answers, at)
    ensures RowsFollow(if answer.Closed? then rows + [RowOf(p, answer.outcome)] else rows,
                       items + [p], answers + [answer], at')
  {
    at' := at;
    if answer.Closed? {
      RowsFollowClosed(rows, items, answers, at, p, answer, RowOf(p, answer.outcome));
      at' := at + [|answers|];
    } else {
      RowsFollowOpen(rows, items, answers, at, p, answer);
    }
  }

  lemma ClosedOneMore(answers: seq<Resolution>, answer: Resolution)
    ensures forall k :: k in ClosedAt(answers + [answer])
                        <==> k in ClosedAt(answers) || (answer.Closed? && k == |answers|)
  {
  }

  lemma RefusedOneMore(answers: seq<Resolution>, answer: Resolution)
    ensures |RefusedAt(answers + [answer])| == |RefusedAt(answers)| + (if answer == Refused then 1 else 0)
  {
    var more: set<nat> := if answer == Refused then {|answers|} else {};
    assert RefusedAt(answers + [answer]) == RefusedAt(answers) + more;
  }

  /** What is written and what is refused, from the answers alone. */
  lemma {:induction false} NewRowsMean(items: seq<Item>, visit: Visit) returns (at: seq<nat>)
    requires AllStopped(items)
    ensures RowsFollow(NewRows(items, visit), items, Answers(items, visit), at)
    ensures |RefusedItems(items, visit)| == |RefusedAt(Answers(items, visit))|
  {
    if items == [] {
      at := [];
      assert RefusedAt(Answers(items, visit)) == {};
    } else {
      var n := |items| - 1;
      AnswersOneFewer(items, visit);
      at := NewRowsMean(items[..n], visit);
      var answer := ResolveItem(items[n], visit);
      assert items == items[..n] + [items[n]];
      at := RowsFollowOneMore(NewRows(items[..n], visit), items[..n], Answers(items[..n], visit), at, items[n], answer);
      RefusedOneMore(Answers(items[..n], visit), answer);
    }
  }

  /** The file after a visit: what it held, and if the store lists any session a row for each
      pending call that the resolver closes. */
  lemma {:induction false} FileMeans(file: seq<Row>, visit: Visit) returns (at: seq<nat>)
    ensures AllStopped(Pending(visit.runs, file))
    ensures file <= FileAfter(file, visit)
    ensures !visit.hasCalendar ==> FileAfter(file, visit) == file
    ensures var pending := Pending(visit.runs, file);
            && (visit.hasCalendar ==>
                  RowsFollow(FileAfter(file, visit)[|file|..], pending, Answers(pending, visit), at))
            && |RefusedItems(pending, visit)| == |RefusedAt(Answers(pending, visit))|
  {
    var pending := Pending(visit.runs, file);
    PendingIsOnePerCall(Candidates(visit.runs), ResolvedKeys(file), ResolvedCalls(file));
    at := NewRowsMean(pending, visit);
  }
}
