/** What the resolver promises: which bar ends a trade and at what price, that
    later data cannot change an answer, and that re-basing prices cannot. */
module ResolverLaws {
  import opened Common
  import opened Circuit
  import opened Resolver

  // ---- which bar ends the trade ------------------------------------------------

  /** A trade is closed exactly when some tradable bar meets the stop, the armed
      target or the engine's own exit, or the whole window has elapsed. */
  lemma ClosedExactlyWhen(trade: Trade, walk: seq<Bar>, maxHold: nat, factor: real)
    requires trade.entryPrice > 0.0
    ensures trade.Ending(walk, maxHold, factor).Closed?
            <==> (exists k :: 0 <= k < |walk| && trade.Fires(walk, k)) || (walk != [] && |walk| >= maxHold)
  {
  }

  /** The exit bar is the first that fires, and the exits rank stop, target,
      engine; a time exit means none fired in the full window. */
  lemma {:induction false} ExitBar(trade: Trade, walk: seq<Bar>, maxHold: nat, factor: real)
    requires trade.entryPrice > 0.0 && trade.Ending(walk, maxHold, factor).Closed?
    ensures var o := trade.Ending(walk, maxHold, factor).outcome;
            && 0 < o.held <= |walk| && o.exitDate == walk[o.held - 1].date
            && (forall j :: 0 <= j < o.held - 1 ==> !trade.Fires(walk, j))
            && var last := walk[o.held - 1];
               if o.kind in {TimeExit, StopUnfilledCircuit} then
                 !trade.Fires(walk, o.held - 1) && o.held == |walk| >= maxHold && o.exitPrice == Some(last.close)
               else
                 && !Untradeable(last)
                 && (o.kind in {Stop, StopGap} <==> trade.StopHit(last))
                 && (o.kind == Target <==> !trade.StopHit(last) && trade.TargetHit(last))
                 && (o.kind == BookExit ==>
                       (o.exitPrice == last.open
                        && ClosedByEngine(trade.book, trade.DecidedBefore(walk, o.held - 1), trade.ticker)))
  {
  }

  /** A stop never fills above the stop, and a gap is named exactly when it
      filled below. A target fills at the target. */
  lemma {:induction false} StopFill(trade: Trade, walk: seq<Bar>, maxHold: nat, factor: real)
    requires trade.entryPrice > 0.0 && trade.Ending(walk, maxHold, factor).Closed?
    ensures var o := trade.Ending(walk, maxHold, factor).outcome;
            && (o.kind in {Stop, StopGap} ==>
                  (o.exitPrice.Some? && o.exitPrice.value <= trade.stop
                   && (o.kind == StopGap <==> o.exitPrice.value < trade.stop)))
            && (o.kind == Target ==> o.exitPrice == trade.t2)
  {
  }

  /** The circuit markers appear exactly when a locked bar had breached the stop
      before the exit: as a suffix on a fill, as its own name on a time exit. */
  lemma {:induction false} CircuitMarkers(trade: Trade, walk: seq<Bar>, maxHold: nat, factor: real)
    requires trade.entryPrice > 0.0 && trade.Ending(walk, maxHold, factor).Closed?
    ensures var o := trade.Ending(walk, maxHold, factor).outcome;
            (o.afterCircuit || o.kind == StopUnfilledCircuit)
            <==> exists j :: 0 <= j < o.held && trade.LockedBreach(walk[j])
    ensures var o := trade.Ending(walk, maxHold, factor).outcome;
            o.kind == StopUnfilledCircuit ==> !o.afterCircuit
  {
    var o := trade.Ending(walk, maxHold, factor).outcome;
    ExitBar(trade, walk, maxHold, factor);
    if o.kind !in {TimeExit, StopUnfilledCircuit} {
      assert o.afterCircuit == trade.BreachedWhileLocked(walk, o.held - 1);
      assert !trade.LockedBreach(walk[o.held - 1]);
    }
  }

  /** The recorded excursions are attained bounds over every bar of the hold. */
  lemma ExcursionsAreBounds(trade: Trade, walk: seq<Bar>, n: nat)
    requires trade.entryPrice > 0.0 && n <= |walk|
    ensures trade.Mae(walk, n) <= 0.0 <= trade.Mfe(walk, n)
    ensures forall j :: 0 <= j < n ==> trade.Mae(walk, n) <= trade.Excursion(walk[j].low)
                                       && trade.Excursion(walk[j].high) <= trade.Mfe(walk, n)
    ensures trade.Mae(walk, n) == 0.0
            || exists j :: 0 <= j < n && trade.Mae(walk, n) == trade.Excursion(walk[j].low)
    ensures trade.Mfe(walk, n) == 0.0
            || exists j :: 0 <= j < n && trade.Mfe(walk, n) == trade.Excursion(walk[j].high)
  {
  }

  // ---- what an outcome says, from the bars and the signal alone -------------------------

  /** The run that completed on `date` no longer named the ticker. */
  ghost predicate LeftOn(book: BookByDate, date: Date, ticker: Ticker) {
    date in book && ticker !in book[date]
  }

  /** Bar `j` is the last tradable one before bar `n`. */
  ghost predicate LastTradable(walk: seq<Bar>, j: nat, n: nat)
    requires n <= |walk|
  {
    j < n && !Untradeable(walk[j]) && forall i :: j < i < n ==> Untradeable(walk[i])
  }

  ghost predicate NoneTradable(walk: seq<Bar>, n: nat)
    requires n <= |walk|
  {
    forall i :: 0 <= i < n ==> Untradeable(walk[i])
  }

  /** The engine had let the ticker go at the close it last acted on before bar `n`: that of the
      last tradable bar, or of the entry bar when there was none. */
  ghost predicate EngineLeft(walk: seq<Bar>, n: nat, entryDate: Date, book: BookByDate, ticker: Ticker)
    requires n <= |walk|
  {
    || (exists j :: 0 <= j < n && LastTradable(walk, j, n) && LeftOn(book, walk[j].date, ticker))
    || (NoneTradable(walk, n) && LeftOn(book, entryDate, ticker))
  }

  lemma {:induction false} DecidedIsLastTradable(trade: Trade, walk: seq<Bar>, n: nat)
    requires n <= |walk|
    ensures forall j: nat :: j < n && LastTradable(walk, j, n) ==> trade.DecidedBefore(walk, n) == walk[j].date
    ensures NoneTradable(walk, n) ==> trade.DecidedBefore(walk, n) == trade.entryDate
    ensures !NoneTradable(walk, n) ==> exists j :: 0 <= j < n && LastTradable(walk, j, n)
  {
    if n == 0 {
    } else {
      DecidedIsLastTradable(trade, walk, n - 1);
      if Untradeable(walk[n - 1]) {
        forall j: nat | j < n && LastTradable(walk, j, n) ensures LastTradable(walk, j, n - 1) {
        }
        if !NoneTradable(walk, n) {
          assert !NoneTradable(walk, n - 1);
          var j :| 0 <= j < n - 1 && LastTradable(walk, j, n - 1);
          assert LastTradable(walk, j, n);
        }
      } else {
        assert LastTradable(walk, n - 1, n);
      }
    }
  }

  lemma {:induction false} EngineExit(trade: Trade, walk: seq<Bar>, n: nat)
    requires n <= |walk|
    ensures ClosedByEngine(trade.book, trade.DecidedBefore(walk, n), trade.ticker)
            <==> EngineLeft(walk, n, trade.entryDate, trade.book, trade.ticker)
  {
    DecidedIsLastTradable(trade, walk, n);
    if !NoneTradable(walk, n) {
      var j :| 0 <= j < n && LastTradable(walk, j, n);
    }
  }

  /** Why bar `n` ends the trade, or `None` if it does not: the stop before the armed target,
      and both before the engine's own exit; never on a bar that could not be traded. */
  ghost function ReasonAt(trade: Trade, walk: seq<Bar>, n: nat): Option<ExitKind>
    requires n < |walk|
  {
    var bar := walk[n];
    if Untradeable(bar) then None
    else if bar.low <= trade.stop then
      if bar.open.Some? && bar.open.value < trade.stop then Some(StopGap) else Some(Stop)
    else if trade.useTarget && trade.t2.Some? && bar.high >= trade.t2.value then Some(Target)
    else if EngineLeft(walk, n, trade.entryDate, trade.book, trade.ticker) then Some(BookExit)
    else None
  }

  /** The price a trade that ends on `bar` for this reason fills at. */
  ghost predicate FilledAt(trade: Trade, bar: Bar, kind: ExitKind, price: Option<real>) {
    match kind
    case Stop => price == Some(trade.stop)
    case StopGap => price == bar.open
    case Target => price == trade.t2
    case BookExit => price == bar.open
    case TimeExit => price == Some(bar.close)
    case StopUnfilledCircuit => price == Some(bar.close)
  }

  /** A bar that could not be traded went through the stop before bar `n`. */
  ghost predicate LockedThroughStop(trade: Trade, walk: seq<Bar>, n: nat)
    requires n <= |walk|
  {
    exists j :: 0 <= j < n && Untradeable(walk[j]) && walk[j].low <= trade.stop
  }

  /** Some tradable bar of the first `n` reached the level. */
  ghost predicate Reached(walk: seq<Bar>, level: Option<real>, n: nat)
    requires n <= |walk|
  {
    level.Some? && exists j :: 0 <= j < n && !Untradeable(walk[j]) && walk[j].high >= level.value
  }

  /** The recorded excursion is the worst (the best) of the hold, or zero. */
  ghost predicate WorstOf(walk: seq<Bar>, n: nat, entryPrice: real, mae: real)
    requires n <= |walk| && entryPrice > 0.0
  {
    && mae <= 0.0 && (forall j :: 0 <= j < n ==> mae <= Div(walk[j].low - entryPrice, entryPrice))
    && (mae == 0.0 || exists j :: 0 <= j < n && mae == Div(walk[j].low - entryPrice, entryPrice))
  }

  ghost predicate BestOf(walk: seq<Bar>, n: nat, entryPrice: real, mfe: real)
    requires n <= |walk| && entryPrice > 0.0
  {
    && mfe >= 0.0 && (forall j :: 0 <= j < n ==> mfe >= Div(walk[j].high - entryPrice, entryPrice))
    && (mfe == 0.0 || exists j :: 0 <= j < n && mfe == Div(walk[j].high - entryPrice, entryPrice))
  }

  /** How a trade stands after its walk, said of the bars: `n` is the bar that ends it. */
  ghost predicate EndsAt(trade: Trade, walk: seq<Bar>, maxHold: nat, n: nat, kind: ExitKind)
    requires n < |walk|
  {
    && (forall j :: 0 <= j < n ==> ReasonAt(trade, walk, j).None?)
    && if ReasonAt(trade, walk, n).Some? then ReasonAt(trade, walk, n) == Some(kind)
       else
         && n + 1 == |walk| && |walk| >= maxHold
         && kind == if LockedThroughStop(trade, walk, n + 1) then StopUnfilledCircuit else TimeExit
  }

  lemma {:induction false} FiresExactlyWhen(trade: Trade, walk: seq<Bar>, n: nat)
    requires n < |walk|
    ensures trade.Fires(walk, n) <==> ReasonAt(trade, walk, n).Some?
    ensures trade.Fires(walk, n) ==>
              ReasonAt(trade, walk, n) == Some(trade.FillAt(walk[n]).0)
              && FilledAt(trade, walk[n], trade.FillAt(walk[n]).0, trade.FillAt(walk[n]).1)
  {
    EngineExit(trade, walk, n);
  }

  /** What a closed trade records, every field of it. */
  ghost predicate Records(trade: Trade, walk: seq<Bar>, maxHold: nat, factor: real, o: Outcome)
    requires trade.entryPrice > 0.0
  {
    && 0 < o.held <= |walk| && EndsAt(trade, walk, maxHold, o.held - 1, o.kind)
    && o.entryDate == trade.entryDate && o.entryPrice == trade.entryPrice && o.factor == factor
    && o.exitDate == walk[o.held - 1].date
    && FilledAt(trade, walk[o.held - 1], o.kind, o.exitPrice)
    && o.gross == (if o.exitPrice.None? then None else Some(Div(o.exitPrice.value, trade.entryPrice) - 1.0))
    && (o.afterCircuit <==> o.kind !in {TimeExit, StopUnfilledCircuit} && LockedThroughStop(trade, walk, o.held))
    && (o.touched1 <==> Reached(walk, trade.t1, o.held)) && (o.touched2 <==> Reached(walk, trade.t2, o.held))
    && WorstOf(walk, o.held, trade.entryPrice, o.mae) && BestOf(walk, o.held, trade.entryPrice, o.mfe)
  }

  lemma {:induction false} FirstExitEnds(trade: Trade, walk: seq<Bar>)
    ensures forall j :: 0 <= j < trade.FirstExit(walk, 0) ==> ReasonAt(trade, walk, j).None?
    ensures trade.FirstExit(walk, 0) < |walk| ==> ReasonAt(trade, walk, trade.FirstExit(walk, 0)).Some?
  {
    var k := trade.FirstExit(walk, 0);
    forall j | 0 <= j < |walk| ensures trade.Fires(walk, j) <==> ReasonAt(trade, walk, j).Some? {
      FiresExactlyWhen(trade, walk, j);
    }
  }

  lemma {:induction false} RecordMeans(trade: Trade, walk: seq<Bar>, n: nat, kind: ExitKind, price: Option<real>,
                                       circuit: bool, factor: real)
    requires trade.entryPrice > 0.0 && 0 < n <= |walk|
    ensures var o := trade.Record(walk, n, kind, price, circuit, factor);
            && o.entryDate == trade.entryDate && o.entryPrice == trade.entryPrice && o.factor == factor
            && o.exitDate == walk[n - 1].date && o.exitPrice == price && o.kind == kind && o.afterCircuit == circuit
            && o.held == n
            && o.gross == (if price.None? then None else Some(Div(price.value, trade.entryPrice) - 1.0))
            && (o.touched1 <==> Reached(walk, trade.t1, n)) && (o.touched2 <==> Reached(walk, trade.t2, n))
            && WorstOf(walk, n, trade.entryPrice, o.mae) && BestOf(walk, n, trade.entryPrice, o.mfe)
  {
    ExcursionsAreBounds(trade, walk, n);
    forall j | 0 <= j < n
      ensures trade.Excursion(walk[j].low) == Div(walk[j].low - trade.entryPrice, trade.entryPrice)
      ensures trade.Excursion(walk[j].high) == Div(walk[j].high - trade.entryPrice, trade.entryPrice)
    {
    }
  }

  lemma BreachMeans(trade: Trade, walk: seq<Bar>, n: nat)
    requires n <= |walk|
    ensures trade.BreachedWhileLocked(walk, n) <==> LockedThroughStop(trade, walk, n)
  {
    if j :| 0 <= j < n && Untradeable(walk[j]) && walk[j].low <= trade.stop {
      assert trade.LockedBreach(walk[j]);
    }
  }

  /** The walk, said of the bars: it closes exactly when some bar ends the trade or the whole
      window has elapsed, it is never refused, and every field of what is recorded follows. */
  lemma {:induction false} EndingMeans(trade: Trade, walk: seq<Bar>, maxHold: nat, factor: real)
    requires trade.entryPrice > 0.0
    ensures var r := trade.Ending(walk, maxHold, factor);
            && r != Refused
            && (r.Closed? <==> (exists n :: 0 <= n < |walk| && ReasonAt(trade, walk, n).Some?)
                               || (walk != [] && |walk| >= maxHold))
            && (r.Closed? ==> Records(trade, walk, maxHold, factor, r.outcome))
  {
    FirstExitEnds(trade, walk);
    if trade.FirstExit(walk, 0) < |walk| {
      EndedByABar(trade, walk, maxHold, factor);
    } else if walk != [] && |walk| >= maxHold {
      EndedByTime(trade, walk, maxHold, factor);
    }
  }

  lemma {:induction false} EndedByABar(trade: Trade, walk: seq<Bar>, maxHold: nat, factor: real)
    requires trade.entryPrice > 0.0 && trade.FirstExit(walk, 0) < |walk|
    ensures var r := trade.Ending(walk, maxHold, factor);
            r.Closed? && Records(trade, walk, maxHold, factor, r.outcome)
  {
    var k := trade.FirstExit(walk, 0);
    FirstExitEnds(trade, walk);
    FiresExactlyWhen(trade, walk, k);
    var (kind, price) := trade.FillAt(walk[k]);
    var circuit := trade.BreachedWhileLocked(walk, k);
    var o := trade.Record(walk, k + 1, kind, price, circuit, factor);
    RecordMeans(trade, walk, k + 1, kind, price, circuit, factor);
    BreachMeans(trade, walk, k);
    LockedBefore(trade, walk, k);
    assert Records(trade, walk, maxHold, factor, o);
  }

  /** A bar that could be traded adds no breach. */
  lemma LockedBefore(trade: Trade, walk: seq<Bar>, k: nat)
    requires k < |walk| && !Untradeable(walk[k])
    ensures LockedThroughStop(trade, walk, k + 1) <==> LockedThroughStop(trade, walk, k)
  {
  }

  lemma {:induction false} EndedByTime(trade: Trade, walk: seq<Bar>, maxHold: nat, factor: real)
    requires trade.entryPrice > 0.0 && trade.FirstExit(walk, 0) == |walk|
    requires walk != [] && |walk| >= maxHold
    ensures var r := trade.Ending(walk, maxHold, factor);
            r.Closed? && Records(trade, walk, maxHold, factor, r.outcome)
  {
    var k := |walk|;
    FirstExitEnds(trade, walk);
    BreachMeans(trade, walk, k);
    var kind := if trade.BreachedWhileLocked(walk, k) then StopUnfilledCircuit else TimeExit;
    var o := trade.Record(walk, k, kind, Some(walk[k - 1].close), false, factor);
    RecordMeans(trade, walk, k, kind, Some(walk[k - 1].close), false, factor);
    assert Records(trade, walk, maxHold, factor, o);
  }

  /** An exit the engine decided is taken at the next tradable bar, if nothing ended the trade
      before: decided at the close of the last tradable bar `j`, or at that of the entry bar. */
  lemma {:induction false} EngineExitIsTaken(trade: Trade, walk: seq<Bar>, maxHold: nat, factor: real, n: nat)
    requires trade.entryPrice > 0.0 && n < |walk| && !Untradeable(walk[n])
    requires || (exists j :: 0 <= j < n && LastTradable(walk, j, n) && LeftOn(trade.book, walk[j].date, trade.ticker))
             || (NoneTradable(walk, n) && LeftOn(trade.book, trade.entryDate, trade.ticker))
    ensures var r := trade.Ending(walk, maxHold, factor); r.Closed? && r.outcome.held <= n + 1
  {
    EndingMeans(trade, walk, maxHold, factor);
    assert ReasonAt(trade, walk, n).Some?;
  }

  // ---- no look-ahead -------------------------------------------------------------

  ghost predicate Sorted(frame: seq<Bar>) {
    forall i, j :: 0 <= i < j < |frame| ==> frame[i].date < frame[j].date
  }

  /** Two books agree on every session before `date`. */
  ghost predicate AgreeBefore(a: BookByDate, b: BookByDate, date: Date) {
    forall d :: d < date ==> (d in a <==> d in b) && (d in a ==> a[d] == b[d])
  }

  function UpTo(frame: seq<Bar>, date: Date): seq<Bar> {
    if frame == [] then []
    else if frame[0].date <= date then [frame[0]] + UpTo(frame[1..], date)
    else UpTo(frame[1..], date)
  }

  lemma SortedSplits(frame: seq<Bar>, date: Date)
    requires Sorted(frame)
    ensures frame == UpTo(frame, date) + After(frame, date)
  {
    if frame == [] {
    } else {
      SortedSplits(frame[1..], date);
      if frame[0].date > date {
        AllAfter(frame[1..], date);
      }
    }
  }

  lemma AllAfter(frame: seq<Bar>, date: Date)
    requires forall i :: 0 <= i < |frame| ==> frame[i].date > date
    ensures UpTo(frame, date) == [] && After(frame, date) == frame
  {
  }

  lemma AfterConcat(a: seq<Bar>, b: seq<Bar>, date: Date)
    ensures After(a + b, date) == After(a, date) + After(b, date)
  {
    if a == [] {
      assert a + b == b;
    } else {
      AfterConcat(a[1..], b, date);
      assert (a + b)[1..] == a[1..] + b;
    }
  }

  lemma AfterFacts(frame: seq<Bar>, date: Date)
    ensures forall i :: 0 <= i < |After(frame, date)| ==> After(frame, date)[i].date > date
    ensures Sorted(frame) ==> Sorted(After(frame, date))
    ensures forall i :: 0 <= i < |After(frame, date)| ==> After(frame, date)[i] in frame
  {
    if frame == [] {
    } else {
      AfterFacts(frame[1..], date);
    }
  }

  lemma BarOnConcat(a: seq<Bar>, b: seq<Bar>, date: Date)
    requires forall i :: 0 <= i < |b| ==> b[i].date > date
    ensures BarOn(a + b, date) == BarOn(a, date)
  {
    if a == [] {
      assert a + b == b;
      if b != [] {
        BarOnConcat([], b[1..], date);
        assert [] + b[1..] == b[1..];
      }
    } else {
      BarOnConcat(a[1..], b, date);
      assert (a + b)[1..] == a[1..] + b;
    }
  }

  /** A bar consults only sessions strictly before it. */
  lemma DecidedEarlier(trade: Trade, walk: seq<Bar>, i: nat)
    requires i < |walk| && Sorted(walk) && trade.entryDate < walk[0].date
    ensures trade.DecidedBefore(walk, i) < walk[i].date
  {
  }

  ghost predicate SharePrefix(a: seq<Bar>, b: seq<Bar>, n: nat) {
    n <= |a| && n <= |b| && forall j :: 0 <= j < n ==> a[j] == b[j]
  }

  lemma DecidedAgrees(trade: Trade, other: Trade, a: seq<Bar>, b: seq<Bar>, n: nat)
    requires SharePrefix(a, b, n) && other.entryDate == trade.entryDate
    ensures trade.DecidedBefore(a, n) == other.DecidedBefore(b, n)
  {
  }

  lemma ExcursionsAgree(trade: Trade, other: Trade, a: seq<Bar>, b: seq<Bar>, n: nat)
    requires SharePrefix(a, b, n) && other.entryPrice == trade.entryPrice > 0.0
    ensures trade.Mae(a, n) == other.Mae(b, n) && trade.Mfe(a, n) == other.Mfe(b, n)
  {
  }

  lemma {:induction false} FiresAgrees(trade: Trade, book: BookByDate, a: seq<Bar>, b: seq<Bar>, i: nat)
    requires SharePrefix(a, b, i + 1) && Sorted(a) && trade.entryDate < a[0].date
    requires AgreeBefore(trade.book, book, a[i].date)
    ensures trade.Fires(a, i) == trade.(book := book).Fires(b, i)
  {
    DecidedEarlier(trade, a, i);
    DecidedAgrees(trade, trade.(book := book), a, b, i);
  }

  lemma {:induction false} RecordAgrees(trade: Trade, other: Trade, a: seq<Bar>, b: seq<Bar>, n: nat,
                                        kind: ExitKind, price: Option<real>, circuit: bool, factor: real)
    requires trade.entryPrice > 0.0 && other == trade.(book := other.book)
    requires 0 < n && SharePrefix(a, b, n)
    ensures trade.Record(a, n, kind, price, circuit, factor) == other.Record(b, n, kind, price, circuit, factor)
  {
    ExcursionsAgree(trade, other, a, b, n);
    assert trade.Touched(a, trade.t1, n) == other.Touched(b, trade.t1, n);
    assert trade.Touched(a, trade.t2, n) == other.Touched(b, trade.t2, n);
  }

  lemma BreachAgrees(trade: Trade, other: Trade, a: seq<Bar>, b: seq<Bar>, n: nat)
    requires other == trade.(book := other.book) && SharePrefix(a, b, n)
    ensures trade.BreachedWhileLocked(a, n) == other.BreachedWhileLocked(b, n)
  {
  }

  lemma {:induction false} SameFirstExit(trade: Trade, other: Trade, a: seq<Bar>, b: seq<Bar>, n: nat)
    requires other == trade.(book := other.book)
    requires 0 < n && SharePrefix(a, b, n) && Sorted(a) && trade.entryDate < a[0].date
    requires AgreeBefore(trade.book, other.book, a[n - 1].date)
    requires trade.FirstExit(a, 0) == n - 1 || (trade.FirstExit(a, 0) == |a| == |b| == n)
    ensures other.FirstExit(b, 0) == trade.FirstExit(a, 0)
  {
    forall j | 0 <= j < n
      ensures trade.Fires(a, j) == other.Fires(b, j)
    {
      assert j < n - 1 ==> a[j].date < a[n - 1].date;
      FiresAgrees(trade, other.book, a, b, j);
    }
    FirstExitIs(other, b, trade.FirstExit(a, 0), 0);
  }

  lemma {:induction false} FiredEndingIsLocal(trade: Trade, other: Trade, a: seq<Bar>, b: seq<Bar>,
                                              maxHold: nat, factor: real, k: nat)
    requires trade.entryPrice > 0.0 && other == trade.(book := other.book)
    requires k < |a| && k < |b| && trade.FirstExit(a, 0) == other.FirstExit(b, 0) == k
    requires SharePrefix(a, b, k + 1)
    ensures other.Ending(b, maxHold, factor) == trade.Ending(a, maxHold, factor)
  {
    var (kind, price) := trade.FillAt(a[k]);
    var circuit := trade.BreachedWhileLocked(a, k);
    BreachAgrees(trade, other, a, b, k);
    RecordAgrees(trade, other, a, b, k + 1, kind, price, circuit, factor);
  }

  lemma {:induction false} ElapsedEndingIsLocal(trade: Trade, other: Trade, a: seq<Bar>, b: seq<Bar>,
                                                maxHold: nat, factor: real)
    requires trade.entryPrice > 0.0 && other == trade.(book := other.book) && a == b && a != []
    requires trade.FirstExit(a, 0) == other.FirstExit(b, 0) == |a|
    ensures other.Ending(b, maxHold, factor) == trade.Ending(a, maxHold, factor)
  {
    var close := Some(a[|a| - 1].close);
    BreachAgrees(trade, other, a, b, |a|);
    RecordAgrees(trade, other, a, b, |a|, StopUnfilledCircuit, close, false, factor);
    RecordAgrees(trade, other, a, b, |a|, TimeExit, close, false, factor);
  }

  /** The ending of a walk depends on nothing past its exit bar. */
  lemma {:induction false} EndingIsLocal(trade: Trade, other: Trade, a: seq<Bar>, b: seq<Bar>,
                                         maxHold: nat, factor: real)
    requires trade.entryPrice > 0.0 && trade.Ending(a, maxHold, factor).Closed?
    requires other == trade.(book := other.book)
    requires Sorted(a) && (a != [] ==> trade.entryDate < a[0].date)
    requires |a| <= maxHold && |b| <= maxHold
    requires var o := trade.Ending(a, maxHold, factor).outcome;
             SharePrefix(a, b, o.held) && AgreeBefore(trade.book, other.book, o.exitDate)
    ensures other.Ending(b, maxHold, factor) == trade.Ending(a, maxHold, factor)
  {
    var k := trade.FirstExit(a, 0);
    if k < |a| {
      assert trade.Ending(a, maxHold, factor).outcome.held == k + 1;
      SameFirstExit(trade, other, a, b, k + 1);
      FiredEndingIsLocal(trade, other, a, b, maxHold, factor, k);
    } else {
      assert trade.Ending(a, maxHold, factor).outcome.held == |a| == |b|;
      SameFirstExit(trade, other, a, b, |a|);
      assert a == b;
      ElapsedEndingIsLocal(trade, other, a, b, maxHold, factor);
    }
  }

  /** The bars after the signal, up to the exit, are common to two histories
      that agree up to the exit. */
  lemma {:induction false} SameFuture(a: seq<Bar>, b: seq<Bar>, signal: Date, exit: Date, n: nat)
    requires Sorted(a) && Sorted(b) && signal < exit && UpTo(a, exit) == UpTo(b, exit)
    requires n < |After(a, signal)| && After(a, signal)[n].date == exit
    ensures SharePrefix(After(a, signal), After(b, signal), n + 1)
    ensures BarOn(a, signal) == BarOn(b, signal)
  {
    var common := UpTo(a, exit);
    SortedSplits(a, exit);
    SortedSplits(b, exit);
    AfterFacts(a, exit);
    AfterFacts(b, exit);
    AfterConcat(common, After(a, exit), signal);
    AfterConcat(common, After(b, exit), signal);
    AfterFacts(After(a, exit), signal);
    BarOnConcat(common, After(a, exit), signal);
    BarOnConcat(common, After(b, exit), signal);
    var late := After(After(a, exit), signal);
    var early := After(common, signal);
    forall i | 0 <= i < |late| ensures late[i].date > exit {
      assert late[i] in After(a, exit);
    }
    assert n < |early|;
  }

  /** The parts of a closed resolution. */
  lemma {:induction false} ClosedParts(sig: Signal, frame: seq<Bar>, maxHold: nat, book: BookByDate, useTarget: bool)
    returns (future: seq<Bar>, factor: real, trade: Trade, walk: seq<Bar>)
    requires Sorted(frame) && Resolve(sig, frame, maxHold, book, useTarget).Closed?
    ensures future == After(frame, sig.date) && Sorted(future) && future != []
    ensures future[0].open.Some? && future[0].open.value > 0.0
    ensures BasisFactor(sig.lastClose, frame, sig.date) == Some(factor)
    ensures trade == TradeOf(sig, future[0], factor, useTarget, book)
    ensures walk == Take(future[1..], maxHold) && Sorted(walk) && |walk| <= maxHold
    ensures walk != [] ==> trade.entryDate < walk[0].date
    ensures Resolve(sig, frame, maxHold, book, useTarget) == trade.Ending(walk, maxHold, factor)
    ensures var o := Resolve(sig, frame, maxHold, book, useTarget).outcome;
            0 < o.held <= |walk| && future[o.held].date == o.exitDate > sig.date
    ensures forall i :: 0 <= i < |future| ==> future[i] in frame
  {
    future := After(frame, sig.date);
    factor := BasisFactor(sig.lastClose, frame, sig.date).value;
    trade := TradeOf(sig, future[0], factor, useTarget, book);
    walk := Take(future[1..], maxHold);
    AfterFacts(frame, sig.date);
    ExitBar(trade, walk, maxHold, factor);
  }

  // ---- what is read of a history ---------------------------------------------------

  /** The bars of `from` and later, as a store that is asked from `from` on returns them. */
  function From(frame: seq<Bar>, from: Date): seq<Bar> {
    if frame == [] then []
    else if frame[0].date >= from then [frame[0]] + From(frame[1..], from)
    else From(frame[1..], from)
  }

  lemma {:induction false} FromFacts(frame: seq<Bar>, from: Date)
    ensures forall i :: 0 <= i < |From(frame, from)| ==> From(frame, from)[i] in frame
    ensures Sorted(frame) ==> Sorted(From(frame, from))
  {
    if frame == [] {
    } else {
      FromFacts(frame[1..], from);
    }
  }

  lemma {:induction false} FromKeepsTheFuture(frame: seq<Bar>, from: Date, date: Date)
    requires from <= date
    ensures After(From(frame, from), date) == After(frame, date)
    ensures BarOn(From(frame, from), date) == BarOn(frame, date)
  {
    if frame == [] {
    } else {
      FromKeepsTheFuture(frame[1..], from, date);
      if frame[0].date >= from {
        assert ([frame[0]] + From(frame[1..], from))[1..] == From(frame[1..], from);
      }
    }
  }

  /** Bars before the signal session play no part: however far back the history is read,
      the answer is the same. */
  lemma {:induction false} EarlierBarsDoNotMatter(sig: Signal, frame: seq<Bar>, from: Date, maxHold: nat,
                                                  book: BookByDate, useTarget: bool)
    requires from <= sig.date
    ensures Resolve(sig, From(frame, from), maxHold, book, useTarget) == Resolve(sig, frame, maxHold, book, useTarget)
  {
    FromKeepsTheFuture(frame, from, sig.date);
  }

  lemma {:induction false} LookAheadOfFrames(sig: Signal, a: seq<Bar>, b: seq<Bar>, maxHold: nat,
                                             bookA: BookByDate, bookB: BookByDate, useTarget: bool)
    requires Sorted(a) && Sorted(b)
    requires Resolve(sig, a, maxHold, bookA, useTarget).Closed?
    requires var o := Resolve(sig, a, maxHold, bookA, useTarget).outcome;
             UpTo(a, o.exitDate) == UpTo(b, o.exitDate) && AgreeBefore(bookA, bookB, o.exitDate)
    ensures Resolve(sig, b, maxHold, bookB, useTarget) == Resolve(sig, a, maxHold, bookA, useTarget)
  {
    var futureA, factor, trade, walkA := ClosedParts(sig, a, maxHold, bookA, useTarget);
    var o := trade.Ending(walkA, maxHold, factor).outcome;
    var futureB := After(b, sig.date);
    SameFuture(a, b, sig.date, o.exitDate, o.held);
    var walkB := Take(futureB[1..], maxHold);
    assert SharePrefix(walkA, walkB, o.held);
    EndingIsLocal(trade, trade.(book := bookB), walkA, walkB, maxHold, factor);
  }

  /** No look-ahead: two histories that agree from the signal session to the exit session,
      and two books that agree before the exit, give the same answer. Reading further back,
      extending a history by later sessions and cutting it off at the exit are all cases. */
  lemma {:induction false} NoLookAhead(sig: Signal, a: seq<Bar>, b: seq<Bar>, maxHold: nat,
                                       bookA: BookByDate, bookB: BookByDate, useTarget: bool)
    requires Sorted(a) && Sorted(b)
    requires Resolve(sig, a, maxHold, bookA, useTarget).Closed?
    requires var o := Resolve(sig, a, maxHold, bookA, useTarget).outcome;
             && UpTo(From(a, sig.date), o.exitDate) == UpTo(From(b, sig.date), o.exitDate)
             && AgreeBefore(bookA, bookB, o.exitDate)
    ensures Resolve(sig, b, maxHold, bookB, useTarget) == Resolve(sig, a, maxHold, bookA, useTarget)
  {
    FromFacts(a, sig.date);
    FromFacts(b, sig.date);
    EarlierBarsDoNotMatter(sig, a, sig.date, maxHold, bookA, useTarget);
    EarlierBarsDoNotMatter(sig, b, sig.date, maxHold, bookB, useTarget);
    LookAheadOfFrames(sig, From(a, sig.date), From(b, sig.date), maxHold, bookA, bookB, useTarget);
  }

  /** A refusal is final too: later sessions cannot supply the missing basis. */
  lemma {:induction false} RefusalIsFinal(sig: Signal, frame: seq<Bar>, later: seq<Bar>, maxHold: nat,
                                          bookA: BookByDate, bookB: BookByDate, useTarget: bool)
    requires Sorted(frame + later)
    requires Resolve(sig, frame, maxHold, bookA, useTarget) == Refused
    ensures Resolve(sig, frame + later, maxHold, bookB, useTarget) == Refused
  {
    AfterFacts(frame, sig.date);
    AfterConcat(frame, later, sig.date);
    var entry := After(frame, sig.date)[0];
    var i :| 0 <= i < |frame| && frame[i] == entry;
    forall j | 0 <= j < |later| ensures later[j].date > sig.date {
      assert (frame + later)[i].date < (frame + later)[|frame| + j].date;
    }
    BarOnConcat(frame, later, sig.date);
  }

  /** The case a resolving service meets: sessions are only appended, and no run recorded since
      is about a session before the exit. A refusal does not even depend on the runs. */
  lemma {:induction false} AppendingChangesNothing(sig: Signal, frame: seq<Bar>, later: seq<Bar>, maxHold: nat,
                                                   bookA: BookByDate, bookB: BookByDate, useTarget: bool)
    requires Sorted(frame + later)
    requires var r := Resolve(sig, frame, maxHold, bookA, useTarget);
             r != StillOpen && (r.Closed? ==> AgreeBefore(bookA, bookB, r.outcome.exitDate))
    ensures Resolve(sig, frame + later, maxHold, bookB, useTarget) == Resolve(sig, frame, maxHold, bookA, useTarget)
  {
    var r := Resolve(sig, frame, maxHold, bookA, useTarget);
    if r == Refused {
      RefusalIsFinal(sig, frame, later, maxHold, bookA, bookB, useTarget);
    } else {
      assert Sorted(frame) by {
        forall x, y | 0 <= x < y < |frame| ensures frame[x].date < frame[y].date {
          assert (frame + later)[x].date < (frame + later)[y].date;
        }
      }
      var o := r.outcome;
      var future, _, _, _ := ClosedParts(sig, frame, maxHold, bookA, useTarget);
      var i :| 0 <= i < |frame| && frame[i] == future[o.held];
      forall j | 0 <= j < |later| ensures later[j].date > o.exitDate {
        assert (frame + later)[i].date < (frame + later)[|frame| + j].date;
      }
      UpToConcat(frame, later, o.exitDate);
      LookAheadOfFrames(sig, frame, frame + later, maxHold, bookA, bookB, useTarget);
    }
  }

  /** The same from the signal session on, whatever either reading holds before it. */
  lemma {:induction false} LaterReadingsAgree(sig: Signal, a: seq<Bar>, b: seq<Bar>, later: seq<Bar>, maxHold: nat,
                                              bookA: BookByDate, bookB: BookByDate, useTarget: bool)
    requires Sorted(a) && Sorted(b) && From(b, sig.date) == From(a, sig.date) + later
    requires var r := Resolve(sig, a, maxHold, bookA, useTarget);
             r != StillOpen && (r.Closed? ==> AgreeBefore(bookA, bookB, r.outcome.exitDate))
    ensures Resolve(sig, b, maxHold, bookB, useTarget) == Resolve(sig, a, maxHold, bookA, useTarget)
  {
    FromFacts(a, sig.date);
    FromFacts(b, sig.date);
    EarlierBarsDoNotMatter(sig, a, sig.date, maxHold, bookA, useTarget);
    EarlierBarsDoNotMatter(sig, b, sig.date, maxHold, bookB, useTarget);
    AppendingChangesNothing(sig, From(a, sig.date), later, maxHold, bookA, bookB, useTarget);
  }

  lemma UpToConcat(a: seq<Bar>, b: seq<Bar>, date: Date)
    requires forall i :: 0 <= i < |b| ==> b[i].date > date
    ensures UpTo(a + b, date) == UpTo(a, date)
  {
    if a == [] {
      AllAfter(b, date);
      assert a + b == b;
    } else {
      UpToConcat(a[1..], b, date);
      assert (a + b)[1..] == a[1..] + b;
    }
  }

  // ---- the whole resolution, said of the history ------------------------------------------

  /** The first session after the signal: the trade enters at its open. */
  ghost predicate EntryAt(frame: seq<Bar>, date: Date, e: nat) {
    e < |frame| && frame[e].date > date && forall i :: 0 <= i < e ==> frame[i].date <= date
  }

  /** The stored bar of the signal session, if its close and the recorded one can be reconciled. */
  ghost predicate BasisAt(sig: Signal, frame: seq<Bar>, b: nat) {
    && b < |frame| && frame[b].date == sig.date
    && sig.lastClose.Some? && sig.lastClose.value > 0.0 && frame[b].close > 0.0
    && 0.001 <= Div(frame[b].close, sig.lastClose.value) <= 1000.0
  }

  /** A recorded level in the stored basis; zero stands for no level. */
  ghost function CarriedLevel(level: Option<real>, factor: real): Option<real> {
    match level
    case None => None
    case Some(value) => if value == 0.0 then None else Some(Mul(value, factor))
  }

  ghost function NearLevel(sig: Signal, factor: real): Option<real> { CarriedLevel(sig.target1, factor) }

  /** A second target that is missing is the first one. */
  ghost function FarLevel(sig: Signal, factor: real): Option<real> {
    if sig.target2.None? || sig.target2.value == 0.0 then NearLevel(sig, factor)
    else CarriedLevel(sig.target2, factor)
  }

  ghost predicate IsTradeOf(trade: Trade, sig: Signal, entry: Bar, factor: real, useTarget: bool, book: BookByDate) {
    && trade.ticker == sig.ticker && trade.entryDate == entry.date && entry.open == Some(trade.entryPrice)
    && trade.stop == Mul(sig.stop, factor) && trade.t1 == NearLevel(sig, factor) && trade.t2 == FarLevel(sig, factor)
    && trade.useTarget == useTarget && trade.book == book
  }

  lemma {:induction false} AfterIsTheRest(frame: seq<Bar>, date: Date, e: nat)
    requires Sorted(frame) && EntryAt(frame, date, e)
    ensures After(frame, date) == frame[e..]
  {
    if e == 0 {
      forall i | 0 <= i < |frame| ensures frame[i].date > date {
        assert i > 0 ==> frame[0].date < frame[i].date;
      }
      AllAfter(frame, date);
    } else {
      assert frame[0].date <= date;
      AfterIsTheRest(frame[1..], date, e - 1);
    }
  }

  lemma {:induction false} NothingAfter(frame: seq<Bar>, date: Date)
    requires forall i :: 0 <= i < |frame| ==> frame[i].date <= date
    ensures After(frame, date) == []
  {
    if frame == [] {
    } else {
      NothingAfter(frame[1..], date);
    }
  }

  lemma {:induction false} BarOnIs(frame: seq<Bar>, date: Date)
    requires Sorted(frame)
    ensures BarOn(frame, date).None? ==> forall i :: 0 <= i < |frame| ==> frame[i].date != date
    ensures BarOn(frame, date).Some? ==>
              exists i :: 0 <= i < |frame| && frame[i] == BarOn(frame, date).value && frame[i].date == date
    ensures forall i :: 0 <= i < |frame| && frame[i].date == date ==> BarOn(frame, date) == Some(frame[i])
  {
    if frame == [] {
    } else {
      BarOnIs(frame[1..], date);
      forall i | 0 <= i < |frame| && frame[i].date == date ensures BarOn(frame, date) == Some(frame[i]) {
        assert i > 0 ==> frame[0].date < frame[i].date && frame[1..][i - 1] == frame[i];
      }
      if frame[0].date != date && BarOn(frame, date).Some? {
        var i :| 0 <= i < |frame| - 1 && frame[1..][i] == BarOn(frame, date).value;
        assert frame[i + 1] == BarOn(frame, date).value;
      }
    }
  }

  lemma {:induction false} BasisMeans(sig: Signal, frame: seq<Bar>)
    requires Sorted(frame)
    ensures BasisFactor(sig.lastClose, frame, sig.date).Some? <==> exists b: nat :: BasisAt(sig, frame, b)
    ensures forall b: nat :: BasisAt(sig, frame, b) ==>
              BasisFactor(sig.lastClose, frame, sig.date) == Some(Div(frame[b].close, sig.lastClose.value))
  {
    BarOnIs(frame, sig.date);
    if BasisFactor(sig.lastClose, frame, sig.date).Some? {
      var b :| 0 <= b < |frame| && frame[b] == BarOn(frame, sig.date).value && frame[b].date == sig.date;
      assert BasisAt(sig, frame, b);
    }
  }

  /** The whole resolution, said of the stored history. Without a session after the signal, or an
      open on the first, it is still open; without a basis it is refused; otherwise the levels are
      carried over by the basis and the bars after the entry, up to the longest hold, are walked. */
  lemma {:induction false} ResolveMeans(sig: Signal, frame: seq<Bar>, maxHold: nat, book: BookByDate, useTarget: bool)
    requires Sorted(frame)
    ensures var r := Resolve(sig, frame, maxHold, book, useTarget);
            && ((forall i :: 0 <= i < |frame| ==> frame[i].date <= sig.date) ==> r == StillOpen)
            && forall e: nat :: EntryAt(frame, sig.date, e) ==>
                 if frame[e].open.None? || frame[e].open.value <= 0.0 then r == StillOpen
                 else if forall b: nat :: !BasisAt(sig, frame, b) then r == Refused
                 else
                   exists trade: Trade, b: nat ::
                     && BasisAt(sig, frame, b)
                     && var factor := Div(frame[b].close, sig.lastClose.value);
                        && IsTradeOf(trade, sig, frame[e], factor, useTarget, book)
                        && r == trade.Ending(Take(frame[e + 1..], maxHold), maxHold, factor)
  {
    if forall i :: 0 <= i < |frame| ==> frame[i].date <= sig.date {
      NothingAfter(frame, sig.date);
    }
    BasisMeans(sig, frame);
    forall e: nat
      | EntryAt(frame, sig.date, e) && frame[e].open.Some? && frame[e].open.value > 0.0
        && exists b: nat :: BasisAt(sig, frame, b)
      ensures exists trade: Trade, b: nat ::
                && BasisAt(sig, frame, b)
                && var factor := Div(frame[b].close, sig.lastClose.value);
                   && IsTradeOf(trade, sig, frame[e], factor, useTarget, book)
                   && Resolve(sig, frame, maxHold, book, useTarget)
                      == trade.Ending(Take(frame[e + 1..], maxHold), maxHold, factor)
    {
      AfterIsTheRest(frame, sig.date, e);
      var b: nat :| BasisAt(sig, frame, b);
      var factor := Div(frame[b].close, sig.lastClose.value);
      assert frame[e..][1..] == frame[e + 1..];
      assert IsTradeOf(TradeOf(sig, frame[e], factor, useTarget, book), sig, frame[e], factor, useTarget, book);
    }
    forall e: nat | EntryAt(frame, sig.date, e) ensures After(frame, sig.date) == frame[e..] {
      AfterIsTheRest(frame, sig.date, e);
    }
  }
}
