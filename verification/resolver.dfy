/** How one recorded signal ended (`_resolve_one` in outcomes.py). */
module Resolver {
  import opened Common
  import opened Circuit

  type Ticker = string
  type Date = int

  /** The names signalled on each date that has a completed run. */
  type BookByDate = map<Date, set<Ticker>>

  datatype Signal = Signal(
    ticker: Ticker,
    date: Date,
    stop: real,
    target1: Option<real>,
    target2: Option<real>,
    lastClose: Option<real>)

  datatype ExitKind = Stop | StopGap | Target | BookExit | TimeExit | StopUnfilledCircuit

  datatype Outcome = Outcome(
    entryDate: Date,
    entryPrice: real,
    exitDate: Date,
    exitPrice: Option<real>,
    kind: ExitKind,
    afterCircuit: bool,
    held: nat,
    gross: Option<real>,
    mae: real,
    mfe: real,
    touched1: bool,
    touched2: bool,
    factor: real)

  datatype Resolution = StillOpen | Refused | Closed(outcome: Outcome)

  // ---- price basis -----------------------------------------------------------

  const BASIS_MIN := 0.001
  const BASIS_MAX := 1000.0

  predicate Reconcilable(factor: real) {
    BASIS_MIN <= factor <= BASIS_MAX
  }

  function BarOn(frame: seq<Bar>, date: Date): Option<Bar> {
    if frame == [] then None
    else if frame[0].date == date then Some(frame[0])
    else BarOn(frame[1..], date)
  }

  /** Stored over recorded close of the signal session, if both make sense. */
  function RawBasis(lastClose: Option<real>, frame: seq<Bar>, date: Date): Option<real> {
    if lastClose.None? || lastClose.value <= 0.0 then None
    else
      var row := BarOn(frame, date);
      if row.None? || row.value.close <= 0.0 then None
      else Some(Div(row.value.close, lastClose.value))
  }

  function BasisFactor(lastClose: Option<real>, frame: seq<Bar>, date: Date): Option<real> {
    var factor := RawBasis(lastClose, frame, date);
    if factor.Some? && Reconcilable(factor.value) then factor else None
  }

  // ---- the trade being walked ------------------------------------------------

  /** A level of zero is recorded as "no level". */
  function Rebased(level: Option<real>, factor: real): Option<real> {
    if level.Some? && level.value != 0.0 then Some(Mul(level.value, factor)) else None
  }

  predicate ClosedByEngine(book: BookByDate, date: Date, ticker: Ticker) {
    date in book && ticker !in book[date]
  }

  predicate Reaches(bar: Bar, level: Option<real>) {
    level.Some? && bar.high >= level.value
  }

  datatype Trade = Trade(
    ticker: Ticker,
    entryDate: Date,
    entryPrice: real,
    stop: real,
    t1: Option<real>,
    t2: Option<real>,
    useTarget: bool,
    book: BookByDate)
  {
    predicate StopHit(bar: Bar) { bar.low <= stop }

    predicate TargetHit(bar: Bar) { useTarget && Reaches(bar, t2) }

    /** The date whose book decides an engine exit at bar `i`: that of the tradable bar before
        it, or of the entry when there is none. */
    function DecidedBefore(walk: seq<Bar>, i: nat): Date
      requires i <= |walk|
    {
      if i == 0 then entryDate
      else if !Untradeable(walk[i - 1]) then walk[i - 1].date
      else DecidedBefore(walk, i - 1)
    }

    predicate Fires(walk: seq<Bar>, i: nat)
      requires i < |walk|
    {
      && !Untradeable(walk[i])
      && (StopHit(walk[i]) || TargetHit(walk[i]) || ClosedByEngine(book, DecidedBefore(walk, i), ticker))
    }

    /** The first bar that ends the trade, or the length of the walk. */
    function FirstExit(walk: seq<Bar>, from: nat): (k: nat)
      requires from <= |walk|
      ensures from <= k <= |walk|
      ensures k < |walk| ==> Fires(walk, k)
      ensures forall j :: from <= j < k ==> !Fires(walk, j)
      decreases |walk| - from
    {
      if from == |walk| || Fires(walk, from) then from else FirstExit(walk, from + 1)
    }

    /** A locked session that breached the stop and could not be filled. */
    predicate LockedBreach(bar: Bar) { Untradeable(bar) && StopHit(bar) }

    predicate BreachedWhileLocked(walk: seq<Bar>, n: nat)
      requires n <= |walk|
    {
      exists j :: 0 <= j < n && LockedBreach(walk[j])
    }

    predicate Touched(walk: seq<Bar>, level: Option<real>, n: nat)
      requires n <= |walk|
    {
      exists j :: 0 <= j < n && !Untradeable(walk[j]) && Reaches(walk[j], level)
    }

    function Excursion(price: real): real
      requires entryPrice > 0.0
    {
      Div(price - entryPrice, entryPrice)
    }

    /** The worst and the best excursion over the first `n` bars. */
    function Mae(walk: seq<Bar>, n: nat): real
      requires entryPrice > 0.0 && n <= |walk|
    {
      if n == 0 then 0.0 else Min(Mae(walk, n - 1), Excursion(walk[n - 1].low))
    }

    function Mfe(walk: seq<Bar>, n: nat): real
      requires entryPrice > 0.0 && n <= |walk|
    {
      if n == 0 then 0.0 else Max(Mfe(walk, n - 1), Excursion(walk[n - 1].high))
    }

    /** Why bar `k` ends the trade, and the price it fills at. */
    function FillAt(bar: Bar): (ExitKind, Option<real>) {
      if StopHit(bar) then
        if bar.open.Some? && bar.open.value < stop then (StopGap, bar.open) else (Stop, Some(stop))
      else if TargetHit(bar) then (Target, t2)
      else (BookExit, bar.open)
    }

    function Gross(exitPrice: Option<real>): Option<real>
      requires entryPrice > 0.0
    {
      if exitPrice.Some? then Some(Div(exitPrice.value, entryPrice) - 1.0) else None
    }

    function Record(walk: seq<Bar>, n: nat, kind: ExitKind, price: Option<real>, circuit: bool, factor: real): Outcome
      requires entryPrice > 0.0 && 0 < n <= |walk|
    {
      Outcome(entryDate, entryPrice, walk[n - 1].date, price, kind, circuit, n, Gross(price),
              Mae(walk, n), Mfe(walk, n), Touched(walk, t1, n), Touched(walk, t2, n), factor)
    }

    /** The declarative reading of the walk: the first bar that fires, else the
        close of a window that has fully elapsed, else still open. */
    function Ending(walk: seq<Bar>, maxHold: nat, factor: real): Resolution
      requires entryPrice > 0.0
    {
      var k := FirstExit(walk, 0);
      if k < |walk| then
        var (kind, price) := FillAt(walk[k]);
        Closed(Record(walk, k + 1, kind, price, BreachedWhileLocked(walk, k), factor))
      else if walk == [] || |walk| < maxHold then StillOpen
      else
        var close := Some(walk[k - 1].close);
        if BreachedWhileLocked(walk, k) then Closed(Record(walk, k, StopUnfilledCircuit, close, false, factor))
        else Closed(Record(walk, k, TimeExit, close, false, factor))
    }
  }

  /** The bars after the signal session: the first is the entry bar. */
  function After(frame: seq<Bar>, date: Date): seq<Bar> {
    if frame == [] then []
    else if frame[0].date > date then [frame[0]] + After(frame[1..], date)
    else After(frame[1..], date)
  }

  function TradeOf(sig: Signal, entry: Bar, factor: real, useTarget: bool, book: BookByDate): (t: Trade)
    requires entry.open.Some?
    ensures t.entryPrice == entry.open.value
  {
    var t1 := Rebased(sig.target1, factor);
    var t2 := if sig.target2.Some? && sig.target2.value != 0.0 then Rebased(sig.target2, factor) else t1;
    Trade(sig.ticker, entry.date, entry.open.value, Mul(sig.stop, factor), t1, t2, useTarget, book)
  }

  function Resolve(sig: Signal, frame: seq<Bar>, maxHold: nat, book: BookByDate, useTarget: bool): Resolution {
    var future := After(frame, sig.date);
    if future == [] then StillOpen
    else
      var entry := future[0];
      if entry.open.None? || entry.open.value <= 0.0 then StillOpen
      else
        var factor := BasisFactor(sig.lastClose, frame, sig.date);
        if factor.None? then Refused
        else TradeOf(sig, entry, factor.value, useTarget, book)
             .Ending(Take(future[1..], maxHold), maxHold, factor.value)
  }

  // ---- the loop --------------------------------------------------------------

  /** The bar-by-bar loop of `_resolve_one`. */
  method Walk(trade: Trade, walk: seq<Bar>, maxHold: nat, factor: real) returns (r: Resolution)
    requires trade.entryPrice > 0.0
    ensures r == trade.Ending(walk, maxHold, factor)
  {
    var entryPrice := trade.entryPrice;
    var mae, mfe := 0.0, 0.0;
    var touched1, touched2 := false, false;
    var decidedOn := trade.entryDate;
    var unfilled := 0;
    var held := 0;
    while held < |walk|
      invariant held <= |walk|
      invariant mae == trade.Mae(walk, held) && mfe == trade.Mfe(walk, held)
      invariant touched1 == trade.Touched(walk, trade.t1, held)
      invariant touched2 == trade.Touched(walk, trade.t2, held)
      invariant decidedOn == trade.DecidedBefore(walk, held)
      invariant 0 <= unfilled && (unfilled > 0 <==> trade.BreachedWhileLocked(walk, held))
      invariant forall j :: 0 <= j < held ==> !trade.Fires(walk, j)
    {
      var bar := walk[held];
      held := held + 1;
      mae := Min(mae, Div(bar.low - entryPrice, entryPrice));
      mfe := Max(mfe, Div(bar.high - entryPrice, entryPrice));
      if Untradeable(bar) {
        if bar.low <= trade.stop {
          assert trade.LockedBreach(walk[held - 1]);
          unfilled := unfilled + 1;
        }
        continue;
      }
      touched1 := touched1 || Reaches(bar, trade.t1);
      touched2 := touched2 || Reaches(bar, trade.t2);
      var exit: Option<(ExitKind, Option<real>)> := None;
      if bar.low <= trade.stop {
        var price := if bar.open.Some? then Min(bar.open.value, trade.stop) else trade.stop;
        exit := Some((if price < trade.stop then StopGap else Stop, Some(price)));
      } else if trade.useTarget && trade.t2.Some? && bar.high >= trade.t2.value {
        exit := Some((Target, trade.t2));
      }
      if exit.None? && ClosedByEngine(trade.book, decidedOn, trade.ticker) {
        exit := Some((BookExit, bar.open));
      }
      if exit.Some? {
        FirstExitIs(trade, walk, held - 1, 0);
        return Closed(Outcome(trade.entryDate, entryPrice, bar.date, exit.value.1, exit.value.0, unfilled > 0,
                              held, trade.Gross(exit.value.1), mae, mfe, touched1, touched2, factor));
      }
      decidedOn := bar.date;
    }
    FirstExitIs(trade, walk, |walk|, 0);
    if walk == [] || |walk| < maxHold {
      return StillOpen;
    }
    var last := walk[|walk| - 1];
    var price := Some(last.close);
    return Closed(Outcome(trade.entryDate, entryPrice, last.date, price,
                          if unfilled > 0 then StopUnfilledCircuit else TimeExit, false,
                          held, trade.Gross(price), mae, mfe, touched1, touched2, factor));
  }

  lemma FirstExitIs(trade: Trade, walk: seq<Bar>, k: nat, from: nat)
    requires from <= k <= |walk|
    requires k < |walk| ==> trade.Fires(walk, k)
    requires forall j :: from <= j < k ==> !trade.Fires(walk, j)
    ensures trade.FirstExit(walk, from) == k
    decreases k - from
  {
    if from < k {
      FirstExitIs(trade, walk, k, from + 1);
    }
  }

  /** `_resolve_one`. */
  method ResolveOne(sig: Signal, frames: map<Ticker, seq<Bar>>, maxHold: nat, book: BookByDate, useTarget: bool)
    returns (r: Resolution)
    ensures r == if sig.ticker in frames then Resolve(sig, frames[sig.ticker], maxHold, book, useTarget)
                 else StillOpen
  {
    if sig.ticker !in frames {
      return StillOpen;
    }
    var frame := frames[sig.ticker];
    var future := After(frame, sig.date);
    if future == [] {
      return StillOpen;
    }
    var entry := future[0];
    if entry.open.None? || entry.open.value <= 0.0 {
      return StillOpen;
    }
    var factor := BasisFactor(sig.lastClose, frame, sig.date);
    if factor.None? {
      return Refused;
    }
    var trade := TradeOf(sig, entry, factor.value, useTarget, book);
    r := Walk(trade, Take(future[1..], maxHold), maxHold, factor.value);
  }
}
