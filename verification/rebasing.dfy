/** A corporate action re-bases the whole stored history. The recorded levels
    are carried into the new basis, so no decision and no return moves. */
module Rebasing {
  import opened Common
  import opened Circuit
  import opened Resolver

  function Scaled(p: Option<real>, c: real): Option<real> {
    if p.Some? then Some(Mul(p.value, c)) else None
  }

  function ScaleBar(bar: Bar, c: real): Bar {
    Bar(bar.date, Scaled(bar.open, c), Mul(bar.high, c), Mul(bar.low, c), Mul(bar.close, c),
        Scaled(bar.prevClose, c), bar.volume)
  }

  function ScaleFrame(frame: seq<Bar>, c: real): (scaled: seq<Bar>)
    ensures |scaled| == |frame|
    ensures forall i :: 0 <= i < |frame| ==> scaled[i] == ScaleBar(frame[i], c)
  {
    if frame == [] then [] else [ScaleBar(frame[0], c)] + ScaleFrame(frame[1..], c)
  }

  function ScaleTrade(t: Trade, c: real): Trade {
    Trade(t.ticker, t.entryDate, Mul(t.entryPrice, c), Mul(t.stop, c), Scaled(t.t1, c), Scaled(t.t2, c),
          t.useTarget, t.book)
  }

  /** The same outcome in the new basis: the four prices and the factor move,
      and nothing else does. */
  function ScaleResolution(r: Resolution, c: real): Resolution {
    if r.Closed? then
      Closed(r.outcome.(entryPrice := Mul(r.outcome.entryPrice, c),
                        exitPrice := Scaled(r.outcome.exitPrice, c),
                        factor := Mul(r.outcome.factor, c)))
    else r
  }

  // ---- arithmetic of one scale -------------------------------------------------

  lemma OrderKept(a: real, b: real, c: real)
    requires c > 0.0
    ensures a <= b <==> Mul(a, c) <= Mul(b, c)
    ensures a < b <==> Mul(a, c) < Mul(b, c)
  {
    if a < b {
      Grows(a, b, c);
    } else if b < a {
      Grows(b, a, c);
    }
  }

  lemma Grows(a: real, b: real, c: real)
    requires c > 0.0 && a < b
    ensures Mul(a, c) < Mul(b, c)
  {
  }

  lemma Positive(a: real, c: real)
    requires c > 0.0
    ensures a > 0.0 <==> Mul(a, c) > 0.0
  {
    OrderKept(0.0, a, c);
  }

  lemma Regroup(a: real, b: real, c: real)
    ensures Mul(Mul(a, b), c) == Mul(a, Mul(b, c)) == Mul(Mul(a, c), b)
  {
  }

  lemma Distributes(a: real, b: real, c: real)
    ensures Mul(a - b, c) == Mul(a, c) - Mul(b, c)
  {
  }

  lemma DivUnique(a: real, q: real, d: real)
    requires d != 0.0
    ensures Mul(Div(a, d), d) == a
    ensures a == Mul(q, d) ==> Div(a, d) == q
  {
  }

  lemma RatioKept(a: real, b: real, c: real)
    requires b > 0.0 && c > 0.0
    ensures Mul(b, c) > 0.0 && Div(Mul(a, c), Mul(b, c)) == Div(a, b)
  {
    Positive(b, c);
    DivUnique(a, Div(a, b), b);
    Regroup(Div(a, b), b, c);
    DivUnique(Mul(a, c), Div(a, b), Mul(b, c));
  }

  // ---- the parts of the resolver -----------------------------------------------

  lemma {:induction false} TradeabilityKept(bar: Bar, c: real)
    requires c > 0.0
    ensures Untradeable(ScaleBar(bar, c)) == Untradeable(bar)
  {
    UntradeableMeans(bar);
    UntradeableMeans(ScaleBar(bar, c));
    OrderKept(bar.high, bar.low, c);
  }

  lemma {:induction false} LevelsKept(t: Trade, bar: Bar, c: real)
    requires c > 0.0
    ensures ScaleTrade(t, c).StopHit(ScaleBar(bar, c)) == t.StopHit(bar)
    ensures Reaches(ScaleBar(bar, c), Scaled(t.t1, c)) == Reaches(bar, t.t1)
    ensures Reaches(ScaleBar(bar, c), Scaled(t.t2, c)) == Reaches(bar, t.t2)
  {
    OrderKept(bar.low, t.stop, c);
    if t.t1.Some? {
      OrderKept(t.t1.value, bar.high, c);
    }
    if t.t2.Some? {
      OrderKept(t.t2.value, bar.high, c);
    }
  }

  lemma {:induction false} DecidedKept(t: Trade, walk: seq<Bar>, i: nat, c: real)
    requires c > 0.0 && i <= |walk|
    ensures ScaleTrade(t, c).DecidedBefore(ScaleFrame(walk, c), i) == t.DecidedBefore(walk, i)
  {
    if i == 0 {
    } else {
      TradeabilityKept(walk[i - 1], c);
      DecidedKept(t, walk, i - 1, c);
    }
  }

  lemma {:induction false} FirstExitKept(t: Trade, walk: seq<Bar>, c: real)
    requires c > 0.0
    ensures ScaleTrade(t, c).FirstExit(ScaleFrame(walk, c), 0) == t.FirstExit(walk, 0)
  {
    var t', walk' := ScaleTrade(t, c), ScaleFrame(walk, c);
    forall i | 0 <= i < |walk| ensures t'.Fires(walk', i) == t.Fires(walk, i) {
      TradeabilityKept(walk[i], c);
      LevelsKept(t, walk[i], c);
      DecidedKept(t, walk, i, c);
    }
    FirstExitIs(t', walk', t.FirstExit(walk, 0), 0);
  }

  lemma {:induction false} FillKept(t: Trade, bar: Bar, c: real)
    requires c > 0.0
    ensures ScaleTrade(t, c).FillAt(ScaleBar(bar, c)) == (t.FillAt(bar).0, Scaled(t.FillAt(bar).1, c))
  {
    LevelsKept(t, bar, c);
    if bar.open.Some? {
      OrderKept(bar.open.value, t.stop, c);
    }
  }

  lemma {:induction false} ExcursionKept(t: Trade, price: real, c: real)
    requires c > 0.0 && t.entryPrice > 0.0
    ensures Mul(t.entryPrice, c) > 0.0
    ensures ScaleTrade(t, c).Excursion(Mul(price, c)) == t.Excursion(price)
  {
    RatioKept(price - t.entryPrice, t.entryPrice, c);
    Distributes(price, t.entryPrice, c);
  }

  lemma {:induction false} ExtremesKept(t: Trade, walk: seq<Bar>, n: nat, c: real)
    requires c > 0.0 && t.entryPrice > 0.0 && n <= |walk|
    ensures Mul(t.entryPrice, c) > 0.0
    ensures ScaleTrade(t, c).Mae(ScaleFrame(walk, c), n) == t.Mae(walk, n)
    ensures ScaleTrade(t, c).Mfe(ScaleFrame(walk, c), n) == t.Mfe(walk, n)
  {
    ExcursionKept(t, 0.0, c);
    if n == 0 {
    } else {
      ExtremesKept(t, walk, n - 1, c);
      ExcursionKept(t, walk[n - 1].low, c);
      ExcursionKept(t, walk[n - 1].high, c);
    }
  }

  lemma {:induction false} MilestonesKept(t: Trade, walk: seq<Bar>, n: nat, c: real)
    requires c > 0.0 && n <= |walk|
    ensures ScaleTrade(t, c).Touched(ScaleFrame(walk, c), Scaled(t.t1, c), n) == t.Touched(walk, t.t1, n)
    ensures ScaleTrade(t, c).Touched(ScaleFrame(walk, c), Scaled(t.t2, c), n) == t.Touched(walk, t.t2, n)
    ensures ScaleTrade(t, c).BreachedWhileLocked(ScaleFrame(walk, c), n) == t.BreachedWhileLocked(walk, n)
  {
    var t', walk' := ScaleTrade(t, c), ScaleFrame(walk, c);
    forall i | 0 <= i < n
      ensures Untradeable(walk'[i]) == Untradeable(walk[i])
      ensures Reaches(walk'[i], t'.t1) == Reaches(walk[i], t.t1)
      ensures Reaches(walk'[i], t'.t2) == Reaches(walk[i], t.t2)
      ensures t'.LockedBreach(walk'[i]) == t.LockedBreach(walk[i])
    {
      TradeabilityKept(walk[i], c);
      LevelsKept(t, walk[i], c);
    }
  }

  lemma {:induction false} RecordKept(t: Trade, walk: seq<Bar>, n: nat, kind: ExitKind, price: Option<real>,
                                      circuit: bool, factor: real, c: real)
    requires c > 0.0 && t.entryPrice > 0.0 && 0 < n <= |walk|
    ensures Mul(t.entryPrice, c) > 0.0
    ensures Closed(ScaleTrade(t, c).Record(ScaleFrame(walk, c), n, kind, Scaled(price, c), circuit, Mul(factor, c)))
            == ScaleResolution(Closed(t.Record(walk, n, kind, price, circuit, factor)), c)
  {
    ExtremesKept(t, walk, n, c);
    MilestonesKept(t, walk, n, c);
    if price.Some? {
      RatioKept(price.value, t.entryPrice, c);
    }
  }

  lemma {:induction false} EndingKept(t: Trade, walk: seq<Bar>, maxHold: nat, factor: real, c: real)
    requires c > 0.0 && t.entryPrice > 0.0
    ensures Mul(t.entryPrice, c) > 0.0
    ensures ScaleTrade(t, c).Ending(ScaleFrame(walk, c), maxHold, Mul(factor, c))
            == ScaleResolution(t.Ending(walk, maxHold, factor), c)
  {
    var k := t.FirstExit(walk, 0);
    ExcursionKept(t, 0.0, c);
    FirstExitKept(t, walk, c);
    MilestonesKept(t, walk, k, c);
    if k < |walk| {
      FillKept(t, walk[k], c);
      var (kind, price) := t.FillAt(walk[k]);
      RecordKept(t, walk, k + 1, kind, price, t.BreachedWhileLocked(walk, k), factor, c);
    } else if walk != [] {
      var close := Some(walk[k - 1].close);
      RecordKept(t, walk, k, StopUnfilledCircuit, close, false, factor, c);
      RecordKept(t, walk, k, TimeExit, close, false, factor, c);
    }
  }

  // ---- the whole resolution ----------------------------------------------------

  lemma {:induction false} AfterKept(frame: seq<Bar>, date: Date, c: real)
    ensures After(ScaleFrame(frame, c), date) == ScaleFrame(After(frame, date), c)
  {
    if frame == [] {
    } else {
      AfterKept(frame[1..], date, c);
    }
  }

  lemma {:induction false} BarOnKept(frame: seq<Bar>, date: Date, c: real)
    ensures BarOn(ScaleFrame(frame, c), date)
            == if BarOn(frame, date).Some? then Some(ScaleBar(BarOn(frame, date).value, c)) else None
  {
    if frame == [] {
    } else {
      BarOnKept(frame[1..], date, c);
    }
  }

  lemma {:induction false} BasisScales(lastClose: Option<real>, frame: seq<Bar>, date: Date, c: real)
    requires c > 0.0
    ensures RawBasis(lastClose, ScaleFrame(frame, c), date) == Scaled(RawBasis(lastClose, frame, date), c)
  {
    BarOnKept(frame, date, c);
    var row := BarOn(frame, date);
    if row.Some? && lastClose.Some? && lastClose.value > 0.0 {
      Positive(row.value.close, c);
      var q := Div(row.value.close, lastClose.value);
      DivUnique(row.value.close, q, lastClose.value);
      Regroup(q, lastClose.value, c);
      DivUnique(Mul(row.value.close, c), Mul(q, c), lastClose.value);
    }
  }

  lemma LevelScales(level: Option<real>, factor: real, c: real)
    ensures Rebased(level, Mul(factor, c)) == Scaled(Rebased(level, factor), c)
  {
    if level.Some? {
      Regroup(level.value, factor, c);
    }
  }

  lemma {:induction false} TradeScales(sig: Signal, entry: Bar, factor: real, useTarget: bool, book: BookByDate,
                                       c: real)
    requires entry.open.Some?
    ensures TradeOf(sig, ScaleBar(entry, c), Mul(factor, c), useTarget, book)
            == ScaleTrade(TradeOf(sig, entry, factor, useTarget, book), c)
  {
    LevelScales(sig.target1, factor, c);
    LevelScales(sig.target2, factor, c);
    Regroup(sig.stop, factor, c);
  }

  /** The entry bar exists and has a price: without it a signal stays open. */
  predicate Priced(sig: Signal, frame: seq<Bar>) {
    var future := After(frame, sig.date);
    future != [] && future[0].open.Some? && future[0].open.value > 0.0
  }

  /** The ending of a priced signal once its levels are carried over by `factor`. */
  function Decided(sig: Signal, frame: seq<Bar>, factor: real, maxHold: nat, book: BookByDate,
                   useTarget: bool): Resolution
    requires Priced(sig, frame)
  {
    var future := After(frame, sig.date);
    TradeOf(sig, future[0], factor, useTarget, book).Ending(Take(future[1..], maxHold), maxHold, factor)
  }

  lemma {:induction false} PricedScales(sig: Signal, frame: seq<Bar>, c: real)
    requires c > 0.0
    ensures Priced(sig, ScaleFrame(frame, c)) == Priced(sig, frame)
  {
    AfterKept(frame, sig.date, c);
    var future := After(frame, sig.date);
    if future != [] && future[0].open.Some? {
      Positive(future[0].open.value, c);
    }
  }

  lemma {:induction false} DecidedScales(sig: Signal, frame: seq<Bar>, factor: real, maxHold: nat,
                                         book: BookByDate, useTarget: bool, c: real)
    requires c > 0.0 && Priced(sig, frame)
    ensures Priced(sig, ScaleFrame(frame, c))
    ensures Decided(sig, ScaleFrame(frame, c), Mul(factor, c), maxHold, book, useTarget)
            == ScaleResolution(Decided(sig, frame, factor, maxHold, book, useTarget), c)
  {
    var future := After(frame, sig.date);
    AfterKept(frame, sig.date, c);
    PricedScales(sig, frame, c);
    TradeScales(sig, future[0], factor, useTarget, book, c);
    var walk := Take(future[1..], maxHold);
    assert Take(ScaleFrame(future, c)[1..], maxHold) == ScaleFrame(walk, c);
    EndingKept(TradeOf(sig, future[0], factor, useTarget, book), walk, maxHold, factor, c);
  }

  /** Re-basing invariance, and exactly where it begins and ends. A priced signal is refused in
      the new basis exactly when its factor there leaves the bounds, whether or not it was
      refused before; otherwise exit session, reason, hold, return, excursions and milestones
      are those of the old basis and only the recorded prices move. */
  lemma {:induction false} RebasingChangesNoDecision(sig: Signal, frame: seq<Bar>, maxHold: nat,
                                                     book: BookByDate, useTarget: bool, c: real)
    requires c > 0.0
    ensures var basis := RawBasis(sig.lastClose, frame, sig.date);
            var before := Resolve(sig, frame, maxHold, book, useTarget);
            var after := Resolve(sig, ScaleFrame(frame, c), maxHold, book, useTarget);
            if !Priced(sig, frame) then before == after == StillOpen
            else
              && (before == Refused <==> basis.None? || !Reconcilable(basis.value))
              && (after == Refused <==> basis.None? || !Reconcilable(Mul(basis.value, c)))
              && (before != Refused ==> before == Decided(sig, frame, basis.value, maxHold, book, useTarget))
              && (after != Refused ==>
                    after == ScaleResolution(Decided(sig, frame, basis.value, maxHold, book, useTarget), c))
  {
    PricedScales(sig, frame, c);
    BasisScales(sig.lastClose, frame, sig.date, c);
    var basis := RawBasis(sig.lastClose, frame, sig.date);
    if Priced(sig, frame) && basis.Some? {
      DecidedScales(sig, frame, basis.value, maxHold, book, useTarget, c);
      DecidedIsNoRefusal(sig, frame, basis.value, maxHold, book, useTarget);
    }
  }

  lemma DecidedIsNoRefusal(sig: Signal, frame: seq<Bar>, factor: real, maxHold: nat, book: BookByDate, useTarget: bool)
    requires Priced(sig, frame)
    ensures Decided(sig, frame, factor, maxHold, book, useTarget) != Refused
  {
  }
}
