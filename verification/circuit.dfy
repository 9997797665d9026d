/** Price-band state of one daily bar (indicators/circuit.py). */
module Circuit {
  import opened Common

  /** One session. A reading that is missing or not finite is `None`. */
  datatype Bar = Bar(
    date: int,
    open: Option<real>,
    high: real,
    low: real,
    close: real,
    prevClose: Option<real>,
    volume: Option<real>)

  datatype BandState = Open | UpperCircuit | LowerCircuit | Frozen | NoTrade | Unknown

  function Abs(x: real): real { if x < 0.0 then -x else x }

  predicate Near(move: real, level: real) {
    Abs(Abs(move) - level) <= 0.006
  }

  predicate AtBand(move: real) {
    Near(move, 0.02) || Near(move, 0.05) || Near(move, 0.10) || Near(move, 0.20)
  }

  function BandStateOf(bar: Bar): BandState {
    if bar.volume.None? then Unknown
    else if bar.volume.value <= 0.0 then NoTrade
    else if bar.high != bar.low then Open
    else if bar.prevClose.None? || bar.prevClose.value <= 0.0 then Frozen
    else
      var move := bar.close / bar.prevClose.value - 1.0;
      if Abs(move) < 0.015 || !AtBand(move) then Frozen
      else if move > 0.0 then UpperCircuit
      else LowerCircuit
  }

  predicate Untradeable(bar: Bar) {
    BandStateOf(bar) in {UpperCircuit, LowerCircuit, Frozen, NoTrade}
  }

  /** Within six tenths of a percent of two, five, ten or twenty percent. */
  ghost predicate OnABand(size: real) {
    0.014 <= size <= 0.026 || 0.044 <= size <= 0.056 || 0.094 <= size <= 0.106 || 0.194 <= size <= 0.206
  }

  /** A band lock is a session of one price, traded, that closed a standard band away from the
      close before it and at least one and a half percent from it. */
  lemma LockedMeans(bar: Bar)
    ensures var locked := bar.volume.Some? && bar.volume.value > 0.0 && bar.high == bar.low
                          && bar.prevClose.Some? && bar.prevClose.value > 0.0;
            && (BandStateOf(bar) == UpperCircuit <==>
                  locked && var move := bar.close / bar.prevClose.value - 1.0; move >= 0.015 && OnABand(move))
            && (BandStateOf(bar) == LowerCircuit <==>
                  locked && var move := bar.close / bar.prevClose.value - 1.0; move <= -0.015 && OnABand(-move))
            && (BandStateOf(bar) == Unknown <==> bar.volume.None?)
            && (BandStateOf(bar) == NoTrade <==> bar.volume.Some? && bar.volume.value <= 0.0)
  {
    if bar.prevClose.Some? && bar.prevClose.value > 0.0 {
      BandMeans(bar.close / bar.prevClose.value - 1.0);
    }
  }

  lemma BandMeans(move: real)
    ensures AtBand(move) <==> OnABand(if move < 0.0 then -move else move)
  {
    var size := if move < 0.0 then -move else move;
    assert Near(move, 0.02) <==> 0.014 <= size <= 0.026;
    assert Near(move, 0.05) <==> 0.044 <= size <= 0.056;
    assert Near(move, 0.10) <==> 0.094 <= size <= 0.106;
    assert Near(move, 0.20) <==> 0.194 <= size <= 0.206;
  }

  /** The state labels aside, a bar is untradeable exactly when its volume is
      known and either nothing traded or only one price was available. */
  lemma UntradeableMeans(bar: Bar)
    ensures Untradeable(bar) <==> bar.volume.Some? && (bar.volume.value <= 0.0 || bar.high == bar.low)
  {
  }
}
