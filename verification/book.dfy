/** From chosen names to whole-share positions (book.py). */
module Book {
  import opened Common
  import opened WaterFill
  import opened Selection

  datatype LiquidityState = KnownValid | Missing | Invalid

  datatype LiquidityView = LiquidityView(state: LiquidityState, adtv: Option<real>)

  /** `liquidity.assess` for a reading of untracked age. */
  function Assess(raw: Option<real>): LiquidityView {
    match raw
    case None => LiquidityView(Missing, None)
    case Some(value) =>
      if value <= 0.0 then LiquidityView(Invalid, None) else LiquidityView(KnownValid, Some(value))
  }

  datatype BookSpec = BookSpec(
    capital: real,
    entryPercentile: real,
    exitPercentile: real,
    maxParticipation: real,
    minNames: nat,
    maxNames: nat,
    requireKnown: bool)

  /** What the day's data say about each name. */
  datatype Market = Market(prices: map<Name, real>, adtv: map<Name, Option<real>>)
  {
    function Reading(t: Name): Option<real> {
      if t in adtv then adtv[t] else None
    }

    predicate Sizable(t: Name, requireKnown: bool) {
      && t in prices && prices[t] > 0.0
      && (requireKnown ==> Assess(Reading(t)).state.KnownValid?)
    }

    function Cap(t: Name, participation: real): (cap: real)
      requires 0.0 <= participation
      ensures 0.0 <= cap
    {
      var usable := Assess(Reading(t)).adtv;
      if usable.Some? && usable.value > 0.0 then usable.value * participation else 0.0
    }
  }

  datatype Binding = EqualWeight | LiquidityCap

  datatype Position = Position(
    ticker: Name,
    rank: nat,
    shares: int,
    price: real,
    value: real,
    weight: real,
    binding: Binding,
    heldBefore: bool)

  datatype Note =
    | NothingSelected
    | NothingEligible
    | NoPrice(ticker: Name)
    | NotLiquid(ticker: Name, state: LiquidityState)
    | NothingSizable
    | Unplaced(amount: real)
    | BelowOneShare(ticker: Name)

  datatype TargetBook = TargetBook(
    positions: seq<Position>,
    investedFraction: real,
    eligible: nat,
    entries: seq<Name>,
    exits: set<Name>,
    notes: seq<Note>)

  /** The two ways `_allocate` raises: a `KeyError` on a name the liquidity
      table does not list, and a division by a capital of zero. */
  datatype BookError = NoReading(ticker: Name) | ZeroCapital

  function Invested(positions: seq<Position>): real {
    if positions == [] then 0.0
    else Invested(positions[..|positions| - 1]) + positions[|positions| - 1].value
  }

  function Tickers(positions: seq<Position>): seq<Name> {
    seq(|positions|, i requires 0 <= i < |positions| => positions[i].ticker)
  }

  function TotalPrice(names: seq<Name>, prices: map<Name, real>): real {
    Sum(names, prices)
  }

  // ---- dividing the capital ------------------------------------------------

  /** `list.remove`: drop the first occurrence. */
  function Remove(s: seq<Name>, t: Name): seq<Name> {
    if s == [] then [] else if s[0] == t then s[1..] else [s[0]] + Remove(s[1..], t)
  }

  lemma RemoveIsOutside(s: seq<Name>, gone: set<Name>, t: Name)
    requires Distinct(s) && t in s && t !in gone
    ensures Remove(Outside(s, gone), t) == Outside(s, gone + {t})
  {
    if s[0] == t {
      assert forall u :: u in s[1..] ==> u != t;
      OutsideCongruent(s[1..], gone, gone + {t});
    } else {
      RemoveIsOutside(s[1..], gone, t);
    }
  }

  lemma OutsideCongruent(s: seq<Name>, a: set<Name>, b: set<Name>)
    requires forall t :: t in s ==> (t in a <==> t in b)
    ensures Outside(s, a) == Outside(s, b)
  {
    if s == [] {
    } else {
      assert forall t :: t in s[1..] ==> t in s;
      OutsideCongruent(s[1..], a, b);
    }
  }

  /** `m` after each name of `names` has been given the same value. */
  function GiveAll<V>(m: map<Name, V>, names: set<Name>, v: V): map<Name, V> {
    m + map t | t in names :: v
  }

  /** `m` after each name of `names` has been given its entry of `table`. */
  function GiveEach(m: map<Name, real>, names: set<Name>, table: map<Name, real>): map<Name, real> {
    m + map t | t in names :: Get(table, t)
  }

  lemma GiveAllStep<V>(m: map<Name, V>, done: seq<Name>, t: Name, v: V)
    ensures GiveAll(m, Elements(done), v)[t := v] == GiveAll(m, Elements(done + [t]), v)
  {
    assert Elements(done + [t]) == Elements(done) + {t};
  }

  lemma GiveEachStep(m: map<Name, real>, done: seq<Name>, t: Name, table: map<Name, real>)
    ensures GiveEach(m, Elements(done), table)[t := Get(table, t)] == GiveEach(m, Elements(done + [t]), table)
  {
    assert Elements(done + [t]) == Elements(done) + {t};
  }

  lemma CapStep(done: seq<Name>, t: Name, caps: map<Name, real>, alloc: map<Name, real>,
                binding: map<Name, Binding>, open: seq<Name>)
    requires Distinct(open) && t in open && t !in done
    ensures GiveEach(alloc, Elements(done), caps)[t := Get(caps, t)] == GiveEach(alloc, Elements(done + [t]), caps)
    ensures GiveAll(binding, Elements(done), LiquidityCap)[t := LiquidityCap]
            == GiveAll(binding, Elements(done + [t]), LiquidityCap)
    ensures Sum(done + [t], caps) == Sum(done, caps) + Get(caps, t)
    ensures Remove(Outside(open, Elements(done)), t) == Outside(open, Elements(done + [t]))
  {
    assert Elements(done + [t]) == Elements(done) + {t};
    RemoveIsOutside(open, Elements(done), t);
    SumAppend(done, t, caps);
    GiveEachStep(alloc, done, t, caps);
    GiveAllStep(binding, done, t, LiquidityCap);
  }

  lemma NextCapped(capped: seq<Name>, open: seq<Name>, caps: map<Name, real>, i: nat)
    requires i < |capped| && Distinct(capped) && ValidCaps(open, caps) && forall t :: t in capped ==> t in open
    ensures capped[..i + 1] == capped[..i] + [capped[i]] && capped[i] !in capped[..i] && capped[i] in open
    ensures capped[i] in caps && Get(caps, capped[i]) == caps[capped[i]]
  {
    assert capped[i] in capped;
  }

  /** One capping round: hand each capped name its cap and close it. */
  method CapNames(capped: seq<Name>, caps: map<Name, real>, alloc0: map<Name, real>,
                  binding0: map<Name, Binding>, remaining0: real, open0: seq<Name>)
    returns (alloc: map<Name, real>, binding: map<Name, Binding>, remaining: real, open: seq<Name>)
    requires Distinct(open0) && Distinct(capped) && ValidCaps(open0, caps)
    requires forall t :: t in capped ==> t in open0
    ensures alloc == GiveEach(alloc0, Elements(capped), caps)
    ensures binding == GiveAll(binding0, Elements(capped), LiquidityCap)
    ensures remaining == remaining0 - Sum(capped, caps)
    ensures open == Outside(open0, Elements(capped))
  {
    alloc, binding, remaining, open := alloc0, binding0, remaining0, open0;
    OutsideNothing(open0, Elements(capped[..0]));
    for i := 0 to |capped|
      invariant alloc == GiveEach(alloc0, Elements(capped[..i]), caps)
      invariant binding == GiveAll(binding0, Elements(capped[..i]), LiquidityCap)
      invariant remaining == remaining0 - Sum(capped[..i], caps)
      invariant open == Outside(open0, Elements(capped[..i]))
    {
      var t := capped[i];
      NextCapped(capped, open0, caps, i);
      CapStep(capped[..i], t, caps, alloc0, binding0, open0);
      alloc := alloc[t := caps[t]];
      binding := binding[t := LiquidityCap];
      remaining := remaining - caps[t];
      open := Remove(open, t);
    }
    assert capped[..|capped|] == capped;
  }

  /** The closing round: an equal share for every name still open. */
  method ShareEqually(open: seq<Name>, share: real, alloc0: map<Name, real>, binding0: map<Name, Binding>)
    returns (alloc: map<Name, real>, binding: map<Name, Binding>)
    requires Distinct(open) && alloc0.Keys !! Elements(open) && binding0.Keys !! Elements(open)
    ensures alloc == GiveAll(alloc0, Elements(open), share)
    ensures binding == GiveAll(binding0, Elements(open), EqualWeight)
  {
    alloc, binding := alloc0, binding0;
    for i := 0 to |open|
      invariant alloc == GiveAll(alloc0, Elements(open[..i]), share)
      invariant binding == GiveAll(binding0, Elements(open[..i]), EqualWeight)
    {
      var t := open[i];
      assert open[..i + 1] == open[..i] + [t];
      assert t in Elements(open) && t !in Elements(open[..i]);
      GiveAllStep(alloc0, open[..i], t, share);
      GiveAllStep(binding0, open[..i], t, EqualWeight);
      alloc := alloc[t := Get(alloc, t) + share];
      binding := if t in binding then binding else binding[t := EqualWeight];
    }
    assert open[..|open|] == open;
  }

  /** So far every funded name sits at its cap, below the share the open names
      would get, and the loop still owes exactly `Fill` of what is open. */
  ghost predicate Progress(open: seq<Name>, caps: map<Name, real>, alloc: map<Name, real>,
                           binding: map<Name, Binding>, remaining: real) {
    && Distinct(open) && ValidCaps(open, caps)
    && binding.Keys == alloc.Keys && alloc.Keys !! Elements(open)
    && (forall t :: t in alloc ==>
          && binding[t].LiquidityCap? && t in caps && alloc[t] == caps[t]
          && (open != [] ==> alloc[t] < Share(remaining, |open|)))
    && (alloc != map[] ==> remaining > 0.0)
  }

  lemma {:induction false} RoundKeepsProgress(open: seq<Name>, caps: map<Name, real>, alloc: map<Name, real>,
                           binding: map<Name, Binding>, remaining: real, low: set<Name>,
                           rest: seq<Name>, after: real)
    requires Progress(open, caps, alloc, binding, remaining) && open != []
    requires forall t :: t in low ==> t in open && Get(caps, t) < Share(remaining, |open|)
    requires Distinct(rest) && forall t :: t in rest ==> t in open && t !in low
    requires rest != [] ==> Share(after, |rest|) > Share(remaining, |open|)
    requires after > 0.0
    ensures Progress(rest, caps, GiveEach(alloc, low, caps), GiveAll(binding, low, LiquidityCap), after)
  {
    var alloc', binding' := GiveEach(alloc, low, caps), GiveAll(binding, low, LiquidityCap);
    assert alloc'.Keys == alloc.Keys + low && binding'.Keys == binding.Keys + low;
    forall t | t in alloc'
      ensures binding'[t].LiquidityCap? && t in caps && alloc'[t] == caps[t] && t !in rest
      ensures rest != [] ==> alloc'[t] < Share(after, |rest|)
    {
      if t !in low {
        assert t in alloc && t !in Elements(open);
      }
    }
  }

  lemma RoundComposes(alloc: map<Name, real>, low: set<Name>, caps: map<Name, real>,
                      later: map<Name, real>, all: map<Name, real>)
    requires all == (map t | t in low :: Get(caps, t)) + later
    ensures alloc + all == GiveEach(alloc, low, caps) + later
  {
  }

  lemma {:induction false} ClosingRound(open: seq<Name>, caps: map<Name, real>, alloc: map<Name, real>,
                           binding: map<Name, Binding>, remaining: real)
    requires Progress(open, caps, alloc, binding, remaining) && open != []
    ensures var alloc' := GiveAll(alloc, Elements(open), Share(remaining, |open|));
            var binding' := GiveAll(binding, Elements(open), EqualWeight);
            && binding'.Keys == alloc'.Keys
            && BindingsMeanWhatTheySay(alloc', binding', caps, 0.0)
            && alloc' == alloc + map t | t in open :: Share(remaining, |open|)
  {
    assert open[0] in Elements(open);
  }

  /** The equal share decided exactly when the capital is placed in full and no name was given
      more; otherwise the name holds its cap. */
  ghost predicate BindingsMeanWhatTheySay(alloc: map<Name, real>, binding: map<Name, Binding>,
                                          caps: map<Name, real>, left: real)
    requires binding.Keys == alloc.Keys
  {
    && (forall t :: t in alloc && binding[t].LiquidityCap? ==> t in caps && alloc[t] == caps[t])
    && (forall t :: t in alloc ==>
          (binding[t].EqualWeight? <==> left == 0.0 && forall u :: u in alloc ==> alloc[u] <= alloc[t]))
  }

  lemma {:induction false} RoundParts(open: seq<Name>, caps: map<Name, real>, remaining: real, capped: seq<Name>)
    requires Distinct(open) && ValidCaps(open, caps) && open != [] && remaining > 1.0
    requires capped == Inside(open, Capped(open, caps, Share(remaining, |open|))) && capped != []
    ensures Distinct(capped) && forall t :: t in capped ==> t in open && Get(caps, t) < Share(remaining, |open|)
    ensures Elements(capped) == Capped(open, caps, Share(remaining, |open|)) != {}
    ensures var rest, after := Outside(open, Elements(capped)), remaining - Sum(capped, caps);
            && Distinct(rest) && ValidCaps(rest, caps) && |rest| < |open|
            && (forall t :: t in rest ==> t in open && t !in Elements(capped))
            && (rest != [] ==> Share(after, |rest|) > Share(remaining, |open|))
            && after > 0.0
  {
    var low := Capped(open, caps, Share(remaining, |open|));
    InsideFacts(open, low);
    assert Elements(capped) == low && capped[0] in low;
    OutsideFacts(open, low);
    NonEmptyInside(open, low);
    var rest, after := Outside(open, low), remaining - Sum(capped, caps);
    ShareRises(open, caps, Share(remaining, |open|));
    if rest != [] {
      TimesMonotone(|rest|, Share(after, |rest|), Share(remaining, |open|));
    }
    SharePositive(remaining, |open|, |rest|);
  }

  lemma {:induction false} RoundProgress(open: seq<Name>, caps: map<Name, real>, alloc: map<Name, real>,
                                         binding: map<Name, Binding>, remaining: real, capped: seq<Name>)
    requires Progress(open, caps, alloc, binding, remaining) && open != [] && remaining > 1.0
    requires capped == Inside(open, Capped(open, caps, Share(remaining, |open|))) && capped != []
    ensures Distinct(capped) && forall t :: t in capped ==> t in open
    ensures |Outside(open, Elements(capped))| < |open|
    ensures Progress(Outside(open, Elements(capped)), caps, GiveEach(alloc, Elements(capped), caps),
                     GiveAll(binding, Elements(capped), LiquidityCap), remaining - Sum(capped, caps))
  {
    RoundParts(open, caps, remaining, capped);
    RoundKeepsProgress(open, caps, alloc, binding, remaining, Elements(capped),
                       Outside(open, Elements(capped)), remaining - Sum(capped, caps));
  }

  /** What is handed out in a round, and what is owed after it, add up to what was owed. */
  lemma {:induction false} RoundOwes(open: seq<Name>, caps: map<Name, real>, alloc: map<Name, real>,
                                     remaining: real, capped: seq<Name>,
                                     rest: seq<Name>, given: map<Name, real>, after: real)
    requires Distinct(open) && ValidCaps(open, caps) && open != [] && remaining > 1.0
    requires capped == Inside(open, Capped(open, caps, Share(remaining, |open|))) && capped != []
    requires rest == Outside(open, Elements(capped)) && after == remaining - Sum(capped, caps)
    requires given == GiveEach(alloc, Elements(capped), caps)
    ensures alloc + Fill(open, caps, remaining).0 == given + Fill(rest, caps, after).0
    ensures Fill(open, caps, remaining).1 == Fill(rest, caps, after).1
  {
    RoundParts(open, caps, remaining, capped);
    RoundComposes(alloc, Elements(capped), caps, Fill(rest, caps, after).0, Fill(open, caps, remaining).0);
  }

  /** The capping branch of the loop, which keeps what is owed unchanged. */
  method CapRound(open0: seq<Name>, caps: map<Name, real>, alloc0: map<Name, real>,
                  binding0: map<Name, Binding>, remaining0: real, capped: seq<Name>)
    returns (alloc: map<Name, real>, binding: map<Name, Binding>, remaining: real, open: seq<Name>)
    requires Progress(open0, caps, alloc0, binding0, remaining0) && open0 != [] && remaining0 > 1.0
    requires capped == Inside(open0, Capped(open0, caps, Share(remaining0, |open0|))) && capped != []
    ensures Progress(open, caps, alloc, binding, remaining) && |open| < |open0|
    ensures alloc0 + Fill(open0, caps, remaining0).0 == alloc + Fill(open, caps, remaining).0
    ensures Fill(open0, caps, remaining0).1 == Fill(open, caps, remaining).1
  {
    RoundProgress(open0, caps, alloc0, binding0, remaining0, capped);
    alloc, binding, remaining, open := CapNames(capped, caps, alloc0, binding0, remaining0, open0);
    RoundOwes(open0, caps, alloc0, remaining0, capped, open, alloc, remaining);
  }

  lemma NothingCapped(open: seq<Name>, caps: map<Name, real>, remaining: real)
    requires open != [] && remaining > 1.0
    requires Inside(open, Capped(open, caps, Share(remaining, |open|))) == []
    ensures Fill(open, caps, remaining) == (map t | t in open :: Share(remaining, |open|), 0.0)
  {
    var low := Capped(open, caps, Share(remaining, |open|));
    InsideFacts(open, low);
    assert forall t :: t in low ==> t in Inside(open, low);
  }

  /** The water-filling loop. */
  method Divide(tradable: seq<Name>, caps: map<Name, real>, capital: real)
    returns (alloc: map<Name, real>, binding: map<Name, Binding>, remaining: real)
    requires Distinct(tradable) && ValidCaps(tradable, caps)
    ensures (alloc, remaining) == Fill(tradable, caps, capital)
    ensures binding.Keys == alloc.Keys && BindingsMeanWhatTheySay(alloc, binding, caps, remaining)
  {
    alloc, binding, remaining := map[], map[], capital;
    var open := tradable;
    assert map[] + Fill(open, caps, remaining).0 == Fill(open, caps, remaining).0;
    while open != [] && remaining > 1.0
      invariant Progress(open, caps, alloc, binding, remaining)
      invariant Fill(tradable, caps, capital) ==
                (alloc + Fill(open, caps, remaining).0, Fill(open, caps, remaining).1)
      decreases |open|
    {
      var share := Share(remaining, |open|);
      var capped := Inside(open, Capped(open, caps, share));
      if capped == [] {
        NothingCapped(open, caps, remaining);
        ClosingRound(open, caps, alloc, binding, remaining);
        alloc, binding := ShareEqually(open, share, alloc, binding);
        remaining := 0.0;
        return;
      }
      alloc, binding, remaining, open := CapRound(open, caps, alloc, binding, remaining, capped);
    }
    assert alloc + map[] == alloc;
  }

  // ---- whole shares ---------------------------------------------------------

  function IndexOf(s: seq<Name>, t: Name): (i: nat)
    requires t in s
    ensures i < |s| && s[i] == t && t !in s[..i]
  {
    if s[0] == t then 0
    else
      var j := IndexOf(s[1..], t);
      assert s[..j + 1] == [s[0]] + s[1..][..j];
      j + 1
  }

  function Fraction(part: real, whole: real): real
    requires whole != 0.0
  {
    part / whole
  }

  lemma FractionAtMostOne(part: real, whole: real)
    requires whole > 0.0 && part <= whole
    ensures Fraction(part, whole) <= 1.0
  {
  }

  /** The names whose amount buys at least one share. */
  function Affordable(alloc: map<Name, real>, prices: map<Name, real>): set<Name> {
    set t | t in alloc && t in prices && prices[t] <= alloc[t]
  }

  /** A position is the largest whole number of shares its amount buys, valued
      at its price, carrying its rank and whether the name was already held. */
  ghost predicate Sized(p: Position, alloc: map<Name, real>, prices: map<Name, real>, capital: real,
                        held: set<Name>, ranking: seq<Name>)
    requires capital != 0.0
  {
    && p.ticker in alloc && p.ticker in prices
    && p.price == prices[p.ticker] && p.shares > 0
    && p.value == p.shares as real * p.price
    && p.value <= alloc[p.ticker] < p.value + p.price
    && p.weight == Fraction(p.value, capital)
    && 0 < p.rank <= |ranking| && ranking[p.rank - 1] == p.ticker
    && p.heldBefore == (p.ticker in held)
  }

  lemma ScaleUp(a: real, b: real, price: real)
    requires price > 0.0 && a <= b
    ensures a * price <= b * price
  {
  }

  lemma ScaleUpStrictly(a: real, b: real, price: real)
    requires price > 0.0 && a < b
    ensures a * price < b * price
  {
  }

  lemma Bracket(amount: real, q: real, k: real, price: real)
    requires price > 0.0 && k <= q < k + 1.0 && amount == q * price
    ensures k * price <= amount
    ensures amount < k * price + price
  {
    ScaleUp(k, q, price);
    var next := k + 1.0;
    ScaleUpStrictly(q, next, price);
    assert amount < next * price;
    assert next * price == k * price + price;
  }

  lemma WholeSharesOf(amount: real, q: real, price: real, n: int)
    requires 0.0 <= amount && price > 0.0 && amount == q * price && n == q.Floor
    ensures n as real * price <= amount
    ensures amount < n as real * price + price
    ensures n > 0 <==> price <= amount
  {
    Bracket(amount, q, n as real, price);
    if n > 0 {
      ScaleUp(1.0, q, price);
    } else {
      ScaleUpStrictly(q, 1.0, price);
    }
  }

  lemma WholeShares(amount: real, price: real, n: int)
    requires 0.0 <= amount && price > 0.0 && n == (amount / price).Floor
    ensures n as real * price <= amount < n as real * price + price
    ensures n > 0 <==> price <= amount
  {
    WholeSharesOf(amount, amount / price, price, n);
  }

  function TooSmall(names: seq<Name>): seq<Note> {
    seq(|names|, i requires 0 <= i < |names| => BelowOneShare(names[i]))
  }

  method SizeOne(t: Name, alloc: map<Name, real>, binding: map<Name, Binding>,
                 prices: map<Name, real>, capital: real, held: set<Name>, ranking: seq<Name>)
    returns (p: Option<Position>)
    requires capital != 0.0
    requires t in alloc && 0.0 <= alloc[t] && t in prices && 0.0 < prices[t] && t in binding && t in ranking
    ensures p.Some? <==> t in Affordable(alloc, prices)
    ensures p.Some? ==> p.value.ticker == t && p.value.binding == binding[t]
    ensures p.Some? ==> Sized(p.value, alloc, prices, capital, held, ranking)
    ensures p.None? ==> alloc[t] < prices[t]
  {
    var price := prices[t];
    var shares := (alloc[t] / price).Floor;
    WholeShares(alloc[t], price, shares);
    if shares <= 0 {
      return None;
    }
    var value := shares as real * price;
    return Some(Position(t, IndexOf(ranking, t) + 1, shares, price, value, Fraction(value, capital),
                         binding[t], t in held));
  }

  /** The sizing loop, over the funded names in rank order. */
  method PlaceShares(order: seq<Name>, alloc: map<Name, real>, binding: map<Name, Binding>,
                     prices: map<Name, real>, capital: real, held: set<Name>, ranking: seq<Name>)
    returns (positions: seq<Position>, notes: seq<Note>)
    requires order != [] ==> capital != 0.0
    requires forall t :: t in order ==>
               t in alloc && 0.0 <= alloc[t] && t in prices && 0.0 < prices[t] && t in binding && t in ranking
    ensures Tickers(positions) == Inside(order, Affordable(alloc, prices))
    ensures notes == TooSmall(Outside(order, Affordable(alloc, prices)))
    ensures forall p :: p in positions ==>
              p.ticker in binding && p.binding == binding[p.ticker]
              && Sized(p, alloc, prices, capital, held, ranking)
    ensures Invested(positions) <= Sum(order, alloc)
    ensures order != [] ==> Sum(order, alloc) < Invested(positions) + TotalPrice(order, prices)
  {
    positions, notes := [], [];
    ghost var rich := Affordable(alloc, prices);
    for i := 0 to |order|
      invariant Tickers(positions) == Inside(order[..i], rich)
      invariant notes == TooSmall(Outside(order[..i], rich))
      invariant forall p :: p in positions ==>
                  p.ticker in binding && p.binding == binding[p.ticker]
                  && Sized(p, alloc, prices, capital, held, ranking)
      invariant Invested(positions) <= Sum(order[..i], alloc)
      invariant Sum(order[..i], alloc) <= Invested(positions) + TotalPrice(order[..i], prices)
      invariant i > 0 ==> Sum(order[..i], alloc) < Invested(positions) + TotalPrice(order[..i], prices)
    {
      var t := order[i];
      assert order[..i + 1] == order[..i] + [t];
      InsideConcat(order[..i], [t], rich);
      OutsideConcat(order[..i], [t], rich);
      SumAppend(order[..i], t, alloc);
      SumAppend(order[..i], t, prices);
      var p := SizeOne(t, alloc, binding, prices, capital, held, ranking);
      if p.None? {
        notes := notes + [BelowOneShare(t)];
      } else {
        assert (positions + [p.value])[..|positions|] == positions;
        positions := positions + [p.value];
      }
    }
    assert order[..|order|] == order;
  }

  // ---- the book ---------------------------------------------------------------

  function SizableNames(chosen: seq<Name>, market: Market, requireKnown: bool): set<Name> {
    set t | t in chosen && market.Sizable(t, requireKnown)
  }

  function Tradable(chosen: seq<Name>, market: Market, requireKnown: bool): seq<Name> {
    Inside(chosen, SizableNames(chosen, market, requireKnown))
  }

  function Refusal(t: Name, market: Market): Note {
    if t in market.prices && market.prices[t] > 0.0 then NotLiquid(t, Assess(market.Reading(t)).state)
    else NoPrice(t)
  }

  function Refusals(names: seq<Name>, market: Market): seq<Note> {
    seq(|names|, i requires 0 <= i < |names| => Refusal(names[i], market))
  }

  ghost predicate AllRead(names: seq<Name>, market: Market) {
    forall t :: t in names ==> t in market.adtv
  }

  function CapTable(names: seq<Name>, market: Market, participation: real): map<Name, real>
    requires 0.0 <= participation
  {
    map t | t in names :: market.Cap(t, participation)
  }

  /** Why each position has the size it has, without naming the loop. */
  ghost predicate BindingsExplained(positions: seq<Position>, alloc: map<Name, real>, caps: map<Name, real>,
                                    left: real)
  {
    && (forall p :: p in positions ==> p.ticker in alloc)
    && (forall p :: p in positions && p.binding.LiquidityCap? ==>
          p.ticker in caps && alloc[p.ticker] == caps[p.ticker])
    && (forall p :: p in positions ==>
          (p.binding.EqualWeight? <==> left == 0.0 && forall u :: u in alloc ==> alloc[u] <= alloc[p.ticker]))
  }

  /** The positions are the funded names that buy a share, best rank first. */
  ghost predicate Holdings(positions: seq<Position>, alloc: map<Name, real>, left: real, caps: map<Name, real>,
                           prices: map<Name, real>, capital: real, held: set<Name>, ranking: seq<Name>)
    requires capital != 0.0
  {
    && Tickers(positions) == InRankOrder(ranking, Affordable(alloc, prices))
    && (forall p :: p in positions ==> Sized(p, alloc, prices, capital, held, ranking))
    && BindingsExplained(positions, alloc, caps, left)
  }

  /** Whole shares cost no more than was allocated, and less than one share a
      name is lost to rounding. */
  ghost predicate Rounded(positions: seq<Position>, tradable: seq<Name>, alloc: map<Name, real>,
                          prices: map<Name, real>) {
    && Invested(positions) <= Sum(tradable, alloc)
    && (alloc != map[] ==> Sum(tradable, alloc) < Invested(positions) + TotalPrice(tradable, prices))
  }

  ghost predicate IsBook(book: TargetBook, tradable: seq<Name>, market: Market, spec: BookSpec,
                         held: set<Name>, ranking: seq<Name>)
    requires 0.0 <= spec.maxParticipation && spec.capital != 0.0
  {
    var caps := CapTable(tradable, market, spec.maxParticipation);
    var (alloc, left) := Fill(tradable, caps, spec.capital);
    && Holdings(book.positions, alloc, left, caps, market.prices, spec.capital, held, ranking)
    && Rounded(book.positions, tradable, alloc, market.prices)
    && book.investedFraction == Fraction(Invested(book.positions), spec.capital)
    && book.entries == Outside(Tickers(book.positions), held)
    && book.exits == held - Elements(Tickers(book.positions))
  }

  /** What sizing a non-empty list of tradable names returns. */
  ghost predicate Deployed(r: Result<TargetBook, BookError>, tradable: seq<Name>, refused: seq<Note>,
                           market: Market, spec: BookSpec, held: set<Name>, ranking: seq<Name>, eligible: nat)
    requires 0.0 <= spec.maxParticipation
  {
    match r
    case Err(NoReading(t)) => t in tradable && t !in market.adtv
    case Err(ZeroCapital) => AllRead(tradable, market) && spec.capital == 0.0
    case Ok(book) =>
      && AllRead(tradable, market) && spec.capital != 0.0 && book.eligible == eligible
      && IsBook(book, tradable, market, spec, held, ranking)
      && var (alloc, left) := Fill(tradable, CapTable(tradable, market, spec.maxParticipation), spec.capital);
         book.notes == refused + (if left > 1.0 then [Unplaced(left)] else [])
                       + TooSmall(Outside(InRankOrder(ranking, alloc.Keys), Affordable(alloc, market.prices)))
  }

  /** What `_allocate` returns: the empty book of a day on which nothing can be
      sized, or what sizing the tradable names returns. */
  ghost predicate Allocated(r: Result<TargetBook, BookError>, chosen: seq<Name>, market: Market,
                            spec: BookSpec, held: set<Name>, ranking: seq<Name>, eligible: nat)
    requires 0.0 <= spec.maxParticipation
  {
    var tradable := Tradable(chosen, market, spec.requireKnown);
    var refused := Refusals(Outside(chosen, SizableNames(chosen, market, spec.requireKnown)), market);
    if tradable == [] then
      r == Ok(TargetBook([], 0.0, eligible, [], {}, refused + [NothingSizable]))
    else
      Deployed(r, tradable, refused, market, spec, held, ranking, eligible)
  }

  method Screen(chosen: seq<Name>, market: Market, requireKnown: bool)
    returns (tradable: seq<Name>, notes: seq<Note>)
    ensures tradable == Tradable(chosen, market, requireKnown)
    ensures notes == Refusals(Outside(chosen, SizableNames(chosen, market, requireKnown)), market)
  {
    tradable, notes := [], [];
    ghost var sizable := SizableNames(chosen, market, requireKnown);
    for i := 0 to |chosen|
      invariant tradable == Inside(chosen[..i], sizable)
      invariant notes == Refusals(Outside(chosen[..i], sizable), market)
    {
      var t := chosen[i];
      assert chosen[..i + 1] == chosen[..i] + [t];
      InsideConcat(chosen[..i], [t], sizable);
      OutsideConcat(chosen[..i], [t], sizable);
      if t !in market.prices || !(market.prices[t] > 0.0) {
        notes := notes + [NoPrice(t)];
      } else if requireKnown && !Assess(market.Reading(t)).state.KnownValid? {
        notes := notes + [NotLiquid(t, Assess(market.Reading(t)).state)];
      } else {
        tradable := tradable + [t];
      }
    }
    assert chosen[..|chosen|] == chosen;
  }

  /** Listing the funded names by rank does not change their totals. */
  lemma {:induction false} RankOrderTotals(tradable: seq<Name>, ranking: seq<Name>, alloc: map<Name, real>,
                                           prices: map<Name, real>)
    requires Distinct(tradable) && Distinct(ranking) && alloc.Keys <= Elements(tradable)
    requires forall t :: t in tradable ==> t in ranking && t in prices && prices[t] > 0.0
    ensures var order := InRankOrder(ranking, alloc.Keys);
            && Elements(order) == alloc.Keys
            && Sum(order, alloc) == Sum(tradable, alloc)
            && TotalPrice(order, prices) <= TotalPrice(tradable, prices)
  {
    var order := InRankOrder(ranking, alloc.Keys);
    var part := Inside(tradable, alloc.Keys);
    var rest := Outside(tradable, alloc.Keys);
    InsideFacts(ranking, alloc.Keys);
    InsideFacts(tradable, alloc.Keys);
    OutsideFacts(tradable, alloc.Keys);
    assert Elements(order) == Elements(part);
    SamePositionsSameSum(order, part, alloc);
    SamePositionsSameSum(order, part, prices);
    SumSplit(tradable, alloc, alloc.Keys);
    SumSplit(tradable, prices, alloc.Keys);
    SumCongruent(rest, alloc, map[]);
    SumConstant(rest, map[], 0.0);
    TimesIsProduct(|rest|, 0.0);
    SumMonotone(rest, map[], prices);
  }

  /** The tail of `_allocate`: round, value and describe the funded names. */
  method Assemble(tradable: seq<Name>, market: Market, spec: BookSpec, held: set<Name>,
                  ranking: seq<Name>, eligible: nat, notes: seq<Note>,
                  alloc: map<Name, real>, binding: map<Name, Binding>, ghost left: real)
    returns (book: TargetBook)
    requires Distinct(tradable) && Distinct(ranking) && 0.0 <= spec.maxParticipation && spec.capital != 0.0
    requires forall t :: t in tradable ==> t in ranking && t in market.prices && market.prices[t] > 0.0
    requires (alloc, left) == Fill(tradable, CapTable(tradable, market, spec.maxParticipation), spec.capital)
    requires binding.Keys == alloc.Keys
    requires BindingsMeanWhatTheySay(alloc, binding, CapTable(tradable, market, spec.maxParticipation), left)
    ensures IsBook(book, tradable, market, spec, held, ranking)
    ensures book.eligible == eligible
    ensures book.notes == notes + TooSmall(Outside(InRankOrder(ranking, alloc.Keys), Affordable(alloc, market.prices)))
  {
    FillConserves(tradable, CapTable(tradable, market, spec.maxParticipation), spec.capital);
    RankOrderTotals(tradable, ranking, alloc, market.prices);
    var order := InRankOrder(ranking, alloc.Keys);
    InsideFacts(ranking, alloc.Keys);
    assert forall t :: t in Elements(tradable) ==> t in tradable;
    var positions, small := PlaceShares(order, alloc, binding, market.prices, spec.capital, held, ranking);
    BoughtInRankOrder(ranking, alloc, market.prices);
    assert alloc != map[] ==> order != [] by {
      if alloc != map[] {
        var t :| t in alloc;
        assert t in Elements(order);
      }
    }
    book := TargetBook(positions, Fraction(Invested(positions), spec.capital), eligible,
                       Outside(Tickers(positions), held), held - Elements(Tickers(positions)),
                       notes + small);
  }

  /** The name whose lookup raises first when the caps are tabulated. */
  method FirstUnread(names: seq<Name>, market: Market) returns (missing: Option<Name>)
    ensures missing.None? <==> AllRead(names, market)
    ensures missing.Some? ==> missing.value in names && missing.value !in market.adtv
  {
    for i := 0 to |names|
      invariant AllRead(names[..i], market)
    {
      if names[i] !in market.adtv {
        return Some(names[i]);
      }
    }
    assert names[..|names|] == names;
    return None;
  }

  method Deploy(tradable: seq<Name>, refused: seq<Note>, market: Market, spec: BookSpec,
                held: set<Name>, ranking: seq<Name>, eligible: nat)
    returns (r: Result<TargetBook, BookError>)
    requires Distinct(tradable) && Distinct(ranking) && 0.0 <= spec.maxParticipation
    requires forall t :: t in tradable ==> t in ranking && t in market.prices && market.prices[t] > 0.0
    ensures Deployed(r, tradable, refused, market, spec, held, ranking, eligible)
  {
    var missing := FirstUnread(tradable, market);
    if missing.Some? {
      return Err(NoReading(missing.value));
    }
    var alloc, binding, left :=
      Divide(tradable, CapTable(tradable, market, spec.maxParticipation), spec.capital);
    var notes := refused + (if left > 1.0 then [Unplaced(left)] else []);
    if spec.capital == 0.0 {
      return Err(ZeroCapital);
    }
    var book := Assemble(tradable, market, spec, held, ranking, eligible, notes, alloc, binding, left);
    return Ok(book);
  }

  /** `_allocate`. */
  method Allocate(chosen: seq<Name>, market: Market, spec: BookSpec, held: set<Name>,
                  ranking: seq<Name>, eligible: nat)
    returns (r: Result<TargetBook, BookError>)
    requires Distinct(chosen) && Distinct(ranking) && forall t :: t in chosen ==> t in ranking
    requires 0.0 <= spec.maxParticipation
    ensures Allocated(r, chosen, market, spec, held, ranking, eligible)
  {
    var tradable, notes := Screen(chosen, market, spec.requireKnown);
    InsideFacts(chosen, SizableNames(chosen, market, spec.requireKnown));
    if tradable == [] {
      return Ok(TargetBook([], 0.0, eligible, [], {}, notes + [NothingSizable]));
    }
    r := Deploy(tradable, notes, market, spec, held, ranking, eligible);
  }

  lemma BoughtInRankOrder(ranking: seq<Name>, alloc: map<Name, real>, prices: map<Name, real>)
    ensures Inside(InRankOrder(ranking, alloc.Keys), Affordable(alloc, prices))
            == InRankOrder(ranking, Affordable(alloc, prices))
  {
    if ranking == [] {
    } else {
      BoughtInRankOrder(ranking[1..], alloc, prices);
    }
  }

  // ---- the entry points -------------------------------------------------------

  /** `size_book`: equal weight over an already-selected list. */
  method SizeBook(chosen: seq<Name>, market: Market, spec: BookSpec, held: set<Name>)
    returns (r: Result<TargetBook, BookError>)
    requires Distinct(chosen) && 0.0 <= spec.maxParticipation
    ensures chosen == [] ==> r == Ok(TargetBook([], 0.0, 0, [], {}, [NothingSelected]))
    ensures chosen != [] ==> Allocated(r, chosen, market, spec, held, chosen, |chosen|)
  {
    if chosen == [] {
      return Ok(TargetBook([], 0.0, 0, [], {}, [NothingSelected]));
    }
    r := Allocate(chosen, market, spec, held, chosen, |chosen|);
  }

  function Target(ranking: seq<Name>, spec: BookSpec): nat {
    TargetCount(|ranking|, spec.entryPercentile, spec.minNames, spec.maxNames)
  }

  function ExitCut(ranking: seq<Name>, spec: BookSpec): (cut: nat)
    ensures cut >= MaxInt(Target(ranking, spec), 1)
  {
    MaxInt((|ranking| as real * spec.exitPercentile).Floor, MaxInt(Target(ranking, spec), 1))
  }

  function Selected(ranking: seq<Name>, spec: BookSpec, held: set<Name>): seq<Name> {
    Choose(ranking, held, Target(ranking, spec), ExitCut(ranking, spec))
  }

  /** `build_book`: select with hysteresis, then size. */
  method BuildBook(ranking: seq<Name>, market: Market, spec: BookSpec, held: set<Name>)
    returns (r: Result<TargetBook, BookError>)
    requires Distinct(ranking) && 0.0 <= spec.maxParticipation
    ensures ranking == [] ==> r == Ok(TargetBook([], 0.0, 0, [], {}, [NothingEligible]))
    ensures ranking != [] ==>
              Allocated(r, Selected(ranking, spec, held), market, spec, held, ranking, |ranking|)
  {
    if ranking == [] {
      return Ok(TargetBook([], 0.0, 0, [], {}, [NothingEligible]));
    }
    var target, exitCut := Target(ranking, spec), ExitCut(ranking, spec);
    var keep := Keepers(ranking, held, target, exitCut);
    var added := Fresh(ranking, held, target, exitCut);
    var chosen := InRankOrder(ranking, Elements(keep) + Elements(added));
    Chosen(ranking, held, target, exitCut);
    r := Allocate(chosen, market, spec, held, ranking, |ranking|);
  }

  // ---- the selection in terms of the ranking and the spec -------------------------

  /** The number of kept elements, as the size of a set. */
  lemma NamesInside(s: seq<Name>, keep: set<Name>)
    requires Distinct(s)
    ensures |Inside(s, keep)| == |(set u | u in s) * keep|
    ensures |Outside(s, keep)| == |(set u | u in s) - keep|
  {
    InsideFacts(s, keep);
    OutsideFacts(s, keep);
    DistinctSize(Inside(s, keep));
    DistinctSize(Outside(s, keep));
    assert Elements(Inside(s, keep)) == (set u | u in s) * keep;
    assert Elements(Outside(s, keep)) == (set u | u in s) - keep;
  }

  /** A part of `n` names, rounded down. */
  ghost function PartOf(n: nat, part: real): int { (n as real * part).Floor }

  /** `n` names fill `t` slots and are kept down to `cut`: both as the spec's percentiles say. */
  ghost predicate BandOf(n: nat, spec: BookSpec, t: int, cut: int) {
    var inside, wide := PartOf(n, spec.entryPercentile), PartOf(n, spec.exitPercentile);
    && t == (if spec.minNames >= spec.maxNames || spec.minNames >= inside then spec.minNames
             else if inside <= spec.maxNames then inside else spec.maxNames)
    && cut == (if wide >= t && wide >= 1 then wide else if t >= 1 then t else 1)
  }

  lemma TargetFromPart(n: nat, part: real, least: nat, most: nat)
    ensures TargetCount(n, part, least, most) == MaxInt(least, MinInt(most, PartOf(n, part)))
  {
  }

  lemma CutFromPart(ranking: seq<Name>, spec: BookSpec)
    ensures ExitCut(ranking, spec)
            == MaxInt(PartOf(|ranking|, spec.exitPercentile), MaxInt(Target(ranking, spec), 1))
  {
  }

  lemma BandIsTheCuts(ranking: seq<Name>, spec: BookSpec, t: int, cut: int)
    requires BandOf(|ranking|, spec, t, cut)
    ensures t == Target(ranking, spec) && cut == ExitCut(ranking, spec)
  {
    var n := |ranking|;
    var inside, wide := PartOf(n, spec.entryPercentile), PartOf(n, spec.exitPercentile);
    BoundsOf(spec.minNames, spec.maxNames, inside, wide, t, cut);
    TargetFromPart(n, spec.entryPercentile, spec.minNames, spec.maxNames);
    CutFromPart(ranking, spec);
  }

  lemma BoundsOf(least: int, most: int, inside: int, wide: int, t: int, cut: int)
    requires t == if least >= most || least >= inside then least else if inside <= most then inside else most
    requires cut == if wide >= t && wide >= 1 then wide else if t >= 1 then t else 1
    ensures t == MaxInt(least, MinInt(most, inside)) && cut == MaxInt(wide, MaxInt(t, 1))
  {
  }

  /** What the selection holds, name by name: an incumbent inside the exit band below fewer than
      `t` others, and a newcomer among the first `t` that the incumbents left a slot. */
  lemma {:induction false} SelectionMeans(ranking: seq<Name>, spec: BookSpec, held: set<Name>, i: nat,
                                          t: int, cut: int)
    requires Distinct(ranking) && i < |ranking| && BandOf(|ranking|, spec, t, cut)
    ensures var above := set u | u in ranking[..i];
            var keepers := |(set u | u in Take(ranking, cut)) * held|;
            ranking[i] in Selected(ranking, spec, held) <==>
              if ranking[i] in held then i < cut && |above * held| < t
              else i < t && |above - held| + keepers < t
  {
    BandIsTheCuts(ranking, spec, t, cut);
    NamesInside(ranking[..i], held);
    NamesInside(Take(ranking, cut), held);
    if ranking[i] in held {
      IncumbentKept(ranking, held, t, cut, i);
    } else {
      NewcomerChosen(ranking, held, t, cut, i);
    }
  }

  lemma {:induction false} InsideKeepsOrder(s: seq<Name>, keep: set<Name>, p: nat, q: nat)
    requires p < q < |Inside(s, keep)|
    ensures exists i: nat, j: nat :: i < j < |s| && s[i] == Inside(s, keep)[p] && s[j] == Inside(s, keep)[q]
  {
    if s[0] !in keep {
      InsideKeepsOrder(s[1..], keep, p, q);
      var i: nat, j: nat :| i < j < |s| - 1 && s[1..][i] == Inside(s, keep)[p] && s[1..][j] == Inside(s, keep)[q];
      assert s[i + 1] == Inside(s, keep)[p] && s[j + 1] == Inside(s, keep)[q];
    } else if p == 0 {
      InsideFacts(s[1..], keep);
      assert Inside(s, keep)[q] in Inside(s[1..], keep);
      var j: nat :| j < |s| - 1 && s[1..][j] == Inside(s, keep)[q];
      assert s[0] == Inside(s, keep)[p] && s[j + 1] == Inside(s, keep)[q];
    } else {
      InsideKeepsOrder(s[1..], keep, p - 1, q - 1);
      var i: nat, j: nat :| i < j < |s| - 1 && s[1..][i] == Inside(s, keep)[p] && s[1..][j] == Inside(s, keep)[q];
      assert s[i + 1] == Inside(s, keep)[p] && s[j + 1] == Inside(s, keep)[q];
    }
  }

  /** The selection lists `t` names, or all there are, each once, none from elsewhere, best first. */
  lemma {:induction false} SelectionShape(ranking: seq<Name>, spec: BookSpec, held: set<Name>, t: int, cut: int)
    requires Distinct(ranking) && BandOf(|ranking|, spec, t, cut)
    ensures var chosen := Selected(ranking, spec, held);
            && |chosen| == (if t <= |ranking| then t else |ranking|)
            && (forall u :: u in chosen ==> u in ranking)
            && forall p: nat, q: nat :: p < q < |chosen| ==>
                 exists i: nat, j: nat :: i < j < |ranking| && ranking[i] == chosen[p] && ranking[j] == chosen[q]
  {
    BandIsTheCuts(ranking, spec, t, cut);
    ChoosesTargetCount(ranking, held, t, cut);
    Chosen(ranking, held, t, cut);
    var names := Elements(Keepers(ranking, held, t, cut)) + Elements(Fresh(ranking, held, t, cut));
    forall p: nat, q: nat | p < q < |Selected(ranking, spec, held)|
      ensures exists i: nat, j: nat :: i < j < |ranking| && ranking[i] == Selected(ranking, spec, held)[p]
                                       && ranking[j] == Selected(ranking, spec, held)[q]
    {
      InsideKeepsOrder(ranking, names, p, q);
    }
  }

  // ---- what a book is worth -----------------------------------------------------

  /** The book is never levered. */
  lemma {:induction false} NeverLevered(r: Result<TargetBook, BookError>, chosen: seq<Name>, market: Market,
                     spec: BookSpec, held: set<Name>, ranking: seq<Name>, eligible: nat)
    requires 0.0 <= spec.maxParticipation && Distinct(chosen) && 0.0 < spec.capital
    requires r.Ok? && Allocated(r, chosen, market, spec, held, ranking, eligible)
    ensures Invested(r.value.positions) <= spec.capital && r.value.investedFraction <= 1.0
  {
    var tradable := Tradable(chosen, market, spec.requireKnown);
    InsideFacts(chosen, SizableNames(chosen, market, spec.requireKnown));
    if tradable != [] {
      var caps := CapTable(tradable, market, spec.maxParticipation);
      FillConserves(tradable, caps, spec.capital);
      FractionAtMostOne(Invested(r.value.positions), spec.capital);
    }
  }

  /** With capital for every name and caps that can absorb it, the only cash
      left over is what whole shares cannot buy: less than one share a name. */
  lemma {:induction false} FullyInvested(r: Result<TargetBook, BookError>, chosen: seq<Name>, market: Market,
                     spec: BookSpec, held: set<Name>, ranking: seq<Name>, eligible: nat)
    requires 0.0 <= spec.maxParticipation && Distinct(chosen)
    requires r.Ok? && Allocated(r, chosen, market, spec, held, ranking, eligible)
    requires var tradable := Tradable(chosen, market, spec.requireKnown);
             && tradable != [] && 1.0 < spec.capital && |tradable| as real <= spec.capital
             && spec.capital <= Sum(tradable, CapTable(tradable, market, spec.maxParticipation))
    ensures spec.capital - Invested(r.value.positions)
            < TotalPrice(Tradable(chosen, market, spec.requireKnown), market.prices)
  {
    var tradable := Tradable(chosen, market, spec.requireKnown);
    InsideFacts(chosen, SizableNames(chosen, market, spec.requireKnown));
    var caps := CapTable(tradable, market, spec.maxParticipation);
    EveryNameFunded(tradable, caps, spec.capital);
    PlacesTheCapital(tradable, caps, spec.capital);
    assert tradable[0] in Elements(tradable);
  }

  // ---- what a book says, from the market and the spec ------------------------------

  /** Priced above zero, and with a known reading above zero when one is asked for. */
  ghost predicate CanBeSized(t: Name, market: Market, requireKnown: bool) {
    && t in market.prices && market.prices[t] > 0.0
    && (requireKnown ==> t in market.adtv && market.adtv[t].Some? && market.adtv[t].value > 0.0)
  }

  /** The part of its traded value the spec allows, nothing without a reading above zero. */
  ghost function Room(t: Name, market: Market, spec: BookSpec): real {
    if t in market.adtv && market.adtv[t].Some? && market.adtv[t].value > 0.0
    then market.adtv[t].value * spec.maxParticipation else 0.0
  }

  /** What the capital comes to for a name: the level every name is filled to, or its room. */
  ghost function Portion(t: Name, market: Market, spec: BookSpec, level: real): real {
    if Room(t, market, spec) <= level then Room(t, market, spec) else level
  }

  lemma CapIsRoom(t: Name, market: Market, spec: BookSpec)
    requires 0.0 <= spec.maxParticipation
    ensures market.Cap(t, spec.maxParticipation) == Room(t, market, spec)
  {
  }

  ghost predicate Bought(t: Name, book: TargetBook) {
    exists p :: p in book.positions && p.ticker == t
  }

  /** A position buys as many whole shares of a chosen name as its portion affords. */
  ghost predicate BuysItsPortion(p: Position, chosen: seq<Name>, market: Market, spec: BookSpec, held: set<Name>,
                                 ranking: seq<Name>, level: real)
  {
    && p.ticker in chosen && CanBeSized(p.ticker, market, spec.requireKnown)
    && p.price == market.prices[p.ticker] && p.shares > 0
    && p.value == p.shares as real * p.price
    && p.value <= Portion(p.ticker, market, spec, level) < p.value + p.price
    && IsPart(p.weight, p.value, spec.capital)
    && 0 < p.rank <= |ranking| && ranking[p.rank - 1] == p.ticker
    && (p.heldBefore <==> p.ticker in held)
  }

  lemma TickersAreBought(book: TargetBook)
    ensures forall t :: t in Tickers(book.positions) <==> Bought(t, book)
  {
    forall t | Bought(t, book) ensures t in Tickers(book.positions) {
      var p :| p in book.positions && p.ticker == t;
      var i :| 0 <= i < |book.positions| && book.positions[i] == p;
      assert Tickers(book.positions)[i] == t;
    }
    forall t | t in Tickers(book.positions) ensures Bought(t, book) {
      var i :| 0 <= i < |book.positions| && Tickers(book.positions)[i] == t;
      assert book.positions[i].ticker == t;
    }
  }

  lemma SizableIsCanBeSized(chosen: seq<Name>, market: Market, requireKnown: bool)
    ensures forall t :: t in Tradable(chosen, market, requireKnown)
                        <==> t in chosen && CanBeSized(t, market, requireKnown)
  {
    InsideFacts(chosen, SizableNames(chosen, market, requireKnown));
  }

  lemma PortionIsTheAmount(tradable: seq<Name>, market: Market, spec: BookSpec) returns (level: real)
    requires Distinct(tradable) && tradable != [] && 0.0 <= spec.maxParticipation
    ensures var alloc := Fill(tradable, CapTable(tradable, market, spec.maxParticipation), spec.capital).0;
            && (forall t :: t in alloc ==> t in tradable && alloc[t] == Portion(t, market, spec, level))
            && (alloc != map[] ==> level >= spec.capital / |tradable| as real)
  {
    var caps := CapTable(tradable, market, spec.maxParticipation);
    level := FundedLevel(tradable, caps, spec.capital);
    var alloc := Fill(tradable, caps, spec.capital).0;
    forall t | t in alloc ensures alloc[t] == Portion(t, market, spec, level) {
      CapIsRoom(t, market, spec);
    }
  }

  ghost predicate IsPart(f: real, part: real, whole: real) {
    f * whole == part
  }

  lemma FractionTimes(part: real, whole: real, f: real)
    requires whole != 0.0 && f == Fraction(part, whole)
    ensures IsPart(f, part, whole)
  {
  }

  lemma SizedBuysItsPortion(p: Position, alloc: map<Name, real>, chosen: seq<Name>, market: Market, spec: BookSpec,
                            held: set<Name>, ranking: seq<Name>, level: real)
    requires spec.capital != 0.0 && Sized(p, alloc, market.prices, spec.capital, held, ranking)
    requires p.ticker in chosen && CanBeSized(p.ticker, market, spec.requireKnown)
    requires alloc[p.ticker] == Portion(p.ticker, market, spec, level)
    ensures BuysItsPortion(p, chosen, market, spec, held, ranking, level)
  {
    FractionTimes(p.value, spec.capital, p.weight);
  }

  /** The positions of a book, from the market and the spec alone. */
  lemma {:induction false} PositionsMean(book: TargetBook, chosen: seq<Name>, market: Market, spec: BookSpec,
                                         held: set<Name>, ranking: seq<Name>, eligible: nat)
    returns (level: real)
    requires 0.0 <= spec.maxParticipation && Distinct(chosen)
    requires Allocated(Ok(book), chosen, market, spec, held, ranking, eligible)
    requires exists t :: t in chosen && CanBeSized(t, market, spec.requireKnown)
    ensures spec.capital != 0.0
    ensures forall p :: p in book.positions ==> BuysItsPortion(p, chosen, market, spec, held, ranking, level)
    ensures 1.0 < spec.capital && |chosen| as real <= spec.capital ==>
              forall t :: t in chosen && t in ranking && CanBeSized(t, market, spec.requireKnown) ==>
                (Bought(t, book) <==> market.prices[t] <= Portion(t, market, spec, level))
  {
    var tradable := Tradable(chosen, market, spec.requireKnown);
    SizableIsCanBeSized(chosen, market, spec.requireKnown);
    InsideFacts(chosen, SizableNames(chosen, market, spec.requireKnown));
    assert tradable != [];
    var caps := CapTable(tradable, market, spec.maxParticipation);
    var alloc := Fill(tradable, caps, spec.capital).0;
    level := PortionIsTheAmount(tradable, market, spec);
    forall p | p in book.positions ensures BuysItsPortion(p, chosen, market, spec, held, ranking, level) {
      SizedBuysItsPortion(p, alloc, chosen, market, spec, held, ranking, level);
    }
    TickersAreBought(book);
    InsideFacts(ranking, Affordable(alloc, market.prices));
    if 1.0 < spec.capital && |chosen| as real <= spec.capital {
      EveryNameFunded(tradable, caps, spec.capital);
      assert forall t :: t in tradable ==> t in Elements(tradable);
    }
  }

  /** What was bought is the sum of the values. */
  lemma {:induction false} InvestedMeans(a: seq<Position>, b: seq<Position>, p: Position)
    ensures Invested(a + b) == Invested(a) + Invested(b) && Invested([p]) == p.value
  {
    assert [p][..0] == [];
    if b == [] {
      assert a + b == a;
    } else {
      var n := |b| - 1;
      InvestedMeans(a, b[..n], p);
      assert (a + b)[..|a| + n] == a + b[..n];
    }
  }

  ghost predicate BestFirst(positions: seq<Position>) {
    forall a, b :: 0 <= a < b < |positions| ==> positions[a].rank < positions[b].rank
  }

  ghost predicate EntersAndExits(book: TargetBook, held: set<Name>) {
    && (forall t :: t in book.entries <==> Bought(t, book) && t !in held)
    && (forall t :: t in book.exits <==> t in held && !Bought(t, book))
  }

  lemma PositionsInRankOrder(positions: seq<Position>, ranking: seq<Name>, names: set<Name>)
    requires Distinct(ranking) && Tickers(positions) == InRankOrder(ranking, names)
    requires forall p :: p in positions ==> 0 < p.rank <= |ranking| && ranking[p.rank - 1] == p.ticker
    ensures BestFirst(positions)
  {
    forall a, b | 0 <= a < b < |positions| ensures positions[a].rank < positions[b].rank {
      InsideKeepsOrder(ranking, names, a, b);
      var i: nat, j: nat :| i < j < |ranking| && ranking[i] == Tickers(positions)[a]
                            && ranking[j] == Tickers(positions)[b];
      assert positions[a] in positions && positions[b] in positions;
    }
  }

  /** The book's own figures: ranks rise, the fraction is what was bought over the capital, entries
      are the names bought that were not held, exits the names held that were not bought. */
  lemma {:induction false} BookMeans(book: TargetBook, chosen: seq<Name>, market: Market, spec: BookSpec,
                                     held: set<Name>, ranking: seq<Name>, eligible: nat)
    requires 0.0 <= spec.maxParticipation && Distinct(ranking)
    requires Allocated(Ok(book), chosen, market, spec, held, ranking, eligible)
    requires exists t :: t in chosen && CanBeSized(t, market, spec.requireKnown)
    ensures book.eligible == eligible
    ensures IsPart(book.investedFraction, Invested(book.positions), spec.capital)
    ensures BestFirst(book.positions) && EntersAndExits(book, held)
  {
    SizableIsCanBeSized(chosen, market, spec.requireKnown);
    var tradable := Tradable(chosen, market, spec.requireKnown);
    assert tradable != [];
    var caps := CapTable(tradable, market, spec.maxParticipation);
    var (alloc, left) := Fill(tradable, caps, spec.capital);
    FractionTimes(Invested(book.positions), spec.capital, book.investedFraction);
    TradesMean(book, held);
    RanksRise(book.positions, alloc, left, caps, market.prices, spec.capital, held, ranking);
  }

  lemma TradesMean(book: TargetBook, held: set<Name>)
    requires book.entries == Outside(Tickers(book.positions), held)
    requires book.exits == held - Elements(Tickers(book.positions))
    ensures EntersAndExits(book, held)
  {
    TickersAreBought(book);
    OutsideFacts(Tickers(book.positions), held);
  }

  lemma RanksRise(positions: seq<Position>, alloc: map<Name, real>, left: real, caps: map<Name, real>,
                  prices: map<Name, real>, capital: real, held: set<Name>, ranking: seq<Name>)
    requires capital != 0.0 && Distinct(ranking)
    requires Holdings(positions, alloc, left, caps, prices, capital, held, ranking)
    ensures BestFirst(positions)
  {
    PositionsInRankOrder(positions, ranking, Affordable(alloc, prices));
  }

  /** Why a name was refused, from its price and its reading. */
  ghost predicate RefusedFor(note: Note, t: Name, market: Market, requireKnown: bool) {
    if t !in market.prices || market.prices[t] <= 0.0 then note == NoPrice(t)
    else
      && requireKnown
      && (if t in market.adtv && market.adtv[t].Some?
          then market.adtv[t].value <= 0.0 && note == NotLiquid(t, Invalid)
          else note == NotLiquid(t, Missing))
  }

  lemma RefusalIsForCause(t: Name, market: Market, requireKnown: bool)
    requires !market.Sizable(t, requireKnown)
    ensures RefusedFor(Refusal(t, market), t, market, requireKnown)
  {
  }

  ghost predicate EachRefused(notes: seq<Note>, names: seq<Name>, market: Market, requireKnown: bool) {
    && |names| <= |notes|
    && forall i :: 0 <= i < |names| ==> RefusedFor(notes[i], names[i], market, requireKnown)
  }

  lemma AllRefusedForCause(names: seq<Name>, market: Market, requireKnown: bool)
    requires forall t :: t in names ==> !market.Sizable(t, requireKnown)
    ensures EachRefused(Refusals(names, market), names, market, requireKnown)
  {
    forall i | 0 <= i < |names| ensures RefusedFor(Refusal(names[i], market), names[i], market, requireKnown) {
      assert names[i] in names;
      RefusalIsForCause(names[i], market, requireKnown);
    }
  }

  /** Every chosen name that cannot be sized is noted with its cause, in order, ahead of whatever
      else is noted; if none can be sized the book is empty and says so. */
  lemma {:induction false} NotesMean(book: TargetBook, chosen: seq<Name>, market: Market, spec: BookSpec,
                                     held: set<Name>, ranking: seq<Name>, eligible: nat) returns (refused: seq<Name>)
    requires 0.0 <= spec.maxParticipation
    requires Allocated(Ok(book), chosen, market, spec, held, ranking, eligible)
    ensures forall t :: t in refused <==> t in chosen && !CanBeSized(t, market, spec.requireKnown)
    ensures EachRefused(book.notes, refused, market, spec.requireKnown)
    ensures (forall t :: t in chosen ==> t in refused) ==>
              book == TargetBook([], 0.0, eligible, [], {}, book.notes[..|refused|] + [NothingSizable])
    ensures (exists t :: t in chosen && t !in refused) ==> Closing(book.notes[|refused|..])
  {
    var sizable := SizableNames(chosen, market, spec.requireKnown);
    refused := Outside(chosen, sizable);
    OutsideFacts(chosen, sizable);
    SizableIsCanBeSized(chosen, market, spec.requireKnown);
    InsideFacts(chosen, sizable);
    AllRefusedForCause(refused, market, spec.requireKnown);
    var tradable := Tradable(chosen, market, spec.requireKnown);
    if tradable == [] {
      assert book.notes[..|refused|] == Refusals(refused, market);
    } else {
      var (alloc, left) := Fill(tradable, CapTable(tradable, market, spec.maxParticipation), spec.capital);
      AfterTheRefusals(Refusals(refused, market), left,
                       Outside(InRankOrder(ranking, alloc.Keys), Affordable(alloc, market.prices)));
    }
  }

  ghost predicate Closing(notes: seq<Note>) {
    forall note :: note in notes ==> note.Unplaced? || note.BelowOneShare?
  }

  lemma AfterTheRefusals(refused: seq<Note>, left: real, poor: seq<Name>)
    ensures var notes := refused + (if left > 1.0 then [Unplaced(left)] else []) + TooSmall(poor);
            |refused| <= |notes| && Closing(notes[|refused|..])
  {
    var middle := if left > 1.0 then [Unplaced(left)] else [];
    assert (refused + middle + TooSmall(poor))[|refused|..] == middle + TooSmall(poor);
  }

  lemma ManyBelowOneShare(names: seq<Name>, t: Name)
    ensures BelowOneShare(t) in TooSmall(names) <==> t in names
  {
    if t in names {
      var i :| 0 <= i < |names| && names[i] == t;
      assert TooSmall(names)[i] == BelowOneShare(t);
    }
  }

  /** Which of the closing notes are there. */
  lemma ClosingNotes(refused: seq<Note>, left: real, poor: seq<Name>, t: Name, x: real)
    requires forall note :: note in refused ==> note.NoPrice? || note.NotLiquid?
    ensures var notes := refused + (if left > 1.0 then [Unplaced(left)] else []) + TooSmall(poor);
            && (Unplaced(x) in notes <==> x > 1.0 && x == left)
            && (BelowOneShare(t) in notes <==> t in poor)
  {
    ManyBelowOneShare(poor, t);
    var middle := if left > 1.0 then [Unplaced(left)] else [];
    assert forall note :: note in refused + middle + TooSmall(poor) <==>
                            note in refused || note in middle || note in TooSmall(poor);
  }

  /** What a division of the capital over the chosen names is: each funded name can be sized and
      has its portion at the level, and what is left is the capital less what was handed out. */
  ghost predicate Divided(alloc: map<Name, real>, left: real, chosen: seq<Name>, market: Market, spec: BookSpec,
                          level: real)
  {
    && (forall t :: t in alloc ==>
          t in chosen && CanBeSized(t, market, spec.requireKnown) && alloc[t] == Portion(t, market, spec, level))
    && Sum(chosen, alloc) + left == spec.capital
  }

  lemma {:induction false} FundsAreDivided(chosen: seq<Name>, market: Market, spec: BookSpec) returns (level: real)
    requires 0.0 <= spec.maxParticipation && Distinct(chosen)
    requires Tradable(chosen, market, spec.requireKnown) != []
    ensures var tradable := Tradable(chosen, market, spec.requireKnown);
            var (alloc, left) := Fill(tradable, CapTable(tradable, market, spec.maxParticipation), spec.capital);
            Divided(alloc, left, chosen, market, spec, level)
  {
    var sizable := SizableNames(chosen, market, spec.requireKnown);
    var tradable := Tradable(chosen, market, spec.requireKnown);
    SizableIsCanBeSized(chosen, market, spec.requireKnown);
    InsideFacts(chosen, sizable);
    var caps := CapTable(tradable, market, spec.maxParticipation);
    level := PortionIsTheAmount(tradable, market, spec);
    FillConserves(tradable, caps, spec.capital);
    SumOverTradable(chosen, sizable, Fill(tradable, caps, spec.capital).0);
  }

  lemma RefusalsRefuse(names: seq<Name>, market: Market)
    ensures forall note :: note in Refusals(names, market) ==> note.NoPrice? || note.NotLiquid?
  {
  }

  lemma {:induction false} DeployedNotes(book: TargetBook, tradable: seq<Name>, refused: seq<Note>, market: Market,
                                         spec: BookSpec, held: set<Name>, ranking: seq<Name>, eligible: nat,
                                         t: Name, x: real)
    requires 0.0 <= spec.maxParticipation && forall u :: u in tradable ==> u in ranking && u in market.prices
    requires Deployed(Ok(book), tradable, refused, market, spec, held, ranking, eligible)
    requires Distinct(tradable) && forall note :: note in refused ==> note.NoPrice? || note.NotLiquid?
    ensures var (alloc, left) := Fill(tradable, CapTable(tradable, market, spec.maxParticipation), spec.capital);
            && (Unplaced(x) in book.notes <==> x > 1.0 && x == left)
            && (BelowOneShare(t) in book.notes <==> t in alloc && alloc[t] < Get(market.prices, t))
  {
    var (alloc, left) := Fill(tradable, CapTable(tradable, market, spec.maxParticipation), spec.capital);
    FillConserves(tradable, CapTable(tradable, market, spec.maxParticipation), spec.capital);
    var order := InRankOrder(ranking, alloc.Keys);
    var poor := Outside(order, Affordable(alloc, market.prices));
    ClosingNotes(refused, left, poor, t, x);
    OutsideFacts(order, Affordable(alloc, market.prices));
    InsideFacts(ranking, alloc.Keys);
    assert forall u :: u in Elements(tradable) ==> u in tradable;
  }

  /** When the allocation raises: a name that can be sized has no entry in the liquidity table, or
      there is no capital to express weights in; never when no name can be sized. */
  lemma {:induction false} ErrorsMean(r: Result<TargetBook, BookError>, chosen: seq<Name>, market: Market,
                                      spec: BookSpec, held: set<Name>, ranking: seq<Name>, eligible: nat)
    requires 0.0 <= spec.maxParticipation
    requires Allocated(r, chosen, market, spec, held, ranking, eligible)
    ensures var unread := exists t :: t in chosen && CanBeSized(t, market, spec.requireKnown) && t !in market.adtv;
            && ((r.Err? && r.error.NoReading?) <==> unread)
            && (r.Err? && r.error.NoReading? ==>
                  r.error.ticker in chosen && CanBeSized(r.error.ticker, market, spec.requireKnown)
                  && r.error.ticker !in market.adtv)
            && (r == Err(ZeroCapital) <==>
                  !unread && spec.capital == 0.0 && exists t :: t in chosen && CanBeSized(t, market, spec.requireKnown))
  {
    var tradable := Tradable(chosen, market, spec.requireKnown);
    SizableIsCanBeSized(chosen, market, spec.requireKnown);
    if tradable != [] {
      assert tradable[0] in tradable;
    }
  }

  /** How each position came by its size: the equal share decided when the capital was placed in
      full and no name was given more, and otherwise the name has all its room. */
  ghost predicate BoundBy(p: Position, alloc: map<Name, real>, left: real, market: Market, spec: BookSpec) {
    && p.ticker in alloc
    && (p.binding == EqualWeight <==> left == 0.0 && forall u :: u in alloc ==> alloc[u] <= alloc[p.ticker])
    && (p.binding == LiquidityCap ==> alloc[p.ticker] == Room(p.ticker, market, spec))
  }

  lemma {:induction false} BindingsMean(book: TargetBook, tradable: seq<Name>, market: Market, spec: BookSpec,
                                        held: set<Name>, ranking: seq<Name>)
    requires 0.0 <= spec.maxParticipation && spec.capital != 0.0
    requires IsBook(book, tradable, market, spec, held, ranking)
    ensures var (alloc, left) := Fill(tradable, CapTable(tradable, market, spec.maxParticipation), spec.capital);
            forall p :: p in book.positions ==> BoundBy(p, alloc, left, market, spec)
  {
    var caps := CapTable(tradable, market, spec.maxParticipation);
    var (alloc, left) := Fill(tradable, caps, spec.capital);
    forall p | p in book.positions ensures BoundBy(p, alloc, left, market, spec) {
      CapIsRoom(p.ticker, market, spec);
    }
  }

  /** After the refusals: the capital left over, if more than a rupee, and each funded name whose
      amount is less than its price; and what bound each position. */
  lemma {:induction false} LeftoversMean(book: TargetBook, chosen: seq<Name>, market: Market, spec: BookSpec,
                                         held: set<Name>, ranking: seq<Name>, eligible: nat, t: Name, x: real)
    returns (alloc: map<Name, real>, left: real, level: real)
    requires 0.0 <= spec.maxParticipation && Distinct(chosen) && forall u :: u in chosen ==> u in ranking
    requires Allocated(Ok(book), chosen, market, spec, held, ranking, eligible)
    requires exists u :: u in chosen && CanBeSized(u, market, spec.requireKnown)
    ensures Divided(alloc, left, chosen, market, spec, level)
    ensures Unplaced(x) in book.notes <==> x > 1.0 && x == left
    ensures BelowOneShare(t) in book.notes <==> t in alloc && alloc[t] < Get(market.prices, t)
    ensures forall p :: p in book.positions ==> BoundBy(p, alloc, left, market, spec)
  {
    var sizable := SizableNames(chosen, market, spec.requireKnown);
    var tradable := Tradable(chosen, market, spec.requireKnown);
    SizableIsCanBeSized(chosen, market, spec.requireKnown);
    InsideFacts(chosen, sizable);
    var refused := Refusals(Outside(chosen, sizable), market);
    RefusalsRefuse(Outside(chosen, sizable), market);
    level := FundsAreDivided(chosen, market, spec);
    alloc, left := Fill(tradable, CapTable(tradable, market, spec.maxParticipation), spec.capital).0,
    Fill(tradable, CapTable(tradable, market, spec.maxParticipation), spec.capital).1;
    DeployedNotes(book, tradable, refused, market, spec, held, ranking, eligible, t, x);
    BindingsMean(book, tradable, market, spec, held, ranking);
  }

  lemma SumOverTradable(chosen: seq<Name>, sizable: set<Name>, alloc: map<Name, real>)
    requires alloc.Keys <= Elements(Inside(chosen, sizable))
    ensures Sum(chosen, alloc) == Sum(Inside(chosen, sizable), alloc)
  {
    SumSplit(chosen, alloc, sizable);
    OutsideFacts(chosen, sizable);
    InsideFacts(chosen, sizable);
    var rest := Outside(chosen, sizable);
    forall u | u in rest ensures Get(alloc, u) == 0.0 {
      assert u !in Elements(Inside(chosen, sizable));
    }
    SumConstant(rest, alloc, 0.0);
    TimesIsProduct(|rest|, 0.0);
  }

  /** Every name can be sized, an equal share of the capital buys one share of it, and so does
      what its liquidity allows. */
  ghost predicate Purchasable(chosen: seq<Name>, market: Market, spec: BookSpec)
    requires 0.0 <= spec.maxParticipation
  {
    && chosen != [] && 1.0 < spec.capital && |chosen| as real <= spec.capital
    && forall t :: t in chosen ==>
         && market.Sizable(t, spec.requireKnown)
         && market.prices[t] <= Share(spec.capital, |chosen|)
         && market.prices[t] <= market.Cap(t, spec.maxParticipation)
  }

  lemma {:induction false} ShareIsFloor(chosen: seq<Name>, market: Market, spec: BookSpec)
    requires 0.0 <= spec.maxParticipation && Distinct(chosen) && Purchasable(chosen, market, spec)
    ensures var alloc := Fill(chosen, CapTable(chosen, market, spec.maxParticipation), spec.capital).0;
            Affordable(alloc, market.prices) == Elements(chosen)
  {
    var caps := CapTable(chosen, market, spec.maxParticipation);
    var alloc := Fill(chosen, caps, spec.capital).0;
    EveryNameFunded(chosen, caps, spec.capital);
    var level := FillHasLevel(chosen, caps, spec.capital);
    forall t | t in chosen ensures t in Affordable(alloc, market.prices) {
      assert alloc[t] == Min(caps[t], level);
    }
    forall t | t in Affordable(alloc, market.prices) ensures t in chosen {
      assert t in Elements(chosen);
    }
  }

  lemma {:induction false} EveryNameIsBought(book: TargetBook, chosen: seq<Name>, market: Market, spec: BookSpec,
                                             held: set<Name>, ranking: seq<Name>, eligible: nat)
    requires 0.0 <= spec.maxParticipation && Distinct(chosen) && Purchasable(chosen, market, spec)
    requires Allocated(Ok(book), chosen, market, spec, held, ranking, eligible)
    ensures Tickers(book.positions) == InRankOrder(ranking, Elements(chosen))
  {
    InsideAll(chosen, SizableNames(chosen, market, spec.requireKnown));
    assert Tradable(chosen, market, spec.requireKnown) == chosen;
    ShareIsFloor(chosen, market, spec);
  }

  lemma SelectionIsInOrder(ranking: seq<Name>, spec: BookSpec, held: set<Name>)
    requires Distinct(ranking)
    ensures var chosen := Selected(ranking, spec, held);
            Distinct(chosen) && InRankOrder(ranking, Elements(chosen)) == chosen
  {
    var target, cut := Target(ranking, spec), ExitCut(ranking, spec);
    Chosen(ranking, held, target, cut);
    var names := Elements(Keepers(ranking, held, target, cut)) + Elements(Fresh(ranking, held, target, cut));
    InsideFacts(ranking, names);
    InsideCongruent(ranking, Elements(Inside(ranking, names)), names);
  }

  /** Building again on the same ranking and market, holding the book just built, trades
      nothing, if an equal share of the capital and the cap of each selected name buy a share. */
  lemma {:induction false} RebalanceTradesNothing(
    ranking: seq<Name>, market: Market, spec: BookSpec, held: set<Name>,
    first: TargetBook, second: TargetBook)
    requires Distinct(ranking) && 0.0 <= spec.maxParticipation
    requires Purchasable(Selected(ranking, spec, held), market, spec)
    requires Allocated(Ok(first), Selected(ranking, spec, held), market, spec, held, ranking, |ranking|)
    requires var mine := Elements(Tickers(first.positions));
             Allocated(Ok(second), Selected(ranking, spec, mine), market, spec, mine, ranking, |ranking|)
    ensures Tickers(first.positions) == Selected(ranking, spec, held)
    ensures Tickers(second.positions) == Tickers(first.positions)
    ensures second.entries == [] && second.exits == {}
  {
    var chosen := Selected(ranking, spec, held);
    SelectionIsInOrder(ranking, spec, held);
    EveryNameIsBought(first, chosen, market, spec, held, ranking, |ranking|);
    ChoiceIsStable(ranking, held, Target(ranking, spec), ExitCut(ranking, spec));
    var mine := Elements(chosen);
    assert Selected(ranking, spec, mine) == chosen;
    EveryNameIsBought(second, chosen, market, spec, mine, ranking, |ranking|);
    InsideAll(chosen, SizableNames(chosen, market, spec.requireKnown));
    OutsideNone(chosen, mine);
  }
}
