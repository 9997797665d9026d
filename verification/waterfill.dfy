/** Capital division by water-filling (`_allocate` in book.py). */
module WaterFill {
  import opened Common

  // ---- totals over a list of names ----------------------------------------

  /** A name that was never funded has been given nothing. */
  function Get(m: map<Name, real>, t: Name): real {
    if t in m then m[t] else 0.0
  }

  function Sum(names: seq<Name>, m: map<Name, real>): real {
    if names == [] then 0.0 else Get(m, names[0]) + Sum(names[1..], m)
  }

  /** `n` equal parts of size `v`, added up. */
  function Times(n: nat, v: real): real {
    if n == 0 then 0.0 else v + Times(n - 1, v)
  }

  lemma {:induction false} TimesIsProduct(n: nat, v: real)
    ensures Times(n, v) == n as real * v
  {
    if n == 0 {
    } else {
      TimesIsProduct(n - 1, v);
      assert n as real * v == (n - 1) as real * v + v;
    }
  }

  lemma TimesAdd(m: nat, n: nat, v: real)
    ensures Times(m + n, v) == Times(m, v) + Times(n, v)
  {
    if m == 0 {
    } else {
      TimesAdd(m - 1, n, v);
    }
  }

  lemma TimesMonotone(n: nat, v: real, w: real)
    ensures v <= w ==> Times(n, v) <= Times(n, w)
    ensures n > 0 && v < w ==> Times(n, v) < Times(n, w)
  {
    if n == 0 {
    } else {
      TimesMonotone(n - 1, v, w);
    }
  }

  lemma SumSplit(names: seq<Name>, m: map<Name, real>, part: set<Name>)
    ensures Sum(names, m) == Sum(Inside(names, part), m) + Sum(Outside(names, part), m)
  {
  }

  lemma SumMonotone(names: seq<Name>, a: map<Name, real>, b: map<Name, real>)
    requires forall t :: t in names ==> Get(a, t) <= Get(b, t)
    ensures Sum(names, a) <= Sum(names, b)
    ensures (exists t :: t in names && Get(a, t) < Get(b, t)) ==> Sum(names, a) < Sum(names, b)
  {
    if names == [] {
    } else {
      assert names == [names[0]] + names[1..];
      SumMonotone(names[1..], a, b);
    }
  }

  lemma SumCongruent(names: seq<Name>, a: map<Name, real>, b: map<Name, real>)
    requires forall t :: t in names ==> Get(a, t) == Get(b, t)
    ensures Sum(names, a) == Sum(names, b)
  {
    SumMonotone(names, a, b);
    SumMonotone(names, b, a);
  }

  lemma SumBelow(names: seq<Name>, m: map<Name, real>, v: real)
    requires forall t :: t in names ==> Get(m, t) < v
    ensures names != [] ==> Sum(names, m) < Times(|names|, v)
  {
    if names == [] {
    } else {
      assert names == [names[0]] + names[1..];
      SumBelow(names[1..], m, v);
    }
  }

  lemma SumConstant(names: seq<Name>, m: map<Name, real>, v: real)
    requires forall t :: t in names ==> Get(m, t) == v
    ensures Sum(names, m) == Times(|names|, v)
  {
    if names == [] {
    } else {
      assert names == [names[0]] + names[1..];
      SumConstant(names[1..], m, v);
    }
  }

  lemma SumUpdate(names: seq<Name>, m: map<Name, real>, t: Name, v: real)
    requires Distinct(names) && t in names && t !in m
    ensures Sum(names, m[t := v]) == Sum(names, m) + v
  {
    if names[0] == t {
      SumCongruent(names[1..], m[t := v], m);
    } else {
      SumUpdate(names[1..], m, t, v);
    }
  }

  lemma SumAppend(names: seq<Name>, t: Name, m: map<Name, real>)
    ensures Sum(names + [t], m) == Sum(names, m) + Get(m, t)
  {
    if names == [] {
    } else {
      assert (names + [t])[1..] == names[1..] + [t];
      SumAppend(names[1..], t, m);
    }
  }

  /** The order in which distinct names are listed does not change their total. */
  lemma {:induction false} SamePositionsSameSum(a: seq<Name>, b: seq<Name>, m: map<Name, real>)
    requires Distinct(a) && Distinct(b) && Elements(a) == Elements(b)
    ensures Sum(a, m) == Sum(b, m)
    decreases |a|
  {
    if a == [] {
      DistinctSize(b);
    } else {
      var x := a[0];
      assert x in Elements(a);
      SumSplit(b, m, {x});
      InsideFacts(b, {x});
      OutsideFacts(b, {x});
      var ones := Inside(b, {x});
      assert x in ones;
      forall i | 0 <= i < |ones| ensures ones[i] == x {
        assert ones[i] in ones;
      }
      assert forall t :: t in a <==> t in b by {
        assert forall t :: t in a <==> t in Elements(a);
        assert forall t :: t in b <==> t in Elements(b);
      }
      assert Elements(a[1..]) == Elements(Outside(b, {x}));
      SamePositionsSameSum(a[1..], Outside(b, {x}), m);
    }
  }

  // ---- the allocation -----------------------------------------------------

  ghost predicate ValidCaps(names: seq<Name>, caps: map<Name, real>) {
    forall t :: t in names ==> t in caps && 0.0 <= caps[t]
  }

  function Share(remaining: real, n: nat): (share: real)
    requires n > 0
    ensures Times(n, share) == remaining
  {
    TimesIsProduct(n, remaining / n as real);
    remaining / n as real
  }

  function Capped(open: seq<Name>, caps: map<Name, real>, share: real): set<Name> {
    set t | t in open && Get(caps, t) < share
  }

  /** What the allocation loop computes from `open` and `remaining`: the
      amounts it hands out, and the capital it leaves unplaced. */
  function Fill(open: seq<Name>, caps: map<Name, real>, remaining: real): (map<Name, real>, real)
    decreases |open|
  {
    if open == [] || remaining <= 1.0 then (map[], remaining)
    else
      var share := Share(remaining, |open|);
      var low := Capped(open, caps, share);
      if low == {} then (map t | t in open :: share, 0.0)
      else
        NonEmptyInside(open, low);
        var (later, left) :=
          Fill(Outside(open, low), caps, remaining - Sum(Inside(open, low), caps));
        ((map t | t in low :: Get(caps, t)) + later, left)
  }

  lemma NonEmptyInside(open: seq<Name>, low: set<Name>)
    requires low != {} && forall t :: t in low ==> t in open
    ensures |Inside(open, low)| > 0
    ensures |Outside(open, low)| < |open|
  {
    InsideFacts(open, low);
    OutsideFacts(open, low);
    var t :| t in low;
    assert t in Inside(open, low);
  }

  /** Removing the capped names leaves strictly more than a share for each
      name that stays open: the share only ever rises. */
  lemma {:induction false} ShareRises(open: seq<Name>, caps: map<Name, real>, share: real)
    requires Capped(open, caps, share) != {}
    ensures var low := Capped(open, caps, share);
            Times(|open|, share) - Sum(Inside(open, low), caps) > Times(|Outside(open, low)|, share)
  {
    var low := Capped(open, caps, share);
    InsideFacts(open, low);
    OutsideFacts(open, low);
    NonEmptyInside(open, low);
    SumBelow(Inside(open, low), caps, share);
    TimesAdd(|Inside(open, low)|, |Outside(open, low)|, share);
  }

  lemma {:induction false} RestRises(open: seq<Name>, caps: map<Name, real>, remaining: real)
    requires open != [] && Capped(open, caps, Share(remaining, |open|)) != {}
    ensures var low := Capped(open, caps, Share(remaining, |open|));
            var rest, after := Outside(open, low), remaining - Sum(Inside(open, low), caps);
            && after > Times(|rest|, Share(remaining, |open|))
            && (rest != [] ==> Share(after, |rest|) > Share(remaining, |open|))
  {
    var low := Capped(open, caps, Share(remaining, |open|));
    var rest, after := Outside(open, low), remaining - Sum(Inside(open, low), caps);
    ShareRises(open, caps, Share(remaining, |open|));
    if rest != [] {
      TimesMonotone(|rest|, Share(after, |rest|), Share(remaining, |open|));
    }
  }

  /** The division, with its first round written out. */
  lemma FillUnfolds(open: seq<Name>, caps: map<Name, real>, remaining: real)
    requires open != [] && remaining > 1.0 && Capped(open, caps, Share(remaining, |open|)) != {}
    ensures var low := Capped(open, caps, Share(remaining, |open|));
            var rest, after := Outside(open, low), remaining - Sum(Inside(open, low), caps);
            Fill(open, caps, remaining)
            == ((map t | t in low :: Get(caps, t)) + Fill(rest, caps, after).0, Fill(rest, caps, after).1)
  {
  }

  /** What a capping round does to the result, stated on the parts. */
  lemma {:induction false} CappingRound(open: seq<Name>, caps: map<Name, real>, remaining: real)
    returns (low: set<Name>, rest: seq<Name>, after: real)
    requires Distinct(open) && ValidCaps(open, caps) && open != [] && remaining > 1.0
    requires Capped(open, caps, Share(remaining, |open|)) != {}
    ensures low == Capped(open, caps, Share(remaining, |open|))
    ensures rest == Outside(open, low) && Distinct(rest) && ValidCaps(rest, caps) && |rest| < |open|
    ensures after == remaining - Sum(Inside(open, low), caps)
    ensures rest != [] ==> Share(after, |rest|) > Share(remaining, |open|)
    ensures after > Times(|rest|, Share(remaining, |open|))
    ensures Fill(open, caps, remaining) ==
            ((map t | t in low :: Get(caps, t)) + Fill(rest, caps, after).0, Fill(rest, caps, after).1)
    ensures Elements(open) == low + Elements(rest) && low !! Elements(rest)
  {
    low := Capped(open, caps, Share(remaining, |open|));
    rest := Outside(open, low);
    after := remaining - Sum(Inside(open, low), caps);
    OutsideFacts(open, low);
    NonEmptyInside(open, low);
    FillUnfolds(open, caps, remaining);
    RestRises(open, caps, remaining);
  }

  // ---- what the loop hands out --------------------------------------------

  /** Money is conserved, no cap is exceeded, nothing is borrowed, and more
      than one rupee stays unplaced only when every name is at its cap. */
  ghost predicate Conserves(open: seq<Name>, caps: map<Name, real>, remaining: real,
                            alloc: map<Name, real>, left: real) {
    && alloc.Keys <= Elements(open)
    && (forall t :: t in alloc ==> t in caps && 0.0 <= alloc[t] <= caps[t])
    && Sum(open, alloc) + left == remaining
    && (0.0 <= remaining ==> 0.0 <= left)
    && (left > 1.0 || (alloc.Keys == Elements(open) && left != 0.0) ==> AllAtCap(open, caps, alloc))
  }

  ghost predicate AllAtCap(open: seq<Name>, caps: map<Name, real>, alloc: map<Name, real>) {
    forall t :: t in open ==> t in caps && t in alloc && alloc[t] == caps[t]
  }

  lemma {:induction false} EqualSharesConserve(open: seq<Name>, caps: map<Name, real>, remaining: real)
    requires ValidCaps(open, caps) && open != [] && remaining > 1.0
    requires Capped(open, caps, Share(remaining, |open|)) == {}
    ensures Conserves(open, caps, remaining, map t | t in open :: Share(remaining, |open|), 0.0)
  {
    var share := Share(remaining, |open|);
    SumConstant(open, map t | t in open :: share, share);
    TimesMonotone(|open|, share, 0.0);
    TimesIsProduct(|open|, 0.0);
    forall t | t in open ensures share <= caps[t] {
      assert t !in Capped(open, caps, share);
    }
  }

  /** Adding the capped names to a conserving allocation of the rest. */
  lemma {:induction false} CappedNamesConserve(
    open: seq<Name>, inside: seq<Name>, rest: seq<Name>, low: set<Name>, caps: map<Name, real>,
    remaining: real, later: map<Name, real>, left: real, a: map<Name, real>)
    requires ValidCaps(open, caps) && low == Elements(inside)
    requires Elements(open) == low + Elements(rest) && low !! Elements(rest)
    requires a == (map t | t in low :: Get(caps, t)) + later
    requires Sum(open, a) == Sum(inside, a) + Sum(rest, a)
    requires 0.0 <= remaining - Sum(inside, caps)
    requires Conserves(rest, caps, remaining - Sum(inside, caps), later, left)
    ensures Conserves(open, caps, remaining, a, left)
  {
    assert forall t :: t in open <==> t in Elements(open);
    assert forall t :: t in rest <==> t in Elements(rest);
    SumCongruent(inside, a, caps);
    SumCongruent(rest, a, later);
    if a.Keys == Elements(open) {
      assert later.Keys == Elements(rest);
    }
    if AllAtCap(rest, caps, later) {
      assert AllAtCap(open, caps, a);
    }
  }

  lemma {:induction false} FillConserves(open: seq<Name>, caps: map<Name, real>, remaining: real)
    requires Distinct(open) && ValidCaps(open, caps)
    ensures Conserves(open, caps, remaining, Fill(open, caps, remaining).0, Fill(open, caps, remaining).1)
    decreases |open|
  {
    if open == [] || remaining <= 1.0 {
      SumConstant(open, map[], 0.0);
      TimesIsProduct(|open|, 0.0);
    } else if Capped(open, caps, Share(remaining, |open|)) == {} {
      EqualSharesConserve(open, caps, remaining);
    } else {
      var low, rest, after := CappingRound(open, caps, remaining);
      SharePositive(remaining, |open|, |rest|);
      FillConserves(rest, caps, after);
      var (later, left) := Fill(rest, caps, after);
      var a := (map t | t in low :: Get(caps, t)) + later;
      InsideFacts(open, low);
      SumSplit(open, a, low);
      assert Elements(Inside(open, low)) == low;
      CappedNamesConserve(open, Inside(open, low), rest, low, caps, remaining, later, left, a);
    }
  }

  lemma SharePositive(remaining: real, n: nat, m: nat)
    requires n > 0 && remaining > 0.0
    ensures Share(remaining, n) > 0.0 && Times(m, Share(remaining, n)) >= 0.0
  {
    TimesMonotone(n, Share(remaining, n), 0.0);
    TimesIsProduct(n, 0.0);
    TimesIsProduct(m, 0.0);
    TimesMonotone(m, 0.0, Share(remaining, n));
  }

  /** The shortfall against the best possible total is never more than one
      rupee, whatever the inputs; when every name is funded it is zero. */
  lemma {:induction false} PlacesTheCapital(names: seq<Name>, caps: map<Name, real>, capital: real)
    requires Distinct(names) && ValidCaps(names, caps) && 0.0 <= capital
    ensures var (a, left) := Fill(names, caps, capital);
            var best := Min(capital, Sum(names, caps));
            && best - 1.0 <= Sum(names, a) <= best
            && (a.Keys == Elements(names) ==> Sum(names, a) == best)
  {
    FillConserves(names, caps, capital);
    var (a, left) := Fill(names, caps, capital);
    assert forall t :: t in names ==> t in Elements(names);
    SumMonotone(names, a, caps);
    if AllAtCap(names, caps, a) {
      SumCongruent(names, a, caps);
    }
  }

  // ---- the water level ----------------------------------------------------

  /** One level fills every name: to its cap, or to the level. */
  ghost predicate Level(names: seq<Name>, caps: map<Name, real>, alloc: map<Name, real>, level: real) {
    forall t :: t in names ==> t in caps && t in alloc && alloc[t] == Min(caps[t], level)
  }

  lemma {:induction false} FillHasLevel(open: seq<Name>, caps: map<Name, real>, remaining: real)
    returns (level: real)
    requires Distinct(open) && ValidCaps(open, caps) && open != []
    requires Fill(open, caps, remaining).0.Keys == Elements(open)
    ensures level >= Share(remaining, |open|)
    ensures Level(open, caps, Fill(open, caps, remaining).0, level)
    decreases |open|
  {
    assert open[0] in Elements(open);
    level := Share(remaining, |open|);
    if Capped(open, caps, level) == {} {
      forall t | t in open ensures level <= caps[t] {
        assert t !in Capped(open, caps, level);
      }
    } else {
      var share := level;
      var low, rest, after := CappingRound(open, caps, remaining);
      var (later, _) := Fill(rest, caps, after);
      FillConserves(rest, caps, after);
      if rest != [] {
        KeysSplit(open, rest, low, caps, later);
        level := FillHasLevel(rest, caps, after);
      }
      forall t | t in open
        ensures t in low || t in rest
      {
        assert t in Elements(open);
      }
    }
  }

  /** Whoever is funded at all, one level fills every funded name: to its cap, or to the level,
      which is no less than an equal part of the capital. */
  lemma {:induction false} FundedLevel(open: seq<Name>, caps: map<Name, real>, remaining: real)
    returns (level: real)
    requires Distinct(open) && ValidCaps(open, caps) && open != []
    ensures var alloc := Fill(open, caps, remaining).0;
            && (forall t :: t in alloc ==> t in open && alloc[t] == if caps[t] <= level then caps[t] else level)
            && (alloc != map[] ==> level >= remaining / |open| as real)
    decreases |open|
  {
    level := Share(remaining, |open|);
    if remaining <= 1.0 {
    } else if Capped(open, caps, level) == {} {
      forall t | t in open ensures level <= caps[t] {
        assert t !in Capped(open, caps, level);
      }
    } else {
      var low, rest, after := CappingRound(open, caps, remaining);
      if rest != [] && Fill(rest, caps, after).0 != map[] {
        level := FundedLevel(rest, caps, after);
      }
      forall t | t in rest || t in low ensures t in open {
        assert t in Elements(open);
      }
    }
  }

  lemma KeysSplit(open: seq<Name>, rest: seq<Name>, low: set<Name>, caps: map<Name, real>,
                  later: map<Name, real>)
    requires Elements(open) == low + Elements(rest) && low !! Elements(rest)
    requires later.Keys <= Elements(rest)
    requires ((map t | t in low :: Get(caps, t)) + later).Keys == Elements(open)
    ensures later.Keys == Elements(rest)
  {
    var a := (map t | t in low :: Get(caps, t)) + later;
    forall t | t in Elements(rest) ensures t in later.Keys {
      assert t in a.Keys;
    }
  }

  /** The result is max-min fair: no feasible division gives one name more
      without giving less to a name that had no more than it. */
  lemma {:induction false} MaxMinFair(names: seq<Name>, caps: map<Name, real>, capital: real,
                                      other: map<Name, real>, t: Name) returns (u: Name)
    requires Distinct(names) && ValidCaps(names, caps) && 0.0 <= capital
    requires Fill(names, caps, capital).0.Keys == Elements(names)
    requires forall n :: n in names ==> n in other && 0.0 <= other[n] <= caps[n]
    requires Sum(names, other) <= capital
    requires t in names && other[t] > Get(Fill(names, caps, capital).0, t)
    ensures var a := Fill(names, caps, capital).0;
            u in names && other[u] < Get(a, u) <= Get(a, t)
  {
    var a := Fill(names, caps, capital).0;
    var level := FillHasLevel(names, caps, capital);
    PlacesTheCapital(names, caps, capital);
    FillConserves(names, caps, capital);
    SumMonotone(names, other, caps);
    if forall n :: n in names ==> Get(a, n) <= Get(other, n) {
      SumMonotone(names, a, other);
      assert false;
    }
    u :| u in names && Get(a, u) > Get(other, u);
  }

  // ---- when every name is funded ------------------------------------------

  lemma RestStaysFunded(n: nat, m: nat, remaining: real, after: real)
    requires n > 0 && m > 0 && remaining >= n as real
    requires after > Times(m, Share(remaining, n))
    ensures after > 1.0 && after >= m as real
  {
    TimesIsProduct(n, 1.0);
    TimesIsProduct(m, 1.0);
    TimesMonotone(n, Share(remaining, n), 1.0);
    TimesMonotone(m, 1.0, Share(remaining, n));
  }

  /** With more than one rupee, and at least one rupee a name, the guard
      `remaining > 1.0` never stops the loop short of an open name. */
  lemma {:induction false} EveryNameFunded(open: seq<Name>, caps: map<Name, real>, remaining: real)
    requires Distinct(open) && ValidCaps(open, caps)
    requires remaining > 1.0 && remaining >= |open| as real
    ensures Fill(open, caps, remaining).0.Keys == Elements(open)
    decreases |open|
  {
    if open != [] && Capped(open, caps, Share(remaining, |open|)) != {} {
      var low, rest, after := CappingRound(open, caps, remaining);
      if rest != [] {
        RestStaysFunded(|open|, |rest|, remaining, after);
        EveryNameFunded(rest, caps, after);
      }
    }
  }

  /** Below that capital some caps starve a name: all names but the first take
      just enough to leave one rupee, which the guard refuses to place. */
  lemma {:induction false} SomeNameStarved(names: seq<Name>, capital: real) returns (caps: map<Name, real>)
    requires Distinct(names) && names != []
    requires capital <= 1.0 || capital < |names| as real
    ensures ValidCaps(names, caps) && Fill(names, caps, capital).0.Keys != Elements(names)
  {
    assert names[0] in Elements(names);
    if capital <= 1.0 {
      caps := map t | t in names :: 0.0;
    } else {
      var n := |names|;
      var c := (capital - 1.0) / (n - 1) as real;
      StarvingCap(capital, n, c);
      caps := map t | t in names :: if t == names[0] then capital else c;
      FirstNameStarves(names, capital, caps, c);
    }
  }

  lemma {:induction false} FirstNameStarves(names: seq<Name>, capital: real, caps: map<Name, real>, c: real)
    requires Distinct(names) && |names| > 1 && capital > 1.0
    requires caps == map t | t in names :: if t == names[0] then capital else c
    requires 0.0 <= c < Share(capital, |names|) <= capital && Times(|names| - 1, c) == capital - 1.0
    ensures names[0] !in Fill(names, caps, capital).0
  {
    var low := Capped(names, caps, Share(capital, |names|));
    assert forall t :: t in low <==> t in names && t != names[0];
    assert names[1] in low;
    OthersInside(names, low);
    SumConstant(names[1..], caps, c);
    OneRupeeIsKept([names[0]], caps, capital - Sum(names[1..], caps));
  }

  lemma OneRupeeIsKept(open: seq<Name>, caps: map<Name, real>, remaining: real)
    requires remaining <= 1.0
    ensures Fill(open, caps, remaining) == (map[], remaining)
  {
  }

  lemma StarvingCap(capital: real, n: nat, c: real)
    requires 1.0 < capital < n as real && c == (capital - 1.0) / (n - 1) as real
    ensures 0.0 <= c < Share(capital, n) <= capital && Times(n - 1, c) == capital - 1.0
  {
    TimesIsProduct(n - 1, c);
    TimesIsProduct(n, c);
    assert Times(n - 1, c) == capital - 1.0;
    TimesMonotone(n - 1, 1.0, c);
    TimesIsProduct(n - 1, 1.0);
    assert Times(n, c) == capital - 1.0 + c;
    assert Times(n, c) < capital;
    TimesMonotone(n, Share(capital, n), c);
    SharePositive(capital, n, n - 1);
  }

  lemma OthersInside(names: seq<Name>, low: set<Name>)
    requires Distinct(names) && names != []
    requires forall t :: t in low <==> t in names && t != names[0]
    ensures Inside(names, low) == names[1..] && Outside(names, low) == [names[0]]
  {
    assert forall t :: t in names[1..] ==> t in low;
    InsideAll(names[1..], low);
    OutsideNone(names[1..], low);
  }

  /** The exact guarantee: a caller can be sure every tradable name is funded
      if and only if it brings more than a rupee and at least one per name. */
  lemma {:induction false} FundingGuarantee(names: seq<Name>, capital: real)
    requires Distinct(names) && names != []
    ensures (forall caps :: ValidCaps(names, caps) ==> Fill(names, caps, capital).0.Keys == Elements(names))
            <==> capital > 1.0 && capital >= |names| as real
  {
    if capital > 1.0 && capital >= |names| as real {
      forall caps | ValidCaps(names, caps)
        ensures Fill(names, caps, capital).0.Keys == Elements(names)
      {
        EveryNameFunded(names, caps, capital);
      }
    } else {
      var caps := SomeNameStarved(names, capital);
      assert ValidCaps(names, caps);
    }
  }
}
