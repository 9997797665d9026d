/** Choosing the names of the book (`_target_count` and the selection half of
    `build_book` in book.py): a hysteresis band with incumbents first. */
module Selection {
  import opened Common

  function TargetCount(eligible: nat, entryPercentile: real, minNames: nat, maxNames: nat): nat {
    MaxInt(minNames, MinInt(maxNames, (eligible as real * entryPercentile).Floor))
  }

  /** `sorted(names, key=rank_of)`: the names in the order of the ranking. */
  function InRankOrder(ranking: seq<Name>, names: set<Name>): seq<Name> {
    Inside(ranking, names)
  }

  /** The held names still inside the exit band, best first, as many as fit. */
  function Keepers(ranking: seq<Name>, held: set<Name>, target: nat, exitCut: nat): seq<Name> {
    Take(Inside(Take(ranking, exitCut), held), target)
  }

  function Room(ranking: seq<Name>, held: set<Name>, target: nat, exitCut: nat): nat {
    MaxInt(target - |Keepers(ranking, held, target, exitCut)|, 0)
  }

  /** New names from inside the entry band, into the slots that are left. */
  function Fresh(ranking: seq<Name>, held: set<Name>, target: nat, exitCut: nat): seq<Name> {
    Take(Outside(Take(ranking, MaxInt(target, 1)), held), Room(ranking, held, target, exitCut))
  }

  function Choose(ranking: seq<Name>, held: set<Name>, target: nat, exitCut: nat): seq<Name> {
    InRankOrder(ranking, Elements(Keepers(ranking, held, target, exitCut))
                         + Elements(Fresh(ranking, held, target, exitCut)))
  }

  lemma TakeFacts<T>(s: seq<T>, k: nat)
    ensures forall t :: t in Take(s, k) ==> t in s
    ensures Distinct(s) ==> Distinct(Take(s, k))
    ensures |Take(s, k)| == MinInt(k, |s|)
  {
  }

  /** A held name keeps its slot exactly when it is inside the exit band and
      fewer than the target count of held names rank above it. */
  lemma {:induction false} IncumbentKept(ranking: seq<Name>, held: set<Name>, target: nat, exitCut: nat, i: nat)
    requires Distinct(ranking) && i < |ranking| && ranking[i] in held
    ensures ranking[i] in Choose(ranking, held, target, exitCut)
            <==> i < exitCut && |Inside(ranking[..i], held)| < target
  {
    Chosen(ranking, held, target, exitCut);
    if i < exitCut {
      var band := Take(ranking, exitCut);
      AmongFirst(band, held, target, i);
      assert band[..i] == ranking[..i];
    } else {
      InsideFacts(Take(ranking, exitCut), held);
    }
  }

  /** A new name enters exactly when it is inside the entry band and the new
      names above it have not used up the room the incumbents left. */
  lemma {:induction false} NewcomerChosen(ranking: seq<Name>, held: set<Name>, target: nat, exitCut: nat, i: nat)
    requires Distinct(ranking) && i < |ranking| && ranking[i] !in held
    ensures ranking[i] in Choose(ranking, held, target, exitCut)
            <==> i < MaxInt(target, 1)
                 && |Outside(ranking[..i], held)| < Room(ranking, held, target, exitCut)
  {
    Chosen(ranking, held, target, exitCut);
    var band := Take(ranking, MaxInt(target, 1));
    if i < |band| {
      var free := Elements(band) - held;
      OutsideIsInside(band, held, free);
      OutsideIsInside(ranking[..i], held, free);
      AmongFirst(band, free, Room(ranking, held, target, exitCut), i);
      assert band[..i] == ranking[..i];
    } else {
      OutsideFacts(band, held);
    }
  }

  /** Membership of the choice, and the keepers and newcomers it is made of. */
  lemma {:induction false} Chosen(ranking: seq<Name>, held: set<Name>, target: nat, exitCut: nat)
    requires Distinct(ranking)
    ensures var keep := Keepers(ranking, held, target, exitCut);
            var added := Fresh(ranking, held, target, exitCut);
            && Distinct(keep) && Distinct(added)
            && (forall t :: t in keep ==> t in ranking && t in held)
            && (forall t :: t in added ==> t in ranking && t !in held)
            && (forall t :: t in Choose(ranking, held, target, exitCut) <==> t in keep || t in added)
            && Distinct(Choose(ranking, held, target, exitCut))
            && |Choose(ranking, held, target, exitCut)| == |keep| + |added|
  {
    var keep, added := Keepers(ranking, held, target, exitCut), Fresh(ranking, held, target, exitCut);
    TakeFacts(ranking, exitCut);
    TakeFacts(ranking, MaxInt(target, 1));
    InsideFacts(Take(ranking, exitCut), held);
    OutsideFacts(Take(ranking, MaxInt(target, 1)), held);
    TakeFacts(Inside(Take(ranking, exitCut), held), target);
    TakeFacts(Outside(Take(ranking, MaxInt(target, 1)), held), Room(ranking, held, target, exitCut));
    var names := Elements(keep) + Elements(added);
    var chosen := Inside(ranking, names);
    InsideFacts(ranking, names);
    DistinctSize(keep);
    DistinctSize(added);
    DistinctSize(chosen);
    assert Elements(chosen) == names;
    assert |names| == |Elements(keep)| + |Elements(added)|;
  }

  /** The band never costs breadth: the book always has the target count of
      names, or every name there is. */
  lemma {:induction false} ChoosesTargetCount(ranking: seq<Name>, held: set<Name>, target: nat, exitCut: nat)
    requires Distinct(ranking) && exitCut >= MaxInt(target, 1)
    ensures |Choose(ranking, held, target, exitCut)| == MinInt(target, |ranking|)
  {
    Chosen(ranking, held, target, exitCut);
    var entry := MaxInt(target, 1);
    var inner, outer := Take(ranking, entry), Take(ranking, exitCut);
    OutsideFacts(inner, held);
    assert outer == inner + outer[|inner|..];
    InsideConcat(inner, outer[|inner|..], held);
    InsideFacts(outer, held);
  }

  /** Widening the exit band only ever turns newcomers away. */
  lemma {:induction false} WiderBandAdmitsFewer(ranking: seq<Name>, held: set<Name>, target: nat,
                                                narrow: nat, wide: nat)
    requires narrow <= wide
    ensures Fresh(ranking, held, target, wide) <= Fresh(ranking, held, target, narrow)
  {
    var inner, outer := Take(ranking, narrow), Take(ranking, wide);
    assert outer == inner + outer[|inner|..];
    InsideConcat(inner, outer[|inner|..], held);
  }

  lemma ChosenIsInTheBand(ranking: seq<Name>, held: set<Name>, target: nat, exitCut: nat)
    requires Distinct(ranking) && exitCut >= MaxInt(target, 1)
    ensures forall t :: t in Choose(ranking, held, target, exitCut) ==> t in Take(ranking, exitCut)
  {
    var inner := Take(ranking, MaxInt(target, 1));
    Chosen(ranking, held, target, exitCut);
    InsideFacts(Take(ranking, exitCut), held);
    OutsideFacts(inner, held);
    forall t | t in inner ensures t in Take(ranking, exitCut) {
    }
  }

  lemma AllKeptAgain(band: seq<Name>, chosen: seq<Name>)
    requires Distinct(band) && Distinct(chosen) && forall t :: t in chosen ==> t in band
    ensures Elements(Inside(band, Elements(chosen))) == Elements(chosen)
    ensures |Inside(band, Elements(chosen))| == |chosen|
  {
    InsideFacts(band, Elements(chosen));
    DistinctSize(Inside(band, Elements(chosen)));
    DistinctSize(chosen);
    assert Elements(Inside(band, Elements(chosen))) == Elements(chosen);
  }

  /** Rebalancing on an unchanged ranking changes nothing. */
  lemma {:induction false} ChoiceIsStable(ranking: seq<Name>, held: set<Name>, target: nat, exitCut: nat)
    requires Distinct(ranking) && exitCut >= MaxInt(target, 1)
    ensures var chosen := Choose(ranking, held, target, exitCut);
            && Choose(ranking, Elements(chosen), target, exitCut) == chosen
            && Fresh(ranking, Elements(chosen), target, exitCut) == []
  {
    var chosen := Choose(ranking, held, target, exitCut);
    var again := Elements(chosen);
    var band := Take(ranking, exitCut);
    Chosen(ranking, held, target, exitCut);
    ChoosesTargetCount(ranking, held, target, exitCut);
    ChosenIsInTheBand(ranking, held, target, exitCut);
    TakeFacts(ranking, exitCut);
    AllKeptAgain(band, chosen);
    var keep := Keepers(ranking, again, target, exitCut);
    assert keep == Inside(band, again);
    if |ranking| < target {
      FullCoverage(ranking, chosen);
      OutsideNone(Take(ranking, MaxInt(target, 1)), again);
    }
    assert Fresh(ranking, again, target, exitCut) == [];
    InsideCongruent(ranking, again, Elements(keep) + Elements<Name>([]));
    InsideCongruent(ranking, again, Elements(Keepers(ranking, held, target, exitCut))
                                    + Elements(Fresh(ranking, held, target, exitCut)));
  }

  lemma FullCoverage(ranking: seq<Name>, chosen: seq<Name>)
    requires Distinct(ranking) && Distinct(chosen) && |chosen| == |ranking|
    requires forall t :: t in chosen ==> t in ranking
    ensures forall t :: t in ranking ==> t in chosen
  {
    DistinctSize(ranking);
    DistinctSize(chosen);
    SubsetOfSameSize(Elements(chosen), Elements(ranking));
    assert forall t :: t in ranking ==> t in Elements(ranking);
  }

  lemma SubsetOfSameSize<T>(a: set<T>, b: set<T>)
    requires a <= b && |a| == |b|
    ensures a == b
  {
    assert |b - a| == |b| - |a|;
  }

  /** The held names that only the exit band keeps: ranked past the target, inside the cut. */
  function Drifted(ranking: seq<Name>, held: set<Name>, target: nat, exitCut: nat): seq<Name> {
    Inside(Take(ranking, exitCut)[|Take(ranking, MinInt(target, exitCut))|..], held)
  }

  lemma TopInOrder(ranking: seq<Name>, target: nat)
    requires Distinct(ranking)
    ensures InRankOrder(ranking, Elements(Take(ranking, target))) == Take(ranking, target)
  {
    var top := Take(ranking, target);
    var rest := ranking[|top|..];
    assert ranking == top + rest;
    InsideConcat(top, rest, Elements(top));
    InsideAll(top, Elements(top));
    forall t | t in rest ensures t !in top {
      var i :| 0 <= i < |rest| && rest[i] == t;
      assert ranking[|top| + i] == t;
    }
    InsideNone(rest, Elements(top));
  }

  lemma BandSplits(ranking: seq<Name>, held: set<Name>, target: nat, exitCut: nat)
    requires exitCut >= target
    ensures Inside(Take(ranking, exitCut), held)
            == Inside(Take(ranking, target), held) + Drifted(ranking, held, target, exitCut)
  {
    var top, band := Take(ranking, target), Take(ranking, exitCut);
    assert band == top + band[|top|..];
    InsideConcat(top, band[|top|..], held);
  }

  lemma {:induction false} NothingDrifted(ranking: seq<Name>, held: set<Name>, target: nat, exitCut: nat)
    requires Distinct(ranking) && exitCut >= MaxInt(target, 1) && target > 0
    requires Drifted(ranking, held, target, exitCut) == []
    ensures Choose(ranking, held, target, exitCut) == Take(ranking, target)
  {
    var top := Take(ranking, target);
    BandSplits(ranking, held, target, exitCut);
    InsideFacts(top, held);
    OutsideFacts(top, held);
    var keep := Keepers(ranking, held, target, exitCut);
    assert keep == Inside(top, held);
    assert Fresh(ranking, held, target, exitCut) == Outside(top, held);
    assert Elements(keep) + Elements(Outside(top, held)) == Elements(top);
    TopInOrder(ranking, target);
  }

  lemma {:induction false} TopAllHeld(ranking: seq<Name>, held: set<Name>, target: nat, exitCut: nat)
    requires Distinct(ranking) && exitCut >= MaxInt(target, 1) && target > 0
    requires forall t :: t in Take(ranking, target) ==> t in held
    ensures Choose(ranking, held, target, exitCut) == Take(ranking, target)
  {
    var top := Take(ranking, target);
    BandSplits(ranking, held, target, exitCut);
    InsideAll(top, held);
    OutsideNone(top, held);
    if |top| == target {
      assert Keepers(ranking, held, target, exitCut) == top;
    } else {
      assert Take(ranking, exitCut)[|top|..] == [];
      assert Keepers(ranking, held, target, exitCut) == top;
    }
    assert Elements(top) + Elements<Name>([]) == Elements(top);
    assert Fresh(ranking, held, target, exitCut) == [];
    TopInOrder(ranking, target);
  }

  lemma {:induction false} DriftedKeepsItsSlot(ranking: seq<Name>, held: set<Name>, target: nat, exitCut: nat)
    requires Distinct(ranking) && exitCut >= MaxInt(target, 1)
    requires Drifted(ranking, held, target, exitCut) != []
    requires exists t :: t in Take(ranking, target) && t !in held
    ensures Choose(ranking, held, target, exitCut) != Take(ranking, target)
  {
    var x := Drifted(ranking, held, target, exitCut)[0];
    FirstDriftedIsKept(ranking, held, target, exitCut);
    DriftedIsPastTheTop(ranking, held, target, exitCut, x);
    Chosen(ranking, held, target, exitCut);
    assert x in Choose(ranking, held, target, exitCut);
  }

  lemma DriftedIsPastTheTop(ranking: seq<Name>, held: set<Name>, target: nat, exitCut: nat, x: Name)
    requires Distinct(ranking) && exitCut >= target && x in Drifted(ranking, held, target, exitCut)
    ensures x !in Take(ranking, target)
  {
    var top, band := Take(ranking, target), Take(ranking, exitCut);
    InsideFacts(band[|top|..], held);
    var i :| 0 <= i < |band| - |top| && band[|top|..][i] == x;
    assert ranking[|top| + i] == x;
  }

  lemma FirstDriftedIsKept(ranking: seq<Name>, held: set<Name>, target: nat, exitCut: nat)
    requires Distinct(ranking) && exitCut >= target && Drifted(ranking, held, target, exitCut) != []
    requires exists t :: t in Take(ranking, target) && t !in held
    ensures Drifted(ranking, held, target, exitCut)[0] in Keepers(ranking, held, target, exitCut)
  {
    var top := Take(ranking, target);
    BandSplits(ranking, held, target, exitCut);
    OutsideFacts(top, held);
    var t :| t in top && t !in held;
    assert t in Outside(top, held);
    assert |Inside(top, held)| < target;
    var keep := Keepers(ranking, held, target, exitCut);
    assert keep[|Inside(top, held)|] == Drifted(ranking, held, target, exitCut)[0];
  }

  /** The exit band changes the choice exactly when it keeps a drifted incumbent and some name
      above the target is not held; otherwise the book is simply the top of the ranking. */
  lemma {:induction false} BandMattersExactlyWhen(ranking: seq<Name>, held: set<Name>, target: nat, exitCut: nat)
    requires Distinct(ranking) && exitCut >= MaxInt(target, 1)
    ensures Choose(ranking, held, target, exitCut) != Take(ranking, target)
            <==> Drifted(ranking, held, target, exitCut) != [] && exists t :: t in Take(ranking, target) && t !in held
  {
    if target == 0 {
      Chosen(ranking, held, target, exitCut);
      assert Choose(ranking, held, target, exitCut) == [];
    } else if Drifted(ranking, held, target, exitCut) == [] {
      NothingDrifted(ranking, held, target, exitCut);
    } else if forall t :: t in Take(ranking, target) ==> t in held {
      TopAllHeld(ranking, held, target, exitCut);
    } else {
      DriftedKeepsItsSlot(ranking, held, target, exitCut);
    }
  }
}
