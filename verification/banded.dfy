/** A book with hysteresis run over a history of rebalances
    (research/v3/experiments/turnover_2026_09.py), and its agreement with the
    research selector `build_book`. */
module BandedBook {
  import opened Common
  import Selection
  import WaterFill

  /** The rank given to a name that was not scored. */
  const UNRANKED := 0x4000_0000

  function RankIn(order: seq<Name>, name: Name): nat {
    if order == [] then UNRANKED
    else if order[|order| - 1] == name then |order|
    else RankIn(order[..|order| - 1], name)
  }

  /** The held names whose rank is no worse than the exit rank. */
  function InBand(held: seq<Name>, order: seq<Name>, exitRank: nat): set<Name> {
    set t | t in held && RankIn(order, t) <= exitRank
  }

  /** Held names still inside the exit rank, in the order they are held. */
  function Kept(held: seq<Name>, order: seq<Name>, exitRank: nat): seq<Name> {
    Inside(held, InBand(held, order, exitRank))
  }

  function Room(kept: seq<Name>, slots: nat): nat {
    MaxInt(slots - |kept|, 0)
  }

  /** The best names not kept, into the slots that are left. */
  function Fill(kept: seq<Name>, order: seq<Name>, slots: nat): seq<Name> {
    Take(Outside(order, Elements(kept)), Room(kept, slots))
  }

  function NextBook(held: seq<Name>, order: seq<Name>, slots: nat, exitRank: nat): seq<Name> {
    var kept := Kept(held, order, exitRank);
    Take(kept + Fill(kept, order, slots), slots)
  }

  lemma {:induction false} RankIsPosition(order: seq<Name>, name: Name, exitRank: nat)
    requires Distinct(order) && exitRank < UNRANKED
    ensures RankIn(order, name) <= exitRank <==> name in Take(order, exitRank)
  {
    if order == [] {
    } else {
      var n := |order| - 1;
      if order[n] == name {
        if exitRank <= n {
          assert name !in order[..exitRank];
        }
      } else {
        RankIsPosition(order[..n], name, exitRank);
        assert order == order[..n] + [order[n]];
        if exitRank <= n {
          assert order[..n][..exitRank] == order[..exitRank];
        }
      }
    }
  }

  /** Below the rank of unscored names, being kept is being high enough in the order. */
  lemma {:induction false} KeptIsInTheBand(held: seq<Name>, order: seq<Name>, exitRank: nat)
    requires Distinct(order) && exitRank < UNRANKED
    ensures Kept(held, order, exitRank) == Inside(held, Elements(Take(order, exitRank)))
  {
    forall t | t in held ensures t in InBand(held, order, exitRank) <==> t in Elements(Take(order, exitRank)) {
      RankIsPosition(order, t, exitRank);
    }
    InsideCongruent(held, InBand(held, order, exitRank), Elements(Take(order, exitRank)));
  }

  method KeepInside(held: seq<Name>, order: seq<Name>, exitRank: nat) returns (keep: seq<Name>)
    ensures keep == Kept(held, order, exitRank)
  {
    keep := [];
    ghost var band := InBand(held, order, exitRank);
    for i := 0 to |held|
      invariant keep == Inside(held[..i], band)
    {
      assert held[..i + 1] == held[..i] + [held[i]];
      InsideConcat(held[..i], [held[i]], band);
      if RankIn(order, held[i]) <= exitRank {
        keep := keep + [held[i]];
      }
    }
    assert held[..|held|] == held;
  }

  /** One rebalance: keep, fill from the top of the order, cut to the slots. */
  method Rebalance(held: seq<Name>, order: seq<Name>, slots: nat, exitRank: nat) returns (keep: seq<Name>)
    requires Distinct(order)
    ensures keep == NextBook(held, order, slots, exitRank)
  {
    keep := KeepInside(held, order, exitRank);
    ghost var kept := keep;
    var j := 0;
    assert kept + [] == kept;
    while j < |order| && |keep| < slots
      invariant j <= |order|
      invariant keep == kept + Outside(order[..j], Elements(kept))
      invariant |keep| <= MaxInt(slots, |kept|)
    {
      OutsideFacts(order[..j], Elements(kept));
      assert order[..j + 1] == order[..j] + [order[j]];
      OutsideConcat(order[..j], [order[j]], Elements(kept));
      if order[j] !in keep {
        keep := keep + [order[j]];
      }
      j := j + 1;
    }
    assert order == order[..j] + order[j..];
    OutsideConcat(order[..j], order[j..], Elements(kept));
    assert Outside(order[..j], Elements(kept)) == Fill(kept, order, slots);
    keep := Take(keep, slots);
  }

  // ---- one rebalance --------------------------------------------------------------------------

  lemma DistinctConcat<T>(a: seq<T>, b: seq<T>)
    requires Distinct(a) && Distinct(b)
    requires forall t :: t in b ==> t !in a
    ensures Distinct(a + b)
  {
    forall i, j | 0 <= i < j < |a + b| ensures (a + b)[i] != (a + b)[j] {
      if i < |a| <= j {
        assert a[i] in a && b[j - |a|] in b;
      }
    }
  }

  lemma {:induction false} FillFacts(kept: seq<Name>, order: seq<Name>, slots: nat)
    requires Distinct(order) && Distinct(kept) && |kept| <= slots
    ensures Distinct(kept + Fill(kept, order, slots))
    ensures |order| - |kept| <= |Outside(order, Elements(kept))|
    ensures |kept + Fill(kept, order, slots)| == MinInt(slots, |kept| + |Outside(order, Elements(kept))|)
    ensures (forall t :: t in kept ==> t in order) ==>
              |kept| + |Outside(order, Elements(kept))| == |order|
  {
    var drop := Elements(kept);
    OutsideFacts(order, drop);
    InsideFacts(order, drop);
    Selection.TakeFacts(Outside(order, drop), Room(kept, slots));
    DistinctSize(kept);
    DistinctSize(Inside(order, drop));
    SubsetSize(Elements(Inside(order, drop)), drop);
    if forall t :: t in kept ==> t in order {
      assert Elements(Inside(order, drop)) == drop;
    }
    DistinctConcat(kept, Fill(kept, order, slots));
  }

  /** A rebalance of a book within its slots holds at least as many names as were scored, or
      every slot is full; cutting back to the slots removes nothing. */
  lemma {:induction false} FillsTheSlots(held: seq<Name>, order: seq<Name>, slots: nat, exitRank: nat)
    requires Distinct(order) && Distinct(held) && |held| <= slots
    ensures var next := NextBook(held, order, slots, exitRank);
            var kept := Kept(held, order, exitRank);
            && Distinct(next) && MinInt(slots, |order|) <= |next| <= slots
            && next == kept + Fill(kept, order, slots)
            && (forall t :: t in next ==> t in held || t in order)
  {
    var kept := Kept(held, order, exitRank);
    InsideFacts(held, InBand(held, order, exitRank));
    FillFacts(kept, order, slots);
    OutsideFacts(order, Elements(kept));
    Selection.TakeFacts(Outside(order, Elements(kept)), Room(kept, slots));
  }

  /** With unscored names out of the band, the book holds scored names only, and every one
      of them when there are fewer than its slots. */
  lemma {:induction false} HoldsOnlyScored(held: seq<Name>, order: seq<Name>, slots: nat, exitRank: nat)
    requires Distinct(order) && Distinct(held) && |held| <= slots && exitRank < UNRANKED
    ensures var next := NextBook(held, order, slots, exitRank);
            |next| == MinInt(slots, |order|) && forall t :: t in next ==> t in order
  {
    var kept := Kept(held, order, exitRank);
    FillsTheSlots(held, order, slots, exitRank);
    KeptIsInTheBand(held, order, exitRank);
    InsideFacts(held, Elements(Take(order, exitRank)));
    Selection.TakeFacts(order, exitRank);
    FillFacts(kept, order, slots);
    OutsideFacts(order, Elements(kept));
    Selection.TakeFacts(Outside(order, Elements(kept)), Room(kept, slots));
  }

  /** The fill never looks past the first `slots` names of the order. */
  lemma {:induction false} FillIsFromTheTop(kept: seq<Name>, order: seq<Name>, slots: nat)
    requires Distinct(order) && Distinct(kept)
    ensures Fill(kept, order, slots) == Take(Outside(Take(order, slots), Elements(kept)), Room(kept, slots))
  {
    var top := Take(order, slots);
    var drop := Elements(kept);
    assert order == top + order[|top|..];
    OutsideConcat(top, order[|top|..], drop);
    OutsideFacts(top, drop);
    InsideFacts(top, drop);
    Selection.TakeFacts(order, slots);
    DistinctSize(Inside(top, drop));
    DistinctSize(kept);
    SubsetSize(Elements(Inside(top, drop)), drop);
    if |order| <= slots {
      assert order[|top|..] == [];
    }
  }

  lemma SubsetSize<T>(a: set<T>, b: set<T>)
    requires a <= b
    ensures |a| <= |b|
  {
    assert b == a + (b - a);
  }

  /** The name is dropped by the rule the experiment states: unscored, or past the exit rank. */
  ghost predicate Dropped(order: seq<Name>, exitRank: nat, t: Name) {
    forall i :: 0 <= i < |order| && order[i] == t ==> i + 1 > exitRank
  }

  /** With an exit rank no tighter than the book, a held name leaves exactly when dropped. */
  lemma {:induction false} DroppedLeaves(held: seq<Name>, order: seq<Name>, slots: nat, exitRank: nat, t: Name)
    requires Distinct(order) && Distinct(held) && |held| <= slots <= exitRank < UNRANKED
    requires t in held
    ensures t !in NextBook(held, order, slots, exitRank) <==> Dropped(order, exitRank, t)
  {
    var kept := Kept(held, order, exitRank);
    var band := Take(order, exitRank);
    FillsTheSlots(held, order, slots, exitRank);
    KeptIsInTheBand(held, order, exitRank);
    InsideFacts(held, Elements(band));
    RankIsPosition(order, t, exitRank);
    Selection.TakeFacts(order, exitRank);
    FillIsFromTheTop(kept, order, slots);
    OutsideFacts(Take(order, slots), Elements(kept));
    Selection.TakeFacts(Outside(Take(order, slots), Elements(kept)), Room(kept, slots));
    assert forall x :: x in Take(order, slots) ==> x in band;
  }

  /** A name dropped at position `i` is bought straight back exactly when the names above it
      that are not kept leave it a slot. */
  lemma {:induction false} BoughtBackExactlyWhen(held: seq<Name>, order: seq<Name>, slots: nat, exitRank: nat, i: nat)
    requires Distinct(order) && Distinct(held) && |held| <= slots && exitRank < UNRANKED
    requires i < |order| && exitRank <= i
    ensures var kept := Kept(held, order, exitRank);
            order[i] in NextBook(held, order, slots, exitRank)
            <==> |Outside(order[..i], Elements(kept))| < slots - |kept|
  {
    var kept := Kept(held, order, exitRank);
    FillsTheSlots(held, order, slots, exitRank);
    KeptIsInTheBand(held, order, exitRank);
    InsideFacts(held, Elements(Take(order, exitRank)));
    assert order[i] !in kept;
    var free := Elements(order) - Elements(kept);
    OutsideIsInside(order, Elements(kept), free);
    OutsideIsInside(order[..i], Elements(kept), free);
    AmongFirst(order, free, Room(kept, slots), i);
    assert order[i] in free;
  }

  /** The leave rule on every book and every order the experiment rebalances on. */
  ghost predicate LeaveRuleHolds(slots: nat, exitRank: nat) {
    forall held: seq<Name>, order: seq<Name>, t: Name ::
      Distinct(order) && Distinct(held) && |held| <= slots && |order| >= MIN_SCORED && t in held ==>
        (t !in NextBook(held, order, slots, exitRank) <==> Dropped(order, exitRank, t))
  }

  /** The first rebalance buys the top of the order. */
  lemma FirstBook(order: seq<Name>, slots: nat, exitRank: nat)
    ensures BookAfter([order], slots, exitRank) == Take(order, slots)
  {
    assert [order][..0] == [];
    assert Kept([], order, exitRank) == [];
    OutsideNothing(order, Elements<Name>([]));
    assert [] + Take(order, slots) == Take(order, slots);
  }

  lemma KeptOfTop(order: seq<Name>, slots: nat, exitRank: nat)
    requires Distinct(order) && exitRank < slots <= |order| && exitRank < UNRANKED
    ensures forall t :: t in order[..exitRank] <==> t in Kept(order[..slots], order, exitRank)
    ensures |Kept(order[..slots], order, exitRank)| <= exitRank
  {
    var kept := Kept(order[..slots], order, exitRank);
    KeptIsInTheBand(order[..slots], order, exitRank);
    InsideFacts(order[..slots], Elements(order[..exitRank]));
    forall t | t in order[..exitRank] ensures t in order[..slots] {
      var i :| 0 <= i < exitRank && order[i] == t;
      assert order[..slots][i] == t;
    }
    DistinctSize(kept);
    DistinctSize(order[..exitRank]);
    assert Elements(kept) == Elements(order[..exitRank]);
  }

  /** Rebalanced twice on one order with an exit rank tighter than the book, the first name past
      it is in the book, is dropped, and is bought straight back. */
  lemma {:induction false} TightBandReadmits(order: seq<Name>, slots: nat, exitRank: nat)
    requires Distinct(order) && exitRank < slots <= |order| && exitRank < UNRANKED
    ensures var t, held := order[exitRank], BookAfter([order], slots, exitRank);
            t in held && Dropped(order, exitRank, t) && t in NextBook(held, order, slots, exitRank)
  {
    var t, held := order[exitRank], order[..slots];
    FirstBook(order, slots, exitRank);
    assert held[exitRank] == t;
    RankIsPosition(order, t, exitRank);
    assert t !in order[..exitRank];
    KeptOfTop(order, slots, exitRank);
    var kept := Kept(held, order, exitRank);
    OutsideNone(order[..exitRank], Elements(kept));
    BoughtBackExactlyWhen(held, order, slots, exitRank, exitRank);
  }

  /** An exit rank past that of unscored names keeps a held name that nobody scored. */
  lemma {:induction false} LooseBandKeepsUnscored(held: seq<Name>, order: seq<Name>, t: Name, slots: nat, exitRank: nat)
    requires Distinct(held) && Distinct(order) && |held| <= slots && t in held && t !in order
    requires UNRANKED <= exitRank
    ensures Dropped(order, exitRank, t) && t in NextBook(held, order, slots, exitRank)
  {
    UnscoredRank(order, t);
    InsideFacts(held, InBand(held, order, exitRank));
    FillsTheSlots(held, order, slots, exitRank);
    assert t in Kept(held, order, exitRank);
  }

  lemma UnscoredRank(order: seq<Name>, t: Name)
    requires t !in order
    ensures RankIn(order, t) == UNRANKED
  {
  }

  /** As many distinct names as wanted, none of them empty. */
  function SomeNames(n: nat): seq<Name> {
    seq(n, i requires 0 <= i < n => seq(i + 1, _ => 'a'))
  }

  lemma SomeNamesFacts(n: nat)
    ensures |SomeNames(n)| == n && Distinct(SomeNames(n)) && "" !in SomeNames(n)
  {
    var names := SomeNames(n);
    assert forall i :: 0 <= i < n ==> |names[i]| == i + 1;
  }

  /** Every rebalance saw distinct names, and enough of them. */
  ghost predicate Rebalanced(orders: seq<seq<Name>>) {
    forall i :: 0 <= i < |orders| ==> Distinct(orders[i]) && |orders[i]| >= MIN_SCORED
  }

  /** The leave rule at every rebalance of every run. */
  ghost predicate LeaveRuleHoldsOnRuns(slots: nat, exitRank: nat) {
    forall orders: seq<seq<Name>>, order: seq<Name>, t: Name ::
      Rebalanced(orders) && Rebalanced([order]) && t in BookAfter(orders, slots, exitRank) ==>
        (t !in NextBook(BookAfter(orders, slots, exitRank), order, slots, exitRank) <==> Dropped(order, exitRank, t))
  }

  lemma {:induction false} RuleOnBooksIsRuleOnRuns(slots: nat, exitRank: nat)
    requires LeaveRuleHolds(slots, exitRank)
    ensures LeaveRuleHoldsOnRuns(slots, exitRank)
  {
    forall orders: seq<seq<Name>>, order: seq<Name>, t: Name
      | Rebalanced(orders) && Rebalanced([order]) && t in BookAfter(orders, slots, exitRank)
      ensures t !in NextBook(BookAfter(orders, slots, exitRank), order, slots, exitRank)
              <==> Dropped(order, exitRank, t)
    {
      BookIsFull(orders, slots, exitRank);
      assert Distinct([order][0]) && |[order][0]| >= MIN_SCORED;
    }
  }

  /** A run on which the rule fails, for any exit rank outside the range. */
  lemma {:induction false} RuleFailsOnARun(slots: nat, exitRank: nat)
    requires slots > 0 && !(slots <= exitRank < UNRANKED)
    ensures !LeaveRuleHoldsOnRuns(slots, exitRank)
  {
    var first := SomeNames(MIN_SCORED + 1 + slots);
    SomeNamesFacts(MIN_SCORED + 1 + slots);
    FirstBook(first, slots, exitRank);
    assert Rebalanced([first]);
    if UNRANKED <= exitRank {
      var order, t := first[1..], first[0];
      assert Rebalanced([order]);
      assert first[..slots][0] == t;
      LooseBandKeepsUnscored(first[..slots], order, t, slots, exitRank);
    } else {
      TightBandReadmits(first, slots, exitRank);
    }
  }

  /** A held name leaves exactly when it is unscored or ranked past the exit rank, at every
      rebalance of every run, if and only if the exit rank is no tighter than the book and below
      the rank of an unscored name; and then it does so from any book at all. */
  lemma {:induction false} LeavesExactlyWhen(slots: nat, exitRank: nat)
    requires slots > 0
    ensures LeaveRuleHoldsOnRuns(slots, exitRank) <==> slots <= exitRank < 0x4000_0000
    ensures LeaveRuleHolds(slots, exitRank) <==> slots <= exitRank < 0x4000_0000
  {
    if slots <= exitRank < UNRANKED {
      forall held: seq<Name>, order: seq<Name>, t: Name
        | Distinct(order) && Distinct(held) && |held| <= slots && |order| >= MIN_SCORED && t in held
        ensures t !in NextBook(held, order, slots, exitRank) <==> Dropped(order, exitRank, t)
      {
        DroppedLeaves(held, order, slots, exitRank, t);
      }
      RuleOnBooksIsRuleOnRuns(slots, exitRank);
    } else {
      RuleFailsOnARun(slots, exitRank);
      if LeaveRuleHolds(slots, exitRank) {
        RuleOnBooksIsRuleOnRuns(slots, exitRank);
      }
    }
  }

  /** The book simulated holds the names `build_book` would choose. */
  lemma {:induction false} AgreesWithBuildBook(held: seq<Name>, order: seq<Name>, slots: nat, exitRank: nat)
    requires Distinct(order) && Distinct(held) && |held| <= slots <= exitRank < UNRANKED
    requires slots > 0
    ensures Elements(NextBook(held, order, slots, exitRank))
            == Elements(Selection.Choose(order, Elements(held), slots, exitRank))
  {
    var kept := Kept(held, order, exitRank);
    var band, top := Take(order, exitRank), Take(order, slots);
    KeptIsInTheBand(held, order, exitRank);
    InsideFacts(held, Elements(band));
    SameKeepers(held, order, slots, exitRank);
    FillsTheSlots(held, order, slots, exitRank);
    Selection.Chosen(order, Elements(held), slots, exitRank);
    FillIsFromTheTop(kept, order, slots);
    assert forall t :: t in top ==> t in band;
    OutsideIsInside(top, Elements(kept), Elements(top) - Elements(held));
    OutsideIsInside(top, Elements(held), Elements(top) - Elements(held));
    assert Fill(kept, order, slots) == Selection.Fresh(order, Elements(held), slots, exitRank);
    forall t
      ensures t in NextBook(held, order, slots, exitRank)
              <==> t in Selection.Choose(order, Elements(held), slots, exitRank)
    {
      assert t in kept <==> t in Elements(kept);
    }
  }

  lemma {:induction false} SameKeepers(held: seq<Name>, order: seq<Name>, slots: nat, exitRank: nat)
    requires Distinct(order) && Distinct(held) && |held| <= slots && exitRank < UNRANKED
    ensures var keepers := Selection.Keepers(order, Elements(held), slots, exitRank);
            |keepers| == |Kept(held, order, exitRank)|
            && Elements(keepers) == Elements(Kept(held, order, exitRank))
  {
    var band := Take(order, exitRank);
    var kept, inside := Kept(held, order, exitRank), Inside(band, Elements(held));
    KeptIsInTheBand(held, order, exitRank);
    Selection.TakeFacts(order, exitRank);
    InsideFacts(held, Elements(band));
    InsideFacts(band, Elements(held));
    assert Elements(kept) == Elements(inside);
    DistinctSize(kept);
    DistinctSize(inside);
  }

  // ---- whole runs -------------------------------------------------------------------------------

  const MIN_SCORED := 50

  /** One date: its scored names, best first, and the label of each. */
  datatype Section = Section(order: seq<Name>, labels: map<Name, real>)

  ghost predicate IsSection(s: Section) {
    Distinct(s.order) && s.labels.Keys == Elements(s.order)
  }

  ghost predicate Sections(dates: seq<Section>) {
    forall i :: 0 <= i < |dates| ==> IsSection(dates[i])
  }

  predicate Counts(section: Section, day: nat, every: nat)
    requires every > 0
  {
    day % every == 0 && |section.order| >= MIN_SCORED
  }

  /** The dates on which the book is rebalanced: every `every`-th one, if enough names are
      scored. */
  function Counted(dates: seq<Section>, every: nat): (days: seq<nat>)
    requires every > 0
    ensures forall k :: 0 <= k < |days| ==> days[k] < |dates|
  {
    if dates == [] then []
    else
      var n := |dates| - 1;
      var before := Counted(dates[..n], every);
      if Counts(dates[n], n, every) then before + [n] else before
  }

  /** Exactly the dates that count, in order. */
  lemma {:induction false} CountedExactly(dates: seq<Section>, every: nat)
    requires every > 0
    ensures forall i: nat :: i in Counted(dates, every)
                             <==> i < |dates| && i % every == 0 && |dates[i].order| >= 50
    ensures forall j, k :: 0 <= j < k < |Counted(dates, every)| ==> Counted(dates, every)[j] < Counted(dates, every)[k]
  {
    if dates == [] {
    } else {
      var n := |dates| - 1;
      CountedExactly(dates[..n], every);
    }
  }

  function Orders(dates: seq<Section>, days: seq<nat>): seq<seq<Name>>
    requires forall k :: 0 <= k < |days| ==> days[k] < |dates|
  {
    seq(|days|, k requires 0 <= k < |days| => dates[days[k]].order)
  }

  function BookAfter(orders: seq<seq<Name>>, slots: nat, exitRank: nat): seq<Name> {
    if orders == [] then []
    else
      var n := |orders| - 1;
      NextBook(BookAfter(orders[..n], slots, exitRank), orders[n], slots, exitRank)
  }

  function TurnoverOf(held: seq<Name>, next: seq<Name>, slots: nat): real
    requires slots > 0
  {
    |Elements(next) - Elements(held)| as real / slots as real
  }

  /** What is recorded at each rebalance of a book that holds something. */
  function Turnovers(orders: seq<seq<Name>>, slots: nat, exitRank: nat): seq<real>
    requires slots > 0
  {
    if orders == [] then []
    else
      var n := |orders| - 1;
      var before := Turnovers(orders[..n], slots, exitRank);
      var held := BookAfter(orders[..n], slots, exitRank);
      if held == [] then before else before + [TurnoverOf(held, BookAfter(orders, slots, exitRank), slots)]
  }

  /** The labels of the names that have one. */
  function Labels(names: seq<Name>, labels: map<Name, real>): seq<real> {
    if names == [] then []
    else
      var n := |names| - 1;
      var before := Labels(names[..n], labels);
      if names[n] in labels then before + [labels[names[n]]] else before
  }

  /** The average label of the book over the average label of the date. */
  function Excess(book: seq<Name>, section: Section): Option<real> {
    var mine, all := Labels(book, section.labels), Labels(section.order, section.labels);
    if mine == [] || all == [] then None else Some(Mean(mine) - Mean(all))
  }

  /** The excess recorded at each rebalance, with its date. */
  function Excesses(dates: seq<Section>, days: seq<nat>, slots: nat, exitRank: nat): seq<(nat, real)>
    requires forall k :: 0 <= k < |days| ==> days[k] < |dates|
  {
    if days == [] then []
    else
      var n := |days| - 1;
      var before := Excesses(dates, days[..n], slots, exitRank);
      var e := Excess(BookAfter(Orders(dates, days), slots, exitRank), dates[days[n]]);
      if e.None? then before else before + [(days[n], e.value)]
  }

  lemma OneMore(orders: seq<seq<Name>>, order: seq<Name>, slots: nat, exitRank: nat)
    requires slots > 0
    ensures var held := BookAfter(orders, slots, exitRank);
            var next := NextBook(held, order, slots, exitRank);
            && BookAfter(orders + [order], slots, exitRank) == next
            && Turnovers(orders + [order], slots, exitRank)
               == Turnovers(orders, slots, exitRank) + (if held == [] then [] else [TurnoverOf(held, next, slots)])
  {
    assert (orders + [order])[..|orders|] == orders;
  }

  lemma {:induction false} ExcessesOfMoreDates(dates: seq<Section>, more: seq<Section>, days: seq<nat>,
                                               slots: nat, exitRank: nat)
    requires forall k :: 0 <= k < |days| ==> days[k] < |dates|
    ensures Excesses(dates + more, days, slots, exitRank) == Excesses(dates, days, slots, exitRank)
    ensures Orders(dates + more, days) == Orders(dates, days)
  {
    if days == [] {
    } else {
      ExcessesOfMoreDates(dates, more, days[..|days| - 1], slots, exitRank);
      assert Orders(dates + more, days) == Orders(dates, days);
    }
  }

  /** What a run has produced after the first `i` dates. */
  ghost predicate Simulated(dates: seq<Section>, slots: nat, exitRank: nat, every: nat,
                            held: seq<Name>, excess: seq<(nat, real)>, turnover: seq<real>)
    requires slots > 0 && every > 0
  {
    var days := Counted(dates, every);
    && held == BookAfter(Orders(dates, days), slots, exitRank)
    && turnover == Turnovers(Orders(dates, days), slots, exitRank)
    && excess == Excesses(dates, days, slots, exitRank)
  }

  /** One counted date extends the run. */
  lemma {:induction false} RunStep(dates: seq<Section>, section: Section, slots: nat, exitRank: nat, every: nat)
    requires slots > 0 && every > 0
    ensures var before, after := Counted(dates, every), Counted(dates + [section], every);
            var held := BookAfter(Orders(dates, before), slots, exitRank);
            if !Counts(section, |dates|, every) then
              && after == before && Orders(dates + [section], after) == Orders(dates, before)
              && Excesses(dates + [section], after, slots, exitRank) == Excesses(dates, before, slots, exitRank)
            else
              var next := NextBook(held, section.order, slots, exitRank);
              var e := Excess(next, section);
              && BookAfter(Orders(dates + [section], after), slots, exitRank) == next
              && Turnovers(Orders(dates + [section], after), slots, exitRank)
                 == Turnovers(Orders(dates, before), slots, exitRank)
                    + (if held == [] then [] else [TurnoverOf(held, next, slots)])
              && Excesses(dates + [section], after, slots, exitRank)
                 == Excesses(dates, before, slots, exitRank) + (if e.None? then [] else [(|dates|, e.value)])
  {
    var before, after := Counted(dates, every), Counted(dates + [section], every);
    assert (dates + [section])[..|dates|] == dates;
    ExcessesOfMoreDates(dates, [section], before, slots, exitRank);
    if Counts(section, |dates|, every) {
      assert after == before + [|dates|] && after[..|before|] == before;
      assert Orders(dates + [section], after) == Orders(dates, before) + [section.order];
      OneMore(Orders(dates, before), section.order, slots, exitRank);
    }
  }

  lemma {:induction false} DateSkipped(dates: seq<Section>, section: Section, slots: nat, exitRank: nat, every: nat,
                                       held: seq<Name>, excess: seq<(nat, real)>, turnover: seq<real>)
    requires slots > 0 && every > 0 && !Counts(section, |dates|, every)
    requires Simulated(dates, slots, exitRank, every, held, excess, turnover)
    ensures Simulated(dates + [section], slots, exitRank, every, held, excess, turnover)
  {
    RunStep(dates, section, slots, exitRank, every);
  }

  lemma {:induction false} DateCounted(dates: seq<Section>, section: Section, slots: nat, exitRank: nat, every: nat,
                                       held: seq<Name>, excess: seq<(nat, real)>, turnover: seq<real>)
    requires slots > 0 && every > 0 && Counts(section, |dates|, every)
    requires Simulated(dates, slots, exitRank, every, held, excess, turnover)
    ensures var keep := NextBook(held, section.order, slots, exitRank);
            var e := Excess(keep, section);
            Simulated(dates + [section], slots, exitRank, every, keep,
                      excess + (if e.None? then [] else [(|dates|, e.value)]),
                      turnover + (if held == [] then [] else [TurnoverOf(held, keep, slots)]))
  {
    RunStep(dates, section, slots, exitRank, every);
  }

  lemma NothingSimulated(slots: nat, exitRank: nat, every: nat)
    requires slots > 0 && every > 0
    ensures Simulated([], slots, exitRank, every, [], [], [])
  {
  }

  /** `simulate`: the book, the excess over the date's average and the turnover. */
  method Simulate(dates: seq<Section>, slots: nat, exitRank: nat, every: nat)
    returns (held: seq<Name>, excess: seq<(nat, real)>, turnover: seq<real>)
    requires slots > 0 && every > 0 && Sections(dates)
    ensures Simulated(dates, slots, exitRank, every, held, excess, turnover)
  {
    held, excess, turnover := [], [], [];
    NothingSimulated(slots, exitRank, every);
    assert dates[..0] == [];
    for i := 0 to |dates|
      invariant Simulated(dates[..i], slots, exitRank, every, held, excess, turnover)
    {
      assert dates[..i + 1] == dates[..i] + [dates[i]];
      assert IsSection(dates[i]);
      if i % every != 0 || |dates[i].order| < MIN_SCORED {
        DateSkipped(dates[..i], dates[i], slots, exitRank, every, held, excess, turnover);
        continue;
      }
      DateCounted(dates[..i], dates[i], slots, exitRank, every, held, excess, turnover);
      held, excess, turnover := CountDate(dates[i], i, slots, exitRank, held, excess, turnover);
    }
    assert dates[..|dates|] == dates;
  }

  /** What the loop does on a date that counts. */
  method CountDate(section: Section, day: nat, slots: nat, exitRank: nat,
                   held: seq<Name>, excess0: seq<(nat, real)>, turnover0: seq<real>)
    returns (keep: seq<Name>, excess: seq<(nat, real)>, turnover: seq<real>)
    requires slots > 0 && IsSection(section)
    ensures keep == NextBook(held, section.order, slots, exitRank)
    ensures var e := Excess(keep, section); excess == excess0 + (if e.None? then [] else [(day, e.value)])
    ensures turnover == turnover0 + (if held == [] then [] else [TurnoverOf(held, keep, slots)])
  {
    excess, turnover := excess0, turnover0;
    keep := Rebalance(held, section.order, slots, exitRank);
    if held != [] {
      turnover := turnover + [TurnoverOf(held, keep, slots)];
    }
    var e := Excess(keep, section);
    if e.Some? {
      excess := excess + [(day, e.value)];
    }
  }

  ghost predicate AllDistinct(orders: seq<seq<Name>>) {
    forall i :: 0 <= i < |orders| ==> Distinct(orders[i])
  }

  /** The book never outgrows its slots, is full whenever enough names were scored, and
      otherwise holds every scored name. */
  lemma {:induction false} BookIsFull(orders: seq<seq<Name>>, slots: nat, exitRank: nat)
    requires AllDistinct(orders)
    ensures var book := BookAfter(orders, slots, exitRank);
            && Distinct(book) && |book| <= slots
            && (orders != [] ==> MinInt(slots, |orders[|orders| - 1]|) <= |book|)
            && (orders != [] && exitRank < UNRANKED ==> |book| == MinInt(slots, |orders[|orders| - 1]|))
  {
    if orders == [] {
    } else {
      var n := |orders| - 1;
      var held := BookAfter(orders[..n], slots, exitRank);
      BookIsFull(orders[..n], slots, exitRank);
      FillsTheSlots(held, orders[n], slots, exitRank);
      if exitRank < UNRANKED {
        HoldsOnlyScored(held, orders[n], slots, exitRank);
      }
    }
  }

  // ---- excess -----------------------------------------------------------------------------------

  lemma {:induction false} LabelsTotal(names: seq<Name>, labels: map<Name, real>)
    requires forall t :: t in names ==> t in labels
    ensures |Labels(names, labels)| == |names|
    ensures Total(Labels(names, labels)) == WaterFill.Sum(names, labels)
  {
    if names == [] {
    } else {
      var n := |names| - 1;
      LabelsTotal(names[..n], labels);
      WaterFill.SumAppend(names[..n], names[n], labels);
      assert names == names[..n] + [names[n]];
    }
  }

  lemma {:induction false} LabelsOfScored(names: seq<Name>, labels: map<Name, real>)
    ensures Labels(names, labels) == Labels(Inside(names, labels.Keys), labels)
  {
    if names == [] {
    } else {
      var n := |names| - 1;
      var front := Inside(names[..n], labels.Keys);
      LabelsOfScored(names[..n], labels);
      assert names == names[..n] + [names[n]];
      InsideConcat(names[..n], [names[n]], labels.Keys);
      assert [names[n]][1..] == [];
      if names[n] in labels {
        assert Inside(names, labels.Keys) == front + [names[n]];
        assert (front + [names[n]])[..|front|] == front;
      } else {
        assert Inside(names, labels.Keys) == front;
      }
    }
  }

  lemma MeanOfLabels(names: seq<Name>, labels: map<Name, real>)
    requires names != [] && forall t :: t in names ==> t in labels
    ensures Labels(names, labels) != []
    ensures Mean(Labels(names, labels)) == Div(WaterFill.Sum(names, labels), |names| as real)
  {
    LabelsTotal(names, labels);
  }

  /** The excess is the mean label of the names of the book that have one, less the mean label of
      the date; there is none exactly when no name of the book has one. */
  lemma {:induction false} ExcessMeans(book: seq<Name>, section: Section)
    requires IsSection(section) && section.order != []
    ensures var scored, all := Inside(book, Elements(section.order)), section.order;
            && (Excess(book, section).None? <==> scored == [])
            && (scored != [] ==>
                  Excess(book, section)
                  == Some(Div(WaterFill.Sum(scored, section.labels), |scored| as real)
                          - Div(WaterFill.Sum(all, section.labels), |all| as real)))
  {
    var scored := Inside(book, section.labels.Keys);
    LabelsOfScored(book, section.labels);
    InsideFacts(book, section.labels.Keys);
    forall t | t in section.order ensures t in section.labels {
      assert t in Elements(section.order);
    }
    MeanOfLabels(section.order, section.labels);
    if scored != [] {
      MeanOfLabels(scored, section.labels);
    }
  }

  /** A book that can hold every scored name has no excess: there is nothing to select. */
  lemma {:induction false} HoldingEverythingHasNoExcess(held: seq<Name>, section: Section, slots: nat, exitRank: nat)
    requires IsSection(section) && Distinct(held) && |held| <= slots && exitRank < UNRANKED
    requires 0 < |section.order| <= slots
    ensures Excess(NextBook(held, section.order, slots, exitRank), section) == Some(0.0)
  {
    var order := section.order;
    var next := NextBook(held, order, slots, exitRank);
    FillsTheSlots(held, order, slots, exitRank);
    HoldsOnlyScored(held, order, slots, exitRank);
    DistinctSize(next);
    DistinctSize(order);
    Selection.SubsetOfSameSize(Elements(next), Elements(order));
    forall t | t in order ensures t in section.labels {
      assert t in Elements(order);
    }
    LabelsTotal(next, section.labels);
    LabelsTotal(order, section.labels);
    WaterFill.SamePositionsSameSum(next, order, section.labels);
  }

  lemma {:induction false} ScoredBookHasExcess(book: seq<Name>, section: Section)
    requires IsSection(section) && book != [] && forall t :: t in book ==> t in section.order
    ensures Excess(book, section).Some?
  {
    forall t | t in section.order ensures t in section.labels {
      assert t in Elements(section.order);
    }
    LabelsTotal(book, section.labels);
    assert book[0] in book;
    LabelsTotal(section.order, section.labels);
  }

  lemma {:induction false} LastRebalanceHasExcess(orders: seq<seq<Name>>, section: Section, slots: nat, exitRank: nat)
    requires AllDistinct(orders) && orders != [] && slots > 0 && exitRank < UNRANKED
    requires IsSection(section) && orders[|orders| - 1] == section.order != []
    ensures Excess(BookAfter(orders, slots, exitRank), section).Some?
  {
    var n := |orders| - 1;
    BookIsFull(orders, slots, exitRank);
    BookIsFull(orders[..n], slots, exitRank);
    HoldsOnlyScored(BookAfter(orders[..n], slots, exitRank), orders[n], slots, exitRank);
    ScoredBookHasExcess(BookAfter(orders, slots, exitRank), section);
  }

  lemma {:induction false} OneMoreExcess(dates: seq<Section>, days: seq<nat>, slots: nat, exitRank: nat)
    requires Sections(dates) && slots > 0 && exitRank < UNRANKED && days != []
    requires forall k :: 0 <= k < |days| ==> days[k] < |dates| && |dates[days[k]].order| > 0
    ensures var n := |days| - 1;
            var before, records := Excesses(dates, days[..n], slots, exitRank), Excesses(dates, days, slots, exitRank);
            && |records| == |before| + 1 && records[..|before|] == before && records[|before|].0 == days[n]
            && Excess(BookAfter(Orders(dates, days), slots, exitRank), dates[days[n]]) == Some(records[|before|].1)
  {
    var orders, n := Orders(dates, days), |days| - 1;
    assert AllDistinct(orders) by {
      forall k | 0 <= k < |orders| ensures Distinct(orders[k]) {
        assert IsSection(dates[days[k]]);
      }
    }
    LastRebalanceHasExcess(orders, dates[days[n]], slots, exitRank);
  }

  /** Each record is of one of the days, in order, and is the excess there of the book that the
      rebalances up to that day leave. */
  ghost predicate OnEachDay(records: seq<(nat, real)>, dates: seq<Section>, days: seq<nat>, slots: nat, exitRank: nat)
    requires forall k :: 0 <= k < |days| ==> days[k] < |dates|
  {
    && |records| == |days|
    && forall k :: 0 <= k < |days| ==>
         && records[k].0 == days[k]
         && Excess(BookAfter(Orders(dates, days)[..k + 1], slots, exitRank), dates[days[k]]) == Some(records[k].1)
  }

  lemma RecordsOneMore(before: seq<(nat, real)>, records: seq<(nat, real)>, dates: seq<Section>, days: seq<nat>,
                       slots: nat, exitRank: nat)
    requires days != [] && forall k :: 0 <= k < |days| ==> days[k] < |dates|
    requires OnEachDay(before, dates, days[..|days| - 1], slots, exitRank)
    requires |records| == |before| + 1 && records[..|before|] == before && records[|before|].0 == days[|days| - 1]
    requires Excess(BookAfter(Orders(dates, days), slots, exitRank), dates[days[|days| - 1]])
             == Some(records[|before|].1)
    ensures OnEachDay(records, dates, days, slots, exitRank)
  {
    var orders, front := Orders(dates, days), Orders(dates, days[..|days| - 1]);
    forall k | 0 <= k < |days|
      ensures records[k].0 == days[k]
      ensures Excess(BookAfter(orders[..k + 1], slots, exitRank), dates[days[k]]) == Some(records[k].1)
    {
      if k < |before| {
        assert records[..|before|][k] == before[k];
        assert orders[..k + 1] == front[..k + 1];
      } else {
        assert orders[..k + 1] == orders;
      }
    }
  }

  /** Every rebalance records an excess, under its own date. */
  lemma {:induction false} ExcessForEveryRebalance(dates: seq<Section>, days: seq<nat>, slots: nat, exitRank: nat)
    requires Sections(dates) && slots > 0 && exitRank < UNRANKED
    requires forall k :: 0 <= k < |days| ==> days[k] < |dates| && |dates[days[k]].order| > 0
    ensures var records := Excesses(dates, days, slots, exitRank);
            OnEachDay(records, dates, days, slots, exitRank)
  {
    if days == [] {
    } else {
      var n := |days| - 1;
      ExcessForEveryRebalance(dates, days[..n], slots, exitRank);
      OneMoreRecorded(dates, days, slots, exitRank);
    }
  }

  lemma {:induction false} OneMoreRecorded(dates: seq<Section>, days: seq<nat>, slots: nat, exitRank: nat)
    requires Sections(dates) && slots > 0 && exitRank < UNRANKED && days != []
    requires forall k :: 0 <= k < |days| ==> days[k] < |dates| && |dates[days[k]].order| > 0
    requires OnEachDay(Excesses(dates, days[..|days| - 1], slots, exitRank), dates, days[..|days| - 1], slots, exitRank)
    ensures OnEachDay(Excesses(dates, days, slots, exitRank), dates, days, slots, exitRank)
  {
    OneMoreExcess(dates, days, slots, exitRank);
    RecordsOneMore(Excesses(dates, days[..|days| - 1], slots, exitRank), Excesses(dates, days, slots, exitRank),
                   dates, days, slots, exitRank);
  }

  // ---- turnover ---------------------------------------------------------------------------------

  /** What one rebalance adds to the book less what it takes away is how much it grows. */
  lemma LeaversAndEntrants(a: seq<Name>, b: seq<Name>)
    requires Distinct(a) && Distinct(b)
    ensures |Elements(b) - Elements(a)| - |Elements(a) - Elements(b)| == |b| - |a|
  {
    DistinctSize(a);
    DistinctSize(b);
    var x, y := Elements(a), Elements(b);
    assert x == (x - y) + (x * y);
    assert y == (y - x) + (x * y);
  }

  lemma ShareTimes(n: nat, slots: nat)
    requires slots > 0
    ensures Mul(n as real / slots as real, slots as real) == n as real
  {
  }

  /** A turnover times the slots counts the names that entered, and those that left as well
      exactly when the book kept its size. */
  ghost predicate CountsEntrants(turnover: real, held: seq<Name>, next: seq<Name>, slots: nat) {
    && Mul(turnover, slots as real) == |Elements(next) - Elements(held)| as real
    && (Mul(turnover, slots as real) == |Elements(held) - Elements(next)| as real <==> |next| == |held|)
  }

  lemma {:induction false} TurnoverCounts(held: seq<Name>, next: seq<Name>, slots: nat)
    requires Distinct(held) && Distinct(next) && slots > 0
    ensures CountsEntrants(TurnoverOf(held, next, slots), held, next, slots)
  {
    LeaversAndEntrants(held, next);
    ShareTimes(|Elements(next) - Elements(held)|, slots);
  }

  /** The turnovers of a run belong, in order, to its rebalances from the second on. */
  ghost predicate AllCount(turnovers: seq<real>, orders: seq<seq<Name>>, slots: nat, exitRank: nat) {
    && |turnovers| == MaxInt(|orders| - 1, 0)
    && forall k :: 0 <= k < |turnovers| ==>
         CountsEntrants(turnovers[k], BookAfter(orders[..k + 1], slots, exitRank),
                        BookAfter(orders[..k + 2], slots, exitRank), slots)
  }

  lemma OneMoreCounts(before: seq<real>, last: real, orders: seq<seq<Name>>, slots: nat, exitRank: nat)
    requires |orders| >= 2 && AllCount(before, orders[..|orders| - 1], slots, exitRank)
    requires CountsEntrants(last, BookAfter(orders[..|orders| - 1], slots, exitRank),
                            BookAfter(orders, slots, exitRank), slots)
    ensures AllCount(before + [last], orders, slots, exitRank)
  {
    var n := |orders| - 1;
    forall k | 0 <= k < n
      ensures CountsEntrants((before + [last])[k], BookAfter(orders[..k + 1], slots, exitRank),
                             BookAfter(orders[..k + 2], slots, exitRank), slots)
    {
      if k < n - 1 {
        CountOfPrefix(before[k], orders, k, slots, exitRank);
      } else {
        assert orders[..k + 2] == orders;
      }
    }
  }

  lemma CountOfPrefix(turnover: real, orders: seq<seq<Name>>, k: nat, slots: nat, exitRank: nat)
    requires k + 2 < |orders|
    requires var front := orders[..|orders| - 1];
             CountsEntrants(turnover, BookAfter(front[..k + 1], slots, exitRank),
                            BookAfter(front[..k + 2], slots, exitRank), slots)
    ensures CountsEntrants(turnover, BookAfter(orders[..k + 1], slots, exitRank),
                           BookAfter(orders[..k + 2], slots, exitRank), slots)
  {
    var front := orders[..|orders| - 1];
    assert front[..k + 1] == orders[..k + 1] && front[..k + 2] == orders[..k + 2];
  }

  lemma FirstRebalanceRecordsNothing(orders: seq<seq<Name>>, slots: nat, exitRank: nat)
    requires slots > 0 && |orders| <= 1
    ensures Turnovers(orders, slots, exitRank) == []
  {
    if |orders| == 1 {
      assert orders[..0] == [];
    }
  }

  /** Every rebalance but the first records a turnover, which counts the names that entered, and
      those that left exactly when the book kept its size. */
  lemma {:induction false} TurnoverCountsEntrants(orders: seq<seq<Name>>, slots: nat, exitRank: nat)
    requires AllDistinct(orders) && slots > 0 && forall i :: 0 <= i < |orders| ==> orders[i] != []
    ensures AllCount(Turnovers(orders, slots, exitRank), orders, slots, exitRank)
  {
    var n := |orders| - 1;
    if n < 1 {
      FirstRebalanceRecordsNothing(orders, slots, exitRank);
    } else {
      TurnoverCountsEntrants(orders[..n], slots, exitRank);
      var held, next := BookAfter(orders[..n], slots, exitRank), BookAfter(orders, slots, exitRank);
      BookIsFull(orders[..n], slots, exitRank);
      BookIsFull(orders, slots, exitRank);
      TurnoverCounts(held, next, slots);
      assert held != [];
      OneMoreCounts(Turnovers(orders[..n], slots, exitRank), TurnoverOf(held, next, slots), orders, slots, exitRank);
    }
  }

  /** When every rebalance has as many scored names as slots, the book keeps its size and every
      turnover counts the names that left. */
  lemma {:induction false} TurnoverCountsLeavers(orders: seq<seq<Name>>, slots: nat, exitRank: nat)
    requires AllDistinct(orders) && slots > 0 && forall i :: 0 <= i < |orders| ==> |orders[i]| >= slots
    ensures var t := Turnovers(orders, slots, exitRank);
            |t| == MaxInt(|orders| - 1, 0)
            && forall k :: 0 <= k < |t| ==>
                 Mul(t[k], slots as real)
                 == |Elements(BookAfter(orders[..k + 1], slots, exitRank))
                     - Elements(BookAfter(orders[..k + 2], slots, exitRank))| as real
  {
    TurnoverCountsEntrants(orders, slots, exitRank);
    var t := Turnovers(orders, slots, exitRank);
    forall k | 0 <= k < |t|
      ensures Mul(t[k], slots as real)
              == |Elements(BookAfter(orders[..k + 1], slots, exitRank))
                  - Elements(BookAfter(orders[..k + 2], slots, exitRank))| as real
    {
      BookIsFull(orders[..k + 1], slots, exitRank);
      BookIsFull(orders[..k + 2], slots, exitRank);
      assert CountsEntrants(t[k], BookAfter(orders[..k + 1], slots, exitRank),
                            BookAfter(orders[..k + 2], slots, exitRank), slots);
    }
  }

  /** The rebalances of a run have enough names, all distinct. */
  lemma {:induction false} CountedAreRebalanced(dates: seq<Section>, every: nat)
    requires Sections(dates) && every > 0
    ensures Rebalanced(Orders(dates, Counted(dates, every)))
  {
    var days := Counted(dates, every);
    CountedExactly(dates, every);
    forall k | 0 <= k < |days|
      ensures Distinct(dates[days[k]].order) && |dates[days[k]].order| >= MIN_SCORED
    {
      assert days[k] in days;
      assert IsSection(dates[days[k]]);
    }
  }

  /** What the turnovers of a simulated run count, with nothing asked of its dates. */
  lemma {:induction false} SimulatedTurnoverCounts(dates: seq<Section>, slots: nat, exitRank: nat, every: nat,
                                                   held: seq<Name>, excess: seq<(nat, real)>, turnover: seq<real>)
    requires Sections(dates) && slots > 0 && every > 0
    requires Simulated(dates, slots, exitRank, every, held, excess, turnover)
    ensures AllCount(turnover, Orders(dates, Counted(dates, every)), slots, exitRank)
  {
    CountedAreRebalanced(dates, every);
    TurnoverCountsEntrants(Orders(dates, Counted(dates, every)), slots, exitRank);
  }

  /** What a simulated run records: one excess for each counted date, of the book left there; and the
      book it ends with is the one its counted dates leave. */
  lemma {:induction false} SimulatedExcesses(dates: seq<Section>, slots: nat, exitRank: nat, every: nat,
                                             held: seq<Name>, excess: seq<(nat, real)>, turnover: seq<real>)
    requires Sections(dates) && slots > 0 && every > 0 && exitRank < 0x4000_0000
    requires Simulated(dates, slots, exitRank, every, held, excess, turnover)
    ensures OnEachDay(excess, dates, Counted(dates, every), slots, exitRank)
    ensures held == BookAfter(Orders(dates, Counted(dates, every)), slots, exitRank)
  {
    var days := Counted(dates, every);
    CountedExactly(dates, every);
    forall k | 0 <= k < |days| ensures |dates[days[k]].order| > 0 {
      assert days[k] in days;
    }
    ExcessForEveryRebalance(dates, days, slots, exitRank);
  }
}
