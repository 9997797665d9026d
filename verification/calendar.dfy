/** The exchange calendar as a strictly increasing list of sessions. */
module Calendar {
  type Date = int

  ghost predicate Increasing(sessions: seq<Date>) {
    forall i, j :: 0 <= i < j < |sessions| ==> sessions[i] < sessions[j]
  }

  /** How many sessions fall after `lo` and no later than `hi`. */
  function CountBetween(sessions: seq<Date>, lo: Date, hi: Date): nat {
    if sessions == [] then 0
    else
      var last := sessions[|sessions| - 1];
      CountBetween(sessions[..|sessions| - 1], lo, hi) + (if lo < last <= hi then 1 else 0)
  }

  lemma {:induction false} NoneBetween(sessions: seq<Date>, lo: Date, hi: Date)
    requires forall s :: s in sessions ==> !(lo < s <= hi)
    ensures CountBetween(sessions, lo, hi) == 0
  {
    if sessions == [] {
    } else {
      var n := |sessions| - 1;
      assert sessions[n] in sessions;
      assert forall s :: s in sessions[..n] ==> s in sessions;
      NoneBetween(sessions[..n], lo, hi);
    }
  }

  ghost function Between(sessions: seq<Date>, n: nat, lo: Date, hi: Date): set<nat>
    requires n <= |sessions|
  {
    set i: nat | i < n && lo < sessions[i] <= hi
  }

  /** The count is the number of places at which such a session stands. */
  lemma {:induction false} CountIsNumber(sessions: seq<Date>, n: nat, lo: Date, hi: Date)
    requires n <= |sessions|
    ensures CountBetween(sessions[..n], lo, hi) == |Between(sessions, n, lo, hi)|
  {
    if n == 0 {
      assert Between(sessions, n, lo, hi) == {};
    } else {
      CountIsNumber(sessions, n - 1, lo, hi);
      assert sessions[..n][..n - 1] == sessions[..n - 1];
      var last: set<nat> := if lo < sessions[n - 1] <= hi then {n - 1} else {};
      assert Between(sessions, n, lo, hi) == Between(sessions, n - 1, lo, hi) + last;
    }
  }

  /** Counting sessions between two of them measures their distance. */
  lemma {:induction false} CountIsDistance(sessions: seq<Date>, i: nat, j: nat, hi: Date)
    requires Increasing(sessions) && i <= j < |sessions|
    requires sessions[j] <= hi && (j + 1 < |sessions| ==> hi < sessions[j + 1])
    ensures CountBetween(sessions, sessions[i], hi) == j - i
    decreases |sessions|
  {
    var n := |sessions| - 1;
    var rest := sessions[..n];
    if j < n {
      assert hi < sessions[n];
      CountIsDistance(rest, i, j, hi);
    } else if i < j {
      CountIsDistance(rest, i, j - 1, hi);
    } else {
      NoneBetween(rest, sessions[i], hi);
    }
  }
}
