/** Small datatypes and sequence facts shared by every component. */
module Common {

  /** A listed stock. */
  type Name = string

  datatype Option<+T> = None | Some(value: T)

  datatype Result<+T, +E> = Ok(value: T) | Err(error: E)

  function Min(a: real, b: real): real { if a <= b then a else b }

  function Max(a: real, b: real): real { if a <= b then b else a }

  /** Products and quotients as named functions: the prover then knows that
      equal arguments give equal results. */
  function Mul(a: real, b: real): real { a * b }

  function Div(a: real, b: real): real
    requires b != 0.0
  {
    a / b
  }

  function Total(x: seq<real>): real {
    if x == [] then 0.0 else Total(x[..|x| - 1]) + x[|x| - 1]
  }

  function Mean(x: seq<real>): real
    requires x != []
  {
    Div(Total(x), |x| as real)
  }

  function MinInt(a: int, b: int): int { if a <= b then a else b }

  function MaxInt(a: int, b: int): int { if a <= b then b else a }

  /** The lesser and the greater of two are one of them, and no greater, or no less, than either. */
  lemma LesserAndGreater(a: real, b: real, i: int, j: int)
    ensures Min(a, b) in {a, b} && Max(a, b) in {a, b} && Min(a, b) <= a <= Max(a, b) && Min(a, b) <= b <= Max(a, b)
    ensures MinInt(i, j) in {i, j} && MaxInt(i, j) in {i, j}
    ensures MinInt(i, j) <= i <= MaxInt(i, j) && MinInt(i, j) <= j <= MaxInt(i, j)
  {
  }

  /** A Python slice `s[:k]`, which never fails on a `k` past the end. */
  function Take<T>(s: seq<T>, k: nat): seq<T> {
    if k <= |s| then s[..k] else s
  }

  ghost predicate Distinct<T>(s: seq<T>) {
    forall i, j :: 0 <= i < j < |s| ==> s[i] != s[j]
  }

  function Elements<T>(s: seq<T>): set<T> {
    set t | t in s
  }

  /** The members of `s` that lie in `keep`, in their original order. */
  function Inside<T(==)>(s: seq<T>, keep: set<T>): seq<T> {
    if s == [] then []
    else if s[0] in keep then [s[0]] + Inside(s[1..], keep)
    else Inside(s[1..], keep)
  }

  /** The members of `s` that lie outside `drop`, in their original order. */
  function Outside<T(==)>(s: seq<T>, drop: set<T>): seq<T> {
    if s == [] then []
    else if s[0] in drop then Outside(s[1..], drop)
    else [s[0]] + Outside(s[1..], drop)
  }

  lemma InsideFacts<T>(s: seq<T>, keep: set<T>)
    ensures forall t :: t in Inside(s, keep) <==> t in s && t in keep
    ensures Distinct(s) ==> Distinct(Inside(s, keep))
    ensures |Inside(s, keep)| <= |s|
  {
    if s == [] {
    } else {
      InsideFacts(s[1..], keep);
      assert s == [s[0]] + s[1..];
    }
  }

  lemma OutsideFacts<T>(s: seq<T>, drop: set<T>)
    ensures forall t :: t in Outside(s, drop) <==> t in s && t !in drop
    ensures Distinct(s) ==> Distinct(Outside(s, drop))
    ensures |Inside(s, drop)| + |Outside(s, drop)| == |s|
  {
    if s == [] {
    } else {
      OutsideFacts(s[1..], drop);
      assert s == [s[0]] + s[1..];
    }
  }

  lemma InsideConcat<T>(a: seq<T>, b: seq<T>, keep: set<T>)
    ensures Inside(a + b, keep) == Inside(a, keep) + Inside(b, keep)
  {
    if a == [] {
      assert a + b == b;
    } else {
      InsideConcat(a[1..], b, keep);
      assert (a + b)[1..] == a[1..] + b;
    }
  }

  lemma OutsideConcat<T>(a: seq<T>, b: seq<T>, drop: set<T>)
    ensures Outside(a + b, drop) == Outside(a, drop) + Outside(b, drop)
  {
    if a == [] {
      assert a + b == b;
    } else {
      OutsideConcat(a[1..], b, drop);
      assert (a + b)[1..] == a[1..] + b;
    }
  }

  /** Only membership of the elements of `s` matters to the filter. */
  lemma InsideCongruent<T>(s: seq<T>, a: set<T>, b: set<T>)
    requires forall t :: t in s ==> (t in a <==> t in b)
    ensures Inside(s, a) == Inside(s, b)
  {
    if s == [] {
    } else {
      assert forall t :: t in s[1..] ==> t in s;
      InsideCongruent(s[1..], a, b);
    }
  }

  lemma InsideAll<T>(s: seq<T>, a: set<T>)
    requires forall t :: t in s ==> t in a
    ensures Inside(s, a) == s
  {
    if s == [] {
    } else {
      assert forall t :: t in s[1..] ==> t in s;
      InsideAll(s[1..], a);
    }
  }

  lemma InsideNone<T>(s: seq<T>, a: set<T>)
    requires forall t :: t in s ==> t !in a
    ensures Inside(s, a) == []
  {
    if s == [] {
    } else {
      assert forall t :: t in s[1..] ==> t in s;
      InsideNone(s[1..], a);
    }
  }

  /** A distinct sequence has as many members as its set of elements. */
  lemma DistinctSize<T>(s: seq<T>)
    requires Distinct(s)
    ensures |Elements(s)| == |s|
  {
    if s == [] {
    } else {
      DistinctSize(s[1..]);
      assert Elements(s) == Elements(s[1..]) + {s[0]};
      assert s[0] !in Elements(s[1..]);
    }
  }

  lemma OutsideNone<T>(s: seq<T>, a: set<T>)
    requires forall t :: t in s ==> t in a
    ensures Outside(s, a) == []
  {
    if s == [] {
    } else {
      assert forall t :: t in s[1..] ==> t in s;
      OutsideNone(s[1..], a);
    }
  }

  lemma OutsideNothing<T>(s: seq<T>, a: set<T>)
    requires a == {}
    ensures Outside(s, a) == s
  {
    if s == [] {
    } else {
      OutsideNothing(s[1..], a);
    }
  }

  lemma OutsideIsInside<T>(s: seq<T>, drop: set<T>, keep: set<T>)
    requires forall t :: t in s ==> (t in keep <==> t !in drop)
    ensures Outside(s, drop) == Inside(s, keep)
  {
    if s == [] {
    } else {
      assert forall t :: t in s[1..] ==> t in s;
      OutsideIsInside(s[1..], drop, keep);
    }
  }

  /** Where a kept element lands: after the kept elements that precede it. */
  lemma InsidePosition<T>(s: seq<T>, keep: set<T>, i: nat)
    requires i < |s| && s[i] in keep
    ensures |Inside(s[..i], keep)| < |Inside(s, keep)|
    ensures Inside(s, keep)[|Inside(s[..i], keep)|] == s[i]
  {
    assert s == s[..i] + ([s[i]] + s[i + 1..]);
    InsideConcat(s[..i], [s[i]] + s[i + 1..], keep);
  }

  /** In a distinct list an element is among the first `k` kept ones exactly
      when fewer than `k` kept elements precede it. */
  lemma {:induction false} AmongFirst<T>(s: seq<T>, keep: set<T>, k: nat, i: nat)
    requires Distinct(s) && i < |s|
    ensures s[i] in Take(Inside(s, keep), k) <==> s[i] in keep && |Inside(s[..i], keep)| < k
  {
    InsideFacts(s, keep);
    if s[i] in keep {
      InsidePosition(s, keep, i);
    }
  }

  // ---- Python's stable sort --------------------------------------------------------

  /** Lexicographic order on two-part sort keys. */
  predicate KeyLe(a: (int, int), b: (int, int)) {
    a.0 < b.0 || (a.0 == b.0 && a.1 <= b.1)
  }

  lemma KeysMeet(a: (int, int), b: (int, int))
    requires KeyLe(a, b) && KeyLe(b, a)
    ensures a == b
  {
  }

  lemma KeysCompare(a: (int, int), b: (int, int))
    ensures KeyLe(a, b) || KeyLe(b, a)
  {
  }

  function InsertBy<T>(x: T, sorted: seq<T>, key: T -> (int, int)): seq<T> {
    if sorted == [] || KeyLe(key(x), key(sorted[0])) then [x] + sorted
    else [sorted[0]] + InsertBy(x, sorted[1..], key)
  }

  function SortBy<T>(s: seq<T>, key: T -> (int, int)): seq<T> {
    if s == [] then [] else InsertBy(s[0], SortBy(s[1..], key), key)
  }

  ghost predicate Ordered<T>(s: seq<T>, key: T -> (int, int)) {
    forall i, j :: 0 <= i < j < |s| ==> KeyLe(key(s[i]), key(s[j]))
  }

  lemma InsertPermutes<T>(x: T, sorted: seq<T>, key: T -> (int, int))
    ensures multiset(InsertBy(x, sorted, key)) == multiset(sorted) + multiset{x}
    ensures forall y :: y in InsertBy(x, sorted, key) <==> y == x || y in sorted
  {
    if sorted != [] && !KeyLe(key(x), key(sorted[0])) {
      InsertPermutes(x, sorted[1..], key);
      assert sorted == [sorted[0]] + sorted[1..];
    }
  }

  lemma OrderedCons<T>(first: T, rest: seq<T>, key: T -> (int, int))
    requires Ordered(rest, key)
    requires forall y :: y in rest ==> KeyLe(key(first), key(y))
    ensures Ordered([first] + rest, key)
  {
  }

  lemma InsertFacts<T>(x: T, sorted: seq<T>, key: T -> (int, int))
    requires Ordered(sorted, key)
    ensures Ordered(InsertBy(x, sorted, key), key)
  {
    if sorted == [] || KeyLe(key(x), key(sorted[0])) {
      forall y | y in sorted ensures KeyLe(key(x), key(y)) {
        var i :| 0 <= i < |sorted| && sorted[i] == y;
        assert i > 0 ==> KeyLe(key(sorted[0]), key(sorted[i]));
      }
      OrderedCons(x, sorted, key);
    } else {
      InsertFacts(x, sorted[1..], key);
      InsertPermutes(x, sorted[1..], key);
      forall y | y in InsertBy(x, sorted[1..], key) ensures KeyLe(key(sorted[0]), key(y)) {
        assert y in multiset(InsertBy(x, sorted[1..], key));
        if y in sorted[1..] {
          var i :| 0 <= i < |sorted| - 1 && sorted[1..][i] == y;
          assert KeyLe(key(sorted[0]), key(sorted[i + 1]));
        } else {
          assert y == x;
          KeysCompare(key(x), key(sorted[0]));
        }
      }
      OrderedCons(sorted[0], InsertBy(x, sorted[1..], key), key);
    }
  }

  lemma SortPermutes<T>(s: seq<T>, key: T -> (int, int))
    ensures multiset(SortBy(s, key)) == multiset(s)
    ensures forall x :: x in SortBy(s, key) <==> x in s
    ensures |SortBy(s, key)| == |s|
  {
    if s == [] {
    } else {
      SortPermutes(s[1..], key);
      InsertPermutes(s[0], SortBy(s[1..], key), key);
      assert s == [s[0]] + s[1..];
      assert |multiset(SortBy(s, key))| == |multiset(s)|;
    }
  }

  /** Sorting orders and permutes. */
  lemma SortFacts<T>(s: seq<T>, key: T -> (int, int))
    ensures Ordered(SortBy(s, key), key)
    ensures multiset(SortBy(s, key)) == multiset(s)
    ensures |SortBy(s, key)| == |s|
    ensures forall x :: x in SortBy(s, key) <==> x in s
  {
    if s == [] {
    } else {
      SortFacts(s[1..], key);
      InsertFacts(s[0], SortBy(s[1..], key), key);
    }
    SortPermutes(s, key);
  }

  /** The members with a given key, in order. */
  function WithKey<T>(s: seq<T>, key: T -> (int, int), k: (int, int)): seq<T> {
    if s == [] then []
    else if key(s[0]) == k then [s[0]] + WithKey(s[1..], key, k)
    else WithKey(s[1..], key, k)
  }

  lemma {:induction false} InsertKeepsTies<T>(x: T, sorted: seq<T>, key: T -> (int, int), k: (int, int))
    ensures WithKey(InsertBy(x, sorted, key), key, k) == WithKey([x] + sorted, key, k)
  {
    assert ([x] + sorted)[1..] == sorted;
    if sorted != [] && !KeyLe(key(x), key(sorted[0])) {
      InsertKeepsTies(x, sorted[1..], key, k);
      assert ([x] + sorted[1..])[1..] == sorted[1..];
    }
  }

  /** Sorting keeps members of equal key in the order they had. */
  lemma {:induction false} SortIsStable<T>(s: seq<T>, key: T -> (int, int), k: (int, int))
    ensures WithKey(SortBy(s, key), key, k) == WithKey(s, key, k)
  {
    if s == [] {
    } else {
      var rest := SortBy(s[1..], key);
      SortIsStable(s[1..], key, k);
      InsertKeepsTies(s[0], rest, key, k);
      assert ([s[0]] + rest)[1..] == rest;
    }
  }

  /** The last member with a given key is the last of those. */
  lemma {:induction false} LastWithKey<T>(s: seq<T>, key: T -> (int, int), k: (int, int)) returns (i: nat)
    requires WithKey(s, key, k) != []
    ensures var ties := WithKey(s, key, k); i < |s| && s[i] == ties[|ties| - 1] && key(s[i]) == k
    ensures forall j :: i < j < |s| ==> key(s[j]) != k
  {
    if WithKey(s[1..], key, k) != [] {
      var rest := LastWithKey(s[1..], key, k);
      i := rest + 1;
      forall j | i < j < |s| ensures key(s[j]) != k {
        assert s[j] == s[1..][j - 1];
      }
    } else {
      i := 0;
      forall j | 0 < j < |s| ensures key(s[j]) != k {
        NoneWithKey(s[1..], key, k, j - 1);
      }
    }
  }

  lemma {:induction false} NoneWithKey<T>(s: seq<T>, key: T -> (int, int), k: (int, int), j: nat)
    requires WithKey(s, key, k) == [] && j < |s|
    ensures key(s[j]) != k
  {
    if j > 0 {
      NoneWithKey(s[1..], key, k, j - 1);
    }
  }

  /** The last of a sorted list is the last of its key in the list that was sorted. */
  lemma {:induction false} LastOfSorted<T>(s: seq<T>, key: T -> (int, int)) returns (i: nat)
    requires s != []
    ensures |SortBy(s, key)| == |s| && i < |s|
    ensures var last := SortBy(s, key)[|s| - 1];
            s[i] == last && forall j :: i < j < |s| ==> key(s[j]) != key(last)
  {
    var sorted := SortBy(s, key);
    SortFacts(s, key);
    var k := key(sorted[|s| - 1]);
    SortIsStable(s, key, k);
    if WithKey(sorted, key, k) == [] {
      NoneWithKey(sorted, key, k, |s| - 1);
    }
    var last := LastWithKey(sorted, key, k);
    i := LastWithKey(s, key, k);
  }

  /** A list already in order is left alone. */
  lemma SortOfOrdered<T>(s: seq<T>, key: T -> (int, int))
    requires Ordered(s, key)
    ensures SortBy(s, key) == s
  {
    if s == [] {
    } else {
      SortOfOrdered(s[1..], key);
    }
  }
}
