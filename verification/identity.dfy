/** The combined version identity (config/identity.py): hexadecimal digests are
    exclusive-or'ed as integers and printed back, sixteen characters of them. */
module Identities {
  import opened Common

  const HEX: string := "0123456789abcdef"

  /** One lower-case hexadecimal digit; every digest is a text of them. */
  type HexDigit = c: char | '0' <= c <= '9' || 'a' <= c <= 'f' witness '0'

  type Hex = seq<HexDigit>

  function HexValue(c: HexDigit): nat {
    if c <= '9' then c as int - '0' as int else c as int - 'a' as int + 10
  }

  function HexChar(n: nat): (c: HexDigit)
    requires n < 16
    ensures HexValue(c) == n
  {
    HEX[n]
  }

  lemma HexCharOfValue(c: HexDigit)
    ensures HexValue(c) < 16 && HexChar(HexValue(c)) == c
  {
  }

  /** Each digit stands for its place in the usual order of the sixteen. */
  lemma DigitsInOrder(c: HexDigit)
    ensures HexValue(c) < 16 && "0123456789abcdef"[HexValue(c)] == c
  {
    HexCharOfValue(c);
  }

  /** The number with one more hex digit. */
  function Append(n: nat, digit: nat): nat { 16 * n + digit }

  /** `int(s, 16)`. */
  function Parse(s: Hex): nat {
    if s == "" then 0 else Append(Parse(s[..|s| - 1]), HexValue(s[|s| - 1]))
  }

  function Digits(n: nat): (s: Hex) {
    if n < 16 then [HexChar(n)] else Digits(n / 16) + [HexChar(n % 16)]
  }

  function Zeros(n: nat): (s: Hex)
    ensures |s| == n
  {
    seq(n, i => '0')
  }

  function PadLeft(s: Hex, width: nat): Hex {
    if |s| < width then Zeros(width - |s|) + s else s
  }

  /** `f"{n:0{width}x}"`. */
  function Print(n: nat, width: nat): (s: Hex) {
    PadLeft(Digits(n), width)
  }

  /** `s.ljust(width, "0")`. */
  function PadRight(s: Hex, width: nat): (r: Hex)
    ensures |s| <= width ==> |r| == width
  {
    if |s| < width then s + Zeros(width - |s|) else s
  }

  function BitXor(p: nat, q: nat): nat { if p == q then 0 else 1 }

  /** Exclusive or of two integers, bit by bit. */
  function Xor(a: nat, b: nat): nat {
    if a == 0 && b == 0 then 0 else 2 * Xor(a / 2, b / 2) + BitXor(a % 2, b % 2)
  }

  // ---- printing and parsing ---------------------------------------------------------------

  lemma {:induction false} ParseAfterZeros(z: nat, s: Hex)
    ensures Parse(Zeros(z) + s) == Parse(s)
  {
    var whole := Zeros(z) + s;
    if s != "" {
      ParseAfterZeros(z, s[..|s| - 1]);
      assert whole[..|whole| - 1] == Zeros(z) + s[..|s| - 1];
    } else if z > 0 {
      ParseAfterZeros(z - 1, s);
      assert whole[..|whole| - 1] == Zeros(z - 1) + s;
    }
  }

  lemma DigitsStep(p: nat, digit: nat)
    requires p > 0 && digit < 16
    ensures Digits(16 * p + digit) == Digits(p) + [HexChar(digit)]
  {
    assert (16 * p + digit) / 16 == p && (16 * p + digit) % 16 == digit;
  }

  /** `s` is `digits` behind however many zeros. */
  ghost predicate PaddedFrom(s: Hex, digits: Hex) {
    |digits| <= |s| && s == Zeros(|s| - |digits|) + digits
  }

  lemma PaddedOneMore(front: Hex, digits: Hex, c: HexDigit)
    requires PaddedFrom(front, digits)
    ensures PaddedFrom(front + [c], digits + [c])
  {
    assert front + [c] == Zeros(|front| - |digits|) + (digits + [c]);
  }

  lemma ZerosBefore(front: Hex, c: HexDigit)
    requires PaddedFrom(front, "0")
    ensures PaddedFrom(front + [c], [c])
  {
    assert front + [c] == Zeros(|front|) + [c];
  }

  /** Appending a digit to the text of `p` behind zeros gives that of the longer number. */
  lemma DigitsOfOneMore(front: Hex, p: nat, c: HexDigit)
    requires PaddedFrom(front, Digits(p))
    ensures PaddedFrom(front + [c], Digits(16 * p + HexValue(c)))
  {
    HexCharOfValue(c);
    if p == 0 {
      ZerosBefore(front, c);
    } else {
      DigitsStep(p, HexValue(c));
      PaddedOneMore(front, Digits(p), c);
    }
  }

  lemma DigitsOfOne(c: HexDigit)
    ensures PaddedFrom([c], Digits(HexValue(c)))
  {
    HexCharOfValue(c);
    assert [c] == Zeros(0) + [c];
  }

  lemma {:induction false} DigitsOfParse(s: Hex)
    requires s != ""
    ensures PaddedFrom(s, Digits(Parse(s)))
  {
    var n := |s| - 1;
    var front, c := s[..n], s[n];
    assert s == front + [c];
    assert Parse(s) == 16 * Parse(front) + HexValue(c);
    if n == 0 {
      assert Parse(front) == 0;
      DigitsOfOne(c);
    } else {
      DigitsOfParse(front);
      DigitsOfOneMore(front, Parse(front), c);
    }
  }

  /** Printing a parsed number to the width it was written in gives the text back. */
  lemma {:induction false} PrintOfParse(s: Hex)
    requires s != ""
    ensures Print(Parse(s), |s|) == s
  {
    DigitsOfParse(s);
  }

  lemma ParsePadded(digits: Hex, width: nat)
    ensures Parse(PadLeft(digits, width)) == Parse(digits)
  {
    if |digits| < width {
      ParseAfterZeros(width - |digits|, digits);
    }
  }

  lemma ParsePaddedTo(digits: Hex, width: nat, n: nat)
    requires Parse(digits) == n
    ensures Parse(PadLeft(digits, width)) == n
  {
    ParsePadded(digits, width);
  }

  /** Parsing a printed number gives the number back, whatever the width. */
  lemma {:induction false} ParseOfPrint(n: nat, width: nat)
    ensures Parse(Print(n, width)) == n
  {
    ParseOfDigits(n);
    ParsePaddedTo(Digits(n), width, n);
  }

  lemma {:induction false} ParseOfDigits(n: nat)
    ensures Parse(Digits(n)) == n
  {
    var s := Digits(n);
    if n >= 16 {
      ParseOfDigits(n / 16);
      assert s[..|s| - 1] == Digits(n / 16);
    } else {
      assert s[..0] == "";
    }
  }

  // ---- exclusive or -------------------------------------------------------------------------

  lemma XorBit(a: nat, b: nat, p: nat, q: nat)
    requires p < 2 && q < 2
    ensures Xor(2 * a + p, 2 * b + q) == 2 * Xor(a, b) + BitXor(p, q)
  {
    assert (2 * a + p) / 2 == a && (2 * b + q) / 2 == b;
  }

  lemma XorTwoBits(a: nat, b: nat, x: nat, y: nat, p: nat, q: nat)
    requires x < 2 && y < 2 && p < 2 && q < 2
    ensures Xor(4 * a + 2 * x + p, 4 * b + 2 * y + q) == 4 * Xor(a, b) + 2 * BitXor(x, y) + BitXor(p, q)
  {
    XorBit(2 * a + x, 2 * b + y, p, q);
    XorBit(a, b, x, y);
    assert 2 * (2 * a + x) + p == 4 * a + 2 * x + p && 2 * (2 * b + y) + q == 4 * b + 2 * y + q;
  }

  /** The number four bits spell. */
  function FromBits(b3: nat, b2: nat, b1: nat, b0: nat): nat {
    8 * b3 + 4 * b2 + 2 * b1 + b0
  }

  lemma XorFourBits(a: nat, b: nat, x3: nat, x2: nat, x1: nat, x0: nat, y3: nat, y2: nat, y1: nat, y0: nat)
    requires x3 < 2 && x2 < 2 && x1 < 2 && x0 < 2 && y3 < 2 && y2 < 2 && y1 < 2 && y0 < 2
    ensures Xor(16 * a + FromBits(x3, x2, x1, x0), 16 * b + FromBits(y3, y2, y1, y0))
            == 16 * Xor(a, b) + FromBits(BitXor(x3, y3), BitXor(x2, y2), BitXor(x1, y1), BitXor(x0, y0))
  {
    var c, d := 4 * a + 2 * x3 + x2, 4 * b + 2 * y3 + y2;
    XorTwoBits(a, b, x3, y3, x2, y2);
    XorTwoBits(c, d, x1, y1, x0, y0);
    assert 16 * a + FromBits(x3, x2, x1, x0) == 4 * c + 2 * x1 + x0;
    assert 16 * b + FromBits(y3, y2, y1, y0) == 4 * d + 2 * y1 + y0;
  }

  lemma BitsOf(x: nat) returns (b3: nat, b2: nat, b1: nat, b0: nat)
    requires x < 16
    ensures b3 < 2 && b2 < 2 && b1 < 2 && b0 < 2 && x == FromBits(b3, b2, b1, b0)
  {
    b3 := if x >= 8 then 1 else 0;
    b2 := if x - 8 * b3 >= 4 then 1 else 0;
    b1 := if x - 8 * b3 - 4 * b2 >= 2 then 1 else 0;
    b0 := x - 8 * b3 - 4 * b2 - 2 * b1;
  }

  /** There is one digit that exclusive-or'ing `x` and `y` leaves in the last place. */
  lemma LastNibble(x: nat, y: nat) returns (digit: nat)
    requires x < 16 && y < 16
    ensures digit < 16
    ensures forall a: nat, b: nat :: Xor(16 * a + x, 16 * b + y) == 16 * Xor(a, b) + digit
  {
    var x3, x2, x1, x0 := BitsOf(x);
    var y3, y2, y1, y0 := BitsOf(y);
    digit := FromBits(BitXor(x3, y3), BitXor(x2, y2), BitXor(x1, y1), BitXor(x0, y0));
    forall a: nat, b: nat ensures Xor(16 * a + x, 16 * b + y) == 16 * Xor(a, b) + digit {
      XorFourBits(a, b, x3, x2, x1, x0, y3, y2, y1, y0);
    }
  }

  /** Shifting both arguments one hex digit shifts the result one hex digit. */
  lemma {:induction false} XorNibble(a: nat, b: nat, x: nat, y: nat)
    requires x < 16 && y < 16
    ensures Xor(x, y) < 16
    ensures Xor(16 * a + x, 16 * b + y) == 16 * Xor(a, b) + Xor(x, y)
  {
    var digit := LastNibble(x, y);
    assert Xor(16 * a + x, 16 * b + y) == 16 * Xor(a, b) + digit;
    assert Xor(16 * 0 + x, 16 * 0 + y) == 16 * Xor(0, 0) + digit;
  }

  lemma {:induction false} XorZero(a: nat)
    ensures Xor(0, a) == a && Xor(a, 0) == a
  {
    if a != 0 {
      XorZero(a / 2);
    }
  }

  lemma {:induction false} XorCommutes(a: nat, b: nat)
    ensures Xor(a, b) == Xor(b, a)
  {
    if a != 0 || b != 0 {
      XorCommutes(a / 2, b / 2);
    }
  }

  lemma Halves(a: nat, b: nat)
    ensures Xor(a, b) / 2 == Xor(a / 2, b / 2) && Xor(a, b) % 2 == BitXor(a % 2, b % 2)
  {
  }

  /** Exclusive or with a fixed number loses nothing. */
  lemma {:induction false} XorCancels(a: nat, b: nat, c: nat)
    requires Xor(a, c) == Xor(b, c)
    ensures a == b
    decreases a + b + c
  {
    if a != 0 || b != 0 || c != 0 {
      Halves(a, c);
      Halves(b, c);
      XorCancels(a / 2, b / 2, c / 2);
      assert a % 2 == b % 2;
    }
  }

  // ---- combining digests -----------------------------------------------------------------------

  function Width(digests: seq<Hex>): (w: nat)
    ensures forall d :: d in digests ==> |d| <= w
    ensures w == 0 || exists d :: d in digests && |d| == w
  {
    if digests == [] then 0
    else
      var n := |digests| - 1;
      assert digests == digests[..n] + [digests[n]];
      MaxInt(Width(digests[..n]), |digests[n]|)
  }

  function XorAll(digests: seq<Hex>, width: nat): nat {
    if digests == [] then 0
    else
      var n := |digests| - 1;
      Xor(XorAll(digests[..n], width), Parse(PadRight(digests[n], width)))
  }

  const IDENTITY_CHARS := 16

  function Combined(digests: seq<Hex>): Hex {
    var width := Width(digests);
    Take(Print(XorAll(digests, width), width), IDENTITY_CHARS)
  }

  /** `_xor_hex`; nothing to combine, or only empty digests, is an error. */
  method XorHex(digests: seq<Hex>) returns (r: Option<string>)
    ensures r == if Width(digests) == 0 then None else Some(Combined(digests))
  {
    if digests == [] {
      return None;
    }
    var width := Width(digests);
    if width == 0 {
      return None;
    }
    var acc := 0;
    for i := 0 to |digests|
      invariant acc == XorAll(digests[..i], width)
    {
      assert digests[..i + 1][..i] == digests[..i];
      acc := Xor(acc, Parse(PadRight(digests[i], width)));
    }
    assert digests[..|digests|] == digests;
    r := Some(Take(Print(acc, width), IDENTITY_CHARS));
  }

  /** Two texts of one length, exclusive-or'ed character by character. */
  function ZipXor(s: Hex, t: Hex): (r: Hex)
    requires |s| == |t|
    ensures |r| == |s|
  {
    if s == "" then ""
    else
      var n := |s| - 1;
      XorNibble(0, 0, HexValue(s[n]), HexValue(t[n]));
      ZipXor(s[..n], t[..n]) + [HexChar(Xor(HexValue(s[n]), HexValue(t[n])))]
  }

  lemma {:induction false} ZipAt(s: Hex, t: Hex, k: nat)
    requires k < |s| == |t|
    ensures HexValue(ZipXor(s, t)[k]) == Xor(HexValue(s[k]), HexValue(t[k]))
  {
    var n := |s| - 1;
    if k < n {
      ZipAt(s[..n], t[..n], k);
    } else {
      XorNibble(0, 0, HexValue(s[n]), HexValue(t[n]));
    }
  }

  lemma ParseSplit(front: Hex, c: HexDigit)
    ensures Parse(front + [c]) == Append(Parse(front), HexValue(c))
  {
    assert (front + [c])[|front|] == c;
    forall i | 0 <= i < |front| ensures '0' <= front[i] <= '9' || 'a' <= front[i] <= 'f' {
      assert (front + [c])[i] == front[i];
    }
    assert (front + [c])[..|front|] == front;
  }

  lemma ZipOneMore(s: Hex, t: Hex, c: HexDigit, d: HexDigit)
    requires |s| == |t|
    ensures Parse(ZipXor(s + [c], t + [d])) == Append(Parse(ZipXor(s, t)), Xor(HexValue(c), HexValue(d)))
  {
    var x, y := HexValue(c), HexValue(d);
    XorNibble(0, 0, x, y);
    assert (s + [c])[..|s|] == s && (t + [d])[..|s|] == t;
    ParseSplit(ZipXor(s, t), HexChar(Xor(x, y)));
  }

  lemma XorAppend(a: nat, b: nat, x: nat, y: nat)
    requires x < 16 && y < 16
    ensures Xor(Append(a, x), Append(b, y)) == Append(Xor(a, b), Xor(x, y))
  {
    XorNibble(a, b, x, y);
  }

  lemma {:induction false} ParseOfZip(s: Hex, t: Hex)
    requires |s| == |t|
    ensures Parse(ZipXor(s, t)) == Xor(Parse(s), Parse(t))
  {
    if s == "" {
    } else {
      var n := |s| - 1;
      var front, back := s[..n], t[..n];
      assert s == front + [s[n]] && t == back + [t[n]];
      ParseOfZip(front, back);
      ZipOneMore(front, back, s[n], t[n]);
      XorAppend(Parse(front), Parse(back), HexValue(s[n]), HexValue(t[n]));
    }
  }

  /** The `k`-th hex digit of a digest, zero past its end. */
  function NibbleAt(s: Hex, k: nat): nat {
    if k < |s| then HexValue(s[k]) else 0
  }

  /** Exclusive or of one digit position over every digest. */
  function XorColumn(digests: seq<Hex>, k: nat): nat {
    if digests == [] then 0
    else
      var n := |digests| - 1;
      Xor(XorColumn(digests[..n], k), NibbleAt(digests[n], k))
  }

  lemma {:induction false} XorAllByColumn(digests: seq<Hex>, width: nat) returns (text: Hex)
    requires Width(digests) <= width
    ensures |text| == width && Parse(text) == XorAll(digests, width)
    ensures forall k :: 0 <= k < width ==> HexValue(text[k]) == XorColumn(digests, k)
  {
    if digests == [] {
      text := Zeros(width);
      ParseAfterZeros(width, "");
      assert Zeros(width) + "" == Zeros(width);
    } else {
      var n := |digests| - 1;
      var before := XorAllByColumn(digests[..n], width);
      assert digests[n] in digests;
      var padded := PadRight(digests[n], width);
      text := ZipXor(before, padded);
      ParseOfZip(before, padded);
      forall k | 0 <= k < width ensures HexValue(text[k]) == XorColumn(digests, k) {
        ZipAt(before, padded, k);
      }
    }
  }

  /** The identity is the digests' leading digits exclusive-or'ed position by position:
      carries between digits, and every digit past the sixteenth, play no part. */
  lemma {:induction false} CombinedByPosition(digests: seq<Hex>)
    requires Width(digests) > 0
    ensures var id := Combined(digests);
            |id| == (if Width(digests) <= 16 then Width(digests) else 16)
            && forall k :: 0 <= k < |id| ==> HexValue(id[k]) == XorColumn(digests, k)
  {
    var width := Width(digests);
    var text := XorAllByColumn(digests, width);
    PrintOfParse(text);
  }

  lemma SameHex(s: Hex, t: Hex)
    requires |s| == |t|
    requires forall k :: 0 <= k < |s| ==> HexValue(s[k]) == HexValue(t[k])
    ensures s == t
  {
    forall k | 0 <= k < |s| ensures s[k] == t[k] {
      HexCharOfValue(s[k]);
      HexCharOfValue(t[k]);
    }
  }

  ghost predicate ColumnsAgree(a: seq<Hex>, b: seq<Hex>, width: nat) {
    forall k :: 0 <= k < width ==> XorColumn(a, k) == XorColumn(b, k)
  }

  /** How many characters are printed. */
  function Printed(digests: seq<Hex>): nat {
    MinInt(Width(digests), 16)
  }

  /** Two sets of digests have one identity exactly when they print to one length and
      agree, position by position, on the exclusive or of their leading digits. */
  lemma {:induction false} SameIdentityExactlyWhen(a: seq<Hex>, b: seq<Hex>)
    requires Width(a) > 0 && Width(b) > 0
    ensures Combined(a) == Combined(b) <==> Printed(a) == Printed(b) && ColumnsAgree(a, b, Printed(a))
  {
    CombinedByPosition(a);
    CombinedByPosition(b);
    var x, y := Combined(a), Combined(b);
    if Printed(a) == Printed(b) && ColumnsAgree(a, b, Printed(a)) {
      forall k | 0 <= k < |x| ensures HexValue(x[k]) == HexValue(y[k]) {
      }
      SameHex(x, y);
    }
    forall k | x == y && 0 <= k < |x| ensures XorColumn(a, k) == XorColumn(b, k) {
      assert HexValue(x[k]) == XorColumn(a, k);
    }
  }

  /** Replacing one digest changes a column exactly when it changes that digit. */
  lemma {:induction false} ColumnAfterChange(digests: seq<Hex>, m: nat, d: Hex, k: nat)
    requires m < |digests|
    ensures XorColumn(digests[m := d], k) == XorColumn(digests, k) <==> NibbleAt(d, k) == NibbleAt(digests[m], k)
  {
    var n := |digests| - 1;
    var changed := digests[m := d];
    if m == n {
      assert changed[..n] == digests[..n];
      var others := XorColumn(digests[..n], k);
      XorCommutes(others, NibbleAt(d, k));
      XorCommutes(others, NibbleAt(digests[n], k));
      if XorColumn(changed, k) == XorColumn(digests, k) {
        XorCancels(NibbleAt(d, k), NibbleAt(digests[n], k), others);
      }
    } else {
      ColumnAfterChange(digests[..n], m, d, k);
      assert changed[..n] == digests[..n][m := d];
      if XorColumn(changed, k) == XorColumn(digests, k) {
        XorCancels(XorColumn(changed[..n], k), XorColumn(digests[..n], k), NibbleAt(digests[n], k));
      }
    }
  }

  ghost predicate DiffersWithin(s: Hex, t: Hex, width: nat) {
    exists k :: 0 <= k < width && NibbleAt(s, k) != NibbleAt(t, k)
  }

  /** Changing one component changes the identity exactly when it changes one of that
      component's leading sixteen digits, or the length of what is printed. */
  lemma {:induction false} OneChangeIsSeenExactlyWhen(digests: seq<Hex>, m: nat, d: Hex)
    requires m < |digests|
    requires Width(digests) > 0 && Width(digests[m := d]) > 0
    ensures Combined(digests[m := d]) != Combined(digests)
            <==> Printed(digests[m := d]) != Printed(digests)
                 || DiffersWithin(d, digests[m], Printed(digests))
  {
    var changed := digests[m := d];
    SameIdentityExactlyWhen(changed, digests);
    var width := Printed(digests);
    forall k | 0 <= k < width
      ensures XorColumn(changed, k) == XorColumn(digests, k) <==> NibbleAt(d, k) == NibbleAt(digests[m], k)
    {
      ColumnAfterChange(digests, m, d, k);
    }
  }

  function Combine(params: Hex, store: Hex, train: Hex): Hex {
    Combined([params, store, train])
  }

  /** The version of a configuration: in each of the first sixteen positions that some component
      reaches, the exclusive or of the three digits there. */
  lemma {:induction false} CombineMeans(params: Hex, store: Hex, train: Hex)
    requires params != "" || store != "" || train != ""
    ensures var id := Combine(params, store, train);
            forall k: nat ::
              && (k < |id| <==> k < 16 && (k < |params| || k < |store| || k < |train|))
              && (k < |id| ==> HexValue(id[k]) == Xor(Xor(NibbleAt(params, k), NibbleAt(store, k)), NibbleAt(train, k)))
  {
    var digests := [params, store, train];
    ThreeHaveWidth(params, store, train);
    CombinedByPosition(digests);
    assert params in digests && store in digests && train in digests;
    forall k: nat | k < |Combine(params, store, train)|
      ensures XorColumn(digests, k) == Xor(Xor(NibbleAt(params, k), NibbleAt(store, k)), NibbleAt(train, k))
    {
      ThreeInAColumn(params, store, train, k);
    }
  }

  lemma ThreeInAColumn(a: Hex, b: Hex, c: Hex, k: nat)
    ensures XorColumn([a, b, c], k) == Xor(Xor(NibbleAt(a, k), NibbleAt(b, k)), NibbleAt(c, k))
  {
    XorZero(NibbleAt(a, k));
    XorCommutes(0, NibbleAt(a, k));
    assert [a, b, c][..2] == [a, b] && [a, b][..1] == [a] && [a][..0] == [];
    assert XorColumn([a], k) == NibbleAt(a, k);
    assert XorColumn([a, b], k) == Xor(NibbleAt(a, k), NibbleAt(b, k));
  }

  lemma {:induction false} XorAssociates(a: nat, b: nat, c: nat)
    ensures Xor(Xor(a, b), c) == Xor(a, Xor(b, c))
    decreases a + b + c
  {
    if a == 0 && b == 0 {
      XorZero(c);
    } else if b == 0 && c == 0 {
      XorZero(Xor(a, 0));
      XorZero(a);
    } else {
      XorAssociates(a / 2, b / 2, c / 2);
      var left, right := Xor(Xor(a, b), c), Xor(a, Xor(b, c));
      Halves(a, b);
      Halves(b, c);
      Halves(Xor(a, b), c);
      Halves(a, Xor(b, c));
      assert left / 2 == right / 2 && left % 2 == right % 2;
    }
  }

  /** Taking one digest out of a column and putting it back last changes nothing. */
  lemma {:induction false} ColumnWithout(digests: seq<Hex>, i: nat, k: nat)
    requires i < |digests|
    ensures XorColumn(digests, k) == Xor(XorColumn(digests[..i] + digests[i + 1..], k), NibbleAt(digests[i], k))
  {
    var n := |digests| - 1;
    var rest := digests[..i] + digests[i + 1..];
    if i == n {
      assert rest == digests[..n];
    } else {
      ColumnWithout(digests[..n], i, k);
      assert rest[..n - 1] == digests[..n][..i] + digests[..n][i + 1..];
      var others, x, last := XorColumn(rest[..n - 1], k), NibbleAt(digests[i], k), NibbleAt(digests[n], k);
      XorAssociates(others, x, last);
      XorCommutes(x, last);
      XorAssociates(others, last, x);
    }
  }

  lemma {:induction false} ColumnIgnoresOrder(a: seq<Hex>, b: seq<Hex>, k: nat)
    requires multiset(a) == multiset(b)
    ensures XorColumn(a, k) == XorColumn(b, k)
    decreases |a|
  {
    if a == [] {
      assert multiset(b) == multiset{};
      assert b == [];
    } else {
      var n := |a| - 1;
      assert a == a[..n] + [a[n]];
      assert a[n] in multiset(b);
      var i :| 0 <= i < |b| && b[i] == a[n];
      var rest := b[..i] + b[i + 1..];
      assert b == b[..i] + [b[i]] + b[i + 1..];
      assert multiset(rest) == multiset(b) - multiset{a[n]};
      ColumnIgnoresOrder(a[..n], rest, k);
      ColumnWithout(b, i, k);
    }
  }

  lemma WidthIgnoresOrder(a: seq<Hex>, b: seq<Hex>)
    requires multiset(a) == multiset(b)
    ensures Width(a) == Width(b)
  {
    forall d ensures d in a <==> d in b {
      assert d in multiset(a) <==> d in multiset(b);
    }
  }

  /** The identity does not say which component a digest came from: putting them in any other
      order leaves it as it was. */
  lemma {:induction false} ComponentsAreInterchangeable(a: seq<Hex>, b: seq<Hex>)
    requires multiset(a) == multiset(b) && Width(a) > 0
    ensures Width(b) > 0 && Combined(a) == Combined(b)
  {
    WidthIgnoresOrder(a, b);
    forall k | 0 <= k < Printed(a) ensures XorColumn(a, k) == XorColumn(b, k) {
      ColumnIgnoresOrder(a, b, k);
    }
    SameIdentityExactlyWhen(a, b);
  }

  lemma SomeDigit(digests: seq<Hex>, i: nat)
    requires i < |digests| && digests[i] != ""
    ensures Width(digests) > 0
  {
    assert digests[i] in digests;
  }

  lemma ThreeHaveWidth(a: Hex, b: Hex, c: Hex)
    requires a != "" || b != "" || c != ""
    ensures Width([a, b, c]) > 0
  {
    SomeDigit([a, b, c], if a != "" then 0 else if b != "" then 1 else 2);
  }

  lemma FirstTwoSame(a: Hex, b: Hex, c: Hex)
    ensures multiset([a, b, c]) == multiset([b, a, c])
  {
    assert [a, b, c] == [a] + [b] + [c] && [b, a, c] == [b] + [a] + [c];
  }

  lemma LastTwoSame(a: Hex, b: Hex, c: Hex)
    ensures multiset([a, b, c]) == multiset([a, c, b])
  {
    assert [a, b, c] == [a] + [b] + [c] && [a, c, b] == [a] + [c] + [b];
  }

  lemma {:induction false} FirstTwoExchanged(a: Hex, b: Hex, c: Hex)
    requires a != "" || b != "" || c != ""
    ensures Combine(a, b, c) == Combine(b, a, c)
  {
    ThreeHaveWidth(a, b, c);
    FirstTwoSame(a, b, c);
    ComponentsAreInterchangeable([a, b, c], [b, a, c]);
  }

  lemma {:induction false} LastTwoExchanged(a: Hex, b: Hex, c: Hex)
    requires a != "" || b != "" || c != ""
    ensures Combine(a, b, c) == Combine(a, c, b)
  {
    ThreeHaveWidth(a, b, c);
    LastTwoSame(a, b, c);
    ComponentsAreInterchangeable([a, b, c], [a, c, b]);
  }

  /** For the three components of a version: any two of them may be exchanged. */
  lemma {:induction false} CombineIgnoresOrder(params: Hex, store: Hex, train: Hex)
    requires params != "" || store != "" || train != ""
    ensures Combine(params, store, train) == Combine(store, params, train)
    ensures Combine(params, store, train) == Combine(params, train, store)
    ensures Combine(params, store, train) == Combine(train, store, params)
  {
    FirstTwoExchanged(params, store, train);
    LastTwoExchanged(params, store, train);
    LastTwoExchanged(store, params, train);
    FirstTwoExchanged(store, train, params);
  }
}
