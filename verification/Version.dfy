/** dpkg's version comparison, and the order it decides. */
module Versions {
  import opened Bits

  /** A C string: its end is its first zero byte. */
  type Str = s: seq<byte> | forall i :: 0 <= i < |s| ==> s[i] != 0

  predicate IsDigit(x: byte) { '0' as int <= x <= '9' as int }

  predicate IsAlpha(x: byte) { 'A' as int <= x <= 'Z' as int || 'a' as int <= x <= 'z' as int }

  const TILDE: byte := '~' as int
  const ZERO: byte := '0' as int

  /** How characters outside of numbers sort; 0 is the end of the string or a digit. */
  function Order(x: byte): (r: int)
    ensures r == 0 <==> x == 0 || IsDigit(x)
  {
    if x == TILDE then -1
    else if x == 0 then 0
    else if IsDigit(x) then 0
    else if IsAlpha(x) then x
    else x + 256
  }

  /** The character at `i`, or the terminating zero. */
  function At(s: Str, i: nat): byte {
    if i < |s| then s[i] else 0
  }

  // ---------- The order of section 5.6.12 of the Debian Policy Manual ----------

  function NonDigits(s: Str): (k: nat)
    ensures k <= |s| && (k < |s| ==> IsDigit(s[k]))
    ensures forall i :: 0 <= i < k ==> !IsDigit(s[i])
  {
    if s == [] || IsDigit(s[0]) then 0 else 1 + NonDigits(s[1..])
  }

  function DigitRun(s: Str): (k: nat)
    ensures k <= |s| && (k < |s| ==> !IsDigit(s[k]))
    ensures forall i :: 0 <= i < k ==> IsDigit(s[i])
  {
    if s == [] || !IsDigit(s[0]) then 0 else 1 + DigitRun(s[1..])
  }

  /** The number a digit string stands for, however long. */
  function Value(ds: seq<byte>): int {
    if ds == [] then 0 else 10 * Value(ds[..|ds| - 1]) + (ds[|ds| - 1] - ZERO)
  }

  function Orders(s: seq<byte>): (r: seq<int>)
    ensures |r| == |s|
  {
    seq(|s|, i requires 0 <= i < |s| => Order(s[i]))
  }

  /** A version as a sequence of numbers: each non-digit part character by character and ended by 0, then the number after it. */
  function Key(s: Str): seq<int>
    decreases |s|
  {
    if s == [] then []
    else
      var k := NonDigits(s);
      var d := DigitRun(s[k..]);
      Orders(s[..k]) + [0, Value(s[k..k + d])] + Key(s[k + d..])
  }

  function Sign(x: int): int { if x < 0 then -1 else if x > 0 then 1 else 0 }

  function First(x: seq<int>): int { if x == [] then 0 else x[0] }

  function Rest(x: seq<int>): seq<int> { if x == [] then [] else x[1..] }

  /** Number by number; a version that has ended goes on with zeros. */
  function Compare(x: seq<int>, y: seq<int>): int
    decreases |x| + |y|
  {
    if x == [] && y == [] then 0
    else if First(x) != First(y) then Sign(First(x) - First(y))
    else Compare(Rest(x), Rest(y))
  }

  // ---------- It is a total preorder ----------

  lemma {:induction false} CompareReverses(x: seq<int>, y: seq<int>)
    ensures Compare(x, y) == -Compare(y, x) && -1 <= Compare(x, y) <= 1
    decreases |x| + |y|
  {
    if (x != [] || y != []) && First(x) == First(y) {
      CompareReverses(Rest(x), Rest(y));
    }
  }

  lemma {:induction false} CompareTransitive(x: seq<int>, y: seq<int>, z: seq<int>)
    requires Compare(x, y) <= 0 && Compare(y, z) <= 0
    ensures Compare(x, z) <= 0
    ensures Compare(x, y) < 0 || Compare(y, z) < 0 ==> Compare(x, z) < 0
    decreases |x| + |y| + |z|
  {
    if x != [] || y != [] || z != [] {
      CompareHeads(x, y);
      CompareHeads(y, z);
      CompareHeads(x, z);
      if First(x) == First(y) == First(z) {
        CompareTransitive(Rest(x), Rest(y), Rest(z));
      }
    }
  }

  lemma CompareHeads(x: seq<int>, y: seq<int>)
    ensures Compare(x, y) == if First(x) != First(y) then Sign(First(x) - First(y)) else Compare(Rest(x), Rest(y))
  {
    if x == [] && y == [] {
      assert Compare([], []) == 0;
    }
  }

  // ---------- Keys step by step ----------

  /** A key whose first non-digit part has `k` characters and its number `d` digits. */
  function KeyOf(s: Str, k: nat, d: nat): seq<int>
    requires k + d <= |s|
  {
    Orders(s[..k]) + [0, Value(s[k..k + d])] + Key(s[k + d..])
  }

  lemma KeyShift(s: Str, k: nat, d: nat)
    requires 1 <= k && k + d <= |s|
    ensures KeyOf(s, k, d) == [Order(s[0])] + KeyOf(s[1..], k - 1, d)
  {
    hide Key, Value, Order;
    var t := s[1..];
    assert t[k - 1 + d..] == s[k + d..] && t[k - 1..k - 1 + d] == s[k..k + d];
    assert Orders(s[..k]) == [Order(s[0])] + Orders(t[..k - 1]);
  }

  lemma KeyFirst(s: Str, d: nat)
    requires d <= |s|
    ensures KeyOf(s, 0, d) == [0, Value(s[..d])] + Key(s[d..])
  {
    hide Key, Value;
    assert Orders(s[..0]) == [] && s[0..0 + d] == s[..d];
  }

  lemma KeyHead(s: Str)
    ensures First(Key(s)) == Order(At(s, 0))
    ensures s != [] && !IsDigit(s[0]) ==> Key(s) == [Order(s[0])] + if |s| == 1 then [0, 0] else Key(s[1..])
  {
    if s != [] && !IsDigit(s[0]) {
      NonDigitKey(s);
    } else if s != [] {
      NumberKey(s);
    }
  }

  lemma NonDigitKey(s: Str)
    requires s != [] && !IsDigit(s[0])
    ensures Key(s) == [Order(s[0])] + if |s| == 1 then [0, 0] else Key(s[1..])
  {
    hide Key, Value, Order, NonDigits, DigitRun, KeyOf, IsDigit;
    var k := NonDigits(s);
    NonDigitsTail(s);
    var d := DigitRun(s[k..]);
    KeyUnfold(s, k, d);
    KeyShift(s, k, d);
    TailOf(s[1..], k - 1, d);
  }

  lemma TailOf(t: Str, k: nat, d: nat)
    requires k == NonDigits(t) && k <= |t| && d == DigitRun(t[k..])
    ensures KeyOf(t, k, d) == if t == [] then [0, 0] else Key(t)
  {
    hide Key, Value, Order, NonDigits, DigitRun, KeyOf, IsDigit;
    if t == [] {
      KeyFirst(t, 0);
      NothingLeft();
    } else {
      KeyUnfold(t, k, d);
    }
  }

  lemma NonDigitsTail(s: Str)
    requires s != [] && !IsDigit(s[0])
    ensures NonDigits(s) >= 1 && NonDigits(s[1..]) == NonDigits(s) - 1 && s[1..][NonDigits(s) - 1..] == s[NonDigits(s)..]
    ensures |s| == 1 ==> NonDigits(s) == 1 && DigitRun(s[1..]) == 0
  {
  }

  lemma NothingLeft()
    ensures Value([]) == 0 && Key([]) == [] && DigitRun([]) == 0
  {
  }

  lemma KeyUnfold(s: Str, k: nat, d: nat)
    requires s != [] && k == NonDigits(s) && d == DigitRun(s[k..])
    ensures Key(s) == KeyOf(s, k, d)
  {
    hide Value, Orders, NonDigits, DigitRun;
  }

  lemma ZerosSame(y: seq<int>)
    ensures Compare([0, 0], y) == Compare([], y) && Compare(y, [0, 0]) == Compare(y, [])
  {
    CompareHeads([0, 0], y);
    CompareHeads([0], Rest(y));
    CompareHeads([], y);
    CompareHeads([], Rest(y));
    assert [0, 0][1..] == [0] && [0][1..] == [];
    CompareReverses([0, 0], y);
    CompareReverses([], y);
  }

  /** A character outside of numbers decides, or both strings go on. */
  lemma CharStep(a: Str, b: Str)
    requires (a != [] && !IsDigit(a[0])) || (b != [] && !IsDigit(b[0]))
    ensures Order(At(a, 0)) != Order(At(b, 0)) ==> Compare(Key(a), Key(b)) == Sign(Order(At(a, 0)) - Order(At(b, 0)))
    ensures Order(At(a, 0)) == Order(At(b, 0)) ==> a != [] && b != [] && Compare(Key(a), Key(b)) == Compare(Key(a[1..]), Key(b[1..]))
  {
    hide Key, Compare, NonDigits, DigitRun;
    KeyHead(a);
    KeyHead(b);
    CompareHeads(Key(a), Key(b));
    if Order(At(a, 0)) == Order(At(b, 0)) {
      TailKey(a);
      TailKey(b);
      ZerosSame(Rest(Key(a)));
      ZerosSame(Key(b[1..]));
    }
  }

  lemma TailKey(s: Str)
    requires s != [] && !IsDigit(s[0])
    ensures Rest(Key(s)) == if |s| == 1 then [0, 0] else Key(s[1..])
    ensures |s| == 1 ==> Key(s[1..]) == []
  {
    KeyHead(s);
  }

  /** Where numbers stand, or the end, their values decide, or both strings go on after them. */
  lemma NumberStep(a: Str, b: Str, m: nat, n: nat)
    requires (a == [] || IsDigit(a[0])) && (b == [] || IsDigit(b[0])) && m == DigitRun(a) && n == DigitRun(b)
    ensures Compare(Key(a), Key(b))
         == if Value(a[..m]) != Value(b[..n]) then Sign(Value(a[..m]) - Value(b[..n])) else Compare(Key(a[m..]), Key(b[n..]))
  {
    hide Key, Compare;
    NumberKey(a);
    NumberKey(b);
    CompareHeads(Key(a), Key(b));
    CompareHeads(Rest(Key(a)), Rest(Key(b)));
  }

  lemma NumberKey(s: Str)
    requires s == [] || IsDigit(s[0])
    ensures First(Key(s)) == 0 && First(Rest(Key(s))) == Value(s[..DigitRun(s)]) && Rest(Rest(Key(s))) == Key(s[DigitRun(s)..])
  {
    hide Value, Order, DigitRun, KeyOf;
    if s != [] {
      var d := DigitRun(s);
      assert NonDigits(s) == 0 && s[0..] == s;
      KeyUnfold(s, 0, d);
      KeyFirst(s, d);
    } else {
      NothingLeft();
    }
  }

  // ---------- Digit runs ----------

  ghost predicate AllDigits(ds: seq<byte>) {
    forall i :: 0 <= i < |ds| ==> IsDigit(ds[i])
  }

  function Pow10(n: nat): nat {
    if n == 0 then 1 else 10 * Pow10(n - 1)
  }

  lemma {:induction false} ValueBelow(ds: seq<byte>)
    requires AllDigits(ds)
    ensures 0 <= Value(ds) < Pow10(|ds|)
  {
    if ds != [] {
      ValueBelow(ds[..|ds| - 1]);
    }
  }

  lemma {:induction false} ValueAbove(ds: seq<byte>)
    requires AllDigits(ds) && ds != [] && ds[0] != ZERO
    ensures Value(ds) >= Pow10(|ds| - 1)
    decreases |ds|
  {
    if |ds| > 1 {
      ValueAbove(ds[..|ds| - 1]);
    } else {
      assert ds[..0] == [];
    }
  }

  lemma {:induction false} PowMonotone(m: nat, n: nat)
    requires m <= n
    ensures Pow10(m) <= Pow10(n)
    decreases n
  {
    if m < n { PowMonotone(m, n - 1); }
  }

  /** Without leading zeros, the longer run is the larger number. */
  lemma LongerIsLarger(x: seq<byte>, y: seq<byte>)
    requires AllDigits(x) && AllDigits(y) && x != [] && x[0] != ZERO && |y| < |x|
    ensures Value(y) < Value(x)
  {
    ValueBelow(y);
    ValueAbove(x);
    PowMonotone(|y|, |x| - 1);
  }

  lemma {:induction false} ZerosDoNotCount(s: seq<byte>, z: nat)
    requires z <= |s| && forall i :: 0 <= i < z ==> s[i] == ZERO
    ensures Value(s) == Value(s[z..])
    decreases |s|
  {
    if z < |s| {
      ZerosDoNotCount(s[..|s| - 1], z);
      assert s[z..][..|s[z..]| - 1] == s[..|s| - 1][z..];
    } else if s != [] {
      ZerosDoNotCount(s[..|s| - 1], z - 1);
    }
  }

  /** The first difference between two runs. */
  function FirstDiff(x: seq<byte>, y: seq<byte>): int
    requires |x| == |y|
  {
    if x == [] then 0
    else
      var n := |x| - 1;
      var d := FirstDiff(x[..n], y[..n]);
      if d == 0 then x[n] - y[n] else d
  }

  /** Between runs of one length the first difference decides. */
  lemma {:induction false} FirstDiffDecides(x: seq<byte>, y: seq<byte>)
    requires |x| == |y| && AllDigits(x) && AllDigits(y)
    ensures Sign(Value(x) - Value(y)) == Sign(FirstDiff(x, y))
    decreases |x|
  {
    if x != [] {
      var n := |x| - 1;
      FirstDiffDecides(x[..n], y[..n]);
    }
  }

  // ---------- version_compare_part ----------

  /** What is left of both strings compares as they do from `i0` and `j0`. */
  ghost predicate SameFrom(val: Str, ref: Str, i0: nat, j0: nat, i: nat, j: nat) {
    && i0 <= i <= |val| && j0 <= j <= |ref|
    && Compare(Key(Suffix(val, i)), Key(Suffix(ref, j))) == Compare(Key(Suffix(val, i0)), Key(Suffix(ref, j0)))
  }

  function Suffix(s: Str, i: nat): Str
    requires i <= |s|
  {
    s[i..]
  }

  function Take(s: Str, k: nat): Str
    requires k <= |s|
  {
    s[..k]
  }

  predicate AtNumber(s: Str, i: nat) {
    At(s, i) == 0 || IsDigit(At(s, i))
  }

  /** Compare the parts outside of numbers. */
  method CompareChars(val: Str, ref: Str, i0: nat, j0: nat) returns (r: int, i: nat, j: nat)
    requires i0 <= |val| && j0 <= |ref|
    ensures SameFrom(val, ref, i0, j0, i, j)
    ensures r != 0 ==> Sign(r) == Compare(Key(val[i0..]), Key(ref[j0..]))
    ensures r == 0 ==> AtNumber(val, i) && AtNumber(ref, j)
    ensures r == 0 && !(AtNumber(val, i0) && AtNumber(ref, j0)) ==> i > i0
  {
    hide Key, Compare, Order;
    i, j := i0, j0;
    while (At(val, i) != 0 && !IsDigit(At(val, i))) || (At(ref, j) != 0 && !IsDigit(At(ref, j)))
      invariant SameFrom(val, ref, i0, j0, i, j) && (i == i0 ==> j == j0)
      decreases |val| - i
    {
      ghost var a, b := val[i..], ref[j..];
      CharStep(a, b);
      var vc, rc := Order(At(val, i)), Order(At(ref, j));
      if vc != rc {
        return vc - rc, i, j;
      }
      assert a[1..] == val[i + 1..] && b[1..] == ref[j + 1..];
      i, j := i + 1, j + 1;
    }
    r := 0;
  }

  /** The digits from `i` on, up to position `e`. */
  ghost predicate RunTo(s: Str, i: nat, e: nat) {
    i <= e <= |s| && AllDigits(s[i..e]) && !IsDigit(At(s, e))
  }

  method SkipZeros(s: Str, i0: nat, ghost e: nat) returns (i: nat)
    requires RunTo(s, i0, e)
    ensures i0 <= i && RunTo(s, i, e) && At(s, i) != ZERO && Value(s[i0..e]) == Value(s[i..e])
  {
    hide Value;
    i := i0;
    while At(s, i) == ZERO
      invariant i0 <= i <= e && forall k :: i0 <= k < i ==> s[k] == ZERO
      decreases |s| - i
    {
      i := i + 1;
    }
    ZerosDoNotCount(s[i0..e], i - i0);
    assert s[i0..e][i - i0..] == s[i..e];
  }

  lemma RunIs(s: Str, i: nat)
    requires i <= |s|
    ensures RunTo(s, i, i + DigitRun(s[i..])) && s[i..][..DigitRun(s[i..])] == s[i..i + DigitRun(s[i..])]
    ensures s[i..][DigitRun(s[i..])..] == s[i + DigitRun(s[i..])..]
  {
  }

  /** Compare two digit runs as the numbers they stand for. */
  method CompareDigits(val: Str, ref: Str, i0: nat, j0: nat, ghost e: nat, ghost f: nat) returns (r: int, i: nat, j: nat)
    requires RunTo(val, i0, e) && RunTo(ref, j0, f) && At(val, i0) != ZERO && At(ref, j0) != ZERO
    ensures Sign(r) == Sign(Value(val[i0..e]) - Value(ref[j0..f]))
    ensures r == 0 ==> i == e && j == f
  {
    hide Value, FirstDiff;
    ghost var x, y := val[i0..e], ref[j0..f];
    var firstDiff: int := 0;
    i, j := i0, j0;
    NoDiff();
    while IsDigit(At(val, i)) && IsDigit(At(ref, j))
      invariant i0 <= i <= e && j0 <= j <= f && i - i0 == j - j0 && firstDiff == FirstDiff(x[..i - i0], y[..i - i0])
      decreases e - i
    {
      DiffMore(x, y, i - i0);
      if firstDiff == 0 {
        firstDiff := val[i] as int - ref[j] as int;
      }
      i, j := i + 1, j + 1;
    }
    RunEnds(val, i0, i, e);
    RunEnds(ref, j0, j, f);
    if IsDigit(At(val, i)) {
      LongerIsLarger(x, y);
      return 1, i, j;
    }
    if IsDigit(At(ref, j)) {
      LongerIsLarger(y, x);
      return -1, i, j;
    }
    assert x[..i - i0] == x && y[..i - i0] == y;
    FirstDiffDecides(x, y);
    r := firstDiff;
  }

  lemma NoDiff()
    ensures FirstDiff([], []) == 0
  {
  }

  lemma DiffMore(x: seq<byte>, y: seq<byte>, k: nat)
    requires k < |x| && k < |y|
    ensures FirstDiff(x[..k + 1], y[..k + 1])
         == if FirstDiff(x[..k], y[..k]) == 0 then x[k] - y[k] else FirstDiff(x[..k], y[..k])
  {
    assert x[..k + 1][..k] == x[..k] && y[..k + 1][..k] == y[..k];
  }

  lemma RunEnds(s: Str, i0: nat, i: nat, e: nat)
    requires RunTo(s, i0, e) && i0 <= i <= e
    ensures IsDigit(At(s, i)) <==> i < e
  {
    if i < e {
      assert s[i0..e][i - i0] == s[i];
    }
  }

  method CompareNumbers(val: Str, ref: Str, i0: nat, j0: nat) returns (r: int, i: nat, j: nat)
    requires i0 <= |val| && j0 <= |ref| && AtNumber(val, i0) && AtNumber(ref, j0)
    ensures r != 0 ==> Sign(r) == Compare(Key(val[i0..]), Key(ref[j0..]))
    ensures r == 0 ==> SameFrom(val, ref, i0, j0, i, j) && (IsDigit(At(val, i0)) ==> i > i0) && (IsDigit(At(ref, j0)) ==> j > j0)
  {
    hide Key, Compare, Value, DigitRun, RunTo;
    ghost var a, b := val[i0..], ref[j0..];
    ghost var m, n := DigitRun(a), DigitRun(b);
    RunIs(val, i0);
    RunIs(ref, j0);
    NumberStep(a, b, m, n);
    RunLonger(val, i0, i0 + m);
    RunLonger(ref, j0, j0 + n);
    i := SkipZeros(val, i0, i0 + m);
    j := SkipZeros(ref, j0, j0 + n);
    r, i, j := CompareDigits(val, ref, i, j, i0 + m, j0 + n);
  }

  lemma RunLonger(s: Str, i: nat, e: nat)
    requires RunTo(s, i, e)
    ensures IsDigit(At(s, i)) ==> e > i
    ensures e <= |s|
  {
  }

  /** Compare two parts of a version. */
  method VersionComparePart(val: Str, ref: Str) returns (r: int)
    ensures Sign(r) == Compare(Key(val), Key(ref))
  {
    hide Key, Compare, Order;
    var i, j := 0, 0;
    assert val[0..] == val && ref[0..] == ref;
    while At(val, i) != 0 || At(ref, j) != 0
      invariant SameFrom(val, ref, 0, 0, i, j)
      decreases |val| - i + |ref| - j
    {
      var i1, j1, i2, j2;
      r, i1, j1 := CompareChars(val, ref, i, j);
      if r != 0 {
        return;
      }
      r, i2, j2 := CompareNumbers(val, ref, i1, j1);
      if r != 0 {
        return;
      }
      i, j := i2, j2;
    }
    BothEnd(val, ref, i, j);
    r := 0;
  }

  lemma BothEnd(val: Str, ref: Str, i: nat, j: nat)
    requires i <= |val| && j <= |ref| && At(val, i) == 0 && At(ref, j) == 0
    ensures Compare(Key(val[i..]), Key(ref[j..])) == 0
  {
  }

  // ---------- version_compare and test_version ----------

  const COLON: byte := ':' as int
  const HYPHEN: byte := '-' as int

  /** strchr, as an index; the length if there is none. */
  function IndexOf(s: Str, c: byte): (k: nat)
    ensures k <= |s| && (k < |s| ==> s[k] == c) && forall i :: 0 <= i < k ==> s[i] != c
  {
    if s == [] || s[0] == c then 0 else 1 + IndexOf(s[1..], c)
  }

  /** strrchr, as an index; the length if there is none. */
  function LastIndexOf(s: Str, c: byte): (k: nat)
    ensures k <= |s| && (k < |s| ==> s[k] == c && forall i :: k < i < |s| ==> s[i] != c)
    ensures k == |s| ==> forall i :: 0 <= i < |s| ==> s[i] != c
  {
    if s == [] then 0
    else
      var n := |s| - 1;
      if s[n] == c then n
      else
        var k := LastIndexOf(s[..n], c);
        if k == n then |s| else k
  }

  function Blanks(s: Str): (k: nat)
    ensures k <= |s|
  {
    if s == [] || !(s[0] == ' ' as int || 9 <= s[0] <= 13) then 0 else 1 + Blanks(s[1..])
  }

  /** The number that the digits at the beginning of `s` stand for. */
  function LeadingValue(s: Str): int { Value(s[..DigitRun(s)]) }

  predicate IsSign(x: byte) { x == '+' as int || x == '-' as int }

  /** A number with or without a sign. */
  function SignedValue(s: Str): int {
    if s == [] || !IsSign(s[0]) then LeadingValue(s)
    else if s[0] == '-' as int then -LeadingValue(Suffix(s, 1))
    else LeadingValue(Suffix(s, 1))
  }

  /** atoi, stored in an unsigned. */
  function Atoi(s: Str): (r: int)
    ensures 0 <= r < 0x1_0000_0000
  {
    SignedValue(Suffix(s, Blanks(s))) % 0x1_0000_0000
  }

  datatype Version = Version(epoch: int, upstream: Str, revision: Str)

  function EpochOf(s: Str): int { if IndexOf(s, COLON) < |s| then Atoi(s) else 0 }

  function AfterEpoch(s: Str): Str { if IndexOf(s, COLON) < |s| then Suffix(s, IndexOf(s, COLON) + 1) else s }

  function UpstreamOf(s: Str): Str { Take(s, LastIndexOf(s, HYPHEN)) }

  function RevisionOf(s: Str): Str { if LastIndexOf(s, HYPHEN) < |s| then Suffix(s, LastIndexOf(s, HYPHEN) + 1) else [] }

  /** The epoch before the first colon, the revision after the last hyphen. */
  function Parse(s: Str): Version {
    Version(EpochOf(s), UpstreamOf(AfterEpoch(s)), RevisionOf(AfterEpoch(s)))
  }

  /** By epoch, then by upstream version, then by revision. */
  function CompareVersions(a: Version, b: Version): int {
    if a.epoch != b.epoch then Sign(a.epoch - b.epoch)
    else
      var c := Compare(Key(a.upstream), Key(b.upstream));
      if c != 0 then c else Compare(Key(a.revision), Key(b.revision))
  }

  lemma VersionsReverse(a: Version, b: Version)
    ensures CompareVersions(a, b) == -CompareVersions(b, a) && -1 <= CompareVersions(a, b) <= 1
  {
    hide Compare, Key;
    CompareReverses(Key(a.upstream), Key(b.upstream));
    CompareReverses(Key(a.revision), Key(b.revision));
  }

  lemma VersionsTransitive(a: Version, b: Version, c: Version)
    requires CompareVersions(a, b) <= 0 && CompareVersions(b, c) <= 0
    ensures CompareVersions(a, c) <= 0
    ensures CompareVersions(a, b) < 0 || CompareVersions(b, c) < 0 ==> CompareVersions(a, c) < 0
  {
    hide Compare, Key;
    if a.epoch == b.epoch == c.epoch {
      var x, y, z := Key(a.upstream), Key(b.upstream), Key(c.upstream);
      CompareTransitive(x, y, z);
      if Compare(x, y) == 0 && Compare(y, z) == 0 {
        CompareReverses(x, y);
        CompareReverses(y, z);
        CompareReverses(x, z);
        CompareTransitive(z, y, x);
        CompareTransitive(Key(a.revision), Key(b.revision), Key(c.revision));
      }
    }
  }

  /** Equal versions compare alike with every other. */
  lemma VersionsCongruent(a: Version, b: Version, c: Version)
    requires CompareVersions(a, b) == 0
    ensures CompareVersions(a, c) == CompareVersions(b, c)
  {
    hide CompareVersions;
    VersionsReverse(a, b);
    VersionsReverse(a, c);
    VersionsReverse(b, c);
    if CompareVersions(b, c) <= 0 {
      VersionsTransitive(a, b, c);
    }
    if CompareVersions(a, c) <= 0 {
      VersionsTransitive(b, a, c);
    }
  }

  /** Leaving the revision out is the same as revision 0. */
  lemma NoRevisionIsZero(a: Version)
    requires a.revision == []
    ensures CompareVersions(a, a.(revision := [ZERO])) == 0
  {
    hide Compare, Key;
    CompareReverses(Key(a.upstream), Key(a.upstream));
    NumberStep([], [ZERO], 0, 1);
    SingleZero();
  }

  lemma SingleZero()
    ensures DigitRun([]) == 0 && DigitRun([ZERO]) == 1 && Value([ZERO]) == 0 && Value([]) == 0
    ensures Compare(Key([][0..]), Key([ZERO][1..])) == 0
  {
    assert [ZERO][1..] == [] && [ZERO][..0] == [];
  }

  // ---------- What splitting a version means ----------

  /** `rest` is what stands after the first colon of `ver`, and `epoch` the number before it; without a colon, all of it and 0. */
  ghost predicate EpochOff(ver: Str, epoch: int, rest: Str) {
    if COLON in ver then exists head: Str :: ver == head + [COLON] + rest && COLON !in head && epoch == Atoi(head)
    else rest == ver && epoch == 0
  }

  /** The last hyphen separates the revision; without one there is none. */
  ghost predicate RevisionOff(rest: Str, upstream: Str, revision: Str) {
    if HYPHEN in rest then rest == upstream + [HYPHEN] + revision && HYPHEN !in revision
    else upstream == rest && revision == []
  }

  ghost predicate SplitsAs(ver: Str, v: Version) {
    exists rest: Str :: EpochOff(ver, v.epoch, rest) && RevisionOff(rest, v.upstream, v.revision)
  }

  lemma LeadingStops(a: Str, b: Str)
    requires b != [] && b[0] == COLON
    ensures LeadingValue(a + b) == LeadingValue(a)
  {
    hide DigitRun, Value;
    DigitsStop(a, b);
    assert (a + b)[..DigitRun(a)] == a[..DigitRun(a)];
  }

  lemma SuffixAppend(a: Str, b: Str, k: nat)
    requires k <= |a|
    ensures k <= |a + b| && Suffix(a + b, k) == Suffix(a, k) + b
  {
  }

  lemma SignedStops(a: Str, b: Str)
    requires b != [] && b[0] == COLON
    ensures SignedValue(a + b) == SignedValue(a)
  {
    hide LeadingValue, Suffix;
    LeadingStops(a, b);
    if a != [] {
      SuffixAppend(a, b, 1);
      LeadingStops(Suffix(a, 1), b);
    }
  }

  /** atoi reads no further than to a colon. */
  lemma AtoiStops(head: Str, rest: Str)
    ensures Atoi(head + [COLON] + rest) == Atoi(head)
  {
    hide SignedValue, Suffix, Blanks;
    var tail: Str := [COLON] + rest;
    assert head + [COLON] + rest == head + tail;
    BlanksStop(head, tail);
    SuffixAppend(head, tail, Blanks(head));
    SignedStops(Suffix(head, Blanks(head)), tail);
  }

  lemma {:induction false} BlanksStop(a: Str, b: Str)
    requires b != [] && b[0] == COLON
    ensures Blanks(a + b) == Blanks(a)
    decreases |a|
  {
    if a == [] {
      assert a + b == b;
    } else {
      assert (a + b)[1..] == a[1..] + b;
      BlanksStop(a[1..], b);
    }
  }

  lemma {:induction false} DigitsStop(a: Str, b: Str)
    requires b != [] && b[0] == COLON
    ensures DigitRun(a + b) == DigitRun(a)
    decreases |a|
  {
    if a == [] {
      assert a + b == b;
    } else {
      assert (a + b)[1..] == a[1..] + b;
      DigitsStop(a[1..], b);
    }
  }

  lemma JoinAt(a: seq<byte>, c: byte, b: seq<byte>, s: seq<byte>)
    requires s == a + [c] + b
    ensures |s| == |a| + 1 + |b| && s[|a|] == c && a == s[..|a|] && b == s[|a| + 1..]
    ensures c !in a ==> forall i :: 0 <= i < |a| ==> s[i] != c
    ensures c !in b ==> forall i :: |a| < i < |s| ==> s[i] != c
  {
    if c !in b {
      forall i | |a| < i < |s|
        ensures s[i] != c
      {
        assert s[i] == b[i - |a| - 1];
      }
    }
  }

  lemma CutAt(s: seq<byte>, k: nat, c: byte)
    requires k < |s| && s[k] == c
    ensures c in s && s == s[..k] + [c] + s[k + 1..]
    ensures (forall i :: 0 <= i < k ==> s[i] != c) ==> c !in s[..k]
    ensures (forall i :: k < i < |s| ==> s[i] != c) ==> c !in s[k + 1..]
  {
  }

  /** The epoch that is cut off is the only one possible. */
  lemma EpochOnce(ver: Str, epoch: int, rest: Str)
    ensures EpochOff(ver, epoch, rest) <==> (rest == AfterEpoch(ver) && epoch == EpochOf(ver))
  {
    hide IndexOf, Atoi;
    var c := IndexOf(ver, COLON);
    if c < |ver| {
      CutAt(ver, c, COLON);
      AtoiStops(Take(ver, c), AfterEpoch(ver));
      if EpochOff(ver, epoch, rest) {
        var head: Str :| ver == head + [COLON] + rest && COLON !in head && epoch == Atoi(head);
        JoinAt(head, COLON, rest, ver);
        AtoiStops(head, rest);
      } else {
        assert ver == Take(ver, c) + [COLON] + AfterEpoch(ver) && COLON !in Take(ver, c);
      }
    }
  }

  /** The revision that is cut off is the only one possible. */
  lemma RevisionOnce(rest: Str, upstream: Str, revision: Str)
    ensures RevisionOff(rest, upstream, revision) <==> (upstream == UpstreamOf(rest) && revision == RevisionOf(rest))
  {
    hide LastIndexOf;
    var h := LastIndexOf(rest, HYPHEN);
    if h < |rest| {
      CutAt(rest, h, HYPHEN);
      if RevisionOff(rest, upstream, revision) {
        JoinAt(upstream, HYPHEN, revision, rest);
      }
    }
  }

  /** There is one way to split a version, and it is the one that version_compare takes. */
  lemma SplitOnce(ver: Str, v: Version)
    ensures SplitsAs(ver, v) <==> Parse(ver) == v
  {
    hide EpochOf, AfterEpoch, UpstreamOf, RevisionOf, EpochOff, RevisionOff;
    EpochOnce(ver, v.epoch, AfterEpoch(ver));
    RevisionOnce(AfterEpoch(ver), v.upstream, v.revision);
    if SplitsAs(ver, v) {
      var rest: Str :| EpochOff(ver, v.epoch, rest) && RevisionOff(rest, v.upstream, v.revision);
      EpochOnce(ver, v.epoch, rest);
    }
  }

  /** Cut a version at its first colon, and what is left at its last hyphen. */
  method SplitVersion(ver: Str) returns (epoch: int, upstream: Str, revision: Str)
    ensures SplitsAs(ver, Version(epoch, upstream, revision))
  {
    hide IndexOf, LastIndexOf, Atoi, SplitsAs, Take, Suffix;
    var s: Str := ver;
    epoch, revision := 0, [];
    var colon := IndexOf(ver, COLON);
    if colon < |ver| {
      epoch := Atoi(ver);
      s := Suffix(ver, colon + 1);
    }
    var hyphen := LastIndexOf(s, HYPHEN);
    upstream := Take(s, hyphen);
    if hyphen < |s| {
      revision := Suffix(s, hyphen + 1);
    }
    SplitOnce(ver, Version(epoch, upstream, revision));
  }

  /** Negative, zero or positive as the first version is less than, equal to or greater than the second. */
  method VersionCompare(ver1: Str, ver2: Str) returns (r: int)
    ensures Sign(r) == CompareVersions(Parse(ver1), Parse(ver2))
  {
    hide Compare, Key, Parse, SplitsAs;
    var epoch1, upstream1, revision1 := SplitVersion(ver1);
    var epoch2, upstream2, revision2 := SplitVersion(ver2);
    SplitOnce(ver1, Version(epoch1, upstream1, revision1));
    SplitOnce(ver2, Version(epoch2, upstream2, revision2));
    if epoch1 < epoch2 {
      return -1;
    }
    if epoch1 > epoch2 {
      return 1;
    }
    r := VersionComparePart(upstream1, upstream2);
    if r == 0 {
      r := VersionComparePart(revision1, revision2);
    }
  }

  datatype Operator = Any | Equal | Less | LessEqual | More | MoreEqual | Unknown

  ghost predicate Satisfies(a: Version, op: Operator, b: Version) {
    match op
    case Any => true
    case Equal => CompareVersions(a, b) == 0
    case Less => CompareVersions(a, b) < 0
    case LessEqual => CompareVersions(a, b) <= 0
    case More => CompareVersions(a, b) > 0
    case MoreEqual => CompareVersions(a, b) >= 0
    case Unknown => false
  }

  method TestVersion(version1: Str, version2: Str, op: Operator) returns (r: bool)
    ensures r <==> Satisfies(Parse(version1), op, Parse(version2))
  {
    hide CompareVersions, Parse;
    var result := VersionCompare(version1, version2);
    match op
    case Any => return true;
    case Equal => return result == 0;
    case Less => return result < 0;
    case LessEqual => return result <= 0;
    case More => return result > 0;
    case MoreEqual => return result >= 0;
    case Unknown => return false;
  }
}
