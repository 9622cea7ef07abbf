/** Code assignment: bi_reverse and gen_codes, against the canonical codes of RFC 1951. */
module Canonical {
  import opened Bits
  import opened Inflate

  const MAX_BITS := 15

  /** A tree element.  The two unions of the source are the two fields:
      `fc` is its frequency, later its code; `dl` is its father, later its length. */
  datatype CtData = CtData(fc: nat, dl: nat)

  function Lens(tree: seq<CtData>, n: nat): (r: seq<nat>)
    requires n <= |tree|
    ensures |r| == n
  {
    seq(n, i requires 0 <= i < n => tree[i].dl)
  }

  /** Every used symbol of `tree` carries the code that a decoder derives from `lens`, in the order
      in which the bit writer sends it. */
  ghost predicate Carries(tree: seq<CtData>, lens: seq<nat>) {
    forall n :: 0 <= n < |lens| && n < |tree| && lens[n] > 0 ==> CarriesAt(tree[n], lens, n)
  }

  ghost predicate CarriesAt(c: CtData, lens: seq<nat>, n: nat)
    requires n < |lens|
  {
    c.dl == lens[n] && c.fc < Pow2(lens[n]) && BitsOf(c.fc, lens[n]) == CodeWord(lens, n)
  }

  // ---------- The code space ----------

  /** The code space, in units of 2^-m, taken by the codes shorter than `l`. */
  function Below(lens: seq<nat>, l: nat, m: nat): nat
    requires l <= m + 1
  {
    if l <= 1 then 0 else Below(lens, l - 1, m) + CountLen(lens, l - 1) * Pow2(m - (l - 1))
  }

  lemma {:induction false} FirstCodeScaled(lens: seq<nat>, l: nat, m: nat)
    requires 1 <= l <= m
    ensures FirstCode(lens, l) * Pow2(m - l) == Below(lens, l, m)
  {
    if l > 1 {
      FirstCodeScaled(lens, l - 1, m);
      DoubleSum(FirstCode(lens, l - 1), CountLen(lens, l - 1), Pow2(m - l));
    }
  }

  lemma DoubleSum(f: int, c: int, p: int)
    ensures (2 * (f + c)) * p == f * (2 * p) + c * (2 * p)
  {
  }

  lemma {:induction false} BelowSnoc(lens: seq<nat>, x: nat, l: nat, m: nat)
    requires l <= m + 1
    ensures Below(lens + [x], l, m) == Below(lens, l, m) + if 0 < x < l then Pow2(m - x) else 0
  {
    if l > 1 {
      BelowSnoc(lens, x, l - 1, m);
      assert (lens + [x])[..|lens|] == lens;
      MulDistribute(CountLen(lens, l - 1), 1, Pow2(m - (l - 1)));
    }
  }

  lemma {:induction false} BelowIsKraftSum(lens: seq<nat>, m: nat)
    requires forall i :: 0 <= i < |lens| ==> lens[i] <= m
    ensures Below(lens, m + 1, m) == KraftSum(lens, m)
  {
    if lens == [] {
      BelowEmpty(m + 1, m);
    } else {
      var t, x := lens[..|lens| - 1], lens[|lens| - 1];
      assert lens == t + [x];
      BelowIsKraftSum(t, m);
      BelowSnoc(t, x, m + 1, m);
    }
  }

  lemma {:induction false} BelowEmpty(l: nat, m: nat)
    requires l <= m + 1
    ensures Below([], l, m) == 0
  {
    if l > 1 { BelowEmpty(l - 1, m); }
  }

  lemma {:induction false} BelowMonotone(lens: seq<nat>, l: nat, k: nat, m: nat)
    requires l <= k <= m + 1
    ensures Below(lens, l, m) <= Below(lens, k, m)
  {
    if l < k { BelowMonotone(lens, l, k - 1, m); }
  }

  lemma {:induction false} RankBound(lens: seq<nat>, n: nat, k: nat, l: nat)
    requires n < k <= |lens| && lens[n] == l
    ensures CountLen(lens[..n], l) < CountLen(lens[..k], l)
  {
    assert lens[..k][..k - 1] == lens[..k - 1];
    if n < k - 1 { RankBound(lens, n, k - 1, l); }
  }

  /** The interval of the code space that symbol `n` owns ends before the longer codes begin. */
  lemma CodeInterval(lens: seq<nat>, n: nat, m: nat)
    requires n < |lens| && 0 < lens[n] <= m
    ensures Below(lens, lens[n], m) <= CodeOf(lens, n) * Pow2(m - lens[n])
    ensures (CodeOf(lens, n) + 1) * Pow2(m - lens[n]) <= Below(lens, lens[n] + 1, m)
  {
    var l := lens[n];
    var f, r, c, p := FirstCode(lens, l), CountLen(lens[..n], l), CountLen(lens, l), Pow2(m - l);
    FirstCodeScaled(lens, l, m);
    assert lens[..|lens|] == lens;
    RankBound(lens, n, |lens|, l);
    MulMonotone(f, f + r, p);
    MulMonotone(f + r + 1, f + c, p);
    MulDistribute(f, c, p);
  }

  lemma CodeFits(lens: seq<nat>, n: nat, m: nat)
    requires Fits(lens, m) && n < |lens| && lens[n] > 0
    ensures CodeOf(lens, n) < Pow2(lens[n])
  {
    var c, l := CodeOf(lens, n), lens[n];
    CodeInterval(lens, n, m);
    BelowMonotone(lens, l + 1, m + 1, m);
    BelowIsKraftSum(lens, m);
    Pow2Add(l, m - l);
    MulCancel(c + 1, Pow2(l), Pow2(m - l));
  }

  /** No code is the beginning of another. */
  lemma PrefixFree(lens: seq<nat>, a: nat, b: nat, m: nat)
    requires Fits(lens, m) && a < |lens| && b < |lens| && a != b
    requires 0 < lens[a] <= lens[b]
    ensures CodeWord(lens, a) != CodeWord(lens, b)[..lens[a]]
  {
    var la, lb := lens[a], lens[b];
    var ca, cb, d := CodeOf(lens, a), CodeOf(lens, b), lens[b] - lens[a];
    if CodeWord(lens, a) == CodeWord(lens, b)[..la] {
      CodeFits(lens, a, m);
      CodeFits(lens, b, m);
      MsbPrefix(ca, la, cb, lb);
      ShrTrunc(cb, d);
      if la == lb {
        if a < b { RankBound(lens, a, b, la); } else { RankBound(lens, b, a, la); }
        assert false;
      } else {
        CodeInterval(lens, a, m);
        CodeInterval(lens, b, m);
        BelowMonotone(lens, la + 1, lb, m);
        var p := Pow2(m - lb);
        assert Pow2(m - la) == Pow2(d) * p by { Pow2Add(d, m - lb); }
        assert cb < (ca + 1) * Pow2(d) by { MulDistribute(ca, 1, Pow2(d)); }
        MulAssoc(ca + 1, Pow2(d), p);
        MulStrict(cb, (ca + 1) * Pow2(d), p);
        assert false;
      }
    }
  }

  lemma MulCancel(a: int, b: int, c: nat)
    requires c > 0 && a * c <= b * c
    ensures a <= b
  {
    if b < a { MulStrict(b, a, c); }
  }

  lemma MulStrict(a: int, b: int, c: nat)
    requires a < b && c > 0
    ensures a * c < b * c
  {
    MulMonotone(a + 1, b, c);
    MulDistribute(a, 1, c);
  }

  lemma MulAssoc(a: int, b: int, c: int)
    ensures a * (b * c) == (a * b) * c
  {
  }

  /** Whatever follows it, a code word is read back as its own symbol. */
  lemma FindsSymbol(lens: seq<nat>, s: seq<bool>, p: nat, k: nat, m: nat)
    requires Fits(lens, m) && k < |lens| && lens[k] > 0 && At(s, p, CodeWord(lens, k))
    ensures FindSymbol(lens, s, p, 0) == Some(k)
  {
    FindsFrom(lens, s, p, k, m, 0);
  }

  lemma {:induction false} FindsFrom(lens: seq<nat>, s: seq<bool>, p: nat, k: nat, m: nat, n: nat)
    requires Fits(lens, m) && n <= k < |lens| && lens[k] > 0 && At(s, p, CodeWord(lens, k))
    ensures FindSymbol(lens, s, p, n) == Some(k)
    decreases k - n
  {
    if n < k {
      if lens[n] > 0 && At(s, p, CodeWord(lens, n)) {
        if lens[n] <= lens[k] {
          assert CodeWord(lens, k)[..lens[n]] == s[p..p + lens[n]];
          PrefixFree(lens, n, k, m);
        } else {
          assert CodeWord(lens, n)[..lens[k]] == s[p..p + lens[k]];
          PrefixFree(lens, k, n, m);
        }
        assert false;
      }
      FindsFrom(lens, s, p, k, m, n + 1);
    }
  }

  // ---------- bi_reverse and gen_codes ----------

  lemma {:induction false} MsbBitsTop(v: nat, n: nat)
    ensures MsbBits(v, n + 1) == [Shr(v, n) % 2 == 1] + MsbBits(v, n)
  {
    if n > 0 { MsbBitsTop(v / 2, n - 1); }
  }

  lemma {:induction false} ShrNext(v: nat, n: nat)
    ensures Shr(v, n + 1) == Shr(v, n) / 2
  {
    if n > 0 { ShrNext(v / 2, n - 1); }
  }

  /** The low `len` bits in opposite order, so that sending the result least significant bit first
      puts the code's most significant bit first. */
  method BiReverse(code: nat, len: nat) returns (res: nat)
    requires 1 <= len
    ensures res < Pow2(len) && BitsOf(res, len) == MsbBits(code, len)
  {
    res := 0;
    var code', left := code, len;
    ghost var done := 0;
    while true
      invariant 1 <= left && done + left == len
      invariant code' == Shr(code, done)
      invariant res % 2 == 0 && res / 2 < Pow2(done) && BitsOf(res / 2, done) == MsbBits(code, done)
      decreases left
    {
      ghost var half := res / 2;
      res := res + code' % 2;  // res is even here: the same as res |= code & 1
      MsbBitsTop(code, done);
      assert res / 2 == half && (res % 2 == 1) == (code' % 2 == 1);
      assert BitsOf(res, done + 1) == [res % 2 == 1] + BitsOf(half, done);
      left := left - 1;
      done := done + 1;
      if left == 0 { return; }
      ShrNext(code, done - 1);
      code' := code' / 2;
      res := 2 * res;
    }
  }

  /** next_code[], the codes to be given out next, after the first `n` symbols. */
  ghost predicate NextCodes(next: seq<nat>, lens: seq<nat>, n: nat) {
    |next| == MAX_BITS + 1 && n <= |lens| &&
    forall l :: 1 <= l <= MAX_BITS ==> next[l] == FirstCode(lens, l) + CountLen(lens[..n], l)
  }

  lemma NextCodesStep(next: seq<nat>, lens: seq<nat>, n: nat, next': seq<nat>)
    requires NextCodes(next, lens, n) && n < |lens| && lens[n] <= MAX_BITS
    requires next' == if lens[n] == 0 then next else next[lens[n] := next[lens[n]] + 1]
    ensures NextCodes(next', lens, n + 1)
  {
    assert lens[..n + 1][..n] == lens[..n];
  }

  /** Where the codes of each length start, if `blCount[l]` symbols have length `l`. */
  method FirstCodes(blCount: seq<nat>, ghost lens: seq<nat>) returns (next: seq<nat>)
    requires |blCount| == MAX_BITS + 1 && blCount[0] == 0
    requires forall l :: 1 <= l <= MAX_BITS ==> blCount[l] == CountLen(lens, l)
    ensures NextCodes(next, lens, 0)
  {
    next := [0];
    var code := 0;
    for bits := 1 to MAX_BITS + 1
      invariant code == FirstCode(lens, bits - 1)
      invariant |next| == bits && forall l :: 1 <= l < bits ==> next[l] == FirstCode(lens, l)
    {
      code := (code + blCount[bits - 1]) * 2;
      next := next + [code];
    }
    assert lens[..0] == [];
  }

  /** Every used symbol gets the code that a decoder will derive from the lengths alone. */
  method GenCodes(tree: array<CtData>, maxCode: nat, blCount: seq<nat>, ghost m: nat)
    requires maxCode < tree.Length && |blCount| == MAX_BITS + 1
    requires m <= MAX_BITS && Fits(Lens(tree[..], maxCode + 1), m)
    requires blCount[0] == 0
    requires forall l :: 1 <= l <= MAX_BITS ==> blCount[l] == CountLen(Lens(tree[..], maxCode + 1), l)
    modifies tree
    ensures forall i :: 0 <= i < tree.Length ==> tree[i].dl == old(tree[i].dl)
    ensures forall i :: maxCode < i < tree.Length ==> tree[i] == old(tree[i])
    ensures Carries(tree[..], old(Lens(tree[..], maxCode + 1)))
  {
    hide Pow2, BitsOf, MsbBits, FirstCode, CountLen, KraftSum;
    ghost var lens := Lens(tree[..], maxCode + 1);
    var nextCode := FirstCodes(blCount, lens);
    for n := 0 to maxCode + 1
      invariant forall i :: 0 <= i < tree.Length ==> tree[i].dl == old(tree[i].dl)
      invariant forall i :: n <= i < tree.Length ==> tree[i] == old(tree[i])
      invariant NextCodes(nextCode, lens, n)
      invariant forall i :: 0 <= i < n && lens[i] > 0 ==> CarriesAt(tree[i], lens, i)
    {
      var len := tree[n].dl;
      ghost var next := nextCode;
      assert len == lens[n];
      if len != 0 {
        assert nextCode[len] == CodeOf(lens, n);
        var rev := BiReverse(nextCode[len], len);
        nextCode := nextCode[len := nextCode[len] + 1];
        tree[n] := tree[n].(fc := rev);
        assert CarriesAt(tree[n], lens, n);
      }
      NextCodesStep(next, lens, n, nextCode);
    }
  }
}
