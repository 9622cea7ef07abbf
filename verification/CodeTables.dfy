/** ct_init: the tables that take match lengths and distances to codes, and the static trees. */
module CodeTables {
  import opened Bits
  import opened Inflate
  import opened Canonical

  const LENGTH_CODES := 29
  const D_CODES := 30

  /** A code table agrees with RFC 1951 at one value: the code's base and extra bits give the value back. */
  predicate CodeOk(base: seq<nat>, rfcBase: seq<nat>, rfcExtra: seq<nat>, offset: nat, code: nat, v: nat) {
    && code < |base| && code < |rfcBase| && code < |rfcExtra|
    && (if rfcExtra[code] == 0 then rfcBase[code] == v + offset
        else base[code] <= v < base[code] + Pow2(rfcExtra[code]) && rfcBase[code] == base[code] + offset)
  }

  /** D_CODE */
  function DCode(distCode: seq<nat>, dist: nat): nat
    requires |distCode| == 512 && dist < 32768
  {
    if dist < 256 then distCode[dist] else distCode[256 + dist / 128]
  }

  ghost predicate LengthsOk(lengthCode: seq<nat>, baseLength: seq<nat>) {
    && |lengthCode| == 256 && |baseLength| == LENGTH_CODES
    && forall lc :: 0 <= lc < 256 ==> CodeOk(baseLength, LENGTH_BASE, LENGTH_EXTRA, 3, lengthCode[lc], lc)
  }

  ghost predicate DistancesOk(distCode: seq<nat>, baseDist: seq<nat>) {
    && |distCode| == 512 && |baseDist| == D_CODES
    && forall d :: 0 <= d < 32768 ==> CodeOk(baseDist, DIST_BASE, DIST_EXTRA, 1, DCode(distCode, d), d)
  }

  lemma Pow2Values()
    ensures Pow2(0) == 1 && Pow2(1) == 2 && Pow2(2) == 4 && Pow2(3) == 8 && Pow2(4) == 16 && Pow2(5) == 32 && Pow2(6) == 64
    ensures Pow2(7) == 128 && Pow2(8) == 256 && Pow2(9) == 512 && Pow2(10) == 1024 && Pow2(11) == 2048 && Pow2(12) == 4096
    ensures Pow2(13) == 8192
  {
  }

  /** Consecutive length codes cover consecutive ranges. */
  lemma LengthBaseStep(c: nat)
    requires c < 27
    ensures LENGTH_BASE[c + 1] == LENGTH_BASE[c] + Pow2(LENGTH_EXTRA[c])
  {
    Pow2Values();
    hide Pow2;
  }

  lemma DistBaseStep(c: nat)
    requires c < 29
    ensures DIST_BASE[c + 1] == DIST_BASE[c] + Pow2(DIST_EXTRA[c])
  {
    Pow2Values();
    hide Pow2;
  }

  // ---------- Filling the tables ----------

  /** First normalized length of a code, and the end of the last. */
  function LengthStart(c: nat): nat
    requires c <= 28
  {
    if c < 28 then LENGTH_BASE[c] - 3 else 256
  }

  function DistStart(c: nat): nat
    requires c <= 30
  {
    if c < 30 then DIST_BASE[c] - 1 else 32768
  }

  lemma LengthStartStep(c: nat)
    requires c < 28
    ensures LengthStart(c + 1) == LengthStart(c) + Pow2(LENGTH_EXTRA[c]) <= 256
    ensures LENGTH_EXTRA[c] <= 5
  {
    if c < 27 {
      LengthBaseStep(c);
    } else {
      Pow2Values();
    }
    hide Pow2;
  }

  lemma DistStartStep(c: nat)
    requires c < 30
    ensures DistStart(c + 1) == DistStart(c) + Pow2(DIST_EXTRA[c]) <= 32768
    ensures if c < 16 then DistStart(c + 1) <= 256 else DistStart(c) >= 256 && DIST_EXTRA[c] >= 7
    ensures c >= 16 ==> DistStart(c) % 128 == 0 && Pow2(DIST_EXTRA[c]) == 128 * Pow2(DIST_EXTRA[c] - 7)
    ensures DIST_EXTRA[c] <= 13
  {
    if c < 29 { DistBaseStep(c); }
    Pow2Values();
    hide Pow2;
    DistAligned(c);
  }

  lemma DistAligned(c: nat)
    requires c < 30
    ensures if c < 16 then DistStart(c + 1) <= 256 else DistStart(c) >= 256 && DIST_EXTRA[c] >= 7
    ensures c >= 16 ==> DistStart(c) % 128 == 0 && Pow2(DIST_EXTRA[c]) == 128 * Pow2(DIST_EXTRA[c] - 7)
  {
    Pow2Values();
    hide Pow2;
  }

  lemma LengthCodeOk(base: seq<nat>, c: nat, lc: nat)
    requires |base| == LENGTH_CODES && c < 28 && base[c] == LengthStart(c) && LengthStart(c) <= lc < LengthStart(c + 1)
    ensures CodeOk(base, LENGTH_BASE, LENGTH_EXTRA, 3, c, lc)
  {
    LengthStartStep(c);
    Pow2Zero();
    hide Pow2;
  }

  lemma DistCodeOk(base: seq<nat>, c: nat, d: nat)
    requires |base| == D_CODES && c < 30 && base[c] == DistStart(c) && DistStart(c) <= d < DistStart(c + 1)
    ensures CodeOk(base, DIST_BASE, DIST_EXTRA, 1, c, d)
  {
    DistStartStep(c);
    Pow2Zero();
    hide Pow2;
  }

  lemma Pow2Zero()
    ensures Pow2(0) == 1
  {
  }

  ghost predicate LengthEntry(i: nat, c: nat) {
    c < 28 && LengthStart(c) <= i < LengthStart(c + 1)
  }

  lemma LengthStartEnds()
    ensures LengthStart(0) == 0 && LengthStart(28) == 256
  {
  }

  method InitLengthCodes() returns (lengthCode: seq<nat>, baseLength: seq<nat>)
    ensures LengthsOk(lengthCode, baseLength)
  {
    hide CodeOk, Pow2, LengthStart;
    var lc, bl := new nat[256](i => 0), new nat[LENGTH_CODES](i => 0);
    var length := 0;
    LengthStartEnds();
    for code := 0 to 28
      invariant length == LengthStart(code) <= 256
      invariant forall c :: 0 <= c < code ==> bl[c] == LengthStart(c)
      invariant forall i :: 0 <= i < length ==> LengthEntry(i, lc[i])
    {
      LengthStartStep(code);
      bl[code] := length;
      ghost var first := length;
      for n := 0 to Pow2(LENGTH_EXTRA[code])
        invariant length == first + n <= 256
        invariant forall c :: 0 <= c <= code ==> bl[c] == LengthStart(c)
        invariant forall i :: 0 <= i < length ==> LengthEntry(i, lc[i])
      {
        lc[length] := code;
        length := length + 1;
      }
    }
    lc[length - 1] := 28;
    LastLength(bl[..]);
    forall i | 0 <= i < 255
      ensures CodeOk(bl[..], LENGTH_BASE, LENGTH_EXTRA, 3, lc[i], i)
    {
      LengthCodeOk(bl[..], lc[i], i);
    }
    lengthCode, baseLength := lc[..], bl[..];
  }

  lemma LastLength(base: seq<nat>)
    requires |base| == LENGTH_CODES
    ensures CodeOk(base, LENGTH_BASE, LENGTH_EXTRA, 3, 28, 255)
  {
  }

  /** Entry `i` of dist_code: below 256 for the distance itself, above for its top bits. */
  ghost predicate DistEntry(i: nat, c: nat) {
    c < 30 && if i < 256 then DistStart(c) <= i < DistStart(c + 1) else DistStart(c) <= 128 * (i - 256) && 128 * (i - 255) <= DistStart(c + 1)
  }

  method InitDistCodes() returns (distCode: seq<nat>, baseDist: seq<nat>)
    ensures DistancesOk(distCode, baseDist)
  {
    hide CodeOk, Pow2, DistEntry, DistStart;
    var dc, bd := new nat[512](i => 0), new nat[D_CODES](i => 0);
    var dist := 0;
    DistStartEnds();
    for code := 0 to 16
      invariant dist == DistStart(code) <= 256
      invariant forall c :: 0 <= c < code ==> bd[c] == DistStart(c)
      invariant forall i :: 0 <= i < dist ==> DistEntry(i, dc[i])
    {
      DistStartStep(code);
      bd[code] := dist;
      ghost var first := dist;
      for n := 0 to Pow2(DIST_EXTRA[code])
        invariant dist == first + n
        invariant forall c :: 0 <= c <= code ==> bd[c] == DistStart(c)
        invariant forall i :: 0 <= i < dist ==> DistEntry(i, dc[i])
      {
        LowEntry(dist, code);
        dc[dist] := code;
        dist := dist + 1;
      }
    }
    dist := dist / 128;
    for code := 16 to D_CODES
      invariant 128 * dist == DistStart(code) <= 32768 && dist >= 2
      invariant forall c :: 0 <= c < code ==> bd[c] == DistStart(c)
      invariant forall i :: 0 <= i < 256 || 258 <= i < 256 + dist ==> DistEntry(i, dc[i])
    {
      DistStartStep(code);
      bd[code] := dist * 128;
      ghost var first := dist;
      for n := 0 to Pow2(DIST_EXTRA[code] - 7)
        invariant dist == first + n
        invariant forall c :: 0 <= c <= code ==> bd[c] == DistStart(c)
        invariant forall i :: 0 <= i < 256 || 258 <= i < 256 + dist ==> DistEntry(i, dc[i])
      {
        HighEntry(256 + dist, code);
        dc[256 + dist] := code;
        dist := dist + 1;
      }
    }
    distCode, baseDist := dc[..], bd[..];
    forall d | 0 <= d < 32768
      ensures CodeOk(baseDist, DIST_BASE, DIST_EXTRA, 1, DCode(distCode, d), d)
    {
      EntryCovers(d, DCode(distCode, d));
      DistCodeOk(baseDist, DCode(distCode, d), d);
    }
  }

  lemma DistStartEnds()
    ensures DistStart(0) == 0 && DistStart(16) == 256 && DistStart(30) == 32768
  {
  }

  lemma LowEntry(i: nat, c: nat)
    requires c < 16 && DistStart(c) <= i < DistStart(c + 1) <= 256
    ensures DistEntry(i, c)
  {
    hide DistStart;
  }

  lemma HighEntry(i: nat, c: nat)
    requires 16 <= c < 30 && i >= 256 && DistStart(c) <= 128 * (i - 256) && 128 * (i - 255) <= DistStart(c + 1)
    ensures DistEntry(i, c)
  {
    hide DistStart;
  }

  lemma EntryCovers(d: nat, c: nat)
    requires DistEntry(if d < 256 then d else 256 + d / 128, c)
    ensures c < 30 && DistStart(c) <= d < DistStart(c + 1)
  {
    hide DistStart;
  }

  // ---------- Static trees ----------

  lemma {:induction false} CountConst(n: nat, v: nat, l: nat, m: nat)
    ensures CountLen(seq(n, i => v), l) == if v == l then n else 0
    ensures KraftSum(seq(n, i => v), m) == n * Share(v, m)
  {
    if n > 0 {
      CountConst(n - 1, v, l, m);
      assert seq(n, i => v)[..n - 1] == seq(n - 1, i => v);
      MulDistribute(n - 1, 1, Share(v, m));
    }
  }

  lemma {:induction false} CountConcat(a: seq<nat>, b: seq<nat>, l: nat, m: nat)
    ensures CountLen(a + b, l) == CountLen(a, l) + CountLen(b, l)
    ensures KraftSum(a + b, m) == KraftSum(a, m) + KraftSum(b, m)
  {
    if b == [] {
      assert a + b == a;
    } else {
      CountConcat(a, b[..|b| - 1], l, m);
      assert (a + b)[..|a + b| - 1] == a + b[..|b| - 1];
    }
  }

  /** The fixed literal code of section 3.2.6 of RFC 1951: how many codes of each length, and that they fill the code space. */
  lemma FixedLitStats(l: nat)
    ensures CountLen(FixedLitLengths(), l) == if l == 7 then 24 else if l == 8 then 152 else if l == 9 then 112 else 0
    ensures KraftSum(FixedLitLengths(), 9) == Pow2(9)
  {
    var a, b, c, d := seq(144, i => 8), seq(112, i => 9), seq(24, i => 7), seq(8, i => 8);
    Pow2Values();
    assert Share(8, 9) == 2 && Share(9, 9) == 1 && Share(7, 9) == 4;
    hide CountLen, KraftSum, Share, Pow2;
    CountConst(144, 8, l, 9);
    CountConst(112, 9, l, 9);
    CountConst(24, 7, l, 9);
    CountConst(8, 8, l, 9);
    CountConcat(a, b, l, 9);
    CountConcat(a + b, c, l, 9);
    CountConcat(a + b + c, d, l, 9);
  }

  lemma FixedLitFits()
    ensures Fits(FixedLitLengths(), 9)
  {
    hide KraftSum, Pow2;
    FixedLitStats(0);
  }

  lemma FixedDistFits()
    ensures Fits(FixedDistLengths(), 5)
  {
    Pow2Values();
    assert Share(5, 5) == 1;
    hide KraftSum, Pow2, Share;
    CountConst(32, 5, 0, 5);
  }

  lemma FixedDistCode(n: nat)
    requires n < 32
    ensures CodeOf(FixedDistLengths(), n) == n
  {
    var lens := FixedDistLengths();
    assert lens[..n] == seq(n, i => 5);
    CountConst(n, 5, 5, 5);
    CountConst(32, 5, 1, 5);
    CountConst(32, 5, 2, 5);
    CountConst(32, 5, 3, 5);
    CountConst(32, 5, 4, 5);
    hide CountLen;
    assert FirstCode(lens, 2) == 0 && FirstCode(lens, 3) == 0 && FirstCode(lens, 4) == 0 && FirstCode(lens, 5) == 0;
  }

  method StaticLitTree() returns (tree: seq<CtData>)
    ensures |tree| == 288 && Lens(tree, 288) == FixedLitLengths() && Carries(tree, FixedLitLengths())
  {
    hide CountLen, KraftSum, Pow2;
    var t := new CtData[288](i => CtData(0, 0));
    var n := 0;
    while n <= 143
      invariant 0 <= n <= 144 && forall i :: 0 <= i < n ==> t[i].dl == 8
    {
      t[n] := t[n].(dl := 8);
      n := n + 1;
    }
    while n <= 255
      invariant 144 <= n <= 256 && forall i :: 0 <= i < n ==> t[i].dl == FixedLit(i)
    {
      t[n] := t[n].(dl := 9);
      n := n + 1;
    }
    while n <= 279
      invariant 256 <= n <= 280 && forall i :: 0 <= i < n ==> t[i].dl == FixedLit(i)
    {
      t[n] := t[n].(dl := 7);
      n := n + 1;
    }
    while n <= 287
      invariant 280 <= n <= 288 && forall i :: 0 <= i < n ==> t[i].dl == FixedLit(i)
    {
      t[n] := t[n].(dl := 8);
      n := n + 1;
    }
    var blCount := [0, 0, 0, 0, 0, 0, 0, 279 - 255, (143 + 1) + (287 - 279), 255 - 143, 0, 0, 0, 0, 0, 0];
    assert Lens(t[..], 288) == FixedLitLengths();
    FixedLitFits();
    forall l | 1 <= l <= MAX_BITS
      ensures blCount[l] == CountLen(FixedLitLengths(), l)
    {
      FixedLitStats(l);
    }
    GenCodes(t, 287, blCount, 9);
    tree := t[..];
    assert Lens(tree, 288) == FixedLitLengths();
  }

  function FixedLit(i: nat): nat { if i < 144 then 8 else if i < 256 then 9 else if i < 280 then 7 else 8 }

  method StaticDistTree() returns (tree: seq<CtData>)
    ensures |tree| == D_CODES && (forall n :: 0 <= n < D_CODES ==> tree[n].dl == 5) && Carries(tree, FixedDistLengths())
  {
    hide CodeOf, Pow2, MsbBits, BitsOf;
    tree := [];
    for n := 0 to D_CODES
      invariant |tree| == n
      invariant forall i :: 0 <= i < n ==> tree[i].dl == 5 && CarriesAt(tree[i], FixedDistLengths(), i)
    {
      var code := BiReverse(n, 5);
      FixedDistCode(n);
      tree := tree + [CtData(code, 5)];
    }
  }
}
