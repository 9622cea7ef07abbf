/** RFC 1951 as a decoder of bit strings.  This is what every block written by gzip is measured against. */
module Inflate {
  import opened Bits

  /** Bit string `x` stands in `s` at position `p`. */
  ghost predicate At(s: seq<bool>, p: nat, x: seq<bool>) {
    p + |x| <= |s| && s[p..p + |x|] == x
  }

  lemma AtSplit(s: seq<bool>, p: nat, x: seq<bool>, y: seq<bool>)
    requires At(s, p, x + y)
    ensures At(s, p, x) && At(s, p + |x|, y)
  {
    var t := s[p..p + |x + y|];
    assert s[p..p + |x|] == t[..|x|] == x;
    assert s[p + |x|..p + |x| + |y|] == t[|x|..] == y;
  }

  // ---------- Canonical Huffman codes: section 3.2.2 ----------

  /** How many codes have length `l`. */
  function CountLen(lens: seq<nat>, l: nat): nat {
    if lens == [] then 0 else CountLen(lens[..|lens| - 1], l) + if lens[|lens| - 1] == l then 1 else 0
  }

  /** The numerically smallest code of length `l`: step 2 of the algorithm. */
  function FirstCode(lens: seq<nat>, l: nat): nat {
    if l <= 1 then 0 else 2 * (FirstCode(lens, l - 1) + CountLen(lens, l - 1))
  }

  /** Codes of one length are consecutive numbers in symbol order: step 3 of the algorithm. */
  function CodeOf(lens: seq<nat>, n: nat): nat
    requires n < |lens|
  {
    FirstCode(lens, lens[n]) + CountLen(lens[..n], lens[n])
  }

  function CodeWord(lens: seq<nat>, n: nat): (w: seq<bool>)
    requires n < |lens|
    ensures |w| == lens[n]
  {
    MsbBits(CodeOf(lens, n), lens[n])
  }

  /** The share of the code space, in units of 2^-m, that a code of length `l` takes. */
  function Share(l: nat, m: nat): nat {
    if 0 < l <= m then Pow2(m - l) else 0
  }

  function KraftSum(lens: seq<nat>, m: nat): nat {
    if lens == [] then 0 else KraftSum(lens[..|lens| - 1], m) + Share(lens[|lens| - 1], m)
  }

  /** No length above `m`, and the lengths do not oversubscribe the code space. */
  ghost predicate Fits(lens: seq<nat>, m: nat) {
    (forall i :: 0 <= i < |lens| ==> lens[i] <= m) && KraftSum(lens, m) <= Pow2(m)
  }

  /** The first symbol, from `n` on, whose code stands in `s` at `p`. */
  function FindSymbol(lens: seq<nat>, s: seq<bool>, p: nat, n: nat): (r: Option<nat>)
    requires n <= |lens|
    ensures r.Some? ==> n <= r.value < |lens| && lens[r.value] > 0 && At(s, p, CodeWord(lens, r.value))
    decreases |lens| - n
  {
    if n == |lens| then None
    else if lens[n] > 0 && p + lens[n] <= |s| && s[p..p + lens[n]] == CodeWord(lens, n) then Some(n)
    else FindSymbol(lens, s, p, n + 1)
  }

  // ---------- Lengths, distances and copies: section 3.2.5 ----------

  const MIN_MATCH := 3
  const MAX_MATCH := 258

  const LENGTH_EXTRA: seq<nat> := [0, 0, 0, 0, 0, 0, 0, 0, 1, 1, 1, 1, 2, 2, 2, 2, 3, 3, 3, 3, 4, 4, 4, 4, 5, 5, 5, 5, 0]
  const LENGTH_BASE: seq<nat> := [3, 4, 5, 6, 7, 8, 9, 10, 11, 13, 15, 17, 19, 23, 27, 31, 35, 43, 51, 59, 67, 83, 99, 115,
                                  131, 163, 195, 227, 258]
  const DIST_EXTRA: seq<nat> := [0, 0, 0, 0, 1, 1, 2, 2, 3, 3, 4, 4, 5, 5, 6, 6, 7, 7, 8, 8, 9, 9, 10, 10, 11, 11, 12, 12, 13, 13]
  const DIST_BASE: seq<nat> := [1, 2, 3, 4, 5, 7, 9, 13, 17, 25, 33, 49, 65, 97, 129, 193, 257, 385, 513, 769, 1025, 1537,
                                2049, 3073, 4097, 6145, 8193, 12289, 16385, 24577]

  function LengthExtra(c: nat): nat
    requires c < 29
  {
    LENGTH_EXTRA[c]
  }

  function LengthBase(c: nat): nat
    requires c < 29
  {
    LENGTH_BASE[c]
  }

  function DistExtra(c: nat): nat
    requires c < 30
  {
    DIST_EXTRA[c]
  }

  function DistBase(c: nat): (r: nat)
    requires c < 30
    ensures r >= 1
  {
    DIST_BASE[c]
  }

  /** Copy `len` bytes from `dist` back, byte by byte: the source may overlap what is being produced. */
  function CopyMatch(out: seq<byte>, dist: nat, len: nat): (r: seq<byte>)
    requires 1 <= dist <= |out|
    ensures |r| == |out| + len && r[..|out|] == out
    decreases len
  {
    if len == 0 then out else CopyMatch(out + [out[|out| - dist]], dist, len - 1)
  }

  /** Compressed data up to its end-of-block symbol. */
  function DecodeData(ll: seq<nat>, dl: seq<nat>, s: seq<bool>, p: nat, out: seq<byte>): (r: Option<(nat, seq<byte>)>)
    ensures r.Some? ==> p < r.value.0 <= |s|
    decreases |s| - p
  {
    match FindSymbol(ll, s, p, 0)
    case None => None
    case Some(sym) =>
      var q := p + ll[sym];
      if sym < 256 then DecodeData(ll, dl, s, q, out + [sym])
      else if sym == 256 then Some((q, out))
      else if sym > 285 then None
      else
        var lx := LengthExtra(sym - 257);
        if q + lx > |s| then None
        else
          var len := LengthBase(sym - 257) + NatOf(s[q..q + lx]);
          match FindSymbol(dl, s, q + lx, 0)
          case None => None
          case Some(dsym) =>
            var q2 := q + lx + dl[dsym];
            if dsym > 29 || q2 + DistExtra(dsym) > |s| then None
            else
              var q3 := q2 + DistExtra(dsym);
              var dist := DistBase(dsym) + NatOf(s[q2..q3]);
              if dist > |out| then None else DecodeData(ll, dl, s, q3, CopyMatch(out, dist, len))
  }

  // ---------- Blocks: sections 3.2.3, 3.2.4, 3.2.6 and 3.2.7 ----------

  function FixedLitLengths(): seq<nat> {
    seq(144, i => 8) + seq(112, i => 9) + seq(24, i => 7) + seq(8, i => 8)
  }

  function FixedDistLengths(): seq<nat> {
    seq(32, i => 5)
  }

  const CODE_LENGTH_ORDER: seq<nat> := [16, 17, 18, 0, 8, 7, 9, 6, 10, 5, 11, 4, 12, 3, 13, 2, 14, 1, 15]

  function Order(rank: nat): (i: nat)
    requires rank < 19
    ensures i < 19
  {
    CODE_LENGTH_ORDER[rank]
  }

  /** `n` code lengths of the code length alphabet, 3 bits each, in their peculiar order. */
  function CodeLengthLengths(s: seq<bool>, p: nat, n: nat): (r: seq<nat>)
    requires n <= 19 && p + 3 * n <= |s|
    ensures |r| == 19
  {
    if n == 0 then seq(19, i => 0)
    else CodeLengthLengths(s, p, n - 1)[Order(n - 1) := NatOf(s[p + 3 * (n - 1)..p + 3 * n])]
  }

  function Repeat(v: nat, n: nat): (r: seq<nat>)
    ensures |r| == n
  {
    seq(n, i => v)
  }

  /** The code lengths of both alphabets, as one sequence of `want` numbers. */
  function DecodeLengths(cl: seq<nat>, s: seq<bool>, p: nat, want: nat, acc: seq<nat>): (r: Option<(nat, seq<nat>)>)
    ensures r.Some? ==> p <= r.value.0 && (p <= |s| ==> r.value.0 <= |s|) && |r.value.1| == want
    decreases |s| - p
  {
    if |acc| == want then Some((p, acc))
    else if |acc| > want then None
    else match FindSymbol(cl, s, p, 0)
         case None => None
         case Some(sym) =>
           var q := p + cl[sym];
           if sym < 16 then DecodeLengths(cl, s, q, want, acc + [sym])
           else if sym == 16 then
             if acc == [] || q + 2 > |s| then None
             else DecodeLengths(cl, s, q + 2, want, acc + Repeat(acc[|acc| - 1], 3 + NatOf(s[q..q + 2])))
           else if sym == 17 then
             if q + 3 > |s| then None
             else DecodeLengths(cl, s, q + 3, want, acc + Repeat(0, 3 + NatOf(s[q..q + 3])))
           else if sym == 18 then
             if q + 7 > |s| then None
             else DecodeLengths(cl, s, q + 7, want, acc + Repeat(0, 11 + NatOf(s[q..q + 7])))
           else None
  }

  function DecodeDynamic(s: seq<bool>, p: nat, out: seq<byte>): (r: Option<(nat, seq<byte>)>)
    ensures r.Some? ==> p < r.value.0 <= |s|
  {
    if p + 14 > |s| then None
    else
      var nl := 257 + NatOf(s[p..p + 5]);
      var nd := 1 + NatOf(s[p + 5..p + 10]);
      var nc := 4 + NatOf(s[p + 10..p + 14]);
      if nc > 19 || p + 14 + 3 * nc > |s| then None
      else
        var cl := CodeLengthLengths(s, p + 14, nc);
        match DecodeLengths(cl, s, p + 14 + 3 * nc, nl + nd, [])
        case None => None
        case Some((q, lens)) => DecodeData(lens[..nl], lens[nl..], s, q, out)
  }

  /** The next byte boundary. */
  function Align(p: nat): (q: nat)
    ensures p <= q
  {
    if p % 8 == 0 then p else p + 8 - p % 8
  }

  function ReadBytes(s: seq<bool>, p: nat, n: nat): (r: seq<byte>)
    requires p + 8 * n <= |s|
  {
    if n == 0 then []
    else
      NatOfBound(s[p + 8 * (n - 1)..p + 8 * n]);
      ReadBytes(s, p, n - 1) + [NatOf(s[p + 8 * (n - 1)..p + 8 * n])]
  }

  lemma NatOfBound(s: seq<bool>)
    ensures NatOf(s) < Pow2(|s|)
  {
  }

  function DecodeStored(s: seq<bool>, p: nat, out: seq<byte>): (r: Option<(nat, seq<byte>)>)
    ensures r.Some? ==> p < r.value.0 <= |s|
  {
    var q := Align(p);
    if q + 32 > |s| then None
    else
      var len := NatOf(s[q..q + 16]);
      if NatOf(s[q + 16..q + 32]) != 0xffff - len || q + 32 + 8 * len > |s| then None
      else Some((q + 32 + 8 * len, out + ReadBytes(s, q + 32, len)))
  }

  datatype Block = Block(final: bool, pos: nat, out: seq<byte>)

  /** One block, from its three header bits on. */
  function DecodeBlock(s: seq<bool>, p: nat, out: seq<byte>): (r: Option<Block>)
    ensures r.Some? ==> p < r.value.pos <= |s|
  {
    if p + 3 > |s| then None
    else
      var kind := NatOf(s[p + 1..p + 3]);
      var data := if kind == 0 then DecodeStored(s, p + 3, out)
                  else if kind == 1 then DecodeData(FixedLitLengths(), FixedDistLengths(), s, p + 3, out)
                  else if kind == 2 then DecodeDynamic(s, p + 3, out)
                  else None;
      match data
      case None => None
      case Some((q, o)) => Some(Block(s[p], q, o))
  }

  /** A whole compressed stream: blocks up to and including the one marked final. */
  function Decode(s: seq<bool>, p: nat, out: seq<byte>): (r: Option<(nat, seq<byte>)>)
    decreases |s| - p
  {
    match DecodeBlock(s, p, out)
    case None => None
    case Some(Block(final, q, o)) => if final then Some((q, o)) else Decode(s, q, o)
  }
}
