/** The current block: ct_tally fills it, compress_block sends it. */
module BlockBuffers {
  import opened Bits
  import opened Inflate
  import opened Canonical
  import opened BitSinks
  import opened CodeTables
  import opened Tokens
  import opened TokenBuffers
  import opened TreeHeap
  import opened TreeFacts
  import opened TreeBuild

  const BL_CODES := 19

  /** The arguments of ct_tally stand for a token. */
  function TokenOf(dist: nat, lc: byte): (t: Token)
    requires dist <= 32768
    ensures t.Valid()
  {
    if dist == 0 then Literal(lc) else Match(lc + MIN_MATCH, dist)
  }

  /** What the current distances could cost at most on top of 8 bits per token. */
  function DistPrices(): seq<nat> {
    seq(D_CODES, i requires 0 <= i < D_CODES => 5 + DistExtra(i))
  }

  class BlockBuffer {
    const tab: Tables
    const litBufSize: nat
    const distBufSize: nat
    const lBuf: array<int>
    const dBuf: array<int>
    const flagBuf: array<int>
    const dynLtree: array<CtData>
    const dynDtree: array<CtData>
    const blTree: array<CtData>
    var lastLit: nat
    var lastDist: nat
    var lastFlags: nat
    var flags: nat
    var flagBit: nat
    ghost var tokens: seq<Token>

    constructor (tab: Tables, litBufSize: nat, distBufSize: nat)
      requires tab.Valid() && 8 <= litBufSize <= 0x8000 && litBufSize % 8 == 0 && 1 <= distBufSize
      ensures Shape() && fresh(lBuf) && fresh(dBuf) && fresh(flagBuf) && fresh(dynLtree) && fresh(dynDtree) && fresh(blTree)
    {
      this.tab := tab;
      this.litBufSize := litBufSize;
      this.distBufSize := distBufSize;
      lBuf := new int[litBufSize];
      dBuf := new int[distBufSize];
      flagBuf := new int[litBufSize / 8];
      dynLtree := new CtData[2 * L_CODES + 1](i => CtData(0, 0));
      dynDtree := new CtData[2 * D_CODES + 1](i => CtData(0, 0));
      blTree := new CtData[2 * BL_CODES + 1](i => CtData(0, 0));
      lastLit, lastDist, lastFlags, flags, flagBit := 0, 0, 0, 0, 0;
      tokens := [];
    }

    ghost predicate Shape() {
      && tab.Valid()
      && 8 <= litBufSize <= 0x8000 && litBufSize % 8 == 0 && 1 <= distBufSize
      && lBuf.Length >= litBufSize && dBuf.Length == distBufSize && flagBuf.Length == litBufSize / 8
      && dynLtree.Length == 2 * L_CODES + 1 && dynDtree.Length == 2 * D_CODES + 1 && blTree.Length == 2 * BL_CODES + 1
      && lBuf != dBuf && lBuf != flagBuf && dBuf != flagBuf
      && dynLtree != dynDtree && dynLtree != blTree && dynDtree != blTree
    }

    /** The buffers hold the tokens. */
    ghost predicate Saved(ts: seq<Token>)
      reads this, lBuf, dBuf
    {
      && |ts| == lastLit < litBufSize && lastDist <= distBufSize && AllTokens(tab, ts)
      && LitsPacked(ts, lBuf[..]) && DistsPacked(ts, dBuf[..], lastDist)
    }

    ghost predicate Flagged(ts: seq<Token>)
      reads this, flagBuf
    {
      && FlagsPacked(ts, flagBuf[..], lastFlags) && |ts| == 8 * lastFlags + |ts| % 8
      && flags == FlagByte(ts, lastFlags) && flagBit == Pow2(|ts| % 8)
    }

    ghost predicate Tallied(ts: seq<Token>)
      requires Shape()
      reads dynLtree, dynDtree
    {
      && SymbolFreqs(dynLtree[..], L_CODES) == LitFreqs(tab, ts)
      && SymbolFreqs(dynDtree[..], D_CODES) == DistFreqs(tab, ts)
    }

    ghost predicate Valid()
      reads this, lBuf, dBuf, flagBuf, dynLtree, dynDtree, blTree
    {
      && Shape() && Saved(tokens) && Flagged(tokens) && Tallied(tokens)
      && forall i :: 0 <= i < BL_CODES ==> blTree[i].fc == 0
    }

    /** One more token fits. */
    predicate Room()
      reads this
    {
      lastLit + 1 < litBufSize && lastDist < distBufSize
    }

    method Count(dist: nat, lc: byte)
      requires Shape() && dist <= 32768 && AllTokens(tab, tokens) && Tallied(tokens)
      modifies dynLtree, dynDtree
      ensures Tallied(tokens + [TokenOf(dist, lc)])
    {
      hide LitFreqs, DistFreqs, Tables.Valid, SymbolFreqs;
      ghost var t := TokenOf(dist, lc);
      ghost var l0, d0 := dynLtree[..], dynDtree[..];
      SymbolBounds(tab, t);
      FreqsSnoc(tab, tokens, t);
      if dist == 0 {
        dynLtree[lc] := dynLtree[lc].(fc := dynLtree[lc].fc + 1);
        AddOneFreq(l0, L_CODES, lc);
        assert dynLtree[..] == l0[lc := l0[lc].(fc := l0[lc].fc + 1)];
      } else {
        var c, dc := tab.lengthCode[lc] + LITERALS + 1, DCode(tab.distCode, dist - 1);
        dynLtree[c] := dynLtree[c].(fc := dynLtree[c].fc + 1);
        dynDtree[dc] := dynDtree[dc].(fc := dynDtree[dc].fc + 1);
        AddOneFreq(l0, L_CODES, c);
        AddOneFreq(d0, D_CODES, dc);
        assert dynLtree[..] == l0[c := l0[c].(fc := l0[c].fc + 1)];
        assert dynDtree[..] == d0[dc := d0[dc].(fc := d0[dc].fc + 1)];
      }
    }

    method Save(dist: nat, lc: byte)
      requires Shape() && dist <= 32768 && Saved(tokens) && Room()
      modifies `lastLit, `lastDist, lBuf, dBuf
      ensures lastLit == old(lastLit) + 1 && Saved(tokens + [TokenOf(dist, lc)])
    {
      hide Dists, Tables.Valid;
      ghost var t, ts, l0, d0 := TokenOf(dist, lc), tokens, lBuf[..], dBuf[..];
      PackDist(ts, d0, lastDist, t);
      lBuf[lastLit] := lc;
      lastLit := lastLit + 1;
      if dist != 0 {
        dBuf[lastDist] := dist - 1;
        lastDist := lastDist + 1;
        assert dBuf[..] == d0[old(lastDist) := dist - 1];
      } else {
        assert dBuf[..] == d0;
      }
    }

    method SaveFlag(ghost t: Token, isMatch: bool)
      requires Shape() && Flagged(tokens) && lastLit == |tokens| + 1 < litBufSize && isMatch == t.Match?
      modifies `lastFlags, `flags, `flagBit, flagBuf
      ensures Flagged(tokens + [t])
    {
      hide FlagByte, Tables.Valid, Pow2, Or;
      ghost var k, r, ts, f0 := lastFlags, |tokens| % 8, tokens, flagBuf[..];
      PackFlags(ts, f0, k, t);
      FlagAdded(ts, t, k, r);
      OrFlag(flags, r);
      PowerOfNext(r);
      if isMatch {
        flags := Or(flags, flagBit);
      }
      flagBit := flagBit * 2;
      if lastLit % 8 == 0 {
        flagBuf[lastFlags] := flags;
        lastFlags := lastFlags + 1;
        flags := 0;
        flagBit := 1;
        assert flagBuf[..] == f0[k := FlagByte(ts + [t], k)];
      }
    }

    /** What the distances would cost in bits if each code had five, extra bits included. */
    method OutLength() returns (n: nat)
      requires Shape()
      ensures n == Dot(SymbolFreqs(dynDtree[..], D_CODES), DistPrices())
    {
      hide DistExtra;
      ghost var f, c := SymbolFreqs(dynDtree[..], D_CODES), DistPrices();
      n := 0;
      for dcode := 0 to D_CODES
        invariant n == Dot(f[..dcode], c[..dcode])
      {
        n := n + dynDtree[dcode].fc * (5 + DistExtra(dcode));
        assert f[..dcode + 1][..dcode] == f[..dcode] && c[..dcode + 1][..dcode] == c[..dcode];
      }
      assert f[..D_CODES] == f && c[..D_CODES] == c;
    }

    /** The buffered block grows by one token, and so do the counts of its symbols. `flush` asks the caller to end the block. */
    method Tally(dist: nat, lc: byte, inLength: nat) returns (flush: bool)
      requires Valid() && Room() && dist <= 32768
      modifies this, lBuf, dBuf, flagBuf, dynLtree, dynDtree
      ensures Valid() && tokens == old(tokens) + [TokenOf(dist, lc)]
      ensures flush <==> !Room() || Profitable(lastLit, lastDist, DistFreqs(tab, tokens), inLength)
    {
      hide FlagByte, Dists, Tables.Valid, Pow2, LitFreqs, DistFreqs, LitsPacked, DistsPacked, FlagsPacked;
      Count(dist, lc);
      Save(dist, lc);
      SaveFlag(TokenOf(dist, lc), dist != 0);
      tokens := tokens + [TokenOf(dist, lc)];
      if lastLit % 0x1000 == 0 {
        var outLength := OutLength();
        outLength := (lastLit * 8 + outLength) / 8;
        if lastDist < lastLit / 2 && outLength < inLength / 2 {
          return true;
        }
      }
      return lastLit == litBufSize - 1 || lastDist == distBufSize;
    }
  }

  const LITERALS := 256

  /** The block is worth stopping: matches are few and it already compressed to half. */
  predicate Profitable(lastLit: nat, lastDist: nat, distFreqs: seq<nat>, inLength: nat)
    requires |distFreqs| == D_CODES
  {
    && lastLit % 0x1000 == 0 && lastDist < lastLit / 2
    && (lastLit * 8 + Dot(distFreqs, DistPrices())) / 8 < inLength / 2
  }

  lemma FreqsSnoc(tab: Tables, tokens: seq<Token>, t: Token)
    requires tab.Valid() && t.Valid()
    ensures LitFreqs(tab, tokens + [t]) == AddOne(LitFreqs(tab, tokens), LitSymbol(tab, t))
    ensures DistFreqs(tab, tokens + [t])
         == if t.Match? then AddOne(DistFreqs(tab, tokens), tab.DistCode(t.dist)) else DistFreqs(tab, tokens)
  {
    assert (tokens + [t])[..|tokens|] == tokens;
  }

  lemma AddOneFreq(tree: seq<CtData>, n: nat, i: nat)
    requires i < n <= |tree|
    ensures SymbolFreqs(tree[i := tree[i].(fc := tree[i].fc + 1)], n) == AddOne(SymbolFreqs(tree, n), i)
  {
  }

  lemma OrFlag(flags: nat, r: nat)
    requires flags < Pow2(r)
    ensures Or(flags, Pow2(r)) == flags + Pow2(r)
  {
    OrJoins(flags, r, 1);
  }

  lemma PowerOfNext(r: nat)
    ensures Pow2(r + 1) == Pow2(r) * 2 && Pow2(0) == 1
  {
  }
}
