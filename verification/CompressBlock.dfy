/** compress_block: send the buffered tokens with given codes. */
module CompressBlocks {
  import opened Bits
  import opened Inflate
  import opened Canonical
  import opened BitSinks
  import opened CodeTables
  import opened SendTrees
  import opened Tokens
  import opened TokenBuffers
  import opened BlockBuffers

  /** Code lengths that SEND_CODE can send. */
  ghost predicate Sendable(tree: seq<CtData>, lens: seq<nat>) {
    Carries(tree, lens) && forall i :: 0 <= i < |lens| ==> lens[i] <= MAX_BITS
  }

  ghost predicate AllCoded(ll: seq<nat>, dl: seq<nat>, tab: Tables, tokens: seq<Token>) {
    256 < |ll| && ll[256] > 0 && forall i :: 0 <= i < |tokens| ==> TokenCoded(ll, dl, tab, tokens[i])
  }

  ghost predicate AllFlags(tokens: seq<Token>, f: seq<int>) {
    |tokens| < 8 * |f| && forall k :: 0 <= k && 8 * k < |tokens| ==> f[k] == FlagByte(tokens, k)
  }

  method SendLength(sink: BitSink, ltree: seq<CtData>, tab: Tables, lc: byte, ghost ll: seq<nat>)
    requires sink.Valid() && Sendable(ltree, ll) && 286 <= |ltree| && HasLength(ll, tab, lc + 3) && ll[tab.LenCode(lc + 3) + 257] > 0
    modifies sink, sink.outbuf
    ensures sink.Valid() && sink.Sent() == old(sink.Sent()) + LengthBits(ll, tab, lc + 3)
  {
    hide CodeWord, BitsOf, Pow2, BytesBits, BitSink.Sent, BitSink.Valid, LengthExtra, LengthBase, Carries, Tables.Valid, LenExtra;
    TableFacts(tab, lc + 3, 1);
    var code := tab.lengthCode[lc];
    ghost var e := LenExtra(tab, lc + 3);
    SendCode(sink, ltree, code + 257, ll);
    var extra := LengthExtra(code);
    NoBits(e.0);
    if extra != 0 {
      sink.SendBits(lc - tab.baseLength[code], extra);
    }
  }

  method SendDistance(sink: BitSink, dtree: seq<CtData>, tab: Tables, dist: nat, ghost dl: seq<nat>)
    requires sink.Valid() && Sendable(dtree, dl) && 30 <= |dtree| && HasDistance(dl, tab, dist + 1) && dl[tab.DistCode(dist + 1)] > 0
    modifies sink, sink.outbuf
    ensures sink.Valid() && sink.Sent() == old(sink.Sent()) + DistanceBits(dl, tab, dist + 1)
  {
    hide CodeWord, BitsOf, Pow2, BytesBits, BitSink.Sent, BitSink.Valid, DistExtra, DistBase, Carries, Tables.Valid, DistExtraOf;
    TableFacts(tab, 3, dist + 1);
    var code := DCode(tab.distCode, dist);
    ghost var e := DistExtraOf(tab, dist + 1);
    SendCode(sink, dtree, code, dl);
    var extra := DistExtra(code);
    NoBits(e.0);
    if extra != 0 {
      sink.SendBits(dist - tab.baseDist[code], extra);
    }
  }

  lemma NoBits(v: nat)
    ensures BitsOf(v, 0) == []
  {
  }

  /** One token, from its entries in the buffers. */
  method SendToken(sink: BitSink, ltree: seq<CtData>, dtree: seq<CtData>, tab: Tables, isMatch: bool, lc: int, dist: int,
                   ghost ll: seq<nat>, ghost dl: seq<nat>, ghost t: Token)
    requires sink.Valid() && Sendable(ltree, ll) && Sendable(dtree, dl) && 286 <= |ltree| && 30 <= |dtree|
    requires TokenCoded(ll, dl, tab, t) && isMatch == t.Match? && lc == LitOrLen(t) && (t.Match? ==> dist == t.dist - 1)
    modifies sink, sink.outbuf
    ensures sink.Valid() && sink.Sent() == old(sink.Sent()) + TokenBits(ll, dl, tab, t)
  {
    hide CodeWord, BytesBits, BitSink.Sent, BitSink.Valid, Carries, Tables.Valid, LengthBits, DistanceBits;
    if !isMatch {
      SendCode(sink, ltree, lc, ll);
    } else {
      SendLength(sink, ltree, tab, lc, ll);
      SendDistance(sink, dtree, tab, dist, dl);
    }
  }

  // ---------- Unpacking ----------

  function Upto(lo: nat, a: nat, b: nat): (r: nat)
    requires lo <= a && lo <= b
    ensures lo <= r <= b
  {
    if a <= b then a else b
  }

  /** `flag` holds the flags of tokens `i` up to `8 * fx`. */
  ghost predicate FlagsAhead(tokens: seq<Token>, i: nat, fx: nat, flag: nat) {
    i <= |tokens| && i <= 8 * fx && flag == NatOf(Flags(tokens[i..Upto(i, 8 * fx, |tokens|)]))
  }

  lemma LoadFlags(tokens: seq<Token>, f: seq<int>, i: nat, fx: nat)
    requires AllFlags(tokens, f) && i == 8 * fx < |tokens|
    ensures fx < |f| && f[fx] >= 0 && FlagsAhead(tokens, i, fx + 1, f[fx])
  {
    hide NatOf;
    assert f[fx] == FlagByte(tokens, fx);
  }

  /** The flag of the current token is the lowest bit of the current flags. */
  lemma NextFlag(tokens: seq<Token>, i: nat, fx: nat, flag: nat)
    requires FlagsAhead(tokens, i, fx, flag) && i < |tokens| && i < 8 * fx
    ensures flag % 2 == 1 <==> tokens[i].Match?
    ensures FlagsAhead(tokens, i + 1, fx, flag / 2)
  {
    var e := Upto(i, 8 * fx, |tokens|);
    var s := Flags(tokens[i..e]);
    assert s[1..] == Flags(tokens[i + 1..e]);
    FirstBit(s);
  }

  lemma FirstBit(s: seq<bool>)
    requires s != []
    ensures NatOf(s) % 2 == (if s[0] then 1 else 0) && NatOf(s) / 2 == NatOf(s[1..])
  {
    Halves(if s[0] then 1 else 0, NatOf(s[1..]));
  }

  lemma Halves(b: nat, x: nat)
    requires b < 2
    ensures (b + 2 * x) % 2 == b && (b + 2 * x) / 2 == x
  {
  }

  lemma NextDist(tokens: seq<Token>, d: seq<int>, n: nat, i: nat)
    requires DistsPacked(tokens, d, n) && i < |tokens|
    ensures tokens[i].Match? ==> |Dists(tokens[..i])| < n && d[|Dists(tokens[..i])|] == tokens[i].dist - 1
    ensures |Dists(tokens[..i + 1])| == |Dists(tokens[..i])| + if tokens[i].Match? then 1 else 0
  {
    assert tokens[..i + 1][..i] == tokens[..i];
    if tokens[i].Match? {
      DistsAt(tokens, i);
      assert d[..n][|Dists(tokens[..i])|] == d[|Dists(tokens[..i])|];
    }
  }

  lemma BitsGrow(ll: seq<nat>, dl: seq<nat>, tab: Tables, tokens: seq<Token>, i: nat)
    requires i < |tokens|
    ensures TokensBits(ll, dl, tab, tokens[..i + 1]) == TokensBits(ll, dl, tab, tokens[..i]) + TokenBits(ll, dl, tab, tokens[i])
  {
    hide TokenBits, TokensBits;
    assert tokens[..i + 1] == tokens[..i] + [tokens[i]];
    TokensBitsSnoc(ll, dl, tab, tokens[..i], tokens[i]);
  }

  // ---------- The method ----------

  /** All buffered tokens and END_BLOCK in the codes of `ltree` and `dtree`. */
  method CompressBlock(b: BlockBuffer, sink: BitSink, ltree: seq<CtData>, dtree: seq<CtData>, ghost ll: seq<nat>, ghost dl: seq<nat>)
    requires sink.Valid() && b.Shape() && b.Saved(b.tokens) && AllFlags(b.tokens, b.flagBuf[..])
    requires Sendable(ltree, ll) && Sendable(dtree, dl) && 286 <= |ltree| && 30 <= |dtree| && AllCoded(ll, dl, b.tab, b.tokens)
    modifies sink, sink.outbuf
    ensures sink.Valid()
    ensures sink.Sent() == old(sink.Sent()) + TokensBits(ll, dl, b.tab, b.tokens) + CodeWord(ll, 256)
  {
    hide CodeWord, BytesBits, BitSink.Sent, BitSink.Valid, Carries, Tables.Valid, TokenBits, TokensBits, TokenCoded, Dists,
         FlagsAhead, DistsPacked, Sendable;
    ghost var ts, start, fb := b.tokens, sink.Sent(), b.flagBuf[..];
    var lx: nat, dx: nat, fx: nat, flag: nat := 0, 0, 0, 0;
    NothingRead(ll, dl, b.tab, ts);
    if b.lastLit != 0 {
      while true
        invariant lx < |ts| && lx <= 8 * fx < lx + 8 && dx == |Dists(ts[..lx])| && FlagsAhead(ts, lx, fx, flag)
        invariant sink.Valid() && sink.Sent() == start + TokensBits(ll, dl, b.tab, ts[..lx])
        invariant b.Saved(ts) && b.flagBuf[..] == fb
        decreases |ts| - lx
      {
        if lx % 8 == 0 {
          LoadFlags(ts, fb, lx, fx);
          flag := b.flagBuf[fx];
          fx := fx + 1;
        }
        NextFlag(ts, lx, fx, flag);
        NextDist(ts, b.dBuf[..], b.lastDist, lx);
        BitsGrow(ll, dl, b.tab, ts, lx);
        var lc := b.lBuf[lx];
        if flag % 2 == 0 {
          SendToken(sink, ltree, dtree, b.tab, false, lc, 0, ll, dl, ts[lx]);
        } else {
          SendToken(sink, ltree, dtree, b.tab, true, lc, b.dBuf[dx], ll, dl, ts[lx]);
          dx := dx + 1;
        }
        lx := lx + 1;
        flag := flag / 2;
        if lx >= b.lastLit { break; }
      }
      assert ts[..lx] == ts;
    }
    SendEnd(sink, ltree, ll);
  }

  lemma NothingRead(ll: seq<nat>, dl: seq<nat>, tab: Tables, tokens: seq<Token>)
    ensures |Dists(tokens[..0])| == 0 && FlagsAhead(tokens, 0, 0, 0) && TokensBits(ll, dl, tab, tokens[..0]) == []
  {
  }

  method SendEnd(sink: BitSink, ltree: seq<CtData>, ghost ll: seq<nat>)
    requires sink.Valid() && Sendable(ltree, ll) && 286 <= |ltree| && 256 < |ll| && ll[256] > 0
    modifies sink, sink.outbuf
    ensures sink.Valid() && sink.Sent() == old(sink.Sent()) + CodeWord(ll, 256)
  {
    hide CodeWord, BytesBits, BitSink.Sent, BitSink.Valid, Carries;
    SendCode(sink, ltree, END_BLOCK, ll);
  }
}
