/** flush_block and init_block. */
module BlockWriters {
  import opened Bits
  import opened Inflate
  import opened Canonical
  import opened BitSinks
  import opened CodeTables
  import opened TreeHeap
  import opened TreeMerge
  import opened TreeBuild
  import opened Tokens
  import opened TokenBuffers
  import opened BlockBuffers
  import opened CompressBlocks
  import opened DynHeaders
  import opened BlockTrees
  import opened StoredBlocks
  import opened FlushBlocks

  method ClearFreqs(tree: array<CtData>, codes: nat)
    requires codes <= tree.Length
    modifies tree
    ensures forall i :: 0 <= i < codes ==> tree[i].fc == 0
  {
    for n := 0 to codes
      invariant forall i :: 0 <= i < n ==> tree[i].fc == 0
    {
      tree[n] := tree[n].(fc := 0);
    }
  }

  /** Afterwards no token is buffered and only END_BLOCK is counted. */
  method InitBlock(tb: TreeBuilder, b: BlockBuffer)
    requires b.Shape()
    modifies tb`optLen, tb`staticLen, b, b.dynLtree, b.dynDtree, b.blTree
    ensures b.Valid() && b.tokens == [] && tb.optLen == 0 && tb.staticLen == 0
  {
    hide Tables.Valid, LitFreqs, DistFreqs, FlagByte, SymbolFreqs, Dists;
    ClearFreqs(b.dynLtree, L_CODES);
    ClearFreqs(b.dynDtree, D_CODES);
    ClearFreqs(b.blTree, BL_CODES);
    b.dynLtree[END_BLOCK] := b.dynLtree[END_BLOCK].(fc := 1);
    tb.optLen := 0;
    tb.staticLen := 0;
    b.lastLit := 0;
    b.lastDist := 0;
    b.lastFlags := 0;
    b.flags := 0;
    b.flagBit := 1;
    b.tokens := [];
    EmptyBlock(b.tab, b.dynLtree[..], b.dynDtree[..]);
  }

  lemma EmptyBlock(tab: Tables, lt: seq<CtData>, dt: seq<CtData>)
    requires |lt| >= L_CODES && |dt| >= D_CODES
    requires forall i :: 0 <= i < L_CODES ==> lt[i].fc == if i == END_BLOCK then 1 else 0
    requires forall i :: 0 <= i < D_CODES ==> dt[i].fc == 0
    ensures SymbolFreqs(lt, L_CODES) == LitFreqs(tab, []) && SymbolFreqs(dt, D_CODES) == DistFreqs(tab, [])
    ensures FlagByte([], 0) == 0 && Dists([]) == []
  {
  }

  /** Saving the flags of the last tokens makes every flag byte final. */
  lemma FlagsSaved(tokens: seq<Token>, f: seq<int>, k: nat, f': seq<int>)
    requires FlagsPacked(tokens, f, k) && k < |f| && |tokens| < 8 * k + 8 && f' == f[k := FlagByte(tokens, k)]
    ensures AllFlags(tokens, f')
  {
    hide FlagByte;
  }

  method SaveLastFlags(b: BlockBuffer)
    requires b.Valid()
    modifies b.flagBuf
    ensures b.Valid() && AllFlags(b.tokens, b.flagBuf[..])
  {
    hide FlagByte, Tables.Valid, LitFreqs, DistFreqs, Dists, Pow2;
    ghost var f := b.flagBuf[..];
    b.flagBuf[b.lastFlags] := b.flags;
    FlagsSaved(b.tokens, f, b.lastFlags, b.flagBuf[..]);
  }

  // ---------- The three encodings ----------

  lemma SentLength(sink: BitSink)
    ensures |sink.Sent()| == 8 * |sink.Bytes()| + sink.biValid
  {
    hide BytesBits, BitsOf, BitSink.Bytes;
  }

  lemma StoredSize(buf: seq<byte>, pad: nat)
    requires |buf| <= 0xffff
    ensures |StoredBits(buf)| == 32 + 8 * |buf| && |Zeros(pad)| == pad
  {
    hide BytesBits, BitsOf;
  }

  lemma PadAligns(n: nat, size: nat, valid: nat, pad: nat)
    requires n == 8 * size + valid && (valid + pad) % 8 == 0
    ensures (n + pad) % 8 == 0
  {
  }

  method SendStored(sink: BitSink, buf: seq<byte>, final: bool, ghost out: seq<byte>)
    requires sink.Valid() && |buf| <= 0xffff
    modifies sink, sink.outbuf
    ensures sink.Valid() && Encodes(old(sink.Sent()), sink.Sent(), out, out + buf, final)
    ensures |sink.Sent()| <= |old(sink.Sent())| + 8 * (|buf| + 4) + 10
  {
    hide BytesBits, BitsOf, Encodes, StoredBits, Zeros, Pow2, BitSink.Sent, BitSink.Bytes, BitSink.Valid, Padding;
    ghost var s0 := sink.Sent();
    EightIsPow2();
    KindLength(0, final);
    sink.SendBits(if final then 1 else 0, 3);
    ghost var pad := Padding(sink.biValid);
    SentLength(sink);
    PadAligns(|sink.Sent()|, |sink.Bytes()|, sink.biValid, pad);
    CopyBlock(sink, buf);
    StoredSize(buf, pad);
    StoredEncodes(s0, pad, buf, out, final);
  }

  method SendStatic(sink: BitSink, b: BlockBuffer, st: Statics, final: bool, ghost out: seq<byte>, ghost out': seq<byte>)
    requires sink.Valid() && b.Shape() && b.Saved(b.tokens) && AllFlags(b.tokens, b.flagBuf[..]) && st.Valid()
    requires Expands(out, b.tokens, out')
    modifies sink, sink.outbuf
    ensures sink.Valid() && Encodes(old(sink.Sent()), sink.Sent(), out, out', final)
    ensures |sink.Sent()| == |old(sink.Sent())| + 3 + |DataBits(FixedLitLengths(), FixedDistLengths(), b.tab, b.tokens)|
  {
    hide BitsOf, Encodes, Pow2, BitSink.Sent, BitSink.Valid, Tables.Valid, FixedLitLengths, FixedDistLengths, TokensBits, CodeWord, Carries,
         Expands, AllFlags, LitsPacked, DistsPacked, AllCoded;
    ghost var s0, ll, dl := sink.Sent(), FixedLitLengths(), FixedDistLengths();
    StaticCoded(b.tab, b.tokens);
    StaticSendable(st);
    EightIsPow2();
    KindLength(1, final);
    sink.SendBits(2 + (if final then 1 else 0), 3);
    StaticSizes(st);
    CompressBlock(b, sink, st.ltree, st.dtree, ll, dl);
    assert sink.Sent() == s0 + KindBits(1, final) + DataBits(ll, dl, b.tab, b.tokens);
    StaticEncodes(s0, b.tab, b.tokens, out, out', final);
  }

  lemma StaticSendable(st: Statics)
    requires st.Valid()
    ensures Sendable(st.ltree, FixedLitLengths()) && Sendable(st.dtree, FixedDistLengths())
  {
    hide Carries;
  }

  method SendDynamic(sink: BitSink, b: BlockBuffer, lmax: nat, dmax: nat, maxBlindex: nat, final: bool,
                     ghost out: seq<byte>, ghost out': seq<byte>, ghost opt: int, ghost stat: int)
    requires sink.Valid() && b.Shape() && b.Saved(b.tokens) && AllFlags(b.tokens, b.flagBuf[..])
    requires Built(b.tab, b.tokens, b.dynLtree[..], b.dynDtree[..], b.blTree[..], lmax, dmax, maxBlindex + 1, opt, stat)
    requires Expands(out, b.tokens, out')
    modifies sink, sink.outbuf
    ensures sink.Valid() && Encodes(old(sink.Sent()), sink.Sent(), out, out', final)
    ensures |sink.Sent()| == |old(sink.Sent())| + 3 + opt
  {
    hide BitsOf, Encodes, Pow2, BitSink.Sent, BitSink.Valid, Tables.Valid, FixedLitLengths, TokensBits, CodeWord, Carries, HeaderOk,
         Expands, AllFlags, LitsPacked, DistsPacked, AllCoded, Sendable, HeaderBits, BothFit;
    ghost var s0, ll, dl, cl := sink.Sent(), Code(b.dynLtree[..], lmax), Code(b.dynDtree[..], dmax), Lens(b.blTree[..], 19);
    EightIsPow2();
    KindLength(2, final);
    sink.SendBits(4 + (if final then 1 else 0), 3);
    SendAllTrees(sink, b, lmax + 1, dmax + 1, maxBlindex + 1);
    CompressBlock(b, sink, b.dynLtree[..], b.dynDtree[..], ll, dl);
    assert sink.Sent() == s0 + KindBits(2, final) + HeaderBits(ll, dl, cl, maxBlindex + 1) + DataBits(ll, dl, b.tab, b.tokens);
    DynamicEncodes(s0, ll, dl, cl, maxBlindex + 1, b.tab, b.tokens, out, out', final);
  }

  // ---------- flush_block ----------

  /** A block and, after the last one, zero bits up to a byte boundary. */
  ghost predicate Flushed(s0: seq<bool>, s1: seq<bool>, out: seq<byte>, out': seq<byte>, final: bool, q: nat) {
    && |s0| <= q <= |s1| < q + 8 && (!final ==> q == |s1|)
    && Encodes(s0, s1[..q], out, out', final)
  }

  /** A block is never longer, but for its header and alignment, than the dynamic or the static trees or storing would make it. */
  ghost predicate NotLonger(bits: nat, opt: int, stat: nat, stored: Option<nat>) {
    && bits <= 8 * ((opt + 3 + 7) / 8) + 10
    && bits <= 8 * ((stat + 3 + 7) / 8) + 10
    && (stored.Some? ==> bits <= 8 * (stored.value + 4) + 10)
  }

  /** The size of a block with dynamic trees of its own: codes for all its tokens, and the header that describes them. */
  ghost predicate DynamicSize(tab: Tables, tokens: seq<Token>, opt: int) {
    exists ll: seq<nat>, dl: seq<nat>, cl: seq<nat>, n: nat :: DynamicTrees(tab, tokens, opt, ll, dl, cl, n)
  }

  ghost predicate DynamicTrees(tab: Tables, tokens: seq<Token>, opt: int, ll: seq<nat>, dl: seq<nat>, cl: seq<nat>, n: nat) {
    && HeaderOk(ll, dl, cl, n) && BothFit(ll, dl, MAX_BITS, MAX_BITS) && AllCoded(ll, dl, tab, tokens)
    && opt == |HeaderBits(ll, dl, cl, n)| + |DataBits(ll, dl, tab, tokens)|
  }

  lemma BuiltDynamic(tab: Tables, tokens: seq<Token>, lt: seq<CtData>, dt: seq<CtData>, bt: seq<CtData>,
                     lmax: nat, dmax: nat, n: nat, opt: int, stat: int)
    requires Built(tab, tokens, lt, dt, bt, lmax, dmax, n, opt, stat)
    ensures DynamicSize(tab, tokens, opt)
  {
    hide HeaderOk, HeaderBits, DataBits, BothFit, AllCoded, Sendable, Carries;
    assert DynamicTrees(tab, tokens, opt, Code(lt, lmax), Code(dt, dmax), Lens(bt, 19), n);
  }

  /** Send the block in the form that its sizes make out as shortest; all three decode to the same bytes. */
  method EncodeBlock(tb: TreeBuilder, b: BlockBuffer, sink: BitSink, st: Statics, buf: Option<seq<byte>>, storedLen: nat, final: bool,
                     ghost out: seq<byte>, ghost out': seq<byte>)
    returns (ghost opt: int)
    requires tb.Valid() && tb.optLen == 0 && tb.staticLen == 0 && b.Valid() && sink.Valid() && st.Valid()
    requires AllFlags(b.tokens, b.flagBuf[..]) && Expands(out, b.tokens, out')
    requires buf.Some? ==> |buf.value| == storedLen <= 0xffff && out' == out + buf.value
    modifies tb, tb.heap, tb.depth, tb.blCount, b.dynLtree, b.dynDtree, b.blTree, sink, sink.outbuf
    ensures sink.Valid() && Encodes(old(sink.Sent()), sink.Sent(), out, out', final) && |old(sink.Sent())| <= |sink.Sent()|
    ensures DynamicSize(b.tab, b.tokens, opt)
    ensures NotLonger(|sink.Sent()| - |old(sink.Sent())|, opt, |DataBits(FixedLitLengths(), FixedDistLengths(), b.tab, b.tokens)|,
                      if buf.Some? then Some(storedLen) else None)
  {
    hide Encodes, BitSink.Sent, BitSink.Valid, Tables.Valid, FixedLitLengths, DataBits, Expands, AllFlags, LitsPacked, DistsPacked,
         FlagsPacked, Flags, LitFreqs, DistFreqs, Built, Statics.Valid, SymbolFreqs, FlagByte, Pow2, FixedDistLengths, Dists, DynamicSize;
    ghost var s0, tokens := sink.Sent(), b.tokens;
    var lmax, dmax, maxBlindex := BuildAllTrees(tb, b, st);
    opt := tb.optLen;
    ghost var stat := tb.staticLen;
    BuiltDynamic(b.tab, tokens, b.dynLtree[..], b.dynDtree[..], b.blTree[..], lmax, dmax, maxBlindex + 1, opt, stat);
    BuiltSizes(b.tab, tokens, b.dynLtree[..], b.dynDtree[..], b.blTree[..], lmax, dmax, maxBlindex + 1, opt, stat);
    var optLenb, staticLenb := (tb.optLen + 3 + 7) / 8, (tb.staticLen + 3 + 7) / 8;
    if staticLenb <= optLenb {
      optLenb := staticLenb;
    }
    if storedLen + 4 <= optLenb && buf.Some? {
      SendStored(sink, buf.value, final, out);
    } else if staticLenb == optLenb {
      SendStatic(sink, b, st, final, out, out');
    } else {
      SendDynamic(sink, b, lmax, dmax, maxBlindex, final, out, out', opt, stat);
    }
    EncodesGrows(s0, sink.Sent(), out, out', final);
  }

  /** One block more in the output, with all buffered tokens, and none buffered any longer. */
  method FlushBlock(tb: TreeBuilder, b: BlockBuffer, sink: BitSink, st: Statics, buf: Option<seq<byte>>, storedLen: nat, final: bool,
                    ghost out: seq<byte>, ghost out': seq<byte>)
    returns (ghost q: nat, ghost opt: int)
    requires tb.Valid() && tb.optLen == 0 && tb.staticLen == 0 && b.Valid() && sink.Valid() && st.Valid()
    requires Expands(out, b.tokens, out')
    requires buf.Some? ==> |buf.value| == storedLen <= 0xffff && out' == out + buf.value
    modifies tb, tb.heap, tb.depth, tb.blCount, b, b.flagBuf, b.dynLtree, b.dynDtree, b.blTree, sink, sink.outbuf
    ensures tb.optLen == 0 && tb.staticLen == 0 && b.Valid() && b.tokens == [] && sink.Valid()
    ensures Flushed(old(sink.Sent()), sink.Sent(), out, out', final, q)
    ensures final ==> sink.biValid == 0
    ensures DynamicSize(b.tab, old(b.tokens), opt)
    ensures NotLonger(q - |old(sink.Sent())|, opt, |old(DataBits(FixedLitLengths(), FixedDistLengths(), b.tab, b.tokens))|,
                      if buf.Some? then Some(storedLen) else None)
  {
    hide Encodes, BitSink.Sent, BitSink.Valid, Tables.Valid, FixedLitLengths, DataBits, Expands, AllFlags, LitsPacked, DistsPacked,
         FlagsPacked, Flags, LitFreqs, DistFreqs, Statics.Valid, SymbolFreqs, Zeros, FlagByte, Pow2, FixedDistLengths, Dists, NotLonger,
         DynamicSize;
    SaveLastFlags(b);
    opt := EncodeBlock(tb, b, sink, st, buf, storedLen, final, out, out');
    ghost var s1 := sink.Sent();
    q := |s1|;
    InitBlock(tb, b);
    if final {
      sink.BiWindup();
    }
    assert sink.Sent()[..q] == s1;
  }

  lemma BuiltSizes(tab: Tables, tokens: seq<Token>, lt: seq<CtData>, dt: seq<CtData>, bt: seq<CtData>,
                   lmax: nat, dmax: nat, n: nat, opt: int, stat: int)
    requires Built(tab, tokens, lt, dt, bt, lmax, dmax, n, opt, stat)
    ensures opt >= 0 && |FixedLitLengths()| == 288
    ensures stat == |DataBits(FixedLitLengths(), FixedDistLengths(), tab, tokens)|
  {
  }

  lemma EncodesGrows(s0: seq<bool>, s1: seq<bool>, out: seq<byte>, out': seq<byte>, final: bool)
    requires Encodes(s0, s1, out, out', final)
    ensures |s0| <= |s1|
  {
  }

  /** The symbols of all lengths and distances, and the two fixed codes. */
  method InitTables() returns (tab: Tables, st: Statics)
    ensures tab.Valid() && st.Valid()
  {
    hide CodeOk, Carries, FixedLitLengths, Lens;
    var lengthCode, baseLength := InitLengthCodes();
    var distCode, baseDist := InitDistCodes();
    tab := Tables(lengthCode, baseLength, distCode, baseDist);
    var ltree := StaticLitTree();
    var dtree := StaticDistTree();
    st := Statics(ltree, dtree);
  }

  /** Everything that writes blocks: the tokens, the trees and the output. */
  class Encoder {
    const tb: TreeBuilder
    const b: BlockBuffer
    const sink: BitSink
    const st: Statics
    ghost const repr: set<object>

    /** ct_init */
    constructor (sink: BitSink, litBufSize: nat, distBufSize: nat)
      requires sink.Valid() && 8 <= litBufSize <= 0x8000 && litBufSize % 8 == 0 && 1 <= distBufSize
      ensures Valid() && this.sink == sink && fresh(repr - {sink, sink.outbuf})
      ensures Tokens() == [] && b.Room() && Sent() == old(sink.Sent())
    {
      hide BitSink.Valid, BitSink.Sent, Tables.Valid, BlockBuffer.Valid, Statics.Valid;
      var tab, statics := InitTables();
      var builder := new TreeBuilder();
      var buffer := new BlockBuffer(tab, litBufSize, distBufSize);
      this.tb := builder;
      this.b := buffer;
      this.sink := sink;
      st := statics;
      repr := {builder, builder.heap, builder.depth, builder.blCount, buffer, buffer.lBuf, buffer.dBuf, buffer.flagBuf, buffer.dynLtree,
               buffer.dynDtree, buffer.blTree, sink, sink.outbuf};
      new;
      InitBlock(tb, b);
      EmptyHasRoom(b);
    }

    ghost predicate Owns() {
      {tb, tb.heap, tb.depth, tb.blCount, b, b.lBuf, b.dBuf, b.flagBuf, b.dynLtree, b.dynDtree, b.blTree, sink, sink.outbuf} <= repr
    }

    ghost predicate Valid()
      reads repr
      ensures Valid() ==> b in repr && sink in repr && sink.outbuf in repr
    {
      Owns() && tb.Valid() && tb.optLen == 0 && tb.staticLen == 0 && b.Valid() && sink.Valid() && st.Valid()
    }

    ghost function Sent(): seq<bool>
      reads sink, sink.outbuf
    {
      sink.Sent()
    }

    ghost function Tokens(): seq<Token>
      reads b
    {
      b.tokens
    }

    method Tally(dist: nat, lc: byte, inLength: nat) returns (flush: bool)
      requires Valid() && b.Room() && dist <= 32768
      modifies repr
      ensures Valid() && Tokens() == old(Tokens()) + [TokenOf(dist, lc)] && Sent() == old(Sent())
      ensures !flush ==> b.Room()
    {
      hide BlockBuffer.Valid, BitSink.Valid, Statics.Valid, BitSink.Sent;
      flush := b.Tally(dist, lc, inLength);
    }

    method Flush(buf: Option<seq<byte>>, storedLen: nat, final: bool, ghost out: seq<byte>, ghost out': seq<byte>) returns (ghost q: nat)
      requires Valid() && Expands(out, Tokens(), out')
      requires buf.Some? ==> |buf.value| == storedLen <= 0xffff && out' == out + buf.value
      modifies repr
      ensures Valid() && Tokens() == [] && b.Room() && Flushed(old(Sent()), Sent(), out, out', final, q)
      ensures final ==> sink.biValid == 0
    {
      hide BitSink.Valid, Statics.Valid, BitSink.Sent, Flushed, Expands, NotLonger, DynamicSize;
      ghost var opt;
      q, opt := FlushBlock(tb, b, sink, st, buf, storedLen, final, out, out');
      EmptyHasRoom(b);
    }
  }

  lemma EmptyHasRoom(b: BlockBuffer)
    requires b.Valid() && b.tokens == []
    ensures b.Room()
  {
  }
}
