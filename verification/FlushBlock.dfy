/** flush_block: the best encoding of the current block, and what a decoder makes of it. */
module FlushBlocks {
  import opened Bits
  import opened Inflate
  import opened Canonical
  import opened BitSinks
  import opened CodeTables
  import opened TreeHeap
  import opened TreeMerge
  import opened TreeFacts
  import opened TreeResults
  import opened TreeBuild
  import opened RunLengths
  import opened SendTrees
  import opened Tokens
  import opened TokenBuffers
  import opened BlockBuffers
  import opened CompressBlocks
  import opened DynHeaders
  import opened BlockTrees
  import opened StoredBlocks

  // ---------- All trees of the block ----------

  ghost function DataBits(ll: seq<nat>, dl: seq<nat>, tab: Tables, tokens: seq<Token>): seq<bool>
    requires 256 < |ll|
  {
    TokensBits(ll, dl, tab, tokens) + CodeWord(ll, 256)
  }

  /** The dynamic trees fit the block, and both cost estimates are exact. */
  ghost predicate Built(tab: Tables, tokens: seq<Token>, lt: seq<CtData>, dt: seq<CtData>, bt: seq<CtData>,
                        lmax: nat, dmax: nat, n: nat, opt: int, stat: int) {
    && lmax + 1 < |lt| && lt[lmax + 1].dl == GUARD && dmax + 1 < |dt| && dt[dmax + 1].dl == GUARD && |bt| >= 19
    && (var ll, dl, cl := Code(lt, lmax), Code(dt, dmax), Lens(bt, 19);
        && HeaderOk(ll, dl, cl, n) && Sendable(lt, ll) && Sendable(dt, dl) && Carries(bt, cl)
        && BothFit(ll, dl, MAX_BITS, MAX_BITS) && AllCoded(ll, dl, tab, tokens)
        && opt == |HeaderBits(ll, dl, cl, n)| + |DataBits(ll, dl, tab, tokens)|)
    && stat == |DataBits(FixedLitLengths(), FixedDistLengths(), tab, tokens)|
  }

  lemma DynCoded(tab: Tables, tokens: seq<Token>, lt: seq<CtData>, dt: seq<CtData>, lmax: nat, dmax: nat)
    requires AllTokens(tab, tokens)
    requires Alphabet(LitFreqs(tab, tokens), lt, lmax, MAX_BITS) && Alphabet(DistFreqs(tab, tokens), dt, dmax, MAX_BITS)
    ensures AllCoded(Code(lt, lmax), Code(dt, dmax), tab, tokens)
  {
    hide Sendable, Fits, LitFreqs, DistFreqs, Tables.Valid, LitSymbol, Tables.DistCode, Tables.LenCode;
    EndCounted(tab, tokens);
    forall i | 0 <= i < |tokens|
      ensures TokenCoded(Code(lt, lmax), Code(dt, dmax), tab, tokens[i])
    {
      Counted(tab, tokens, i);
      CodedFromLengths(tab, tokens[i], lt, dt, lmax, dmax);
    }
  }

  lemma CodedFromLengths(tab: Tables, t: Token, lt: seq<CtData>, dt: seq<CtData>, lmax: nat, dmax: nat)
    requires tab.Valid() && t.Valid() && 256 <= lmax < |lt| && dmax < |dt|
    requires LitSymbol(tab, t) <= lmax && lt[LitSymbol(tab, t)].dl > 0
    requires t.Match? ==> tab.DistCode(t.dist) <= dmax && dt[tab.DistCode(t.dist)].dl > 0
    ensures TokenCoded(Code(lt, lmax), Code(dt, dmax), tab, t)
  {
    hide Tables.Valid, Tables.DistCode;
  }

  lemma DataCost(ll: seq<nat>, dl: seq<nat>, tab: Tables, tokens: seq<Token>, cl: seq<nat>, cd: seq<nat>)
    requires AllTokens(tab, tokens) && AllCoded(ll, dl, tab, tokens)
    requires Costed(ll, cl, 257, LENGTH_EXTRA) && Costed(dl, cd, 0, DIST_EXTRA) && |cl| == L_CODES && |cd| == D_CODES
    ensures |DataBits(ll, dl, tab, tokens)| == Dot(LitFreqs(tab, tokens), cl) + Dot(DistFreqs(tab, tokens), cd)
  {
    hide Tables.Valid, LitFreqs, DistFreqs, Dot, InAlphabets, TokensBits;
    assert cl[END_BLOCK] == ll[END_BLOCK];
    TokensCost(ll, dl, tab, tokens, cl, cd);
  }

  lemma StaticCoded(tab: Tables, tokens: seq<Token>)
    requires AllTokens(tab, tokens)
    ensures AllCoded(FixedLitLengths(), FixedDistLengths(), tab, tokens)
  {
    hide Tables.Valid, LitSymbol, Tables.DistCode, Tables.LenCode;
    forall i | 0 <= i < |tokens|
      ensures TokenCoded(FixedLitLengths(), FixedDistLengths(), tab, tokens[i])
    {
      if tokens[i].Match? {
        TableFacts(tab, tokens[i].len, tokens[i].dist);
      }
    }
  }

  lemma StaticCost(st: Statics, tab: Tables, tokens: seq<Token>)
    requires AllTokens(tab, tokens) && st.Valid()
    ensures |DataBits(FixedLitLengths(), FixedDistLengths(), tab, tokens)|
         == Dot(LitFreqs(tab, tokens), FixedBits(L_CODES, LDesc(st))) + Dot(DistFreqs(tab, tokens), FixedBits(D_CODES, DDesc(st)))
  {
    hide Tables.Valid, LitFreqs, DistFreqs, Dot, Carries, DataBits;
    StaticCoded(tab, tokens);
    LitCosted(st);
    DistCosted(st);
    DataCost(FixedLitLengths(), FixedDistLengths(), tab, tokens, FixedBits(L_CODES, LDesc(st)), FixedBits(D_CODES, DDesc(st)));
  }

  lemma LitCosted(st: Statics)
    requires st.Valid()
    ensures Costed(FixedLitLengths(), FixedBits(L_CODES, LDesc(st)), 257, LENGTH_EXTRA)
  {
    hide Carries, FixedLitLengths;
    assert |FixedLitLengths()| == 288 by { assert |Lens(st.ltree, 288)| == 288; }
    forall n | 0 <= n < L_CODES
      ensures LDesc(st).StaticLen(n) == FixedLitLengths()[n]
    {
      assert Lens(st.ltree, 288)[n] == st.ltree[n].dl;
    }
  }

  lemma DistCosted(st: Statics)
    requires st.Valid()
    ensures Costed(FixedDistLengths(), FixedBits(D_CODES, DDesc(st)), 0, DIST_EXTRA)
  {
    hide Carries, FixedLitLengths;
  }

  lemma FreqsFit(tab: Tables, tokens: seq<Token>)
    requires AllTokens(tab, tokens) && |tokens| < 0x8000
    ensures Total(LitFreqs(tab, tokens)) + 2 < 0x10000 && Total(DistFreqs(tab, tokens)) + 2 < 0x10000
  {
    hide Tables.Valid, LitFreqs, DistFreqs, Total;
    FreqTotals(tab, tokens);
  }

  ghost predicate BothGood(tab: Tables, tokens: seq<Token>, lt: seq<CtData>, dt: seq<CtData>, st: Statics, lmax: nat, dmax: nat,
                           lopt: int, lstat: int, dopt: int, dstat: int) {
    && |lt| > L_CODES && |dt| > D_CODES
    && GoodCode(LitFreqs(tab, tokens), Lens(lt, L_CODES), lt, LDesc(st), lmax, lopt, lstat)
    && GoodCode(DistFreqs(tab, tokens), Lens(dt, D_CODES), dt, DDesc(st), dmax, dopt, dstat)
  }

  /** What the literal and distance trees give. */
  lemma TreesGood(tab: Tables, tokens: seq<Token>, lt: seq<CtData>, dt: seq<CtData>, st: Statics, lmax: nat, dmax: nat,
                  lopt: int, lstat: int, dopt: int, dstat: int)
    requires AllTokens(tab, tokens) && st.Valid() && BothGood(tab, tokens, lt, dt, st, lmax, dmax, lopt, lstat, dopt, dstat)
    ensures Alphabet(LitFreqs(tab, tokens), lt, lmax, MAX_BITS) && Alphabet(DistFreqs(tab, tokens), dt, dmax, MAX_BITS)
    ensures 256 <= lmax && AllCoded(Code(lt, lmax), Code(dt, dmax), tab, tokens)
    ensures lopt + dopt == |DataBits(Code(lt, lmax), Code(dt, dmax), tab, tokens)|
    ensures lstat + dstat == |DataBits(FixedLitLengths(), FixedDistLengths(), tab, tokens)|
  {
    hide Tables.Valid, LitFreqs, DistFreqs, Dot, Carries, DataBits, GoodCode, Alphabet, FixedLitLengths, TokenCoded;
    DescsValid(st);
    GoodIsAlphabet(LitFreqs(tab, tokens), lt, LDesc(st), lmax, lopt, lstat);
    GoodIsAlphabet(DistFreqs(tab, tokens), dt, DDesc(st), dmax, dopt, dstat);
    DynCoded(tab, tokens, lt, dt, lmax, dmax);
    DynCosted(lt, LDesc(st), lmax);
    DynCosted(dt, DDesc(st), dmax);
    DataCost(Code(lt, lmax), Code(dt, dmax), tab, tokens, DynBits(Lens(lt, L_CODES), LDesc(st)), DynBits(Lens(dt, D_CODES), DDesc(st)));
    StaticCost(st, tab, tokens);
  }

  ghost predicate Guarded(tree: seq<CtData>, tree': seq<CtData>, maxCode: nat) {
    maxCode + 1 < |tree| && tree' == tree[maxCode + 1 := tree[maxCode + 1].(dl := GUARD)]
  }

  /** With bl_tree, everything the header needs is there. */
  lemma AllBuilt(tab: Tables, tokens: seq<Token>, lt0: seq<CtData>, dt0: seq<CtData>, lt: seq<CtData>, dt: seq<CtData>, bt: seq<CtData>,
                 lmax: nat, dmax: nat, n: nat, dyn: int, opt: int, stat: int)
    requires AllTokens(tab, tokens)
    requires Alphabet(LitFreqs(tab, tokens), lt0, lmax, MAX_BITS) && Alphabet(DistFreqs(tab, tokens), dt0, dmax, MAX_BITS)
    requires 256 <= lmax && AllCoded(Code(lt0, lmax), Code(dt0, dmax), tab, tokens)
    requires dyn == |DataBits(Code(lt0, lmax), Code(dt0, dmax), tab, tokens)|
    requires stat == |DataBits(FixedLitLengths(), FixedDistLengths(), tab, tokens)|
    requires Guarded(lt0, lt, lmax) && Guarded(dt0, dt, dmax) && BlReady(Code(lt0, lmax), Code(dt0, dmax), bt, n)
    requires opt == dyn + 14 + 3 * n + |ItemsBits(Lens(bt, 19), LengthItems(Code(lt0, lmax)))|
                    + |ItemsBits(Lens(bt, 19), LengthItems(Code(dt0, dmax)))|
    ensures Built(tab, tokens, lt, dt, bt, lmax, dmax, n, opt, stat)
  {
    hide Tables.Valid, LitFreqs, DistFreqs, Carries, DataBits, FixedLitLengths, TokenCoded, ItemsBits, LengthItems, Fits, BitsOf, Coded,
         Sendable;
    AlphabetGuarded(LitFreqs(tab, tokens), lt0, lmax, MAX_BITS, lt);
    AlphabetGuarded(DistFreqs(tab, tokens), dt0, dmax, MAX_BITS, dt);
  }

  /** The three codes that a dynamic block needs, and what the block would cost with them. */
  method BuildAllTrees(tb: TreeBuilder, b: BlockBuffer, st: Statics) returns (lmax: nat, dmax: nat, maxBlindex: nat)
    requires tb.Valid() && b.Valid() && st.Valid() && tb.optLen == 0 && tb.staticLen == 0
    modifies tb, tb.heap, tb.depth, tb.blCount, b.dynLtree, b.dynDtree, b.blTree
    ensures Built(b.tab, b.tokens, b.dynLtree[..], b.dynDtree[..], b.blTree[..], lmax, dmax, maxBlindex + 1, tb.optLen, tb.staticLen)
  {
    hide Tables.Valid, LitFreqs, DistFreqs, Total, GoodCode, BlReady, Statics.Valid, Alphabet, AllCoded, DataBits, ItemsBits, LengthItems,
         Built, LitsPacked, DistsPacked, FlagsPacked, FlagByte, SymbolFreqs, FixedLitLengths;
    ghost var tab, tokens := b.tab, b.tokens;
    FreqsFit(tab, tokens);
    StaticSizes(st);
    DescsValid(st);
    ghost var leaves, merges, w;
    lmax, leaves, merges, w := BuildTree(tb, b.dynLtree, LDesc(st));
    ghost var lt, lopt, lstat := b.dynLtree[..], tb.optLen, tb.staticLen;
    dmax, leaves, merges, w := BuildTree(tb, b.dynDtree, DDesc(st));
    ghost var dt, dopt, dstat := b.dynDtree[..], tb.optLen - lopt, tb.staticLen - lstat;
    TreesGood(tab, tokens, lt, dt, st, lmax, dmax, lopt, lstat, dopt, dstat);
    maxBlindex := BuildBlTree(tb, b, lmax, dmax, LitFreqs(tab, tokens), DistFreqs(tab, tokens));
    AlphabetSize(LitFreqs(tab, tokens), lt, lmax, MAX_BITS);
    AlphabetSize(DistFreqs(tab, tokens), dt, dmax, MAX_BITS);
    AllBuilt(tab, tokens, lt, dt, b.dynLtree[..], b.dynDtree[..], b.blTree[..], lmax, dmax, maxBlindex + 1, lopt + dopt, tb.optLen,
             tb.staticLen);
  }

  lemma StaticSizes(st: Statics)
    requires st.Valid()
    ensures |st.ltree| == 288 && |st.dtree| == D_CODES
  {
  }

  lemma AlphabetSize(f: seq<nat>, tree: seq<CtData>, maxCode: nat, m: nat)
    requires Alphabet(f, tree, maxCode, m)
    ensures maxCode + 1 < |tree|
  {
  }

  // ---------- send_all_trees ----------

  method SendBlLengths(sink: BitSink, bt: seq<CtData>, n: nat)
    requires sink.Valid() && |bt| >= 19 && Sends(Lens(bt, 19), n)
    modifies sink, sink.outbuf
    ensures sink.Valid() && sink.Sent() == old(sink.Sent()) + ClBits(Lens(bt, 19), n)
  {
    hide BitsOf, BitSink.Sent, BitSink.Valid, Order, Pow2;
    ghost var cl, start := Lens(bt, 19), sink.Sent();
    EightIsPow2();
    for rank := 0 to n
      invariant sink.Valid() && sink.Sent() == start + ClBits(cl, rank)
    {
      assert cl[Order(rank)] == bt[Order(rank)].dl;
      sink.SendBits(bt[Order(rank)].dl, 3);
    }
  }

  /** What a decoder needs first of all to rebuild the two codes of the block. */
  method SendAllTrees(sink: BitSink, b: BlockBuffer, lcodes: nat, dcodes: nat, blcodes: nat)
    requires sink.Valid() && 1 <= lcodes < b.dynLtree.Length && 1 <= dcodes < b.dynDtree.Length && b.blTree.Length >= 19
    requires b.dynLtree[lcodes].dl == GUARD && b.dynDtree[dcodes].dl == GUARD && Carries(b.blTree[..], Lens(b.blTree[..], 19))
    requires HeaderOk(Code(b.dynLtree[..], lcodes - 1), Code(b.dynDtree[..], dcodes - 1), Lens(b.blTree[..], 19), blcodes)
    modifies sink, sink.outbuf
    ensures sink.Valid()
    ensures sink.Sent() == old(sink.Sent())
         + HeaderBits(Code(b.dynLtree[..], lcodes - 1), Code(b.dynDtree[..], dcodes - 1), Lens(b.blTree[..], 19), blcodes)
  {
    hide BitsOf, BitSink.Sent, BitSink.Valid, Pow2, ItemsBits, Runs, Coded, Fits, ClBits, Sends, Carries;
    ghost var ll, dl, cl := Code(b.dynLtree[..], lcodes - 1), Code(b.dynDtree[..], dcodes - 1), Lens(b.blTree[..], 19);
    ghost var start := sink.Sent();
    EightIsPow2();
    CodeEntries(b.dynLtree[..], lcodes - 1);
    CodeEntries(b.dynDtree[..], dcodes - 1);
    sink.SendBits(lcodes - 257, 5);
    sink.SendBits(dcodes - 1, 5);
    sink.SendBits(blcodes - 4, 4);
    SendBlLengths(sink, b.blTree[..], blcodes);
    SendTree(sink, b.dynLtree, lcodes - 1, b.blTree[..], cl);
    SendTree(sink, b.dynDtree, dcodes - 1, b.blTree[..], cl);
    HeaderJoin(start, ll, dl, cl, blcodes);
  }

  lemma CodeEntries(tree: seq<CtData>, maxCode: nat)
    requires maxCode < |tree| && forall i :: 0 <= i < |Code(tree, maxCode)| ==> Code(tree, maxCode)[i] < 16
    ensures forall i :: 0 <= i <= maxCode ==> tree[i].dl < 16
  {
    forall i | 0 <= i <= maxCode
      ensures tree[i].dl < 16
    {
      assert Code(tree, maxCode)[i] == tree[i].dl;
    }
  }

  lemma HeaderJoin(start: seq<bool>, ll: seq<nat>, dl: seq<nat>, cl: seq<nat>, n: nat)
    requires |ll| >= 257 && |dl| >= 1 && |cl| == 19 && 4 <= n <= 19
    ensures start + BitsOf(|ll| - 257, 5) + BitsOf(|dl| - 1, 5) + BitsOf(n - 4, 4) + ClBits(cl, n)
            + ItemsBits(cl, LengthItems(ll)) + ItemsBits(cl, LengthItems(dl))
         == start + HeaderBits(ll, dl, cl, n)
  {
    hide BitsOf, ItemsBits, LengthItems, ClBits;
  }

  // ---------- One block on the wire ----------

  /** After `s0` the bits up to `s1` are one block: a decoder with output `out` goes on with `out'`. */
  ghost predicate Encodes(s0: seq<bool>, s1: seq<bool>, out: seq<byte>, out': seq<byte>, final: bool) {
    s0 <= s1 && forall s :: s1 <= s ==> DecodeBlock(s, |s0|, out) == Some(Block(final, |s1|, out'))
  }

  function KindBits(kind: nat, final: bool): seq<bool> {
    BitsOf(2 * kind + (if final then 1 else 0), 3)
  }

  lemma KindReads(s: seq<bool>, p: nat, kind: nat, final: bool)
    requires kind < 4 && At(s, p, KindBits(kind, final))
    ensures p + 3 <= |s| && s[p] == final && NatOf(s[p + 1..p + 3]) == kind
  {
    var v := 2 * kind + if final then 1 else 0;
    assert BitsOf(v, 3) == [final] + BitsOf(kind, 2);
    AtSplit(s, p, [final], BitsOf(kind, 2));
    assert s[p] == s[p..p + 1][0];
    assert Pow2(2) == 4;
    ReadsBack(s, p + 1, kind, 2);
  }

  lemma AtPrefix(s: seq<bool>, start: seq<bool>, x: seq<bool>)
    requires start + x <= s
    ensures At(s, |start|, x)
  {
    assert s[|start|..|start| + |x|] == (start + x)[|start|..] == x;
  }

  lemma StaticEncodes(s0: seq<bool>, tab: Tables, tokens: seq<Token>, out: seq<byte>, out': seq<byte>, final: bool)
    requires AllTokens(tab, tokens) && Expands(out, tokens, out')
    ensures Encodes(s0, s0 + KindBits(1, final) + DataBits(FixedLitLengths(), FixedDistLengths(), tab, tokens), out, out', final)
  {
    hide Tables.Valid, FixedLitLengths, FixedDistLengths, KindBits, TokensBits, Fits, DecodeData, At, CodeWord, Expands, NatOf;
    var ll, dl := FixedLitLengths(), FixedDistLengths();
    StaticCoded(tab, tokens);
    FixedLitFits();
    FixedDistFits();
    var a, d := KindBits(1, final), DataBits(ll, dl, tab, tokens);
    KindLength(1, final);
    forall s | s0 + a + d <= s
      ensures DecodeBlock(s, |s0|, out) == Some(Block(final, |s0 + a + d|, out'))
    {
      AtPrefix(s, s0 + a, d);
      AtPrefix(s, s0, a);
      KindReads(s, |s0|, 1, final);
      TokensDecode(ll, dl, 9, 5, tab, s, |s0| + 3, out, tokens, out');
    }
  }

  lemma KindLength(kind: nat, final: bool)
    ensures |KindBits(kind, final)| == 3
  {
  }

  lemma DynamicEncodes(s0: seq<bool>, ll: seq<nat>, dl: seq<nat>, cl: seq<nat>, n: nat, tab: Tables, tokens: seq<Token>, out: seq<byte>,
                       out': seq<byte>, final: bool)
    requires HeaderOk(ll, dl, cl, n) && BothFit(ll, dl, MAX_BITS, MAX_BITS) && AllCoded(ll, dl, tab, tokens) && Expands(out, tokens, out')
    ensures Encodes(s0, s0 + KindBits(2, final) + HeaderBits(ll, dl, cl, n) + DataBits(ll, dl, tab, tokens), out, out', final)
  {
    hide Tables.Valid, KindBits, TokensBits, Fits, DecodeData, At, CodeWord, Expands, HeaderBits, DecodeDynamic, TokenCoded, NatOf, Coded,
         Sends;
    var a, h, d := KindBits(2, final), HeaderBits(ll, dl, cl, n), DataBits(ll, dl, tab, tokens);
    KindLength(2, final);
    forall s | s0 + a + h + d <= s
      ensures DecodeBlock(s, |s0|, out) == Some(Block(final, |s0 + a + h + d|, out'))
    {
      AtPrefix(s, s0 + a + h, d);
      AtPrefix(s, s0 + a, h);
      AtPrefix(s, s0, a);
      KindReads(s, |s0|, 2, final);
      HeaderDecodes(ll, dl, cl, n, s, |s0| + 3, out);
      TokensDecode(ll, dl, MAX_BITS, MAX_BITS, tab, s, |s0| + 3 + |h|, out, tokens, out');
    }
  }

  lemma StoredEncodes(s0: seq<bool>, pad: nat, buf: seq<byte>, out: seq<byte>, final: bool)
    requires |buf| <= 0xffff && pad < 8 && (|s0| + 3 + pad) % 8 == 0
    ensures Encodes(s0, s0 + KindBits(0, final) + Zeros(pad) + StoredBits(buf), out, out + buf, final)
  {
    hide KindBits, At, StoredBits, DecodeStored, NatOf;
    var a, z, d := KindBits(0, final), Zeros(pad), StoredBits(buf);
    KindLength(0, final);
    forall s | s0 + a + z + d <= s
      ensures DecodeBlock(s, |s0|, out) == Some(Block(final, |s0 + a + z + d|, out + buf))
    {
      AtPrefix(s, s0 + a + z, d);
      AtPrefix(s, s0 + a, z);
      AtPrefix(s, s0, a);
      KindReads(s, |s0|, 0, final);
      StoredDecodes(s, |s0| + 3, pad, buf, out);
    }
  }
}
