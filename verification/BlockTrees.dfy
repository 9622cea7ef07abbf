/** The three trees of a dynamic block: flush_block's calls of build_tree, and build_bl_tree. */
module BlockTrees {
  import opened Bits
  import opened Inflate
  import opened Canonical
  import opened CodeTables
  import opened TreeHeap
  import opened TreeMerge
  import opened TreeLengths
  import opened TreeFacts
  import opened TreeResults
  import opened TreeBuild
  import opened RunLengths
  import opened SendTrees
  import opened TokenBuffers
  import opened BlockBuffers
  import opened CompressBlocks
  import opened DynHeaders

  /** static_ltree and static_dtree. */
  datatype Statics = Statics(ltree: seq<CtData>, dtree: seq<CtData>)
  {
    ghost predicate Valid() {
      && |ltree| == 288 && Lens(ltree, 288) == FixedLitLengths() && Carries(ltree, FixedLitLengths())
      && |dtree| == D_CODES && (forall n :: 0 <= n < D_CODES ==> dtree[n].dl == 5) && Carries(dtree, FixedDistLengths())
    }
  }

  function LDesc(st: Statics): Desc { Desc(Some(st.ltree), LENGTH_EXTRA, 257, L_CODES, MAX_BITS) }

  function DDesc(st: Statics): Desc { Desc(Some(st.dtree), DIST_EXTRA, 0, D_CODES, MAX_BITS) }

  function BlDesc(): Desc { Desc(None, EXTRA_BLBITS, 0, BL_CODES, 7) }

  lemma DescsValid(st: Statics)
    requires |st.ltree| == 288 && |st.dtree| == D_CODES
    ensures LDesc(st).Valid() && DDesc(st).Valid() && BlDesc().Valid()
  {
    BigPowers();
  }

  lemma BigPowers()
    ensures Pow2(15) == 32768 && Pow2(7) == 128
  {
    assert Pow2(15) == 32768;
  }

  // ---------- One alphabet ----------

  /** The code lengths of the symbols up to the last used one: what a decoder is told. */
  function Code(tree: seq<CtData>, maxCode: nat): (r: seq<nat>)
    requires maxCode < |tree|
  {
    Lens(tree, maxCode + 1)
  }

  /** The tree is a complete code for every symbol with a frequency in `f`. */
  ghost predicate Alphabet(f: seq<nat>, tree: seq<CtData>, maxCode: nat, m: nat) {
    && maxCode < |f| < |tree| && m <= MAX_BITS
    && Sendable(tree, Code(tree, maxCode)) && Fits(Code(tree, maxCode), m)
    && (forall i :: 0 <= i < |f| && f[i] > 0 ==> i <= maxCode && tree[i].dl > 0)
    && tree[maxCode].dl > 0
    && forall i :: 0 <= i <= maxCode ==> tree[i].dl < 16
  }

  lemma CodeIsPrefix(tree: seq<CtData>, n: nat, k: nat)
    requires k < n <= |tree|
    ensures Lens(tree, n)[..k + 1] == Code(tree, k)
  {
  }

  lemma GoodIsAlphabet(f: seq<nat>, tree: seq<CtData>, desc: Desc, maxCode: nat, opt: int, stat: int)
    requires desc.Valid() && desc.elems < |tree| && GoodCode(f, Lens(tree, desc.elems), tree, desc, maxCode, opt, stat)
    ensures Alphabet(f, tree, maxCode, desc.maxLength)
    ensures opt == Dot(f, DynBits(Lens(tree, desc.elems), desc))
    ensures stat == if desc.staticTree.Some? then Dot(f, FixedBits(desc.elems, desc)) else 0
    ensures ZerosFrom(Lens(tree, desc.elems), maxCode + 1) && Carries(tree, Code(tree, maxCode))
  {
    hide KraftSum, Pow2, Carries, NoBetter, Dot;
    var lens := Lens(tree, desc.elems);
    CodeIsPrefix(tree, desc.elems, maxCode);
    KraftTrim(lens, maxCode + 1, desc.maxLength);
    forall i | 0 <= i < |f| && f[i] > 0
      ensures i <= maxCode && tree[i].dl > 0
    {
      assert lens[i] == tree[i].dl && lens[i] > 0;
    }
    assert lens[maxCode] == tree[maxCode].dl;
    forall i | 0 <= i <= maxCode
      ensures tree[i].dl < 16
    {
      assert lens[i] == tree[i].dl;
    }
  }

  lemma DynCosted(tree: seq<CtData>, desc: Desc, maxCode: nat)
    requires maxCode < desc.elems <= |tree|
    ensures Costed(Code(tree, maxCode), DynBits(Lens(tree, desc.elems), desc), desc.extraBase, desc.extraBits)
  {
  }

  /** scan_tree's guard is outside the code. */
  lemma AlphabetGuarded(f: seq<nat>, tree: seq<CtData>, maxCode: nat, m: nat, tree': seq<CtData>)
    requires Alphabet(f, tree, maxCode, m) && tree' == tree[maxCode + 1 := tree[maxCode + 1].(dl := GUARD)]
    ensures Alphabet(f, tree', maxCode, m) && Code(tree', maxCode) == Code(tree, maxCode)
  {
    hide Fits, CarriesAt;
    assert Code(tree', maxCode) == Code(tree, maxCode);
  }

  // ---------- build_bl_tree ----------

  /** The items of both trees. */
  ghost function AllItems(ll: seq<nat>, dl: seq<nat>): seq<Item> {
    LengthItems(ll) + LengthItems(dl)
  }

  ghost predicate Lengths(lens: seq<nat>) {
    |lens| > 0 && forall i :: 0 <= i < |lens| ==> lens[i] < 16
  }

  lemma ItemsValid(lens: seq<nat>)
    requires Lengths(lens)
    ensures AllValid(LengthItems(lens)) && |LengthItems(lens)| <= |lens|
  {
    hide Runs, Expand;
    RunsMean(lens, 0, -1, 0, []);
    ItemsMean([], lens);
    assert [] + lens == lens;
    ItemsShort([], LengthItems(lens));
  }

  /** After both scans bl_tree's frequencies count the items of both trees. */
  lemma BothScanned(ll: seq<nat>, dl: seq<nat>, bl0: seq<CtData>, bl1: seq<CtData>, bl2: seq<CtData>)
    requires Lengths(ll) && Lengths(dl) && |ll| <= L_CODES && |dl| <= D_CODES
    requires |bl0| >= 19 && forall i :: 0 <= i < 19 ==> bl0[i].fc == 0
    requires Tallied(bl0, bl1, LengthItems(ll)) && Tallied(bl1, bl2, LengthItems(dl))
    ensures |bl2| == |bl0| && SymbolFreqs(bl2, 19) == ItemFreqs(AllItems(ll, dl))
    ensures AllValid(AllItems(ll, dl)) && Total(SymbolFreqs(bl2, 19)) + 2 < 0x10000
  {
    hide Runs, CountSymbol, Total, LengthItems;
    ItemsValid(ll);
    ItemsValid(dl);
    forall s | 0 <= s < 19
      ensures SymbolFreqs(bl2, 19)[s] == ItemFreqs(AllItems(ll, dl))[s]
    {
      CountAppend(LengthItems(ll), LengthItems(dl), s);
    }
    ItemTotal(AllItems(ll, dl));
  }

  /** Every item has a code once the code covers all counted symbols. */
  lemma ItemsCoded(ll: seq<nat>, dl: seq<nat>, cl: seq<nat>)
    requires |cl| == 19 && AllValid(AllItems(ll, dl)) && CodesAll(ItemFreqs(AllItems(ll, dl)), cl)
    requires forall i :: 0 <= i < 19 ==> cl[i] <= 7
    ensures Coded(cl, LengthItems(ll)) && Coded(cl, LengthItems(dl))
  {
    hide CountSymbol, LengthItems;
    var all, a, b := AllItems(ll, dl), LengthItems(ll), LengthItems(dl);
    forall i | 0 <= i < |all|
      ensures all[i].Valid() && 0 < cl[all[i].Symbol()] <= MAX_BITS
    {
      ItemCounted(all, i);
      assert ItemFreqs(all)[all[i].Symbol()] > 0;
    }
    assert forall i :: 0 <= i < |a| ==> a[i] == all[i];
    assert forall i :: 0 <= i < |b| ==> b[i] == all[|a| + i];
  }

  lemma RankLow(l: nat)
    requires l < 16
    ensures Rank(l) >= 3
  {
  }

  /** Some code length other than the repeat codes is used, so at least 4 of them are sent. */
  lemma FourSent(ll: seq<nat>, cl: seq<nat>) returns (r: nat)
    requires Lengths(ll) && ll[|ll| - 1] > 0 && Coded(cl, LengthItems(ll))
    ensures 3 <= r < 19 && cl[Order(r)] > 0
  {
    hide Runs, Order, Rank;
    var i := SomeLen(ll, 0, -1, 0, |ll| - 1);
    var l := LengthItems(ll)[i].len;
    r := Rank(l);
    RankLow(l);
    OrderRank(l);
  }

  ghost predicate BlReady(ll: seq<nat>, dl: seq<nat>, bl: seq<CtData>, n: nat) {
    && |bl| >= 19 && Carries(bl, Lens(bl, 19)) && Sends(Lens(bl, 19), n) && Fits(Lens(bl, 19), 7)
    && Coded(Lens(bl, 19), LengthItems(ll)) && Coded(Lens(bl, 19), LengthItems(dl))
  }

  ghost predicate BlGood(ll: seq<nat>, dl: seq<nat>, bl: seq<CtData>, opt: int) {
    && |bl| >= 19 && Carries(bl, Lens(bl, 19)) && Fits(Lens(bl, 19), 7) && (forall i :: 0 <= i < 19 ==> Lens(bl, 19)[i] < 8)
    && Coded(Lens(bl, 19), LengthItems(ll)) && Coded(Lens(bl, 19), LengthItems(dl))
    && opt == |ItemsBits(Lens(bl, 19), LengthItems(ll))| + |ItemsBits(Lens(bl, 19), LengthItems(dl))|
  }

  lemma BlFacts(ll: seq<nat>, dl: seq<nat>, bl: seq<CtData>, maxCode: nat, opt: int, stat: int)
    requires Lengths(ll) && Lengths(dl) && AllValid(AllItems(ll, dl)) && |bl| == 2 * BL_CODES + 1
    requires GoodCode(ItemFreqs(AllItems(ll, dl)), Lens(bl, 19), bl, BlDesc(), maxCode, opt, stat)
    ensures BlGood(ll, dl, bl, opt) && stat == 0
  {
    hide CountSymbol, LengthItems, KraftSum, Pow2, Carries, NoBetter, Dot, ItemFreqs, ItemsBits, Coded;
    var cl := Lens(bl, 19);
    CodeIsPrefix(bl, 19, maxCode);
    CarriesTrim(bl, cl, maxCode + 1);
    ItemsCoded(ll, dl, cl);
    ItemsCost(cl, AllItems(ll, dl), DynBits(cl, BlDesc()));
    ItemsBitsAppend(cl, LengthItems(ll), LengthItems(dl));
  }

  /** A code for the items of both alphabets. Behind `maxBlindex` in bl_order every length is 0, and a header leaves those out. */
  method BuildBlTree(tb: TreeBuilder, b: BlockBuffer, lmax: nat, dmax: nat, ghost lf: seq<nat>, ghost df: seq<nat>)
    returns (maxBlindex: nat)
    requires tb.Valid() && b.Shape() && forall i :: 0 <= i < BL_CODES ==> b.blTree[i].fc == 0
    requires |lf| == L_CODES && Alphabet(lf, b.dynLtree[..], lmax, MAX_BITS)
    requires |df| == D_CODES && Alphabet(df, b.dynDtree[..], dmax, MAX_BITS)
    modifies tb, tb.heap, tb.depth, tb.blCount, b.dynLtree, b.dynDtree, b.blTree
    ensures b.dynLtree[..] == old(b.dynLtree[..])[lmax + 1 := old(b.dynLtree[lmax + 1]).(dl := GUARD)]
    ensures b.dynDtree[..] == old(b.dynDtree[..])[dmax + 1 := old(b.dynDtree[dmax + 1]).(dl := GUARD)]
    ensures BlReady(old(Code(b.dynLtree[..], lmax)), old(Code(b.dynDtree[..], dmax)), b.blTree[..], maxBlindex + 1)
    ensures tb.optLen == old(tb.optLen) + 14 + 3 * (maxBlindex + 1)
                         + |ItemsBits(Lens(b.blTree[..], 19), LengthItems(old(Code(b.dynLtree[..], lmax))))|
                         + |ItemsBits(Lens(b.blTree[..], 19), LengthItems(old(Code(b.dynDtree[..], dmax))))|
    ensures tb.staticLen == old(tb.staticLen)
  {
    hide CountSymbol, LengthItems, Fits, Carries, GoodCode, Total, ItemFreqs, ItemsBits, Coded, Tallied, Sendable, Order, SymbolFreqs;
    ghost var ll, dl, bl0 := Code(b.dynLtree[..], lmax), Code(b.dynDtree[..], dmax), b.blTree[..];
    ScanTree(b.dynLtree, lmax, b.blTree);
    ghost var bl1 := b.blTree[..];
    ScanTree(b.dynDtree, dmax, b.blTree);
    ghost var bl2 := b.blTree[..];
    BothScannedItems(ll, dl, bl0, bl1, bl2);
    BlDescValid();
    var maxCode;
    ghost var leaves, merges, w;
    maxCode, leaves, merges, w := BuildTree(tb, b.blTree, BlDesc());
    ghost var cl := Lens(b.blTree[..], 19);
    BlFacts(ll, dl, b.blTree[..], maxCode, tb.optLen - old(tb.optLen), tb.staticLen - old(tb.staticLen));
    ghost var r := FourSent(ll, cl);
    maxBlindex := BL_CODES - 1;
    while maxBlindex >= 3
      invariant r <= maxBlindex < BL_CODES && forall j :: maxBlindex < j < 19 ==> cl[Order(j)] == 0
      decreases maxBlindex
    {
      if b.blTree[Order(maxBlindex)].dl != 0 { break; }
      maxBlindex := maxBlindex - 1;
    }
    tb.optLen := tb.optLen + 3 * (maxBlindex + 1) + 5 + 5 + 4;
  }

  lemma BothScannedItems(ll: seq<nat>, dl: seq<nat>, bl0: seq<CtData>, bl1: seq<CtData>, bl2: seq<CtData>)
    requires Lengths(ll) && Lengths(dl) && |ll| <= L_CODES && |dl| <= D_CODES
    requires |bl0| >= 19 && forall i :: 0 <= i < 19 ==> bl0[i].fc == 0
    requires Tallied(bl0, bl1, Runs(ll, 0, -1, 0)) && Tallied(bl1, bl2, Runs(dl, 0, -1, 0))
    ensures |bl2| == |bl0| && SymbolFreqs(bl2, 19) == ItemFreqs(AllItems(ll, dl))
    ensures AllValid(AllItems(ll, dl)) && Total(SymbolFreqs(bl2, 19)) + 2 < 0x10000
  {
    hide Runs, Total;
    BothScanned(ll, dl, bl0, bl1, bl2);
  }

  lemma BlDescValid()
    ensures BlDesc().Valid()
  {
    BigPowers();
  }
}
