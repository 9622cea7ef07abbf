/** build_tree, start to end. */
module TreeBuild {
  import opened Bits
  import opened Inflate
  import opened Canonical
  import opened Huffman
  import opened TreeHeap
  import opened TreeMerge
  import opened TreeLengths
  import opened GenBitlen
  import opened LengthRepair
  import opened TreeFacts
  import opened TreeStart
  import opened BuildTrees
  import opened TreeResults

  function SymbolFreqs(tree: seq<CtData>, n: nat): (f: seq<nat>)
    requires n <= |tree|
    ensures |f| == n
  {
    seq(n, i requires 0 <= i < n => tree[i].fc)
  }

  /** The merged tree, before lengths: its symbols, and the corrections made for forced ones. */
  ghost predicate Grown(f: seq<nat>, tree: seq<CtData>, desc: Desc, maxCode: nat, forced: set<nat>, leaves: set<nat>,
                        merges: seq<(nat, nat)>, opt: int, stat: int) {
    && |f| == desc.elems <= |tree| && maxCode < desc.elems && |leaves| <= desc.elems
    && LargestOf(leaves, maxCode) && LeafFreqs(f, tree, forced, leaves)
    && (forall x :: 0 <= x < desc.elems && x !in leaves ==> tree[x].dl == 0)
    && Script(leaves, merges, desc.elems)
    && (forall i :: 0 <= i < |merges| ==> GreedyAt(leaves, merges, desc.elems, Freqs(tree), i))
    && opt == Sum(leaves, ForcedDyn(forced))
    && stat == if desc.staticTree.Some? then Sum(leaves, ForcedFix(forced, desc)) else 0
  }

  lemma UsedFacts(t0: seq<CtData>, t1: seq<CtData>, elems: nat, top: int)
    requires elems <= |t0| == |t1| && (forall x :: 0 <= x < |t0| ==> t1[x].fc == t0[x].fc) && LargestOf(Used(t0, elems), top)
    ensures top < elems && forall x :: 0 <= x < elems && x !in Used(t0, elems) ==> t1[x].fc == 0
  {
    assert top >= 0 ==> top in Used(t0, elems);
  }

  lemma ForcedFacts(f: seq<nat>, t0: seq<CtData>, t1: seq<CtData>, t2: seq<CtData>, opt: int, stat: int, desc: Desc,
                    forced: set<nat>, leaves: set<nat>, maxCode: nat, heap: seq<nat>, heapLen: nat)
    requires desc.Valid() && 2 * desc.elems < |t0| == |t1| && f == SymbolFreqs(t0, desc.elems) && Total(f) + 2 < 0x10000
    requires forall x :: 0 <= x < |t1| ==> t1[x].fc == t0[x].fc
    requires forall x :: 0 <= x < desc.elems && t1[x].fc == 0 ==> t1[x].dl == 0
    requires Forced(t1, t2, opt, stat, desc, Used(t0, desc.elems), forced, leaves, maxCode)
    requires Holds(heap, heapLen, leaves) && (forced != {} ==> heapLen == 2)
    ensures forall x :: x in leaves ==> x < desc.elems && x <= maxCode
    ensures LargestOf(leaves, maxCode) && maxCode < desc.elems
    ensures |leaves| == heapLen && Sum(leaves, FreqOf(t2)) < 0x10000
    ensures LeafFreqs(f, t2, forced, leaves)
    ensures forall x :: 0 <= x < desc.elems && x !in leaves ==> t2[x].dl == 0
    ensures opt == Sum(leaves, ForcedDyn(forced))
    ensures stat == if desc.staticTree.Some? then Sum(leaves, ForcedFix(forced, desc)) else 0
  {
    hide Holds, Sum, Total, Pow2, ForcedDyn, ForcedFix, Forcing, Used, LeafFreqs, SymbolFreqs;
    HoldsSize(heap, heapLen, leaves);
    ForcedLeaves(f, t0, t1, t2, desc.elems, forced, leaves);
    TotalFits(t1, t2, desc.elems, forced, leaves, f);
  }

  lemma ForcedLeaves(f: seq<nat>, t0: seq<CtData>, t1: seq<CtData>, t2: seq<CtData>, elems: nat, forced: set<nat>, leaves: set<nat>)
    requires elems <= |t0| == |t1| && f == SymbolFreqs(t0, elems)
    requires forall x :: 0 <= x < |t1| ==> t1[x].fc == t0[x].fc
    requires forall x :: 0 <= x < elems && t1[x].fc == 0 ==> t1[x].dl == 0
    requires Forcing(t1, t2, elems, forced) && leaves == Used(t0, elems) + forced && (forced != {} ==> |leaves| == 2)
    ensures LeafFreqs(f, t2, forced, leaves) && forced <= leaves
    ensures forall x :: 0 <= x < elems && x !in leaves ==> t2[x].dl == 0 && f[x] == 0
    ensures forall i :: 0 <= i < elems ==> f[i] == t1[i].fc
    ensures forall x :: x in leaves ==> x < elems
  {
  }

  lemma MergingStart(heap: seq<nat>, len: nat, tree: seq<CtData>, leaves: set<nat>, elems: nat)
    requires |heap| == HEAP_SIZE && elems <= L_CODES && 2 * elems < |tree| && 1 <= len == |leaves| <= elems
    requires (forall x :: x in leaves ==> x < elems) && Sum(leaves, FreqOf(tree)) < 0x10000
    ensures Merging(heap, len, tree, leaves, [], elems)
  {
  }

  lemma ReadyForLengths(h: seq<nat>, h': seq<nat>, heapMax: nat, tree: seq<CtData>, desc: Desc, maxCode: nat,
                        leaves: set<nat>, merges: seq<(nat, nat)>)
    requires desc.Valid() && Script(leaves, merges, desc.elems) && |merges| < desc.elems && 2 * desc.elems < |tree|
    requires |h| == |h'| == HEAP_SIZE && heapMax == HEAP_SIZE - 1 - 2 * |merges| && h' == h[heapMax := h[1]]
    requires h[1] == desc.elems + |merges| - 1 && |merges| >= 1
    requires forall e :: 0 <= e < 2 * |merges| ==> h[HEAP_SIZE - 1 - e] == NodeAt(merges, e)
    requires maxCode < desc.elems && forall x :: x in leaves ==> x <= maxCode
    ensures Ready(h', heapMax, tree, desc, maxCode, leaves, merges)
  {
    hide Script, NodeAt;
    forall e | 0 <= e < 2 * |merges|
      ensures h'[HEAP_SIZE - 1 - e] == NodeAt(merges, e)
    {
      assert HEAP_SIZE - 1 - e != heapMax;
    }
  }

  lemma GrownFacts(f: seq<nat>, t2: seq<CtData>, t3: seq<CtData>, desc: Desc, maxCode: nat, forced: set<nat>, leaves: set<nat>,
                   merges: seq<(nat, nat)>, opt: int, stat: int)
    requires |f| == desc.elems && maxCode < desc.elems && |leaves| <= desc.elems
    requires LargestOf(leaves, maxCode) && LeafFreqs(f, t2, forced, leaves) && LeavesKept(t2, t3, leaves, desc.elems)
    requires forall x :: 0 <= x < desc.elems && x !in leaves ==> t2[x].dl == 0
    requires Script(leaves, merges, desc.elems)
    requires forall i :: 0 <= i < |merges| ==> GreedyAt(leaves, merges, desc.elems, Freqs(t3), i)
    requires opt == Sum(leaves, ForcedDyn(forced))
    requires stat == if desc.staticTree.Some? then Sum(leaves, ForcedFix(forced, desc)) else 0
    ensures Grown(f, t3, desc, maxCode, forced, leaves, merges, opt, stat)
  {
    hide Script, GreedyAt, Sum, ForcedDyn, ForcedFix;
  }

  /** Everything up to the computation of lengths. */
  method GrowTree(b: TreeBuilder, tree: array<CtData>, desc: Desc)
    returns (maxCode: nat, ghost forced: set<nat>, ghost leaves: set<nat>, ghost merges: seq<(nat, nat)>)
    requires b.Valid() && desc.Valid() && 2 * desc.elems < tree.Length
    requires Total(SymbolFreqs(tree[..], desc.elems)) + 2 < 0x10000
    modifies b, b.heap, b.depth, tree
    ensures Grown(old(SymbolFreqs(tree[..], desc.elems)), tree[..], desc, maxCode, forced, leaves, merges,
                  old(b.optLen) - b.optLen, old(b.staticLen) - b.staticLen)
    ensures Ready(b.heap[..], b.heapMax, tree[..], desc, maxCode, leaves, merges) && Linked(tree[..], merges, desc.elems)
  {
    hide Holds, HeapFrom, Sum, Merging, Forced, Script, Linked, Live, GreedyAt, LeavesKept, LargestOf, NodeAt, Used, Total, Pow2,
         ForcedDyn, ForcedFix, FreqOf, Freqs, LeafFreqs, Ready, Grown, SymbolFreqs;
    ghost var t0, opt0, stat0 := tree[..], b.optLen, b.staticLen;
    ghost var f := SymbolFreqs(t0, desc.elems);
    var top := CollectUsed(b, tree, desc.elems);
    ghost var t1 := tree[..];
    UsedFacts(t0, t1, desc.elems, top);
    maxCode, forced, leaves := ForceTwo(b, tree, desc, top, Used(t0, desc.elems));
    ghost var t2 := tree[..];
    ForcedFacts(f, t0, t1, t2, opt0 - b.optLen, stat0 - b.staticLen, desc, forced, leaves, maxCode, b.heap[..], b.heapLen);
    Heapify(b, tree, leaves);
    MergingStart(b.heap[..], b.heapLen, tree[..], leaves, desc.elems);
    merges := b.Combine(tree, desc.elems, leaves);
    MergesComplete(b.heap[..], tree[..], leaves, merges, desc.elems);
    ghost var h3 := b.heap[..];
    b.heapMax := b.heapMax - 1;
    b.heap[b.heapMax] := b.heap[1];
    ReadyForLengths(h3, b.heap[..], b.heapMax, tree[..], desc, maxCode, leaves, merges);
    GrownFacts(f, t2, tree[..], desc, maxCode, forced, leaves, merges, opt0 - b.optLen, stat0 - b.staticLen);
  }

  // ---------- From lengths to the result ----------

  lemma LengthsFollow(f: seq<nat>, t3: seq<CtData>, t4: seq<CtData>, desc: Desc, maxCode: nat, forced: set<nat>, leaves: set<nat>,
                      merges: seq<(nat, nat)>, opt1: int, stat1: int, bl: seq<nat>, opt: int, stat: int)
    requires desc.Valid() && Grown(f, t3, desc, maxCode, forced, leaves, merges, opt1, stat1)
    requires OnlyLengths(t3, t4, leaves, desc.elems) && Lengthened(bl, opt, stat, t4, desc, leaves)
    ensures desc.elems <= |t4|
    ensures LengthsSet(f, Lens(t4, desc.elems), t4, desc, maxCode, forced, leaves)
  {
    hide Kraft, Sum, Pow2, BlKraft, Counts, BlTotal, Script, GreedyAt, ForcedDyn, ForcedFix, DynCost, FixedCost, LargestOf;
    CountsKraft(bl, leaves, t4, desc.maxLength);
    SupportFollows(t3, t4, desc.elems, desc.maxLength, leaves);
  }

  lemma SupportFollows(t3: seq<CtData>, t4: seq<CtData>, elems: nat, cap: nat, leaves: set<nat>)
    requires OnlyLengths(t3, t4, leaves, elems) && InRange(leaves, t4, cap)
    requires forall x :: 0 <= x < elems && x !in leaves ==> t3[x].dl == 0
    ensures Supported(Lens(t4, elems), leaves)
  {
  }

  lemma FactsForCodes(f: seq<nat>, t3: seq<CtData>, t4: seq<CtData>, desc: Desc, maxCode: nat, forced: set<nat>, leaves: set<nat>,
                      merges: seq<(nat, nat)>, opt1: int, stat1: int, bl: seq<nat>, opt: int, stat: int)
    requires desc.Valid() && Grown(f, t3, desc, maxCode, forced, leaves, merges, opt1, stat1)
    requires OnlyLengths(t3, t4, leaves, desc.elems) && Lengthened(bl, opt, stat, t4, desc, leaves)
    ensures Counts(bl, leaves, t4) && |bl| == MAX_BITS + 1 && bl[0] == 0 && desc.maxLength <= MAX_BITS && maxCode < desc.elems <= |t4|
    ensures opt == Sum(leaves, DynCost(t4, desc)) && stat == Sum(leaves, FixedCost(t4, desc))
    ensures opt1 == Sum(leaves, ForcedDyn(forced))
    ensures stat1 == if desc.staticTree.Some? then Sum(leaves, ForcedFix(forced, desc)) else 0
    ensures Script(leaves, merges, desc.elems)
    ensures forall i :: 0 <= i < |merges| ==> GreedyAt(leaves, merges, desc.elems, Freqs(t4), i)
  {
    hide Sum, Pow2, BlKraft, Script, GreedyAt, ForcedDyn, ForcedFix, DynCost, FixedCost, LeafFreqs, LargestOf, InRange;
    assert Freqs(t4) == Freqs(t3);
  }

  lemma Finished(f: seq<nat>, lens: seq<nat>, t4: seq<CtData>, t5: seq<CtData>, desc: Desc, maxCode: nat,
                 forced: set<nat>, leaves: set<nat>, merges: seq<(nat, nat)>, bl: seq<nat>,
                 opt1: int, stat1: int, opt: int, stat: int)
    requires desc.Valid() && LengthsSet(f, lens, t4, desc, maxCode, forced, leaves) && |lens| == desc.elems && maxCode < desc.elems
    requires Carries(t5, lens[..maxCode + 1])
    requires Counts(bl, leaves, t4) && Script(leaves, merges, desc.elems) && |bl| == MAX_BITS + 1 && desc.maxLength <= MAX_BITS
    requires forall i :: 0 <= i < |merges| ==> GreedyAt(leaves, merges, desc.elems, Freqs(t4), i)
    requires bl[desc.maxLength] == 0 || Shallow(merges, desc.elems, desc.maxLength) ==> Unlimited(t4, merges, desc.elems, desc.maxLength)
    requires opt1 == Sum(leaves, ForcedDyn(forced))
    requires stat1 == if desc.staticTree.Some? then Sum(leaves, ForcedFix(forced, desc)) else 0
    requires opt == Sum(leaves, DynCost(t4, desc)) && stat == Sum(leaves, FixedCost(t4, desc))
    ensures GoodCode(f, lens, t5, desc, maxCode, opt - opt1, stat - stat1)
    ensures Shallow(merges, desc.elems, desc.maxLength) ==> NoBetter(f, lens)
  {
    hide Script, GreedyAt, Unlimited, Shallow, Kraft, Pow2, NoBetter, Sum, Dot, Carries, KraftSum, ForcedDyn, ForcedFix, LengthsSet,
         DynCost, FixedCost, CodesAll, DynBits, FixedBits, Counts;
    LensBounded(f, lens, t4, desc, maxCode, forced, leaves);
    LensComplete(f, lens, t4, desc, maxCode, forced, leaves);
    Optimal(f, lens, t4, desc, maxCode, forced, leaves, merges, bl);
    Costs(f, lens, t4, desc, maxCode, forced, leaves);
  }

  lemma LensComplete(f: seq<nat>, lens: seq<nat>, tree: seq<CtData>, desc: Desc, maxCode: nat, forced: set<nat>, leaves: set<nat>)
    requires LengthsSet(f, lens, tree, desc, maxCode, forced, leaves)
    ensures |f| == |lens| == desc.elems && maxCode < desc.elems && CodesAll(f, lens)
    ensures KraftSum(lens, desc.maxLength) == Pow2(desc.maxLength)
  {
    hide Kraft, Pow2, KraftSum;
    LensBounded(f, lens, tree, desc, maxCode, forced, leaves);
    KraftOfLens(lens, tree, leaves, desc.maxLength, |lens|);
    assert lens[..|lens|] == lens;
  }

  /** The used symbols, and the forced ones if there are fewer than two, merged two rarest nodes at a time. */
  ghost predicate HuffmanTree(f: seq<nat>, leaves: set<nat>, merges: seq<(nat, nat)>, w: seq<nat>) {
    && Script(leaves, merges, |f|) && (forall i :: 0 <= i < |merges| ==> GreedyAt(leaves, merges, |f|, w, i))
    && forall x :: 0 <= x < |f| && f[x] > 0 ==> x in leaves && x < |w| && w[x] == f[x]
  }

  /** The whole of build_tree; the lengths are optimal whenever the tree is not deeper than the cap. */
  method BuildTree(b: TreeBuilder, tree: array<CtData>, desc: Desc)
    returns (maxCode: nat, ghost leaves: set<nat>, ghost merges: seq<(nat, nat)>, ghost w: seq<nat>)
    requires b.Valid() && desc.Valid() && 2 * desc.elems < tree.Length
    requires Total(SymbolFreqs(tree[..], desc.elems)) + 2 < 0x10000
    modifies b, b.heap, b.depth, b.blCount, tree
    ensures maxCode < desc.elems
    ensures GoodCode(old(SymbolFreqs(tree[..], desc.elems)), Lens(tree[..], desc.elems), tree[..], desc, maxCode,
                     b.optLen - old(b.optLen), b.staticLen - old(b.staticLen))
    ensures HuffmanTree(old(SymbolFreqs(tree[..], desc.elems)), leaves, merges, w)
    ensures Shallow(merges, desc.elems, desc.maxLength) ==>
              NoBetter(old(SymbolFreqs(tree[..], desc.elems)), Lens(tree[..], desc.elems))
  {
    hide Sum, Script, Linked, GreedyAt, Shallow, NoBetter, Lengthened, OnlyLengths, Unlimited, LengthsSet, GoodCode, Counts, Total, Pow2,
         ForcedDyn, ForcedFix, Freqs, DynCost, FixedCost, Grown, SymbolFreqs, CountLen, Fits, Carries;
    ghost var f, opt0, stat0 := SymbolFreqs(tree[..], desc.elems), b.optLen, b.staticLen;
    ghost var forced;
    maxCode, forced, leaves, merges := GrowTree(b, tree, desc);
    ghost var t3, opt1, stat1 := tree[..], b.optLen, b.staticLen;
    GrownSize(f, t3, desc, maxCode, forced, leaves, merges, opt0 - opt1, stat0 - stat1);
    GenBitLengths(b, tree, desc, maxCode, leaves, merges);
    ghost var t4, bl, opt, stat := tree[..], b.blCount[..], b.optLen - opt1, b.staticLen - stat1;
    LengthsFollow(f, t3, t4, desc, maxCode, forced, leaves, merges, opt0 - opt1, stat0 - stat1, bl, opt, stat);
    FactsForCodes(f, t3, t4, desc, maxCode, forced, leaves, merges, opt0 - opt1, stat0 - stat1, bl, opt, stat);
    w := Freqs(t4);
    LeafWeights(f, t3, t4, desc, maxCode, forced, leaves, merges, opt0 - opt1, stat0 - stat1);
    ghost var lens := Lens(t4, desc.elems);
    CodesReady(f, lens, t4, desc, maxCode, forced, leaves, bl);
    GenCodes(tree, maxCode, b.blCount[..], desc.maxLength);
    assert Lens(tree[..], desc.elems) == lens;
    Finished(f, lens, t4, tree[..], desc, maxCode, forced, leaves, merges, bl, opt0 - opt1, stat0 - stat1, opt, stat);
  }

  lemma LeafWeights(f: seq<nat>, t3: seq<CtData>, t4: seq<CtData>, desc: Desc, maxCode: nat, forced: set<nat>, leaves: set<nat>,
                    merges: seq<(nat, nat)>, opt: int, stat: int)
    requires Grown(f, t3, desc, maxCode, forced, leaves, merges, opt, stat) && OnlyLengths(t3, t4, leaves, desc.elems)
    ensures |f| == desc.elems && forall x :: 0 <= x < |f| && f[x] > 0 ==> x in leaves && x < |Freqs(t4)| && Freqs(t4)[x] == f[x]
  {
    hide Sum, Script, GreedyAt;
  }

  lemma GrownSize(f: seq<nat>, tree: seq<CtData>, desc: Desc, maxCode: nat, forced: set<nat>, leaves: set<nat>,
                  merges: seq<(nat, nat)>, opt: int, stat: int)
    requires Grown(f, tree, desc, maxCode, forced, leaves, merges, opt, stat)
    ensures |leaves| <= desc.elems && maxCode < desc.elems
  {
  }
}
