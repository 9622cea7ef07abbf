/** build_tree: from frequencies to a complete prefix code. */
module BuildTrees {
  import opened Bits
  import opened Canonical
  import opened Huffman
  import opened TreeHeap
  import opened TreeMerge
  import opened TreeLengths
  import opened GenBitlen
  import opened LengthRepair
  import opened Reassign
  import opened TreeFacts

  // ---------- gen_bitlen as a whole ----------

  /** Lengths within the cap that fill the code space exactly, with matching statistics and costs. */
  ghost predicate Lengthened(bl: seq<nat>, opt: int, stat: int, tree: seq<CtData>, desc: Desc, leaves: set<nat>) {
    && Counts(bl, leaves, tree) && InRange(leaves, tree, desc.maxLength) && desc.maxLength <= MAX_BITS
    && BlKraft(bl, desc.maxLength, desc.maxLength) == Pow2(desc.maxLength) && bl[0] == 0
    && opt == Sum(leaves, DynCost(tree, desc)) && stat == Sum(leaves, FixedCost(tree, desc))
  }

  /** Nothing was cut off: the lengths are the depths in the tree. */
  ghost predicate Unlimited(tree: seq<CtData>, merges: seq<(nat, nat)>, elems: nat, cap: nat) {
    && Depths(merges, elems, Dls(tree), cap)
    && Full(merges, elems, Dls(tree), cap, 0) == 0
  }

  lemma {:induction false} SumOnes(s: set<nat>)
    ensures Sum(s, One()) == |s|
  {
    if s != {} {
      var x :| x in s;
      SumRemove(s, x, One());
      SumOnes(s - {x});
    }
  }

  lemma AfterFirstPass(bl: seq<nat>, opt: int, stat: int, overflow: nat, tree: seq<CtData>,
                       leaves: set<nat>, merges: seq<(nat, nat)>, desc: Desc) returns (full: nat)
    requires desc.Valid() && Script(leaves, merges, desc.elems) && Passing(bl, opt, stat, overflow, tree, merges, desc, 0)
    requires |leaves| <= desc.elems
    ensures overflow == 2 * full
    ensures full == 0 ==> Lengthened(bl, opt, stat, tree, desc, leaves) && Unlimited(tree, merges, desc.elems, desc.maxLength)
    ensures full > 0 ==> Overfull(bl, desc.maxLength, |leaves|, full)
    ensures Depths(merges, desc.elems, Dls(tree), desc.maxLength) && full == Full(merges, desc.elems, Dls(tree), desc.maxLength, 0)
    ensures LengthsBounded(tree, leaves)
    ensures opt == Sum(leaves, DynCost(tree, desc)) && stat == Sum(leaves, FixedCost(tree, desc))
    ensures EntrySum(merges, desc.elems, One(), 0, 2 * |merges|) == |leaves|
  {
    hide Script, Stats, EntrySum, Sum, CutOff, Full, BlKraft, BlTotal, Pow2, NodeAt;
    full := PassKraft(bl, tree, leaves, merges, desc.elems, desc.maxLength);
    StatsAreCounts(bl, tree, leaves, merges, desc.elems);
    PassedIsDepths(tree, merges, desc.elems, desc.maxLength);
    EntriesAreLeaves(leaves, merges, desc.elems, DynCost(tree, desc));
    EntriesAreLeaves(leaves, merges, desc.elems, FixedCost(tree, desc));
    EntriesAreLeaves(leaves, merges, desc.elems, One());
    SumOnes(leaves);
  }

  /** What was cut off was deeper than the cap. */
  lemma CutIsDeep(tree: seq<CtData>, leaves: set<nat>, merges: seq<(nat, nat)>, elems: nat, cap: nat)
    requires Script(leaves, merges, elems) && Depths(merges, elems, Dls(tree), cap) && Full(merges, elems, Dls(tree), cap, 0) > 0
    ensures !Shallow(merges, elems, cap)
  {
    hide Script, Full, DepthAt;
    if Shallow(merges, elems, cap) {
      var len: seq<nat> :| Depths(merges, elems, len, cap) && Full(merges, elems, len, cap, 0) == 0;
      DepthsAgree(leaves, merges, elems, Dls(tree), len, cap, 0);
    }
  }

  lemma CountedInRange(bl: seq<nat>, tree: seq<CtData>, leaves: set<nat>, cap: nat)
    requires Counts(bl, leaves, tree) && LengthsBounded(tree, leaves) && bl[0] == 0 && cap <= MAX_BITS
    requires forall k :: cap < k <= MAX_BITS ==> bl[k] == 0
    ensures InRange(leaves, tree, cap)
  {
    hide Sum;
    forall x | x in leaves
      ensures x < |tree| && 1 <= tree[x].dl <= cap
    {
      SumRemove(leaves, x, LenIs(tree, tree[x].dl));
    }
  }

  lemma AfterHandOut(bl: seq<nat>, opt0: int, opt: int, stat: int, t0: seq<CtData>, tree: seq<CtData>,
                     leaves: set<nat>, merges: seq<(nat, nat)>, desc: Desc)
    requires desc.Valid() && Script(leaves, merges, desc.elems)
    requires Overfull(bl, desc.maxLength, |leaves|, 0) && Stats(bl, tree, merges, desc.elems, 0, 2 * |merges|)
    requires LengthsBounded(tree, leaves) && OnlyLengths(t0, tree, leaves, desc.elems)
    requires opt0 == Sum(leaves, DynCost(t0, desc)) && stat == Sum(leaves, FixedCost(t0, desc))
    requires opt - opt0 + EntrySum(merges, desc.elems, DynCost(t0, desc), 0, 2 * |merges|)
          == EntrySum(merges, desc.elems, DynCost(tree, desc), 0, 2 * |merges|)
    ensures Lengthened(bl, opt, stat, tree, desc, leaves) && bl[desc.maxLength] > 0
  {
    hide Script, Stats, EntrySum, Sum, BlKraft, BlTotal, Pow2, Counts;
    StatsAreCounts(bl, tree, leaves, merges, desc.elems);
    CountedInRange(bl, tree, leaves, desc.maxLength);
    EntriesAreLeaves(leaves, merges, desc.elems, DynCost(t0, desc));
    EntriesAreLeaves(leaves, merges, desc.elems, DynCost(tree, desc));
    SumSame(leaves, FixedCost(t0, desc), FixedCost(tree, desc));
  }

  method GenBitLengths(b: TreeBuilder, tree: array<CtData>, desc: Desc, maxCode: nat,
                       ghost leaves: set<nat>, ghost merges: seq<(nat, nat)>)
    requires b.Valid() && Ready(b.heap[..], b.heapMax, tree[..], desc, maxCode, leaves, merges)
    requires Linked(tree[..], merges, desc.elems) && |leaves| <= desc.elems
    modifies b`optLen, b`staticLen, b.blCount, tree
    ensures Lengthened(b.blCount[..], b.optLen - old(b.optLen), b.staticLen - old(b.staticLen), tree[..], desc, leaves)
    ensures OnlyLengths(old(tree[..]), tree[..], leaves, desc.elems)
    ensures b.blCount[desc.maxLength] == 0 || Shallow(merges, desc.elems, desc.maxLength) ==>
              Unlimited(tree[..], merges, desc.elems, desc.maxLength)
  {
    hide Script, NodeAt, Linked, Passing, Lengthened, OnlyLengths, Unlimited, Overfull, LengthsBounded, Sum, EntrySum, Stats,
         Listed, Depths, Full, Shallow;
    ghost var opt0, stat0 := b.optLen, b.staticLen;
    NodesLinked(tree[..], merges, desc.elems);
    var overflow := FirstPass(b, tree, desc, maxCode, leaves, merges);
    ghost var full := AfterFirstPass(b.blCount[..], b.optLen - opt0, b.staticLen - stat0, overflow, tree[..],
                                     leaves, merges, desc);
    if overflow == 0 { return; }
    CutIsDeep(tree[..], leaves, merges, desc.elems, desc.maxLength);
    RepairOverflow(b, desc.maxLength, overflow, |leaves|, full);
    ghost var t1, opt1 := tree[..], b.optLen - opt0;
    HandOut(b, tree, desc, maxCode, |leaves|, leaves, merges);
    AfterHandOut(b.blCount[..], opt1, b.optLen - opt0, b.staticLen - stat0, t1, tree[..], leaves, merges, desc);
    OnlyLengthsTrans(old(tree[..]), t1, tree[..], leaves, desc.elems);
  }

  lemma NodesLinked(tree: seq<CtData>, merges: seq<(nat, nat)>, elems: nat)
    requires Linked(tree, merges, elems)
    ensures forall f :: 0 <= f < 2 * |merges| ==> NodeAt(merges, f) < |tree|
  {
  }

  lemma OnlyLengthsTrans(t0: seq<CtData>, t1: seq<CtData>, t2: seq<CtData>, leaves: set<nat>, elems: nat)
    requires OnlyLengths(t0, t1, leaves, elems) && OnlyLengths(t1, t2, leaves, elems)
    ensures OnlyLengths(t0, t2, leaves, elems)
  {
  }

  // ---------- The end of the merges ----------

  lemma LastLive(leaves: set<nat>, merges: seq<(nat, nat)>, elems: nat)
    requires |merges| >= 1
    ensures elems + |merges| - 1 in Live(leaves, merges, elems, |merges|)
  {
  }

  lemma HoldsOne(h: seq<nat>, s: set<nat>, x: nat)
    requires Holds(h, 1, s) && x in s
    ensures s == {x} && h[1] == x
  {
    var i := HoldsAll(h, 1, s, x);
    forall y | y in s
      ensures y == x
    {
      var j := HoldsAll(h, 1, s, y);
    }
  }

  /** With one node left the merges are complete and the list is in order. */
  lemma MergesComplete(heap: seq<nat>, tree: seq<CtData>, leaves: set<nat>, merges: seq<(nat, nat)>, elems: nat)
    requires Merging(heap, 1, tree, leaves, merges, elems) && |merges| >= 1
    requires Holds(heap, 1, Live(leaves, merges, elems, |merges|))
    ensures Script(leaves, merges, elems) && Linked(tree, merges, elems)
    ensures heap[1] == elems + |merges| - 1
    ensures forall e :: 0 <= e < 2 * |merges| ==> heap[HEAP_SIZE - 1 - e] == NodeAt(merges, e)
    ensures forall i :: 0 <= i < |merges| ==> GreedyAt(leaves, merges, elems, Freqs(tree), i)
  {
    hide Live, Holds, Sum;
    LastLive(leaves, merges, elems);
    HoldsOne(heap, Live(leaves, merges, elems, |merges|), elems + |merges| - 1);
    forall i | 0 <= i < |merges|
      ensures MergeAt(leaves, merges, elems, i) && GreedyAt(leaves, merges, elems, Freqs(tree), i)
    {
      assert OnRecord(heap, tree, leaves, merges, elems, i);
    }
    forall e | 0 <= e < 2 * |merges|
      ensures heap[HEAP_SIZE - 1 - e] == NodeAt(merges, e)
      ensures NodeAt(merges, e) < |tree| && tree[NodeAt(merges, e)].dl == elems + e / 2
    {
      EntryOnRecord(heap, tree, leaves, merges, elems, e);
    }
  }

  lemma EntryOnRecord(heap: seq<nat>, tree: seq<CtData>, leaves: set<nat>, merges: seq<(nat, nat)>, elems: nat, e: nat)
    requires |heap| == HEAP_SIZE && e < 2 * |merges| && |merges| <= L_CODES
    requires OnRecord(heap, tree, leaves, merges, elems, e / 2)
    ensures heap[HEAP_SIZE - 1 - e] == NodeAt(merges, e)
    ensures NodeAt(merges, e) < |tree| && tree[NodeAt(merges, e)].dl == elems + e / 2
  {
    hide Live;
    var i := e / 2;
    assert e == 2 * i || e == 2 * i + 1;
  }
}
