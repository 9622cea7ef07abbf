/** The end of gen_bitlen: after a repair, lengths are handed out again, scanning the list of nodes
    by increasing frequency. */
module Reassign {
  import opened Canonical
  import opened Huffman
  import opened TreeHeap
  import opened TreeMerge
  import opened TreeLengths
  import opened GenBitlen
  import opened LengthRepair

  function One(): nat -> nat {
    (x: nat) => 1
  }

  /** How many visited leaves have length `k`, with `n` codes of length `bits` still to give out. */
  function Target(bl: seq<nat>, k: nat, bits: nat, n: nat): int
    requires k < |bl|
  {
    if k > bits then bl[k] else if k == bits then bl[k] - n else 0
  }

  ghost predicate Counted(bl: seq<nat>, tree: seq<CtData>, merges: seq<(nat, nat)>, elems: nat, e: nat, bits: nat, n: nat) {
    && |bl| == MAX_BITS + 1 && e <= 2 * |merges|
    && forall k :: 0 <= k <= MAX_BITS ==> EntrySum(merges, elems, LenIs(tree, k), 0, e) == Target(bl, k, bits, n)
  }

  /** The first `e` entries have been visited. */
  ghost predicate Reassigning(bl: seq<nat>, t0: seq<CtData>, tree: seq<CtData>, delta: int, merges: seq<(nat, nat)>,
                              desc: Desc, total: nat, e: nat, bits: nat, n: nat) {
    && |tree| == |t0| && e <= 2 * |merges| && 1 <= bits <= MAX_BITS && |bl| == MAX_BITS + 1 && n <= bl[bits]
    && (forall f :: 0 <= f < 2 * |merges| ==> NodeAt(merges, f) < |tree|)
    && (forall f :: e <= f < 2 * |merges| ==> tree[NodeAt(merges, f)] == t0[NodeAt(merges, f)])
    && Counted(bl, tree, merges, desc.elems, e, bits, n)
    && delta + EntrySum(merges, desc.elems, DynCost(t0, desc), 0, e) == EntrySum(merges, desc.elems, DynCost(tree, desc), 0, e)
    && EntrySum(merges, desc.elems, One(), 0, e) + n + BlTotal(bl, bits - 1) == total
  }

  ghost predicate LenSumStep(tree: seq<CtData>, tree': seq<CtData>, merges: seq<(nat, nat)>, elems: nat, e: nat, k: nat)
    requires e < 2 * |merges|
  {
    EntrySum(merges, elems, LenIs(tree', k), 0, e + 1)
    == EntrySum(merges, elems, LenIs(tree, k), 0, e) + Term(merges, elems, LenIs(tree', k), e)
  }

  /** Changing entry `e` does not touch the sums over the entries before it. */
  lemma SumsBefore(tree: seq<CtData>, tree': seq<CtData>, merges: seq<(nat, nat)>, desc: Desc, e: nat)
    requires e < 2 * |merges| && OthersKept(tree, tree', merges, e)
    ensures forall k :: 0 <= k <= MAX_BITS ==> LenSumStep(tree, tree', merges, desc.elems, e, k)
    ensures EntrySum(merges, desc.elems, DynCost(tree', desc), 0, e + 1)
         == EntrySum(merges, desc.elems, DynCost(tree, desc), 0, e) + Term(merges, desc.elems, DynCost(tree', desc), e)
  {
    hide NodeAt, EntrySum;
    forall k | 0 <= k <= MAX_BITS
      ensures LenSumStep(tree, tree', merges, desc.elems, e, k)
    {
      EntrySumLast(merges, desc.elems, LenIs(tree', k), 0, e + 1);
      EntrySumSame(merges, desc.elems, LenIs(tree, k), LenIs(tree', k), 0, e);
    }
    EntrySumLast(merges, desc.elems, DynCost(tree', desc), 0, e + 1);
    EntrySumSame(merges, desc.elems, DynCost(tree, desc), DynCost(tree', desc), 0, e);
  }

  lemma EntryKept(tree: seq<CtData>, leaves: set<nat>, merges: seq<(nat, nat)>, elems: nat, e: nat, bits: nat)
    requires Script(leaves, merges, elems) && e < 2 * |merges|
    requires forall f :: 0 <= f < 2 * |merges| ==> NodeAt(merges, f) < |tree|
    ensures var x := NodeAt(merges, e); OthersKept(tree, tree[x := tree[x].(dl := bits)], merges, e)
  {
    hide Script, NodeAt;
    forall f | 0 <= f < 2 * |merges| && f != e
      ensures NodeAt(merges, f) != NodeAt(merges, e)
    {
      if f < e { NodesDistinct(leaves, merges, elems, f, e); } else { NodesDistinct(leaves, merges, elems, e, f); }
    }
  }

  /** Visiting entry `e`: a leaf takes the next length, an inner node is passed over. */
  lemma VisitStep(bl: seq<nat>, t0: seq<CtData>, tree: seq<CtData>, tree': seq<CtData>, delta: int, delta': int,
                  leaves: set<nat>, merges: seq<(nat, nat)>, desc: Desc, total: nat, e: nat, bits: nat, n: nat)
    requires Script(leaves, merges, desc.elems) && e < 2 * |merges| && n > 0
    requires Reassigning(bl, t0, tree, delta, merges, desc, total, e, bits, n)
    requires var x := NodeAt(merges, e);
             if x < desc.elems
             then tree' == tree[x := tree[x].(dl := bits)] && delta' == delta + (bits - tree[x].dl) * tree[x].fc
             else tree' == tree && delta' == delta
    ensures Reassigning(bl, t0, tree', delta', merges, desc, total, e + 1, bits,
                        if NodeAt(merges, e) < desc.elems then n - 1 else n)
  {
    hide Script, NodeAt, EntrySum, BlTotal;
    var x := NodeAt(merges, e);
    EntryKept(tree, leaves, merges, desc.elems, e, bits);
    assert OthersKept(tree, tree', merges, e);
    SumsBefore(tree, tree', merges, desc, e);
    EntrySumLast(merges, desc.elems, One(), 0, e + 1);
    EntrySumLast(merges, desc.elems, DynCost(t0, desc), 0, e + 1);
    var n' := if x < desc.elems then n - 1 else n;
    forall k | 0 <= k <= MAX_BITS
      ensures EntrySum(merges, desc.elems, LenIs(tree', k), 0, e + 1) == Target(bl, k, bits, n')
    {
      assert LenSumStep(tree, tree', merges, desc.elems, e, k);
    }
    if x < desc.elems {
      CostChange(tree[x].fc, tree[x].dl, bits, desc.ExtraBits(x));
    }
  }

  lemma CostChange(f: nat, l: nat, bits: nat, x: nat)
    ensures (bits - l) * f + f * (l + x) == f * (bits + x)
  {
  }

  lemma NextLength(bl: seq<nat>, t0: seq<CtData>, tree: seq<CtData>, delta: int, merges: seq<(nat, nat)>, desc: Desc,
                   total: nat, e: nat, bits: nat)
    requires Reassigning(bl, t0, tree, delta, merges, desc, total, e, bits, 0) && bits > 1
    ensures Reassigning(bl, t0, tree, delta, merges, desc, total, e, bits - 1, bl[bits - 1])
  {
    hide EntrySum, NodeAt;
  }

  lemma {:induction false} NoLeavesLeft(merges: seq<(nat, nat)>, elems: nat, g: nat -> nat, lo: nat, hi: nat)
    requires lo <= hi <= 2 * |merges| && EntrySum(merges, elems, One(), lo, hi) == 0
    ensures EntrySum(merges, elems, g, lo, hi) == 0
    decreases hi - lo
  {
    if lo < hi { NoLeavesLeft(merges, elems, g, lo + 1, hi); }
  }

  /** When the last length is given out, the statistics describe the tree. */
  lemma ReassignDone(bl: seq<nat>, t0: seq<CtData>, tree: seq<CtData>, delta: int, merges: seq<(nat, nat)>, desc: Desc,
                     total: nat, e: nat)
    requires Reassigning(bl, t0, tree, delta, merges, desc, total, e, 1, 0) && bl[0] == 0
    requires EntrySum(merges, desc.elems, One(), 0, 2 * |merges|) == total
    ensures Stats(bl, tree, merges, desc.elems, 0, 2 * |merges|)
    ensures delta + EntrySum(merges, desc.elems, DynCost(t0, desc), 0, 2 * |merges|)
         == EntrySum(merges, desc.elems, DynCost(tree, desc), 0, 2 * |merges|)
  {
    hide EntrySum, NodeAt;
    var hi, elems := 2 * |merges|, desc.elems;
    BlTotalZero(bl);
    EntrySumSplit(merges, elems, One(), 0, e, hi);
    forall k | 0 <= k <= MAX_BITS
      ensures bl[k] == EntrySum(merges, elems, LenIs(tree, k), 0, hi)
    {
      EntrySumSplit(merges, elems, LenIs(tree, k), 0, e, hi);
      NoLeavesLeft(merges, elems, LenIs(tree, k), e, hi);
    }
    EntrySumSplit(merges, elems, DynCost(t0, desc), 0, e, hi);
    NoLeavesLeft(merges, elems, DynCost(t0, desc), e, hi);
    EntrySumSplit(merges, elems, DynCost(tree, desc), 0, e, hi);
    NoLeavesLeft(merges, elems, DynCost(tree, desc), e, hi);
  }

  lemma BlTotalZero(bl: seq<nat>)
    requires |bl| > 0
    ensures BlTotal(bl, 0) == 0
  {
  }

  lemma ReassignStart(bl: seq<nat>, t0: seq<CtData>, merges: seq<(nat, nat)>, desc: Desc, total: nat)
    requires desc.Valid() && |bl| == MAX_BITS + 1 && forall f :: 0 <= f < 2 * |merges| ==> NodeAt(merges, f) < |t0|
    requires BlTotal(bl, desc.maxLength) == total && forall k :: desc.maxLength < k <= MAX_BITS ==> bl[k] == 0
    ensures Reassigning(bl, t0, t0, 0, merges, desc, total, 0, desc.maxLength, bl[desc.maxLength])
  {
    hide NodeAt;
  }

  ghost predicate LengthsBounded(tree: seq<CtData>, leaves: set<nat>) {
    forall x :: x in leaves ==> x < |tree| && tree[x].dl <= MAX_BITS
  }

  method HandOut(b: TreeBuilder, tree: array<CtData>, desc: Desc, maxCode: nat, ghost total: nat,
                 ghost leaves: set<nat>, ghost merges: seq<(nat, nat)>)
    requires b.Valid() && Ready(b.heap[..], b.heapMax, tree[..], desc, maxCode, leaves, merges)
    requires forall f :: 0 <= f < 2 * |merges| ==> NodeAt(merges, f) < tree.Length
    requires Overfull(b.blCount[..], desc.maxLength, total, 0)
    requires EntrySum(merges, desc.elems, One(), 0, 2 * |merges|) == total
    requires LengthsBounded(tree[..], leaves)
    modifies b`optLen, tree
    ensures LengthsBounded(tree[..], leaves)
    ensures Stats(b.blCount[..], tree[..], merges, desc.elems, 0, 2 * |merges|)
    ensures b.optLen - old(b.optLen) + EntrySum(merges, desc.elems, DynCost(old(tree[..]), desc), 0, 2 * |merges|)
         == EntrySum(merges, desc.elems, DynCost(tree[..], desc), 0, 2 * |merges|)
    ensures OnlyLengths(old(tree[..]), tree[..], leaves, desc.elems)
  {
    hide NodeAt, EntrySum, BlTotal, Script, Reassigning, OnlyLengths, Stats, BlKraft;
    ghost var t0, bl, opt0 := tree[..], b.blCount[..], b.optLen;
    var h := HEAP_SIZE;
    var bits := desc.maxLength;
    ReassignStart(bl, t0, merges, desc, total);
    OnlyLengthsRefl(t0, leaves, desc.elems);
    while true
      invariant 1 <= bits <= MAX_BITS && HEAP_SIZE - 2 * |merges| <= h <= HEAP_SIZE
      invariant Reassigning(bl, t0, tree[..], b.optLen - opt0, merges, desc, total, HEAP_SIZE - h, bits, bl[bits])
      invariant OnlyLengths(t0, tree[..], leaves, desc.elems) && LengthsBounded(tree[..], leaves)
      decreases bits
    {
      var n := b.blCount[bits];
      while n != 0
        invariant HEAP_SIZE - 2 * |merges| <= h <= HEAP_SIZE && n <= bl[bits]
        invariant Reassigning(bl, t0, tree[..], b.optLen - opt0, merges, desc, total, HEAP_SIZE - h, bits, n)
        invariant OnlyLengths(t0, tree[..], leaves, desc.elems) && LengthsBounded(tree[..], leaves)
        decreases h
      {
        ghost var e, t, delta, n0 := HEAP_SIZE - h, tree[..], b.optLen - opt0, n;
        EntryLeft(bl, t0, t, delta, merges, desc, total, e, bits, n);
        LeafTest(leaves, merges, desc.elems, maxCode, e);
        h := h - 1;
        assert b.heap[..][HEAP_SIZE - 1 - e] == NodeAt(merges, e);
        var m := b.heap[h];
        if m <= maxCode {
          GiveLength(b, tree, m, bits);
          OnlyLength(t0, t, leaves, desc.elems, m, bits);
          n := n - 1;
        }
        VisitStep(bl, t0, t, tree[..], delta, b.optLen - opt0, leaves, merges, desc, total, e, bits, n0);
      }
      if bits == 1 { break; }
      NextLength(bl, t0, tree[..], b.optLen - opt0, merges, desc, total, HEAP_SIZE - h, bits);
      bits := bits - 1;
    }
    ReassignDone(bl, t0, tree[..], b.optLen - opt0, merges, desc, total, HEAP_SIZE - h);
  }

  lemma OnlyLengthsRefl(t: seq<CtData>, leaves: set<nat>, elems: nat)
    requires elems <= |t|
    ensures OnlyLengths(t, t, leaves, elems)
  {
  }

  lemma EntryLeft(bl: seq<nat>, t0: seq<CtData>, tree: seq<CtData>, delta: int, merges: seq<(nat, nat)>, desc: Desc,
                  total: nat, e: nat, bits: nat, n: nat)
    requires Reassigning(bl, t0, tree, delta, merges, desc, total, e, bits, n) && n > 0
    requires EntrySum(merges, desc.elems, One(), 0, 2 * |merges|) == total
    ensures e < 2 * |merges| && NodeAt(merges, e) < |tree|
  {
    hide NodeAt, BlTotal;
  }

  method GiveLength(b: TreeBuilder, tree: array<CtData>, m: nat, bits: nat)
    requires m < tree.Length
    modifies b`optLen, tree
    ensures tree[..] == old(tree[..])[m := old(tree[m]).(dl := bits)]
    ensures b.optLen == old(b.optLen) + (bits - old(tree[m]).dl) * old(tree[m]).fc
  {
    if tree[m].dl != bits {
      b.optLen := b.optLen + (bits - tree[m].dl) * tree[m].fc;
      tree[m] := tree[m].(dl := bits);
    }
  }
}
