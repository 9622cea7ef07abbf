/** gen_bitlen: lengths from the finished tree, the repair of overlong ones, and the statistics. */
module TreeLengths {
  import opened Bits
  import opened Canonical
  import opened Huffman
  import opened TreeHeap
  import opened TreeMerge

  // ---------- The list of nodes: entry `e` stands at heap[HEAP_SIZE - 1 - e] ----------

  function NodeAt(merges: seq<(nat, nat)>, e: nat): nat
    requires e < 2 * |merges|
  {
    if e % 2 == 0 then merges[e / 2].0 else merges[e / 2].1
  }

  /** Entries are the nodes in the order of their merges, then the root. */
  ghost predicate Listed(heap: seq<nat>, merges: seq<(nat, nat)>, elems: nat) {
    && |heap| == HEAP_SIZE && 1 <= |merges| < L_CODES
    && (forall e :: 0 <= e < 2 * |merges| ==> heap[HEAP_SIZE - 1 - e] == NodeAt(merges, e))
    && heap[HEAP_SIZE - 1 - 2 * |merges|] == elems + |merges| - 1
  }

  lemma NodeBound(leaves: set<nat>, merges: seq<(nat, nat)>, elems: nat, e: nat)
    requires Script(leaves, merges, elems) && e < 2 * |merges|
    ensures NodeAt(merges, e) < elems + e / 2
    ensures NodeAt(merges, e) in Live(leaves, merges, elems, e / 2)
  {
    hide Live;
    assert MergeAt(leaves, merges, elems, e / 2);
    LiveBound(leaves, merges, elems, e / 2);
  }

  lemma NodesDistinct(leaves: set<nat>, merges: seq<(nat, nat)>, elems: nat, e: nat, f: nat)
    requires Script(leaves, merges, elems) && e < f < 2 * |merges|
    ensures NodeAt(merges, e) != NodeAt(merges, f)
  {
    hide Live;
    assert MergeAt(leaves, merges, elems, e / 2);
    NodeBound(leaves, merges, elems, f);
    if e / 2 < f / 2 {
      MergedIsGone(leaves, merges, elems, e / 2, f / 2);
    }
  }

  // ---------- Sums over entries that are leaves ----------

  function Term(merges: seq<(nat, nat)>, elems: nat, g: nat -> nat, e: nat): nat
    requires e < 2 * |merges|
  {
    if NodeAt(merges, e) < elems then g(NodeAt(merges, e)) else 0
  }

  /** The sum of `g` over the leaves among entries lo..hi. */
  ghost function EntrySum(merges: seq<(nat, nat)>, elems: nat, g: nat -> nat, lo: nat, hi: nat): nat
    requires lo <= hi <= 2 * |merges|
    decreases hi - lo
  {
    if lo == hi then 0 else Term(merges, elems, g, lo) + EntrySum(merges, elems, g, lo + 1, hi)
  }

  lemma {:induction false} EntrySumLast(merges: seq<(nat, nat)>, elems: nat, g: nat -> nat, lo: nat, hi: nat)
    requires lo < hi <= 2 * |merges|
    ensures EntrySum(merges, elems, g, lo, hi) == EntrySum(merges, elems, g, lo, hi - 1) + Term(merges, elems, g, hi - 1)
    decreases hi - lo
  {
    if lo + 1 < hi { EntrySumLast(merges, elems, g, lo + 1, hi); }
  }

  lemma {:induction false} EntrySumSplit(merges: seq<(nat, nat)>, elems: nat, g: nat -> nat, lo: nat, mid: nat, hi: nat)
    requires lo <= mid <= hi <= 2 * |merges|
    ensures EntrySum(merges, elems, g, lo, hi) == EntrySum(merges, elems, g, lo, mid) + EntrySum(merges, elems, g, mid, hi)
    decreases mid - lo
  {
    if lo < mid { EntrySumSplit(merges, elems, g, lo + 1, mid, hi); }
  }

  lemma {:induction false} EntrySumSame(merges: seq<(nat, nat)>, elems: nat, g: nat -> nat, h: nat -> nat, lo: nat, hi: nat)
    requires lo <= hi <= 2 * |merges|
    requires forall e :: lo <= e < hi ==> Term(merges, elems, g, e) == Term(merges, elems, h, e)
    ensures EntrySum(merges, elems, g, lo, hi) == EntrySum(merges, elems, h, lo, hi)
    decreases hi - lo
  {
    if lo < hi { EntrySumSame(merges, elems, g, h, lo + 1, hi); }
  }

  ghost function LiveLeavesAt(leaves: set<nat>, merges: seq<(nat, nat)>, elems: nat, k: nat): set<nat>
    requires k <= |merges|
  {
    set x | x in Live(leaves, merges, elems, k) && x < elems
  }

  /** Each leaf is listed exactly once: summing over entries is summing over leaves. */
  lemma EntriesAreLeaves(leaves: set<nat>, merges: seq<(nat, nat)>, elems: nat, g: nat -> nat)
    requires Script(leaves, merges, elems)
    ensures EntrySum(merges, elems, g, 0, 2 * |merges|) == Sum(leaves, g)
  {
    EntriesFrom(leaves, merges, elems, g, 0);
    assert LiveLeavesAt(leaves, merges, elems, 0) == leaves;
  }

  lemma {:induction false} EntriesFrom(leaves: set<nat>, merges: seq<(nat, nat)>, elems: nat, g: nat -> nat, k: nat)
    requires Script(leaves, merges, elems) && k <= |merges|
    ensures EntrySum(merges, elems, g, 2 * k, 2 * |merges|) == Sum(LiveLeavesAt(leaves, merges, elems, k), g)
    decreases |merges| - k
  {
    var s := LiveLeavesAt(leaves, merges, elems, k);
    if k == |merges| {
      assert s == {};
    } else {
      EntriesFrom(leaves, merges, elems, g, k + 1);
      var n, m := merges[k].0, merges[k].1;
      assert MergeAt(leaves, merges, elems, k);
      var s' := LiveLeavesAt(leaves, merges, elems, k + 1);
      assert s' == s - {n, m};
      EntryPair(merges, elems, g, k);
      DropPair(s, n, m, elems, g);
    }
  }

  lemma EntryPair(merges: seq<(nat, nat)>, elems: nat, g: nat -> nat, k: nat)
    requires k < |merges|
    ensures EntrySum(merges, elems, g, 2 * k, 2 * |merges|)
         == (if merges[k].0 < elems then g(merges[k].0) else 0) + (if merges[k].1 < elems then g(merges[k].1) else 0)
            + EntrySum(merges, elems, g, 2 * (k + 1), 2 * |merges|)
  {
    assert NodeAt(merges, 2 * k) == merges[k].0 && NodeAt(merges, 2 * k + 1) == merges[k].1;
    var hi := 2 * |merges|;
    assert EntrySum(merges, elems, g, 2 * k, hi) == Term(merges, elems, g, 2 * k) + EntrySum(merges, elems, g, 2 * k + 1, hi);
  }

  lemma DropPair(s: set<nat>, n: nat, m: nat, elems: nat, g: nat -> nat)
    requires n != m && (n in s <==> n < elems) && (m in s <==> m < elems)
    ensures Sum(s, g) == (if n < elems then g(n) else 0) + (if m < elems then g(m) else 0) + Sum(s - {n, m}, g)
  {
    hide Sum;
    if n < elems { SumRemove(s, n, g); }
    var s1 := s - {n};
    assert n >= elems ==> s1 == s;
    if m < elems { SumRemove(s1, m, g); }
    assert s1 - {m} == s - {n, m};
    assert m >= elems ==> s1 == s - {n, m};
  }

  // ---------- First pass: every node one deeper than its father, up to the cap ----------

  /** Entries from `j` on have their length, the others still name their father. */
  ghost predicate PassedTo(tree: seq<CtData>, merges: seq<(nat, nat)>, elems: nat, cap: nat, j: nat) {
    && 1 <= |merges| && elems + |merges| <= |tree| && j <= 2 * |merges|
    && (forall e :: 0 <= e < 2 * |merges| ==> NodeAt(merges, e) < |tree|)
    && tree[elems + |merges| - 1].dl == 0
    && (forall e :: j <= e < 2 * |merges| ==> tree[NodeAt(merges, e)].dl == Capped(tree[elems + e / 2].dl + 1, cap))
    && (forall e :: 0 <= e < j ==> tree[NodeAt(merges, e)].dl == elems + e / 2)
  }

  /** How many nodes among the entries from `j` on were cut off at the cap. */
  ghost function CutOff(tree: seq<CtData>, merges: seq<(nat, nat)>, elems: nat, cap: nat, j: nat): nat
    requires j <= 2 * |merges| && elems + |merges| <= |tree|
    decreases 2 * |merges| - j
  {
    if j == 2 * |merges| then 0
    else (if tree[elems + j / 2].dl >= cap then 1 else 0) + CutOff(tree, merges, elems, cap, j + 1)
  }

  function Dls(tree: seq<CtData>): (r: seq<nat>)
    ensures |r| == |tree|
  {
    seq(|tree|, i requires 0 <= i < |tree| => tree[i].dl)
  }

  lemma {:induction false} CutOffIsFull(tree: seq<CtData>, merges: seq<(nat, nat)>, elems: nat, cap: nat, k: nat)
    requires k <= |merges| && elems + |merges| <= |tree|
    ensures CutOff(tree, merges, elems, cap, 2 * k) == 2 * Full(merges, elems, Dls(tree), cap, k)
    decreases |merges| - k
  {
    if k < |merges| {
      CutOffIsFull(tree, merges, elems, cap, k + 1);
      assert CutOff(tree, merges, elems, cap, 2 * k)
          == (if tree[elems + k].dl >= cap then 1 else 0) + CutOff(tree, merges, elems, cap, 2 * k + 1);
    }
  }

  lemma {:induction false} CutOffSame(tree: seq<CtData>, tree': seq<CtData>, merges: seq<(nat, nat)>, elems: nat, cap: nat, j: nat)
    requires j <= 2 * |merges| && elems + |merges| <= |tree| == |tree'|
    requires forall x :: elems + j / 2 <= x < elems + |merges| ==> tree'[x].dl == tree[x].dl
    ensures CutOff(tree', merges, elems, cap, j) == CutOff(tree, merges, elems, cap, j)
    decreases 2 * |merges| - j
  {
    if j < 2 * |merges| { CutOffSame(tree, tree', merges, elems, cap, j + 1); }
  }

  /** Giving entry `j - 1` its length. */
  lemma PassStep(tree: seq<CtData>, tree': seq<CtData>, leaves: set<nat>, merges: seq<(nat, nat)>, elems: nat, cap: nat, j: nat)
    requires Script(leaves, merges, elems) && PassedTo(tree, merges, elems, cap, j) && 1 <= j
    requires var n := NodeAt(merges, j - 1);
             tree' == tree[n := tree[n].(dl := Capped(tree[elems + (j - 1) / 2].dl + 1, cap))]
    ensures PassedTo(tree', merges, elems, cap, j - 1)
    ensures forall x :: elems + (j - 1) / 2 <= x < elems + |merges| ==> tree'[x].dl == tree[x].dl
    ensures forall e :: 0 <= e < 2 * |merges| && e != j - 1 ==> tree'[NodeAt(merges, e)] == tree[NodeAt(merges, e)]
  {
    hide Script, NodeAt, Capped;
    var n := NodeAt(merges, j - 1);
    NodeBound(leaves, merges, elems, j - 1);
    forall e | 0 <= e < 2 * |merges| && e != j - 1
      ensures NodeAt(merges, e) != n
    {
      if e < j - 1 {
        NodesDistinct(leaves, merges, elems, e, j - 1);
      } else {
        NodesDistinct(leaves, merges, elems, j - 1, e);
      }
    }
  }

  lemma PassedIsDepths(tree: seq<CtData>, merges: seq<(nat, nat)>, elems: nat, cap: nat)
    requires PassedTo(tree, merges, elems, cap, 0)
    ensures Depths(merges, elems, Dls(tree), cap)
  {
    forall k | 0 <= k < |merges|
      ensures DepthAt(merges, elems, Dls(tree), cap, k)
    {
      assert NodeAt(merges, 2 * k) == merges[k].0 && NodeAt(merges, 2 * k + 1) == merges[k].1;
    }
  }

  // ---------- Statistics and costs ----------

  datatype Desc = Desc(
    staticTree: Option<seq<CtData>>,  // the corresponding static tree, if there is one
    extraBits: seq<nat>,
    extraBase: nat,
    elems: nat,
    maxLength: nat)
  {
    ghost predicate Valid() {
      && 3 <= elems <= L_CODES && 1 <= maxLength <= MAX_BITS && elems <= Pow2(maxLength)
      && elems <= extraBase + |extraBits|
      && (forall n :: 0 <= n < 3 ==> ExtraBits(n) == 0)
      && (staticTree.Some? ==> elems <= |staticTree.value|)
    }

    function ExtraBits(n: nat): nat {
      if extraBase <= n < extraBase + |extraBits| then extraBits[n - extraBase] else 0
    }

    function StaticLen(n: nat): nat {
      if staticTree.Some? && n < |staticTree.value| then staticTree.value[n].dl else 0
    }
  }

  function LenIs(tree: seq<CtData>, bits: nat): nat -> nat {
    (x: nat) => if x < |tree| && tree[x].dl == bits then 1 else 0
  }

  /** What the occurrences of a symbol cost with the tree's own lengths. */
  function DynCost(tree: seq<CtData>, desc: Desc): nat -> nat {
    (x: nat) => if x < |tree| then tree[x].fc * (tree[x].dl + desc.ExtraBits(x)) else 0
  }

  /** What they cost with the lengths of the static tree. */
  function FixedCost(tree: seq<CtData>, desc: Desc): nat -> nat {
    (x: nat) => if x < |tree| && desc.staticTree.Some? then tree[x].fc * (desc.StaticLen(x) + desc.ExtraBits(x)) else 0
  }

  /** bl_count[] counts the leaves among entries lo..hi by their length. */
  ghost predicate Stats(blCount: seq<nat>, tree: seq<CtData>, merges: seq<(nat, nat)>, elems: nat, lo: nat, hi: nat) {
    && |blCount| == MAX_BITS + 1 && lo <= hi <= 2 * |merges|
    && forall bits :: 0 <= bits <= MAX_BITS ==> blCount[bits] == EntrySum(merges, elems, LenIs(tree, bits), lo, hi)
  }

  /** Entries other than the one given a length keep theirs. */
  ghost predicate OthersKept(tree: seq<CtData>, tree': seq<CtData>, merges: seq<(nat, nat)>, j: nat) {
    && |tree'| == |tree|
    && (forall e :: 0 <= e < 2 * |merges| ==> NodeAt(merges, e) < |tree|)
    && (forall e :: 0 <= e < 2 * |merges| && e != j ==> tree'[NodeAt(merges, e)] == tree[NodeAt(merges, e)])
  }

  lemma StatsStep(blCount: seq<nat>, blCount': seq<nat>, tree: seq<CtData>, tree': seq<CtData>,
                  merges: seq<(nat, nat)>, elems: nat, j: nat)
    requires 1 <= j && Stats(blCount, tree, merges, elems, j, 2 * |merges|) && OthersKept(tree, tree', merges, j - 1)
    requires var n := NodeAt(merges, j - 1);
             && tree'[n].dl <= MAX_BITS
             && blCount' == if n < elems then blCount[tree'[n].dl := blCount[tree'[n].dl] + 1] else blCount
    ensures Stats(blCount', tree', merges, elems, j - 1, 2 * |merges|)
  {
    hide NodeAt;
    forall bits | 0 <= bits <= MAX_BITS
      ensures blCount'[bits] == EntrySum(merges, elems, LenIs(tree', bits), j - 1, 2 * |merges|)
    {
      EntrySumSame(merges, elems, LenIs(tree, bits), LenIs(tree', bits), j, 2 * |merges|);
    }
  }

  lemma CostStep(tree: seq<CtData>, tree': seq<CtData>, merges: seq<(nat, nat)>, desc: Desc, j: nat)
    requires 1 <= j <= 2 * |merges| && OthersKept(tree, tree', merges, j - 1)
    ensures EntrySum(merges, desc.elems, DynCost(tree', desc), j - 1, 2 * |merges|)
         == Term(merges, desc.elems, DynCost(tree', desc), j - 1)
            + EntrySum(merges, desc.elems, DynCost(tree, desc), j, 2 * |merges|)
    ensures EntrySum(merges, desc.elems, FixedCost(tree', desc), j - 1, 2 * |merges|)
         == Term(merges, desc.elems, FixedCost(tree', desc), j - 1)
            + EntrySum(merges, desc.elems, FixedCost(tree, desc), j, 2 * |merges|)
  {
    hide NodeAt;
    EntrySumSame(merges, desc.elems, DynCost(tree, desc), DynCost(tree', desc), j, 2 * |merges|);
    EntrySumSame(merges, desc.elems, FixedCost(tree, desc), FixedCost(tree', desc), j, 2 * |merges|);
  }
}
