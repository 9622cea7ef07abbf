/** The middle of build_tree: combining the two rarest nodes until one is left, while the nodes
    taken out are listed at the far end of the heap's own array. */
module TreeMerge {
  import opened Canonical
  import opened Huffman
  import opened TreeHeap

  function Freqs(tree: seq<CtData>): (w: seq<nat>)
    ensures |w| == |tree|
  {
    seq(|tree|, i requires 0 <= i < |tree| => tree[i].fc)
  }

  function FreqOf(tree: seq<CtData>): nat -> nat {
    (x: nat) => if x < |tree| then tree[x].fc else 0
  }

  /** What is on record about merge `i`: it took the two rarest nodes, they are listed at the end
      of the heap array, and both name the new node as their father. */
  ghost predicate OnRecord(heap: seq<nat>, tree: seq<CtData>, leaves: set<nat>, merges: seq<(nat, nat)>, elems: nat, i: nat)
    requires i < |merges| <= L_CODES && |heap| == HEAP_SIZE
  {
    && MergeAt(leaves, merges, elems, i)
    && GreedyAt(leaves, merges, elems, Freqs(tree), i)
    && heap[HEAP_SIZE - 1 - 2 * i] == merges[i].0 && heap[HEAP_SIZE - 2 - 2 * i] == merges[i].1
    && tree[merges[i].0].dl == elems + i && tree[merges[i].1].dl == elems + i
  }

  ghost predicate Merging(heap: seq<nat>, len: nat, tree: seq<CtData>, leaves: set<nat>, merges: seq<(nat, nat)>, elems: nat) {
    && |heap| == HEAP_SIZE && elems <= L_CODES && 2 * elems < |tree|
    && 1 <= len && len + |merges| == |leaves| <= elems
    && (forall x :: x in leaves ==> x < elems)
    && Sum(Live(leaves, merges, elems, |merges|), FreqOf(tree)) < 0x10000
    && forall i :: 0 <= i < |merges| ==> OnRecord(heap, tree, leaves, merges, elems, i)
  }

  /** Merging changes neither the leaves' frequencies nor the unused symbols. */
  ghost predicate LeavesKept(tree: seq<CtData>, tree': seq<CtData>, leaves: set<nat>, elems: nat) {
    && |tree'| == |tree| && elems <= |tree|
    && forall x :: 0 <= x < elems ==> tree'[x].fc == tree[x].fc && (x in leaves || tree'[x].dl == tree[x].dl)
  }

  lemma {:induction false} LivePrefix(leaves: set<nat>, merges: seq<(nat, nat)>, x: (nat, nat), elems: nat, k: nat)
    requires k <= |merges|
    ensures Live(leaves, merges + [x], elems, k) == Live(leaves, merges, elems, k)
  {
    if k > 0 { LivePrefix(leaves, merges, x, elems, k - 1); }
  }

  /** A node once merged never comes back. */
  lemma {:induction false} MergedIsGone(leaves: set<nat>, merges: seq<(nat, nat)>, elems: nat, i: nat, k: nat)
    requires i < k <= |merges| && (forall x :: x in leaves ==> x < elems) && MergeAt(leaves, merges, elems, i)
    ensures merges[i].0 !in Live(leaves, merges, elems, k)
    ensures merges[i].1 !in Live(leaves, merges, elems, k)
  {
    LiveBound(leaves, merges, elems, i);
    if i < k - 1 {
      MergedIsGone(leaves, merges, elems, i, k - 1);
    }
  }

  lemma SumPair(s: set<nat>, a: nat, b: nat, g: nat -> nat)
    requires a in s && b in s && a != b
    ensures g(a) + g(b) <= Sum(s, g)
  {
    SumRemove2(s, a, b, g);
  }

  /** The tree after its nodes `n` and `m` got `node` as their father. */
  function Joined(tree: seq<CtData>, node: nat, n: nat, m: nat): (r: seq<CtData>)
    requires node < |tree| && n < |tree| && m < |tree| && n != m && n != node && m != node
    ensures |r| == |tree|
    ensures forall x :: 0 <= x < |tree| && x != node ==> r[x].fc == tree[x].fc
    ensures forall x :: 0 <= x < |tree| && x != n && x != m ==> r[x].dl == tree[x].dl
    ensures r[n].dl == node && r[m].dl == node && r[node].fc == (tree[n].fc + tree[m].fc) % 0x10000
  {
    tree[node := tree[node].(fc := (tree[n].fc + tree[m].fc) % 0x10000)][n := tree[n].(dl := node)][m := tree[m].(dl := node)]
  }

  lemma RecordKept(heap: seq<nat>, heap': seq<nat>, tree: seq<CtData>, tree': seq<CtData>,
                   leaves: set<nat>, merges: seq<(nat, nat)>, elems: nat, n: nat, m: nat, i: nat)
    requires |heap| == |heap'| == HEAP_SIZE && i < |merges| < L_CODES
    requires forall x :: x in leaves ==> x < elems
    requires elems + |merges| < |tree|
    requires n in Live(leaves, merges, elems, |merges|) && m in Live(leaves, merges, elems, |merges|) && n != m
    requires n < elems + |merges| && m < elems + |merges|
    requires tree' == Joined(tree, elems + |merges|, n, m)
    requires forall j :: HEAP_SIZE - 2 * |merges| <= j < HEAP_SIZE ==> heap'[j] == heap[j]
    requires OnRecord(heap, tree, leaves, merges, elems, i)
    ensures OnRecord(heap', tree', leaves, merges + [(n, m)], elems, i)
  {
    var k := |merges|;
    LivePrefix(leaves, merges, (n, m), elems, i);
    MergedIsGone(leaves, merges, elems, i, k);
    LiveBound(leaves, merges, elems, i);
    assert (merges + [(n, m)])[i] == merges[i];
    var w, w' := Freqs(tree), Freqs(tree');
    assert forall x :: 0 <= x < |tree| && x != elems + k ==> w'[x] == w[x];
  }

  /** One round of the loop, on values. */
  lemma MergeStep(heap: seq<nat>, heap': seq<nat>, len: nat, tree: seq<CtData>, tree': seq<CtData>,
                  leaves: set<nat>, merges: seq<(nat, nat)>, elems: nat, n: nat, m: nat)
    requires Merging(heap, len, tree, leaves, merges, elems) && len >= 2 && |heap'| == HEAP_SIZE
    requires Rarest(Live(leaves, merges, elems, |merges|), Freqs(tree), n, m)
    requires n < elems + |merges| && m < elems + |merges|
    requires tree' == Joined(tree, elems + |merges|, n, m)
    requires forall j :: HEAP_SIZE - 2 * |merges| <= j < HEAP_SIZE ==> heap'[j] == heap[j]
    requires heap'[HEAP_SIZE - 1 - 2 * |merges|] == n && heap'[HEAP_SIZE - 2 - 2 * |merges|] == m
    ensures Merging(heap', len - 1, tree', leaves, merges + [(n, m)], elems)
    ensures Live(leaves, merges + [(n, m)], elems, |merges| + 1)
         == Live(leaves, merges, elems, |merges|) - {n, m} + {elems + |merges|}
    ensures LeavesKept(tree, tree', leaves, elems)
  {
    hide OnRecord, Sum, Freqs, FreqOf, Joined, Live, LeavesKept;
    LiveStep(leaves, merges, (n, m), elems);
    KeptStep(tree, tree', leaves, merges, elems, n, m);
    SumStep(tree, tree', leaves, merges, elems, n, m);
    forall i | 0 <= i < |merges| + 1
      ensures OnRecord(heap', tree', leaves, merges + [(n, m)], elems, i)
    {
      RecordStep(heap, heap', tree, tree', leaves, merges, elems, n, m, i);
    }
  }

  lemma LiveStep(leaves: set<nat>, merges: seq<(nat, nat)>, x: (nat, nat), elems: nat)
    ensures Live(leaves, merges + [x], elems, |merges| + 1)
         == Live(leaves, merges, elems, |merges|) - {x.0, x.1} + {elems + |merges|}
  {
    LivePrefix(leaves, merges, x, elems, |merges|);
  }

  lemma KeptStep(tree: seq<CtData>, tree': seq<CtData>, leaves: set<nat>, merges: seq<(nat, nat)>, elems: nat, n: nat, m: nat)
    requires elems + |merges| < |tree| && n != m && n < elems + |merges| && m < elems + |merges|
    requires n in Live(leaves, merges, elems, |merges|) && m in Live(leaves, merges, elems, |merges|)
    requires tree' == Joined(tree, elems + |merges|, n, m)
    ensures LeavesKept(tree, tree', leaves, elems)
  {
    hide Joined, Live;
    LiveLeaves(leaves, merges, elems, |merges|);
  }

  lemma SumStep(tree: seq<CtData>, tree': seq<CtData>, leaves: set<nat>, merges: seq<(nat, nat)>, elems: nat, n: nat, m: nat)
    requires elems + |merges| < |tree| && n != m && n < elems + |merges| && m < elems + |merges|
    requires forall x :: x in leaves ==> x < elems
    requires n in Live(leaves, merges, elems, |merges|) && m in Live(leaves, merges, elems, |merges|)
    requires Sum(Live(leaves, merges, elems, |merges|), FreqOf(tree)) < 0x10000
    requires tree' == Joined(tree, elems + |merges|, n, m)
    ensures Sum(Live(leaves, merges, elems, |merges|) - {n, m} + {elems + |merges|}, FreqOf(tree')) < 0x10000
  {
    hide Sum, Live, Joined;
    var s, node := Live(leaves, merges, elems, |merges|), elems + |merges|;
    LiveBound(leaves, merges, elems, |merges|);
    SumPair(s, n, m, FreqOf(tree));
    JoinTerms(s, n, m, node, FreqOf(tree), FreqOf(tree'));
  }

  lemma RecordStep(heap: seq<nat>, heap': seq<nat>, tree: seq<CtData>, tree': seq<CtData>,
                   leaves: set<nat>, merges: seq<(nat, nat)>, elems: nat, n: nat, m: nat, i: nat)
    requires |heap| == |heap'| == HEAP_SIZE && i <= |merges| < L_CODES && elems + |merges| < |tree|
    requires forall x :: x in leaves ==> x < elems
    requires Rarest(Live(leaves, merges, elems, |merges|), Freqs(tree), n, m)
    requires Sum(Live(leaves, merges, elems, |merges|), FreqOf(tree)) < 0x10000
    requires n < elems + |merges| && m < elems + |merges|
    requires tree' == Joined(tree, elems + |merges|, n, m)
    requires forall j :: HEAP_SIZE - 2 * |merges| <= j < HEAP_SIZE ==> heap'[j] == heap[j]
    requires heap'[HEAP_SIZE - 1 - 2 * |merges|] == n && heap'[HEAP_SIZE - 2 - 2 * |merges|] == m
    requires i < |merges| ==> OnRecord(heap, tree, leaves, merges, elems, i)
    ensures OnRecord(heap', tree', leaves, merges + [(n, m)], elems, i)
  {
    hide Live, Freqs, FreqOf, Sum, OnRecord, Joined;
    if i < |merges| {
      RecordKept(heap, heap', tree, tree', leaves, merges, elems, n, m, i);
    } else {
      RecordNew(heap', tree, tree', leaves, merges, elems, n, m);
    }
  }

  lemma RecordNew(heap': seq<nat>, tree: seq<CtData>, tree': seq<CtData>,
                  leaves: set<nat>, merges: seq<(nat, nat)>, elems: nat, n: nat, m: nat)
    requires |heap'| == HEAP_SIZE && |merges| < L_CODES && elems + |merges| < |tree|
    requires forall x :: x in leaves ==> x < elems
    requires Rarest(Live(leaves, merges, elems, |merges|), Freqs(tree), n, m)
    requires Sum(Live(leaves, merges, elems, |merges|), FreqOf(tree)) < 0x10000
    requires n < elems + |merges| && m < elems + |merges|
    requires tree' == Joined(tree, elems + |merges|, n, m)
    requires heap'[HEAP_SIZE - 1 - 2 * |merges|] == n && heap'[HEAP_SIZE - 2 - 2 * |merges|] == m
    ensures OnRecord(heap', tree', leaves, merges + [(n, m)], elems, |merges|)
  {
    hide Sum, Live, Joined;
    var k := |merges|;
    var s := Live(leaves, merges, elems, k);
    LivePrefix(leaves, merges, (n, m), elems, k);
    LiveBound(leaves, merges, elems, k);
    SumPair(s, n, m, FreqOf(tree));
    var w, w' := Freqs(tree), Freqs(tree');
    assert forall x :: x in s ==> w'[x] == w[x];
  }

  /** Heap order of the remaining nodes does not depend on the new one. */
  lemma OrderKept(h: seq<nat>, h': seq<nat>, len: nat, s: set<nat>, tree: seq<CtData>, tree': seq<CtData>,
                  depth: seq<nat>, depth': seq<nat>, node: nat)
    requires HeapFrom(h, len, 1, tree, depth) && Holds(h, len, s) && node !in s && len >= 1
    requires |h'| == |h| && |tree'| == |tree| && |depth'| == |depth| && node < |tree| && node < |depth|
    requires forall i :: 2 <= i <= len ==> h'[i] == h[i]
    requires h'[1] == node
    requires forall x :: 0 <= x < |tree| && x != node ==> tree'[x].fc == tree[x].fc
    requires forall x :: 0 <= x < |depth| && x != node ==> depth'[x] == depth[x]
    ensures HeapFrom(h', len, 2, tree', depth')
  {
    forall i | 1 <= i <= len
      ensures h[i] != node
    {
      HoldsMember(h, len, s, i);
    }
    forall i | 2 <= i <= len
      ensures SonsAt(h', len, i, tree', depth')
    {
      assert SonsAt(h, len, i, tree, depth);
    }
  }

  class TreeBuilder {
    const heap: array<nat>     // HEAP_SIZE entries
    const depth: array<nat>    // HEAP_SIZE entries
    const blCount: array<nat>  // MAX_BITS + 1 entries
    var heapLen: nat
    var heapMax: nat
    var optLen: int
    var staticLen: int

    ghost predicate Valid() {
      && heap.Length == HEAP_SIZE && depth.Length == HEAP_SIZE && blCount.Length == MAX_BITS + 1
      && heap != depth && heap != blCount && depth != blCount
    }

    constructor ()
      ensures Valid() && fresh(heap) && fresh(depth) && fresh(blCount)
      ensures optLen == 0 && staticLen == 0
    {
      heap := new nat[HEAP_SIZE](i => 0);
      depth := new nat[HEAP_SIZE](i => 0);
      blCount := new nat[MAX_BITS + 1](i => 0);
      heapLen, heapMax, optLen, staticLen := 0, 0, 0, 0;
    }

    /** The heap is in order and holds `s`; the list of removed nodes is clear of it. */
    ghost predicate Queue(tree: seq<CtData>, s: set<nat>)
      reads this, heap, depth
    {
      && Valid() && 1 <= heapLen < heapMax <= HEAP_SIZE
      && HeapFrom(heap[..], heapLen, 1, tree, depth[..]) && Holds(heap[..], heapLen, s)
    }

    /** Take the rarest node out of the heap, find the next rarest, and list both. */
    method TakeRarest(tree: array<CtData>, ghost s: set<nat>) returns (n: nat, m: nat)
      requires Queue(tree[..], s) && 2 <= heapLen && heapLen + 2 <= heapMax
      modifies this`heapLen, this`heapMax, heap
      ensures heapLen == old(heapLen) - 1 && heapMax == old(heapMax) - 2
      ensures Queue(tree[..], s - {n}) && heap[1] == m
      ensures Rarest(s, Freqs(tree[..]), n, m) && n in s && m in s && n != m
      ensures heap[heapMax] == m && heap[heapMax + 1] == n
      ensures forall j :: old(heapMax) <= j < HEAP_SIZE ==> heap[j] == old(heap[j])
    {
      hide HeapFrom, Holds, Rarest, Freqs;
      ghost var len0 := heapLen;
      n, heapLen := PqRemove(heap, heapLen, tree[..], depth[..], s);
      ghost var h := heap[..];
      assert forall j :: heapMax <= j < HEAP_SIZE ==> h[j] == h[len0 + 1..][j - len0 - 1];
      TopIsRarest(h, heapLen, s - {n}, tree[..], depth[..]);
      RarestTwo(s, tree[..], n, h[1]);
      m := heap[1];
      heapMax := heapMax - 1;
      heap[heapMax] := n;
      heapMax := heapMax - 1;
      heap[heapMax] := m;
      SamePrefix(h, heap[..], heapLen, s - {n}, tree[..], depth[..]);
    }

    /** A new node over `n` and `m`, with their weights added, takes the place of `m` in the heap. */
    method PutFather(tree: array<CtData>, node: nat, n: nat, m: nat, ghost s: set<nat>)
      requires Queue(tree[..], s) && heap[1] == m && n < tree.Length && n < HEAP_SIZE && n != m
      requires node !in s && node != n && node != m && node < tree.Length && node < HEAP_SIZE && m < tree.Length && m < HEAP_SIZE
      modifies heap, depth, tree
      ensures tree[..] == old(Joined(tree[..], node, n, m))
      ensures Queue(tree[..], s - {m} + {node})
      ensures forall j :: heapLen < j < HEAP_SIZE ==> heap[j] == old(heap[j])
    {
      hide HeapFrom, Holds;
      ghost var h, t, d := heap[..], tree[..], depth[..];
      HoldsMember(h, heapLen, s, 1);
      tree[node] := tree[node].(fc := (tree[n].fc + tree[m].fc) % 0x10000);
      depth[node] := (if depth[n] > depth[m] then depth[n] + 1 else depth[m] + 1) % 256;
      tree[n] := tree[n].(dl := node);
      tree[m] := tree[m].(dl := node);
      assert tree[..] == Joined(t, node, n, m);
      heap[1] := node;
      assert heap[..] == h[1 := node];
      OrderKept(h, heap[..], heapLen, s, t, tree[..], d, depth[..], node);
      HoldsReplace(h, heapLen, s, 1, node);
      PqDownHeap(heap, heapLen, tree[..], depth[..], 1, s - {m} + {node});
      assert forall j :: heapLen < j < HEAP_SIZE ==> heap[j] == heap[heapLen + 1..][j - heapLen - 1];
    }

    /** Combine the two rarest nodes until one is left. */
    method Combine(tree: array<CtData>, elems: nat, ghost leaves: set<nat>) returns (ghost merges: seq<(nat, nat)>)
      requires Merging(heap[..], heapLen, tree[..], leaves, [], elems)
      requires Queue(tree[..], leaves) && heapLen >= 2 && heapMax == HEAP_SIZE
      modifies this`heapLen, this`heapMax, heap, depth, tree
      ensures |merges| == |leaves| - 1 && heapMax == HEAP_SIZE - 2 * |merges| && heapLen == 1
      ensures Merging(heap[..], heapLen, tree[..], leaves, merges, elems)
      ensures Queue(tree[..], Live(leaves, merges, elems, |merges|))
      ensures LeavesKept(old(tree[..]), tree[..], leaves, elems)
    {
      hide OnRecord, Live, HeapFrom, Holds, Sum, FreqOf, Freqs, Joined, Rarest, LeavesKept;
      LiveStart(leaves, elems);
      KeptRefl(tree[..], leaves, elems);
      merges := [];
      var node := elems;
      while heapLen >= 2
        invariant heapMax == HEAP_SIZE - 2 * |merges| && node == elems + |merges|
        invariant Merging(heap[..], heapLen, tree[..], leaves, merges, elems)
        invariant Queue(tree[..], Live(leaves, merges, elems, |merges|))
        invariant LeavesKept(old(tree[..]), tree[..], leaves, elems)
      {
        ghost var h0, t0, s, len0 := heap[..], tree[..], Live(leaves, merges, elems, |merges|), heapLen;
        LiveBound(leaves, merges, elems, |merges|);
        var n, m := TakeRarest(tree, s);
        PutFather(tree, node, n, m, s - {n});
        MergeStep(h0, heap[..], len0, t0, tree[..], leaves, merges, elems, n, m);
        KeptTrans(old(tree[..]), t0, tree[..], leaves, elems);
        assert s - {n} - {m} + {node} == s - {n, m} + {node};
        merges := merges + [(n, m)];
        node := node + 1;
      }
    }
  }

  lemma LiveStart(leaves: set<nat>, elems: nat)
    ensures Live(leaves, [], elems, 0) == leaves
  {
  }

  lemma KeptRefl(tree: seq<CtData>, leaves: set<nat>, elems: nat)
    requires elems <= |tree|
    ensures LeavesKept(tree, tree, leaves, elems)
  {
  }

  lemma KeptTrans(t0: seq<CtData>, t1: seq<CtData>, t2: seq<CtData>, leaves: set<nat>, elems: nat)
    requires LeavesKept(t0, t1, leaves, elems) && LeavesKept(t1, t2, leaves, elems)
    ensures LeavesKept(t0, t2, leaves, elems)
  {
  }

  lemma RarestTwo(s: set<nat>, tree: seq<CtData>, n: nat, m: nat)
    requires n in s && m in s - {n}
    requires forall x :: x in s ==> x < |tree| && n < |tree| && tree[n].fc <= tree[x].fc
    requires forall x :: x in s - {n} ==> x < |tree| && tree[m].fc <= tree[x].fc
    ensures Rarest(s, Freqs(tree), n, m)
  {
    assert forall x :: x in s && x != n ==> x in s - {n};
  }

  lemma SamePrefix(h: seq<nat>, h': seq<nat>, len: nat, s: set<nat>, tree: seq<CtData>, depth: seq<nat>)
    requires HeapFrom(h, len, 1, tree, depth) && Holds(h, len, s)
    requires |h'| == |h| && forall i :: 1 <= i <= len ==> h'[i] == h[i]
    ensures HeapFrom(h', len, 1, tree, depth) && Holds(h', len, s)
  {
    assert h'[1..len + 1] == h[1..len + 1];
    forall i | 1 <= i <= len
      ensures SonsAt(h', len, i, tree, depth)
    {
      assert SonsAt(h, len, i, tree, depth);
    }
  }

  /** Only leaves and created nodes are ever live. */
  lemma {:induction false} LiveLeaves(leaves: set<nat>, merges: seq<(nat, nat)>, elems: nat, k: nat)
    requires k <= |merges|
    ensures forall x :: x in Live(leaves, merges, elems, k) && x < elems ==> x in leaves
  {
    if k > 0 { LiveLeaves(leaves, merges, elems, k - 1); }
  }
}
