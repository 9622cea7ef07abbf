/** The priority queue of tree nodes: pqdownheap and PQREMOVE. */
module TreeHeap {
  import opened Canonical

  const L_CODES := 286
  const HEAP_SIZE := 2 * L_CODES + 1

  /** SMALLER: by frequency, with the depth of the subtree as tie breaker. */
  predicate Smaller(tree: seq<CtData>, depth: seq<nat>, n: nat, m: nat)
    requires n < |tree| && m < |tree| && n < |depth| && m < |depth|
  {
    tree[n].fc < tree[m].fc || (tree[n].fc == tree[m].fc && depth[n] <= depth[m])
  }

  ghost predicate InTree(h: seq<nat>, len: nat, tree: seq<CtData>, depth: seq<nat>) {
    len < |h| && forall i :: 1 <= i <= len ==> h[i] < |tree| && h[i] < |depth|
  }

  /** The node at `i` is smaller than its sons. */
  ghost predicate SonsAt(h: seq<nat>, len: nat, i: nat, tree: seq<CtData>, depth: seq<nat>)
    requires InTree(h, len, tree, depth) && 1 <= i
  {
    && (2 * i <= len ==> Smaller(tree, depth, h[i], h[2 * i]))
    && (2 * i + 1 <= len ==> Smaller(tree, depth, h[i], h[2 * i + 1]))
  }

  /** Heap order holds from position `k` on. */
  ghost predicate HeapFrom(h: seq<nat>, len: nat, k: nat, tree: seq<CtData>, depth: seq<nat>) {
    && 1 <= k && InTree(h, len, tree, depth)
    && forall i :: k <= i <= len ==> SonsAt(h, len, i, tree, depth)
  }

  /** Positions 1..len hold exactly the nodes of `s`, each once. */
  ghost predicate Holds(h: seq<nat>, len: nat, s: set<nat>) {
    len < |h| && multiset(h[1..len + 1]) == multiset(s)
  }

  lemma {:induction false} TopIsSmallest(h: seq<nat>, len: nat, i: nat, tree: seq<CtData>, depth: seq<nat>)
    requires HeapFrom(h, len, 1, tree, depth) && 1 <= i <= len
    ensures Smaller(tree, depth, h[1], h[i])
  {
    if i > 1 {
      TopIsSmallest(h, len, i / 2, tree, depth);
      assert SonsAt(h, len, i / 2, tree, depth);
    }
  }

  lemma HoldsMember(h: seq<nat>, len: nat, s: set<nat>, i: nat)
    requires Holds(h, len, s) && 1 <= i <= len
    ensures h[i] in s
  {
    assert h[1..len + 1][i - 1] == h[i];
    assert h[i] in multiset(h[1..len + 1]);
  }

  lemma HoldsAll(h: seq<nat>, len: nat, s: set<nat>, x: nat) returns (i: nat)
    requires Holds(h, len, s) && x in s
    ensures 1 <= i <= len && h[i] == x
  {
    assert x in multiset(h[1..len + 1]);
    var j :| 0 <= j < len && h[1..len + 1][j] == x;
    i := j + 1;
  }

  /** The node at the top is rarest in the heap. */
  lemma TopIsRarest(h: seq<nat>, len: nat, s: set<nat>, tree: seq<CtData>, depth: seq<nat>)
    requires HeapFrom(h, len, 1, tree, depth) && Holds(h, len, s) && len >= 1
    ensures h[1] in s
    ensures forall x :: x in s ==> x < |tree| && tree[h[1]].fc <= tree[x].fc
  {
    HoldsMember(h, len, s, 1);
    forall x | x in s
      ensures x < |tree| && tree[h[1]].fc <= tree[x].fc
    {
      var i := HoldsAll(h, len, s, x);
      TopIsSmallest(h, len, i, tree, depth);
    }
  }

  lemma UpdateMultiset(t: seq<nat>, i: nat, v: nat)
    requires i < |t|
    ensures multiset(t[i := v]) == multiset(t)[t[i] := multiset(t)[t[i]] - 1] + multiset{v}
  {
    assert t == t[..i] + [t[i]] + t[i + 1..];
    assert t[i := v] == t[..i] + [v] + t[i + 1..];
  }

  /** Replacing the node at position `i`. */
  lemma HoldsReplace(h: seq<nat>, len: nat, s: set<nat>, i: nat, v: nat)
    requires Holds(h, len, s) && 1 <= i <= len && v !in s
    ensures Holds(h[i := v], len, s - {h[i]} + {v})
  {
    HoldsMember(h, len, s, i);
    UpdateMultiset(h[1..len + 1], i - 1, v);
    assert h[i := v][1..len + 1] == h[1..len + 1][i - 1 := v];
  }

  /** Taking the top out and moving the last node there. */
  lemma HoldsRemove(h: seq<nat>, len: nat, s: set<nat>)
    requires Holds(h, len, s) && 1 <= len
    ensures Holds(h[1 := h[len]], len - 1, s - {h[1]})
  {
    var t, u := h[1..len + 1], h[1 := h[len]][1..len];
    assert multiset(t) == multiset{h[1]} + multiset(u) by {
      var mid := t[1..];
      assert t == [h[1]] + mid;
      if len == 1 {
        assert u == mid;
      } else {
        var inner := h[2..len];
        assert mid == inner + [h[len]];
        assert u == [h[len]] + inner;
      }
    }
    WithoutOne(s, h[1], multiset(u));
  }

  lemma WithoutOne(s: set<nat>, x: nat, m: multiset<nat>)
    requires multiset(s) == multiset{x} + m
    ensures m == multiset(s - {x})
  {
    assert x in multiset(s);
    assert m == multiset(s) - multiset{x};
    assert multiset(s) - multiset{x} == multiset(s - {x});
  }

  lemma SwapSame(t: seq<nat>, i: nat, j: nat, t': seq<nat>)
    requires i < |t| && j < |t| && t' == t[i := t[j]][j := t[i]]
    ensures multiset(t') == multiset(t)
  {
    if i == j {
      assert t' == t;
    } else {
      UpdateMultiset(t, i, t[j]);
      UpdateMultiset(t[i := t[j]], j, t[i]);
    }
  }

  /** Moving the hole of a sift from `k` to `j`. */
  lemma HoleMoves(h: seq<nat>, len: nat, s: set<nat>, k: nat, j: nat, v: nat)
    requires 1 <= k <= len < |h| && 1 <= j <= len && k != j && Holds(h[k := v], len, s)
    ensures Holds(h[k := h[j]][j := v], len, s)
  {
    var t, t' := h[k := v][1..len + 1], h[k := h[j]][j := v][1..len + 1];
    assert t' == t[k - 1 := t[j - 1]][j - 1 := t[k - 1]];
    SwapSame(t, k - 1, j - 1, t');
  }

  /** The end of a sift: `v` goes where a copy of its father stands. */
  lemma SiftEnds(h: seq<nat>, len: nat, k0: nat, k: nat, v: nat, tree: seq<CtData>, depth: seq<nat>)
    requires InTree(h, len, tree, depth) && 1 <= k0 <= k <= len && v < |tree| && v < |depth|
    requires forall i :: k0 <= i <= len && (i != k || k0 < k) ==> SonsAt(h, len, i, tree, depth)
    requires k0 < k ==> k0 <= k / 2 && h[k / 2] == h[k] && Smaller(tree, depth, h[k], v)
    requires 2 * k <= len ==> Smaller(tree, depth, v, h[2 * k])
    requires 2 * k + 1 <= len ==> Smaller(tree, depth, v, h[2 * k + 1])
    ensures HeapFrom(h[k := v], len, k0, tree, depth)
  {
    var h' := h[k := v];
    forall i | k0 <= i <= len
      ensures SonsAt(h', len, i, tree, depth)
    {
      if i != k { assert SonsAt(h, len, i, tree, depth); }
    }
  }

  /** Restore heap order by moving the node at `k` down. */
  method PqDownHeap(heap: array<nat>, heapLen: nat, tree: seq<CtData>, depth: seq<nat>, k: nat, ghost s: set<nat>)
    requires 1 <= k <= heapLen < heap.Length
    requires HeapFrom(heap[..], heapLen, k + 1, tree, depth) && Holds(heap[..], heapLen, s)
    modifies heap
    ensures HeapFrom(heap[..], heapLen, k, tree, depth) && Holds(heap[..], heapLen, s)
    ensures heap[0] == old(heap[0]) && heap[heapLen + 1..] == old(heap[heapLen + 1..])
  {
    var v := heap[k];
    var k', j := k, 2 * k;
    assert heap[..][k := v] == heap[..];
    while j <= heapLen
      invariant k <= k' <= heapLen && j == 2 * k' && (k < k' ==> k <= k' / 2)
      invariant InTree(heap[..], heapLen, tree, depth)
      invariant Holds(heap[..][k' := v], heapLen, s)
      invariant forall i :: k <= i <= heapLen && (i != k' || k < k') ==> SonsAt(heap[..], heapLen, i, tree, depth)
      invariant k < k' ==> heap[k' / 2] == heap[k'] && Smaller(tree, depth, heap[k'], v)
      invariant heap[0] == old(heap[0]) && heap[heapLen + 1..] == old(heap[heapLen + 1..])
      decreases heapLen - k'
    {
      if j < heapLen && Smaller(tree, depth, heap[j + 1], heap[j]) { j := j + 1; }
      if Smaller(tree, depth, v, heap[j]) { break; }
      HoleMoves(heap[..], heapLen, s, k', j, v);
      ghost var h := heap[..];
      assert SonsAt(h, heapLen, j, tree, depth);
      heap[k'] := heap[j];
      HoleOrder(h, heap[..], heapLen, k, k', j, tree, depth);
      k' := j;
      j := 2 * j;
    }
    SiftEnds(heap[..], heapLen, k, k', v, tree, depth);
    heap[k'] := v;
  }

  lemma HoleOrder(h: seq<nat>, h': seq<nat>, len: nat, k0: nat, k: nat, j: nat, tree: seq<CtData>, depth: seq<nat>)
    requires InTree(h, len, tree, depth) && 1 <= k0 <= k && j <= len && (j == 2 * k || j == 2 * k + 1)
    requires h' == h[k := h[j]]
    requires forall i :: k0 <= i <= len && (i != k || k0 < k) ==> SonsAt(h, len, i, tree, depth)
    requires k0 < k ==> k0 <= k / 2 && h[k / 2] == h[k]
    requires 2 * k <= len ==> Smaller(tree, depth, h[j], h[2 * k])
    requires 2 * k + 1 <= len ==> Smaller(tree, depth, h[j], h[2 * k + 1])
    ensures InTree(h', len, tree, depth)
    ensures forall i :: k0 <= i <= len ==> SonsAt(h', len, i, tree, depth)
  {
    forall i | k0 <= i <= len
      ensures SonsAt(h', len, i, tree, depth)
    {
      if i != k { assert SonsAt(h, len, i, tree, depth); }
      if k0 < k && (2 * i == k || 2 * i + 1 == k) {
        assert i == k / 2 && SonsAt(h, len, k, tree, depth);
      }
    }
  }

  /** Remove the smallest node from the heap. */
  method PqRemove(heap: array<nat>, heapLen: nat, tree: seq<CtData>, depth: seq<nat>, ghost s: set<nat>)
    returns (top: nat, newLen: nat)
    requires 2 <= heapLen < heap.Length
    requires HeapFrom(heap[..], heapLen, 1, tree, depth) && Holds(heap[..], heapLen, s)
    modifies heap
    ensures newLen == heapLen - 1 && top in s
    ensures forall x :: x in s ==> x < |tree| && top < |tree| && tree[top].fc <= tree[x].fc
    ensures HeapFrom(heap[..], newLen, 1, tree, depth) && Holds(heap[..], newLen, s - {top})
    ensures heap[heapLen + 1..] == old(heap[heapLen + 1..])
  {
    TopIsRarest(heap[..], heapLen, s, tree, depth);
    HoldsRemove(heap[..], heapLen, s);
    top := heap[1];
    ghost var h := heap[..];
    heap[1] := heap[heapLen];
    newLen := heapLen - 1;
    assert heap[..] == h[1 := h[heapLen]];
    assert HeapFrom(heap[..], newLen, 2, tree, depth) by {
      forall i | 2 <= i <= newLen
        ensures SonsAt(heap[..], newLen, i, tree, depth)
      {
        assert SonsAt(h, heapLen, i, tree, depth);
      }
    }
    PqDownHeap(heap, newLen, tree, depth, 1, s - {top});
    assert heap[heapLen + 1..] == heap[newLen + 1..][1..];
  }
}
