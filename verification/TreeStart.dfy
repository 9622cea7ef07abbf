/** The beginning of build_tree: the used symbols go into the heap, at least two of them. */
module TreeStart {
  import opened Bits
  import opened Canonical
  import opened Huffman
  import opened TreeHeap
  import opened TreeMerge
  import opened TreeLengths

  ghost function Used(tree: seq<CtData>, n: nat): set<nat> {
    set x | 0 <= x < n && x < |tree| && tree[x].fc != 0
  }

  lemma HoldsAppend(h: seq<nat>, h': seq<nat>, len: nat, s: set<nat>, v: nat)
    requires Holds(h, len, s) && v !in s && len + 1 < |h|
    requires |h'| == |h| && h'[1..len + 1] == h[1..len + 1] && h'[len + 1] == v
    ensures Holds(h', len + 1, s + {v})
  {
    assert h'[1..len + 2] == h[1..len + 1] + [v];
  }

  lemma HoldsSize(h: seq<nat>, len: nat, s: set<nat>)
    requires Holds(h, len, s)
    ensures |s| == len
  {
    assert |multiset(h[1..len + 1])| == len;
  }

  /** `maxCode` is the largest element of `s`, or -1. */
  ghost predicate LargestOf(s: set<nat>, maxCode: int) {
    && (forall x :: x in s ==> x <= maxCode)
    && (if maxCode == -1 then s == {} else maxCode >= 0 && maxCode in s)
  }

  /** Put a symbol at the end of the heap array. */
  method Enqueue(b: TreeBuilder, v: nat, ghost s: set<nat>)
    requires b.Valid() && Holds(b.heap[..], b.heapLen, s) && b.heapLen + 1 < HEAP_SIZE && v < HEAP_SIZE && v !in s
    modifies b`heapLen, b.heap, b.depth
    ensures b.heapLen == old(b.heapLen) + 1 && Holds(b.heap[..], b.heapLen, s + {v})
  {
    ghost var h := b.heap[..];
    b.heapLen := b.heapLen + 1;
    b.heap[b.heapLen] := v;
    b.depth[v] := 0;
    HoldsAppend(h, b.heap[..], b.heapLen - 1, s, v);
  }

  /** Collect the symbols with non-zero frequency; the others get length 0. */
  method CollectUsed(b: TreeBuilder, tree: array<CtData>, elems: nat) returns (maxCode: int)
    requires b.Valid() && elems <= L_CODES && elems < tree.Length
    modifies b`heapLen, b`heapMax, b.heap, b.depth, tree
    ensures b.heapMax == HEAP_SIZE && b.heapLen <= elems
    ensures Holds(b.heap[..], b.heapLen, Used(old(tree[..]), elems))
    ensures LargestOf(Used(old(tree[..]), elems), maxCode)
    ensures forall x :: 0 <= x < tree.Length ==> tree[x].fc == old(tree[x].fc)
    ensures forall x :: 0 <= x < elems && tree[x].fc == 0 ==> tree[x].dl == 0
  {
    hide Holds, LargestOf, Used;
    maxCode := -1;
    b.heapLen := 0;
    b.heapMax := HEAP_SIZE;
    ghost var t0 := tree[..];
    HoldsNothing(b.heap[..], t0);
    for n := 0 to elems
      invariant b.heapMax == HEAP_SIZE && b.heapLen <= n
      invariant Holds(b.heap[..], b.heapLen, Used(t0, n)) && LargestOf(Used(t0, n), maxCode)
      invariant forall x :: 0 <= x < tree.Length ==> tree[x].fc == t0[x].fc
      invariant forall x :: 0 <= x < n && tree[x].fc == 0 ==> tree[x].dl == 0
    {
      UsedNext(t0, n, maxCode);
      if tree[n].fc != 0 {
        Enqueue(b, n, Used(t0, n));
        maxCode := n;
      } else {
        tree[n] := tree[n].(dl := 0);
      }
    }
  }

  lemma HoldsNothing(h: seq<nat>, t: seq<CtData>)
    requires |h| > 0
    ensures Holds(h, 0, Used(t, 0)) && LargestOf(Used(t, 0), -1)
  {
    assert h[1..0 + 1] == [];
    assert Used(t, 0) == {};
  }

  lemma UsedNext(t: seq<CtData>, n: nat, maxCode: int)
    requires n < |t| && LargestOf(Used(t, n), maxCode)
    ensures n !in Used(t, n)
    ensures Used(t, n + 1) == if t[n].fc != 0 then Used(t, n) + {n} else Used(t, n)
    ensures LargestOf(Used(t, n + 1), if t[n].fc != 0 then n else maxCode)
  {
  }

  // ---------- At least two codes ----------

  /** What a forced symbol takes off opt_len in advance. */
  function ForcedDyn(forced: set<nat>): nat -> nat {
    (x: nat) => if x in forced then 1 else 0
  }

  /** What it takes off static_len. */
  function ForcedFix(forced: set<nat>, desc: Desc): nat -> nat {
    (x: nat) => if x in forced then desc.StaticLen(x) else 0
  }

  /** The frequencies with `forced` symbols raised from 0 to 1. */
  ghost predicate Forcing(t0: seq<CtData>, tree: seq<CtData>, elems: nat, forced: set<nat>) {
    && |tree| == |t0| && elems <= |t0|
    && (forall x :: x in forced ==> x < 3 && x < elems)
    && (forall x :: 0 <= x < elems && x in forced ==> t0[x].fc == 0 && tree[x].fc == 1)
    && (forall x :: 0 <= x < elems && x !in forced ==> tree[x].fc == t0[x].fc)
    && (forall x :: 0 <= x < elems ==> tree[x].dl == t0[x].dl)
  }

  lemma ForceStep(s: set<nat>, forced: set<nat>, v: nat, desc: Desc)
    requires v !in s && forced <= s
    ensures Sum(s + {v}, ForcedDyn(forced + {v})) == Sum(s, ForcedDyn(forced)) + 1
    ensures Sum(s + {v}, ForcedFix(forced + {v}, desc)) == Sum(s, ForcedFix(forced, desc)) + desc.StaticLen(v)
  {
    hide Sum;
    SumAdd(s, v, ForcedDyn(forced + {v}));
    SumSame(s, ForcedDyn(forced), ForcedDyn(forced + {v}));
    SumAdd(s, v, ForcedFix(forced + {v}, desc));
    SumSame(s, ForcedFix(forced, desc), ForcedFix(forced + {v}, desc));
  }

  lemma SumZero(s: set<nat>, g: nat -> nat)
    requires forall x :: x in s ==> g(x) == 0
    ensures Sum(s, g) == 0
  {
    if s != {} {
      var x :| x in s;
      SumRemove(s, x, g);
      SumZero(s - {x}, g);
    }
  }

  /** A symbol outside `s`, which has fewer than two, that the format can spare. */
  lemma SpareSymbol(s: set<nat>, maxCode: int)
    requires LargestOf(s, maxCode) && |s| < 2
    ensures var v := if maxCode < 2 then maxCode + 1 else 0;
            0 <= v < 3 && v !in s && LargestOf(s + {v}, if maxCode < 2 then maxCode + 1 else maxCode)
  {
    if maxCode >= 2 {
      assert {maxCode} <= s;
      SizeOne(s, maxCode);
    }
  }

  lemma SizeOne(s: set<nat>, x: nat)
    requires x in s && |s| < 2
    ensures s == {x}
  {
    if exists y :: y in s && y != x {
      var y :| y in s && y != x;
      SubsetSize({x, y}, s);
      assert false;
    }
  }

  /** Forced symbols so far, and what they took off the two cost estimates. */
  ghost predicate Forced(t0: seq<CtData>, tree: seq<CtData>, opt: int, stat: int, desc: Desc,
                         used: set<nat>, forced: set<nat>, s: set<nat>, top: int) {
    && forced !! used && s == used + forced && LargestOf(s, top) && top < desc.elems
    && Forcing(t0, tree, desc.elems, forced)
    && opt == Sum(s, ForcedDyn(forced))
    && stat == if desc.staticTree.Some? then Sum(s, ForcedFix(forced, desc)) else 0
  }

  lemma ForceOne(t0: seq<CtData>, tree: seq<CtData>, opt: int, stat: int, desc: Desc,
                 used: set<nat>, forced: set<nat>, s: set<nat>, top: int) returns (v: nat, top': int)
    requires desc.Valid() && Forced(t0, tree, opt, stat, desc, used, forced, s, top) && |s| < 2
    requires desc.elems <= |tree| == |t0| && forall x :: 0 <= x < desc.elems && x !in used ==> t0[x].fc == 0
    ensures v == (if top < 2 then top + 1 else 0) && top' == if top < 2 then top + 1 else top
    ensures v < 3 && v !in s
    ensures Forced(t0, tree[v := tree[v].(fc := 1)], opt + 1,
                   if desc.staticTree.Some? then stat + desc.StaticLen(v) else stat, desc, used, forced + {v}, s + {v}, top')
  {
    hide Sum, Pow2, ForcedDyn, ForcedFix, Forcing, LargestOf;
    SpareSymbol(s, top);
    v, top' := if top < 2 then top + 1 else 0, if top < 2 then top + 1 else top;
    ForceStep(s, forced, v, desc);
    ForcingStep(t0, tree, desc.elems, used, forced, v);
    SetGrows(used, forced, s, v);
  }

  lemma SetGrows(used: set<nat>, forced: set<nat>, s: set<nat>, v: nat)
    requires s == used + forced && forced !! used && v !in s
    ensures s + {v} == used + (forced + {v}) && (forced + {v}) !! used
  {
  }

  lemma ForcingStep(t0: seq<CtData>, tree: seq<CtData>, elems: nat, used: set<nat>, forced: set<nat>, v: nat)
    requires Forcing(t0, tree, elems, forced) && v < 3 <= elems && v !in used + forced
    requires forall x :: 0 <= x < elems && x !in used ==> t0[x].fc == 0
    ensures Forcing(t0, tree[v := tree[v].(fc := 1)], elems, forced + {v})
  {
  }

  lemma ForceNone(t0: seq<CtData>, desc: Desc, used: set<nat>, top: int)
    requires LargestOf(used, top) && top < desc.elems <= |t0|
    ensures Forced(t0, t0, 0, 0, desc, used, {}, used, top)
  {
    assert used + {} == used;
    SumForcedNothing(used, desc);
  }

  method ForceTwo(b: TreeBuilder, tree: array<CtData>, desc: Desc, maxCode: int, ghost used: set<nat>)
    returns (maxCode': nat, ghost forced: set<nat>, ghost s: set<nat>)
    requires b.Valid() && desc.Valid() && desc.elems < tree.Length && b.heapLen <= desc.elems
    requires Holds(b.heap[..], b.heapLen, used) && LargestOf(used, maxCode) && maxCode < desc.elems
    requires forall x :: 0 <= x < desc.elems && x !in used ==> tree[x].fc == 0
    modifies b`heapLen, b`optLen, b`staticLen, b.heap, b.depth, tree
    ensures 2 <= b.heapLen <= desc.elems && Holds(b.heap[..], b.heapLen, s)
    ensures forced != {} ==> b.heapLen == 2
    ensures Forced(old(tree[..]), tree[..], old(b.optLen) - b.optLen, old(b.staticLen) - b.staticLen, desc, used, forced, s, maxCode')
  {
    hide Holds, Forced, Pow2, LargestOf, Forcing;
    var top := maxCode;
    forced, s := {}, used;
    ForceNone(tree[..], desc, used, top);
    while b.heapLen < 2
      invariant b.heapLen <= desc.elems && (b.heapLen > 2 ==> forced == {})
      invariant Holds(b.heap[..], b.heapLen, s)
      invariant Forced(old(tree[..]), tree[..], old(b.optLen) - b.optLen, old(b.staticLen) - b.staticLen, desc, used, forced, s, top)
    {
      HoldsSize(b.heap[..], b.heapLen, s);
      ghost var v', top' := ForceOne(old(tree[..]), tree[..], old(b.optLen) - b.optLen, old(b.staticLen) - b.staticLen,
                                     desc, used, forced, s, top);
      var v := 0;
      if top < 2 {
        top := top + 1;
        v := top;
      }
      ghost var t := tree[..];
      Enqueue(b, v, s);
      tree[v] := tree[v].(fc := 1);
      assert tree[..] == t[v := t[v].(fc := 1)];
      b.optLen := b.optLen - 1;
      if desc.staticTree.Some? {
        b.staticLen := b.staticLen - desc.staticTree.value[v].dl;
      }
      forced, s := forced + {v'}, s + {v'};
    }
    HoldsSize(b.heap[..], b.heapLen, s);
    TopIsNat(old(tree[..]), tree[..], old(b.optLen) - b.optLen, old(b.staticLen) - b.staticLen, desc, used, forced, s, top);
    maxCode' := top;
  }

  lemma TopIsNat(t0: seq<CtData>, tree: seq<CtData>, opt: int, stat: int, desc: Desc,
                 used: set<nat>, forced: set<nat>, s: set<nat>, top: int)
    requires Forced(t0, tree, opt, stat, desc, used, forced, s, top) && |s| >= 2
    ensures top >= 0
  {
    hide Sum, Forcing;
  }

  lemma SumForcedNothing(s: set<nat>, desc: Desc)
    ensures Sum(s, ForcedDyn({})) == 0 && Sum(s, ForcedFix({}, desc)) == 0
  {
    SumZero(s, ForcedDyn({}));
    SumZero(s, ForcedFix({}, desc));
  }

  // ---------- Heap order ----------

  /** The heap order for all nodes, from the last father up to the root. */
  method Heapify(b: TreeBuilder, tree: array<CtData>, ghost s: set<nat>)
    requires b.Valid() && Holds(b.heap[..], b.heapLen, s) && 2 <= b.heapLen < b.heapMax == HEAP_SIZE
    requires forall x :: x in s ==> x < tree.Length && x < HEAP_SIZE
    modifies b.heap
    ensures b.Queue(tree[..], s)
  {
    InTreeFromHolds(b.heap[..], b.heapLen, s, tree[..], b.depth[..]);
    hide Holds, SonsAt;
    var n := b.heapLen / 2;
    HalfIsHeap(b.heap[..], b.heapLen, tree[..], b.depth[..]);
    while n >= 1
      invariant 0 <= n <= b.heapLen / 2
      invariant HeapFrom(b.heap[..], b.heapLen, n + 1, tree[..], b.depth[..]) && Holds(b.heap[..], b.heapLen, s)
    {
      PqDownHeap(b.heap, b.heapLen, tree[..], b.depth[..], n, s);
      n := n - 1;
    }
  }

  lemma InTreeFromHolds(h: seq<nat>, len: nat, s: set<nat>, tree: seq<CtData>, depth: seq<nat>)
    requires Holds(h, len, s) && forall x :: x in s ==> x < |tree| && x < |depth|
    ensures InTree(h, len, tree, depth)
  {
    forall i | 1 <= i <= len
      ensures h[i] < |tree| && h[i] < |depth|
    {
      HoldsMember(h, len, s, i);
    }
  }

  lemma HalfIsHeap(h: seq<nat>, len: nat, tree: seq<CtData>, depth: seq<nat>)
    requires InTree(h, len, tree, depth)
    ensures HeapFrom(h, len, len / 2 + 1, tree, depth)
  {
  }
}
