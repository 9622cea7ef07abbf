/** From the nodes of a tree to the symbols of an alphabet: what sums over leaves mean for the sequence
    of code lengths that a decoder sees. */
module TreeFacts {
  import opened Bits
  import opened Inflate
  import opened Canonical
  import opened Huffman
  import opened TreeLengths
  import opened LengthRepair

  // ---------- The statistics and the code space ----------

  ghost predicate Counts(bl: seq<nat>, s: set<nat>, tree: seq<CtData>) {
    |bl| == MAX_BITS + 1 && forall k :: 0 <= k <= MAX_BITS ==> bl[k] == Sum(s, LenIs(tree, k))
  }

  ghost predicate InRange(s: set<nat>, tree: seq<CtData>, cap: nat) {
    forall x :: x in s ==> x < |tree| && 1 <= tree[x].dl <= cap
  }

  /** Statistics taken over a set of leaves measure its share of the code space. */
  lemma {:induction false} CountsKraft(bl: seq<nat>, s: set<nat>, tree: seq<CtData>, cap: nat)
    requires Counts(bl, s, tree) && InRange(s, tree, cap) && 1 <= cap <= MAX_BITS
    ensures BlKraft(bl, cap, cap) == Kraft(s, Dls(tree), cap)
    ensures BlTotal(bl, cap) == |s|
    ensures bl[cap] == |AtCap(s, Dls(tree), cap)|
    ensures bl[0] == 0 && forall k :: cap < k <= MAX_BITS ==> bl[k] == 0
    decreases s
  {
    hide Sum, BlKraft, BlTotal, Pow2, Counts, AtCap, Kraft;
    if s == {} {
      CountsNothing(bl, tree, cap);
    } else {
      var x :| x in s;
      var rest, d := s - {x}, tree[x].dl;
      CountsRemove(bl, s, x, tree);
      var bl1 := bl[d := bl[d] - 1];
      CountsKraft(bl1, rest, tree, cap);
      assert bl == bl1[d := bl1[d] + 1];
      BlUpdate(bl1, cap, cap, d, 1);
      KraftRemove(s, x, Dls(tree), cap);
      AtCapAdd(rest, x, Dls(tree), cap);
      assert rest + {x} == s;
    }
  }

  lemma CountsNothing(bl: seq<nat>, tree: seq<CtData>, cap: nat)
    requires Counts(bl, {}, tree) && 1 <= cap <= MAX_BITS
    ensures |bl| == MAX_BITS + 1 && forall k :: 0 <= k <= MAX_BITS ==> bl[k] == 0
    ensures BlKraft(bl, cap, cap) == Kraft({}, Dls(tree), cap) && BlTotal(bl, cap) == 0
    ensures |AtCap({}, Dls(tree), cap)| == 0
  {
    hide BlKraft, BlTotal, Pow2;
    ZeroBelow(bl, cap, cap);
    assert AtCap({}, Dls(tree), cap) == {};
  }

  lemma KraftRemove(s: set<nat>, x: nat, len: seq<nat>, cap: nat)
    requires x in s && x < |len| && len[x] <= cap
    ensures Kraft(s, len, cap) == Kraft(s - {x}, len, cap) + Pow2(cap - len[x])
  {
    SumRemove(s, x, ShareOf(len, cap));
  }

  lemma CountsRemove(bl: seq<nat>, s: set<nat>, x: nat, tree: seq<CtData>)
    requires Counts(bl, s, tree) && x in s && x < |tree| && tree[x].dl <= MAX_BITS
    ensures |bl| == MAX_BITS + 1 && bl[tree[x].dl] >= 1
    ensures Counts(bl[tree[x].dl := bl[tree[x].dl] - 1], s - {x}, tree)
  {
    hide Sum;
    var d := tree[x].dl;
    SumRemove(s, x, LenIs(tree, d));
    var bl1 := bl[d := bl[d] - 1];
    forall k | 0 <= k <= MAX_BITS
      ensures bl1[k] == Sum(s - {x}, LenIs(tree, k))
    {
      SumRemove(s, x, LenIs(tree, k));
    }
  }

  lemma StatsAreCounts(bl: seq<nat>, tree: seq<CtData>, leaves: set<nat>, merges: seq<(nat, nat)>, elems: nat)
    requires Script(leaves, merges, elems) && Stats(bl, tree, merges, elems, 0, 2 * |merges|)
    ensures Counts(bl, leaves, tree)
  {
    hide Script, EntrySum, Sum;
    forall k | 0 <= k <= MAX_BITS
      ensures bl[k] == Sum(leaves, LenIs(tree, k))
    {
      EntriesAreLeaves(leaves, merges, elems, LenIs(tree, k));
    }
  }

  /** Every leaf is listed. */
  lemma {:induction false} LeafListed(leaves: set<nat>, merges: seq<(nat, nat)>, elems: nat, x: nat, k: nat) returns (e: nat)
    requires Script(leaves, merges, elems) && k <= |merges| && x in Live(leaves, merges, elems, k) && x < elems
    ensures e < 2 * |merges| && NodeAt(merges, e) == x
    decreases |merges| - k
  {
    if k < |merges| && x == merges[k].0 {
      e := 2 * k;
    } else if k < |merges| && x == merges[k].1 {
      e := 2 * k + 1;
    } else {
      e := LeafListed(leaves, merges, elems, x, k + 1);
    }
  }

  /** After the first pass every leaf has a length from 1 to the cap. */
  lemma LeavesInRange(tree: seq<CtData>, leaves: set<nat>, merges: seq<(nat, nat)>, elems: nat, cap: nat)
    requires Script(leaves, merges, elems) && PassedTo(tree, merges, elems, cap, 0) && cap >= 1
    ensures InRange(leaves, tree, cap)
  {
    forall x | x in leaves
      ensures x < |tree| && 1 <= tree[x].dl <= cap
    {
      var e := LeafListed(leaves, merges, elems, x, 0);
    }
  }

  /** The first pass leaves statistics that exceed the code space by one unit for every two nodes cut off. */
  lemma PassKraft(bl: seq<nat>, tree: seq<CtData>, leaves: set<nat>, merges: seq<(nat, nat)>, elems: nat, cap: nat) returns (full: nat)
    requires Script(leaves, merges, elems) && PassedTo(tree, merges, elems, cap, 0) && 1 <= cap <= MAX_BITS
    requires Stats(bl, tree, merges, elems, 0, 2 * |merges|)
    ensures InRange(leaves, tree, cap)
    ensures CutOff(tree, merges, elems, cap, 0) == 2 * full
    ensures full == Full(merges, elems, Dls(tree), cap, 0)
    ensures BlTotal(bl, cap) == |leaves|
    ensures BlKraft(bl, cap, cap) == Pow2(cap) + full
    ensures full > 0 ==> bl[cap] > full
    ensures bl[0] == 0 && forall k :: cap < k <= MAX_BITS ==> bl[k] == 0
  {
    hide Script, Sum, BlKraft, BlTotal, Pow2, NodeAt, Stats, EntrySum, Kraft, AtCap, Full, CutOff;
    LeavesInRange(tree, leaves, merges, elems, cap);
    StatsAreCounts(bl, tree, leaves, merges, elems);
    CountsKraft(bl, leaves, tree, cap);
    PassedIsDepths(tree, merges, elems, cap);
    CappedKraft(leaves, merges, elems, Dls(tree), cap, 0);
    CutOffIsFull(tree, merges, elems, cap, 0);
    LiveAtStart(leaves, merges, elems);
    full := Full(merges, elems, Dls(tree), cap, 0);
  }

  lemma LiveAtStart(leaves: set<nat>, merges: seq<(nat, nat)>, elems: nat)
    ensures Live(leaves, merges, elems, 0) == leaves
  {
  }

  // ---------- Sequences of code lengths ----------

  ghost function UpTo(s: set<nat>, n: nat): set<nat> {
    set x | x in s && x < n
  }

  lemma SumUpTo(s: set<nat>, n: nat, g: nat -> nat)
    ensures Sum(UpTo(s, n + 1), g) == Sum(UpTo(s, n), g) + if n in s then g(n) else 0
  {
    if n in s {
      assert UpTo(s, n + 1) == UpTo(s, n) + {n};
      SumAdd(UpTo(s, n), n, g);
    } else {
      assert UpTo(s, n + 1) == UpTo(s, n);
    }
  }

  lemma UpToAll(s: set<nat>, n: nat)
    requires forall x :: x in s ==> x < n
    ensures UpTo(s, n) == s
  {
  }

  lemma UpToNone(s: set<nat>)
    ensures UpTo(s, 0) == {}
  {
  }

  /** Lengths that are zero outside `s`. */
  ghost predicate Supported(lens: seq<nat>, s: set<nat>) {
    forall i :: 0 <= i < |lens| ==> (lens[i] > 0 <==> i in s)
  }

  lemma {:induction false} KraftSumIsKraft(lens: seq<nat>, s: set<nat>, m: nat, n: nat)
    requires n <= |lens| && Supported(lens, s) && forall i :: 0 <= i < |lens| ==> lens[i] <= m
    ensures KraftSum(lens[..n], m) == Kraft(UpTo(s, n), lens, m)
  {
    if n == 0 {
      UpToNone(s);
    } else {
      KraftSumIsKraft(lens, s, m, n - 1);
      assert lens[..n][..n - 1] == lens[..n - 1];
      SumUpTo(s, n - 1, ShareOf(lens, m));
    }
  }

  lemma {:induction false} CountLenIsSum(lens: seq<nat>, s: set<nat>, tree: seq<CtData>, k: nat, n: nat)
    requires n <= |lens| <= |tree| && Supported(lens, s) && k > 0 && forall i :: 0 <= i < |lens| ==> lens[i] == tree[i].dl
    ensures CountLen(lens[..n], k) == Sum(UpTo(s, n), LenIs(tree, k))
  {
    if n == 0 {
      UpToNone(s);
    } else {
      CountLenIsSum(lens, s, tree, k, n - 1);
      assert lens[..n][..n - 1] == lens[..n - 1];
      SumUpTo(s, n - 1, LenIs(tree, k));
    }
  }

  /** Frequencies times costs. */
  function Dot(f: seq<nat>, c: seq<nat>): nat
    requires |f| == |c|
  {
    if f == [] then 0 else Dot(f[..|f| - 1], c[..|c| - 1]) + f[|f| - 1] * c[|c| - 1]
  }

  lemma {:induction false} DotIsSum(f: seq<nat>, c: seq<nat>, s: set<nat>, g: nat -> nat, n: nat)
    requires n <= |f| == |c|
    requires forall i :: 0 <= i < |f| ==> if i in s then g(i) == f[i] * c[i] else f[i] == 0
    ensures Dot(f[..n], c[..n]) == Sum(UpTo(s, n), g)
  {
    if n == 0 {
      UpToNone(s);
    } else {
      DotIsSum(f, c, s, g, n - 1);
      assert f[..n][..n - 1] == f[..n - 1] && c[..n][..n - 1] == c[..n - 1];
      SumUpTo(s, n - 1, g);
      if n - 1 !in s { MulZero(c[n - 1]); }
    }
  }

  lemma MulZero(x: int)
    ensures 0 * x == 0
  {
  }
}
