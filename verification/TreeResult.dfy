/** What build_tree promises about the code it makes, and the method itself. */
module TreeResults {
  import opened Bits
  import opened Inflate
  import opened Canonical
  import opened Huffman
  import opened TreeMerge
  import opened TreeLengths
  import opened TreeFacts
  import opened TreeStart
  import opened BuildTrees

  // ---------- The promise ----------

  function Total(f: seq<nat>): nat {
    if f == [] then 0 else Total(f[..|f| - 1]) + f[|f| - 1]
  }

  /** Bits per occurrence of each symbol, with the lengths `lens` and with the static tree. */
  function DynBits(lens: seq<nat>, desc: Desc): (r: seq<nat>)
    ensures |r| == |lens|
  {
    seq(|lens|, i requires 0 <= i < |lens| => lens[i] + desc.ExtraBits(i))
  }

  function FixedBits(n: nat, desc: Desc): (r: seq<nat>)
    ensures |r| == n
  {
    seq(n, i requires 0 <= i < n => desc.StaticLen(i) + desc.ExtraBits(i))
  }

  /** No prefix code that gives every used symbol a code needs fewer bits. */
  ghost predicate NoBetter(f: seq<nat>, lens: seq<nat>)
    requires |f| == |lens|
  {
    forall alt: seq<nat>, m: nat :: |alt| == |f| && Fits(alt, m) && CodesAll(f, alt) ==> Dot(f, lens) <= Dot(f, alt)
  }

  ghost predicate CodesAll(f: seq<nat>, lens: seq<nat>)
    requires |f| == |lens|
  {
    forall i :: 0 <= i < |f| && f[i] > 0 ==> lens[i] > 0
  }

  /** `lens` is a complete prefix code for every used symbol, `tree` carries its codes, and the
      cost estimates grew by exactly what the symbols will cost. */
  ghost predicate GoodCode(f: seq<nat>, lens: seq<nat>, tree: seq<CtData>, desc: Desc, maxCode: nat, opt: int, stat: int) {
    && |f| == |lens| == desc.elems && maxCode < desc.elems
    && lens[maxCode] > 0 && (forall i :: maxCode < i < |lens| ==> lens[i] == 0)
    && CodesAll(f, lens)
    && (forall i :: 0 <= i < |lens| ==> lens[i] <= desc.maxLength)
    && KraftSum(lens, desc.maxLength) == Pow2(desc.maxLength)
    && Carries(tree, lens[..maxCode + 1])
    && opt == Dot(f, DynBits(lens, desc))
    && stat == (if desc.staticTree.Some? then Dot(f, FixedBits(desc.elems, desc)) else 0)
    && ((forall i :: 0 <= i < |lens| ==> lens[i] < desc.maxLength) ==> NoBetter(f, lens))
  }

  // ---------- Costs ----------

  lemma {:induction false} SumPlus(s: set<nat>, g: nat -> nat, h1: nat -> nat, h2: nat -> nat)
    requires forall x :: x in s ==> g(x) == h1(x) + h2(x)
    ensures Sum(s, g) == Sum(s, h1) + Sum(s, h2)
  {
    if s != {} {
      var x :| x in s;
      SumRemove(s, x, g);
      SumRemove(s, x, h1);
      SumRemove(s, x, h2);
      SumPlus(s - {x}, g, h1, h2);
    }
  }

  lemma {:induction false} SumBound(s: set<nat>, g: nat -> nat)
    requires forall x :: x in s ==> g(x) <= 1
    ensures Sum(s, g) <= |s|
  {
    if s != {} {
      var x :| x in s;
      SumRemove(s, x, g);
      SumBound(s - {x}, g);
    }
  }

  function Elem(f: seq<nat>): nat -> nat {
    (x: nat) => if x < |f| then f[x] else 0
  }

  function Prod(f: seq<nat>, c: seq<nat>): nat -> nat {
    (x: nat) => if x < |f| && x < |c| then f[x] * c[x] else 0
  }

  lemma {:induction false} TotalIsSum(f: seq<nat>, s: set<nat>, n: nat)
    requires n <= |f| && forall i :: 0 <= i < |f| && i !in s ==> f[i] == 0
    ensures Total(f[..n]) == Sum(UpTo(s, n), Elem(f))
  {
    if n == 0 {
      UpToNone(s);
    } else {
      TotalIsSum(f, s, n - 1);
      assert f[..n][..n - 1] == f[..n - 1];
      SumUpTo(s, n - 1, Elem(f));
    }
  }

  lemma DotIsProd(f: seq<nat>, c: seq<nat>, s: set<nat>)
    requires |f| == |c| && (forall x :: x in s ==> x < |f|) && forall i :: 0 <= i < |f| && i !in s ==> f[i] == 0
    ensures Dot(f, c) == Sum(s, Prod(f, c))
  {
    hide Sum, Dot;
    DotIsSum(f, c, s, Prod(f, c), |f|);
    UpToAll(s, |f|);
    assert f[..|f|] == f && c[..|c|] == c;
  }

  /** Total frequency stays within 16 bits even with forced symbols. */
  lemma TotalFits(t0: seq<CtData>, tree: seq<CtData>, elems: nat, forced: set<nat>, s: set<nat>, f: seq<nat>)
    requires Forcing(t0, tree, elems, forced) && forced <= s && (forall x :: x in s ==> x < elems)
    requires |f| == elems && (forall i :: 0 <= i < elems ==> f[i] == t0[i].fc) && forall i :: 0 <= i < elems && i !in s ==> f[i] == 0
    requires Total(f) + 2 < 0x10000 && (forced != {} ==> |s| == 2)
    ensures Sum(s, FreqOf(tree)) < 0x10000
  {
    hide Sum, Total;
    SumPlus(s, FreqOf(tree), Elem(f), ForcedDyn(forced));
    TotalIsSum(f, s, elems);
    UpToAll(s, elems);
    assert f[..elems] == f;
    if forced == {} {
      SumZero(s, ForcedDyn(forced));
    } else {
      SumBound(s, ForcedDyn(forced));
    }
  }

  /** A complete code with two codes gives each one bit. */
  lemma TwoLeaves(s: set<nat>, tree: seq<CtData>, cap: nat, x: nat)
    requires |s| == 2 && x in s && InRange(s, tree, cap) && Kraft(s, Dls(tree), cap) == Pow2(cap)
    ensures tree[x].dl == 1
  {
    hide Sum, Pow2;
    var y := OtherOne(s, x);
    KraftRemove(s, x, Dls(tree), cap);
    KraftRemove({y}, y, Dls(tree), cap);
    assert {y} - {y} == {};
    SumOfNone(ShareOf(Dls(tree), cap));
    HalfShares(cap, tree[x].dl, tree[y].dl);
  }

  lemma SumOfNone(g: nat -> nat)
    ensures Sum({}, g) == 0
  {
  }

  lemma OtherOne(s: set<nat>, x: nat) returns (y: nat)
    requires |s| == 2 && x in s
    ensures y in s && y != x && s - {x} == {y}
  {
    var rest := s - {x};
    assert |rest| == 1;
    y :| y in rest;
    assert |rest - {y}| == 0;
    assert rest == {y} + (rest - {y});
  }

  lemma HalfShares(cap: nat, a: nat, b: nat)
    requires 1 <= a <= cap && 1 <= b <= cap && Pow2(cap - a) + Pow2(cap - b) == Pow2(cap)
    ensures a == 1
  {
    assert Pow2(cap) == 2 * Pow2(cap - 1);
    Pow2Monotone(cap - b, cap - 1);
    if a > 1 { Pow2Monotone(cap - a, cap - 2); }
  }

  lemma CostsExact(f: seq<nat>, t0: seq<CtData>, tree: seq<CtData>, desc: Desc, forced: set<nat>, s: set<nat>, lens: seq<nat>)
    requires desc.Valid() && |f| == |lens| == desc.elems <= |tree| == |t0|
    requires (forall x :: x in s ==> x < desc.elems) && forced <= s
    requires forall i :: 0 <= i < desc.elems ==> lens[i] == tree[i].dl && f[i] == t0[i].fc
    requires forall i :: 0 <= i < desc.elems && i !in s ==> f[i] == 0
    requires Frequencies(t0, tree, desc.elems, forced)
    requires forall x :: x in forced ==> tree[x].dl == 1
    ensures Sum(s, DynCost(tree, desc)) == Dot(f, DynBits(lens, desc)) + Sum(s, ForcedDyn(forced))
    ensures desc.staticTree.Some? ==>
              Sum(s, FixedCost(tree, desc)) == Dot(f, FixedBits(desc.elems, desc)) + Sum(s, ForcedFix(forced, desc))
    ensures desc.staticTree.None? ==> Sum(s, FixedCost(tree, desc)) == 0
  {
    hide Sum, Dot, Pow2;
    DotIsProd(f, DynBits(lens, desc), s);
    DotIsProd(f, FixedBits(desc.elems, desc), s);
    DynSplits(f, tree, desc, forced, s, lens);
    SumPlus(s, DynCost(tree, desc), Prod(f, DynBits(lens, desc)), ForcedDyn(forced));
    if desc.staticTree.Some? {
      FixSplits(f, tree, desc, forced, s);
      SumPlus(s, FixedCost(tree, desc), Prod(f, FixedBits(desc.elems, desc)), ForcedFix(forced, desc));
    } else {
      SumZero(s, FixedCost(tree, desc));
    }
  }

  /** Forced symbols went from frequency 0 to 1, nothing else changed. */
  ghost predicate Frequencies(t0: seq<CtData>, tree: seq<CtData>, elems: nat, forced: set<nat>) {
    && elems <= |t0| == |tree|
    && (forall x :: x in forced ==> x < 3 && x < elems && t0[x].fc == 0 && tree[x].fc == 1)
    && (forall x :: 0 <= x < elems && x !in forced ==> tree[x].fc == t0[x].fc)
  }

  lemma DynSplits(f: seq<nat>, tree: seq<CtData>, desc: Desc, forced: set<nat>, s: set<nat>, lens: seq<nat>)
    requires desc.Valid() && |f| == |lens| == desc.elems <= |tree| && (forall x :: x in s ==> x < desc.elems)
    requires forall i :: 0 <= i < desc.elems ==> lens[i] == tree[i].dl
    requires forall x :: x in forced ==> x < 3 && f[x] == 0 && tree[x].fc == 1 && tree[x].dl == 1
    requires forall x :: 0 <= x < desc.elems && x !in forced ==> tree[x].fc == f[x]
    ensures forall x :: x in s ==> DynCost(tree, desc)(x) == Prod(f, DynBits(lens, desc))(x) + ForcedDyn(forced)(x)
  {
    hide Pow2;
    forall x | x in s
      ensures DynCost(tree, desc)(x) == Prod(f, DynBits(lens, desc))(x) + ForcedDyn(forced)(x)
    {
      if x in forced {
        assert desc.ExtraBits(x) == 0;
        MulZero(DynBits(lens, desc)[x]);
      }
    }
  }

  lemma FixSplitAt(f: seq<nat>, tree: seq<CtData>, desc: Desc, forced: set<nat>, x: nat)
    requires |f| == desc.elems <= |tree| && x < desc.elems && desc.staticTree.Some?
    requires if x in forced then f[x] == 0 && tree[x].fc == 1 && desc.ExtraBits(x) == 0 else tree[x].fc == f[x]
    ensures FixedCost(tree, desc)(x) == Prod(f, FixedBits(desc.elems, desc))(x) + ForcedFix(forced, desc)(x)
  {
    var c := desc.StaticLen(x) + desc.ExtraBits(x);
    assert FixedBits(desc.elems, desc)[x] == c;
    hide FixedBits;
    assert FixedCost(tree, desc)(x) == tree[x].fc * c;
    assert Prod(f, FixedBits(desc.elems, desc))(x) == f[x] * c;
  }

  lemma FixSplits(f: seq<nat>, tree: seq<CtData>, desc: Desc, forced: set<nat>, s: set<nat>)
    requires desc.Valid() && |f| == desc.elems <= |tree| && (forall x :: x in s ==> x < desc.elems) && desc.staticTree.Some?
    requires forall x :: x in forced ==> x < 3 && f[x] == 0 && tree[x].fc == 1
    requires forall x :: 0 <= x < desc.elems && x !in forced ==> tree[x].fc == f[x]
    ensures forall x :: x in s ==> FixedCost(tree, desc)(x) == Prod(f, FixedBits(desc.elems, desc))(x) + ForcedFix(forced, desc)(x)
  {
    hide Pow2;
    forall x | x in s
      ensures FixedCost(tree, desc)(x) == Prod(f, FixedBits(desc.elems, desc))(x) + ForcedFix(forced, desc)(x)
    {
      FixSplitAt(f, tree, desc, forced, x);
    }
  }

  // ---------- Optimality ----------

  lemma {:induction false} SumSubset(s: set<nat>, t: set<nat>, g: nat -> nat)
    requires s <= t
    ensures Sum(s, g) <= Sum(t, g)
    decreases s
  {
    if s != {} {
      var x :| x in s;
      SumRemove(s, x, g);
      SumRemove(t, x, g);
      SumSubset(s - {x}, t - {x}, g);
    }
  }

  lemma {:induction false} DotMonotone(f: seq<nat>, c: seq<nat>, d: seq<nat>)
    requires |f| == |c| == |d| && forall i :: 0 <= i < |f| && f[i] > 0 ==> c[i] <= d[i]
    ensures Dot(f, c) <= Dot(f, d)
  {
    if f != [] {
      var n := |f| - 1;
      DotMonotone(f[..n], c[..n], d[..n]);
      if f[n] > 0 { MulMonotone(c[n], d[n], f[n]); } else { MulZero(c[n]); MulZero(d[n]); }
    }
  }

  /** A code for all used symbols, seen as lengths of the leaves. */
  lemma AltFeasible(alt: seq<nat>, m: nat, s: set<nat>, pad: nat)
    requires Fits(alt, m) && forall x :: x in s ==> x < |alt| && alt[x] > 0
    ensures Feasible(s, alt + seq(pad, i => 0), m)
  {
    hide Pow2, Sum, KraftSum;
    var t := set x | 0 <= x < |alt| && alt[x] > 0;
    KraftSumIsKraft(alt, t, m, |alt|);
    assert alt[..|alt|] == alt;
    UpToAll(t, |alt|);
    SumSubset(s, t, ShareOf(alt, m));
    SumSame(s, ShareOf(alt, m), ShareOf(alt + seq(pad, i => 0), m));
  }

  lemma GreedyNoBetter(f: seq<nat>, tree: seq<CtData>, lens: seq<nat>, leaves: set<nat>, merges: seq<(nat, nat)>, elems: nat, cap: nat)
    requires |f| == |lens| == elems <= |tree| && Script(leaves, merges, elems)
    requires forall i :: 0 <= i < |merges| ==> GreedyAt(leaves, merges, elems, Freqs(tree), i)
    requires Unlimited(tree, merges, elems, cap)
    requires forall i :: 0 <= i < elems ==> lens[i] == tree[i].dl && f[i] == tree[i].fc && (f[i] > 0 <==> i in leaves)
    ensures NoBetter(f, lens)
  {
    hide Sum, Dot, GreedyAt, Full, Pow2, KraftSum, Depths;
    var w, d := Freqs(tree), Dls(tree);
    LeavesBelow(leaves, merges, elems);
    DepthsSize(merges, elems, d, cap);
    DepthCost(leaves, merges, elems, w, d, cap, 0);
    GreedyOptimal(leaves, merges, elems, w, 0);
    LiveAtStart(leaves, merges, elems);
    DotIsProd(f, lens, leaves);
    SumSame(leaves, Prod(f, lens), CostOf(w, d));
    forall alt: seq<nat>, m: nat | |alt| == |f| && Fits(alt, m) && CodesAll(f, alt)
      ensures Dot(f, lens) <= Dot(f, alt)
    {
      var alt' := alt + seq(|tree| - elems, i => 0);
      AltFeasible(alt, m, leaves, |tree| - elems);
      DotIsProd(f, alt, leaves);
      SumSame(leaves, Prod(f, alt), CostOf(w, alt'));
      assert Cost(leaves, w, alt') >= Inner(merges, elems, w, 0);
    }
  }

  lemma LeavesBelow(leaves: set<nat>, merges: seq<(nat, nat)>, elems: nat)
    requires Script(leaves, merges, elems)
    ensures forall x :: x in leaves ==> x < elems
  {
  }

  lemma DepthsSize(merges: seq<(nat, nat)>, elems: nat, len: seq<nat>, cap: nat)
    requires Depths(merges, elems, len, cap)
    ensures elems + |merges| <= |len|
  {
  }

  lemma OnesNoBetter(f: seq<nat>, lens: seq<nat>)
    requires |f| == |lens| && forall i :: 0 <= i < |f| && f[i] > 0 ==> lens[i] <= 1
    ensures NoBetter(f, lens)
  {
    hide Dot, Fits;
    forall alt: seq<nat>, m: nat | |alt| == |f| && Fits(alt, m) && CodesAll(f, alt)
      ensures Dot(f, lens) <= Dot(f, alt)
    {
      DotMonotone(f, lens, alt);
    }
  }

  // ---------- build_tree ----------

  /** Frequencies as they were, except that forced symbols went from 0 to 1; the leaves are what has one. */
  ghost predicate LeafFreqs(f: seq<nat>, tree: seq<CtData>, forced: set<nat>, leaves: set<nat>) {
    && |f| <= |tree| && forced <= leaves
    && (forall x :: x in leaves ==> x < |f|)
    && (forall x :: x in forced ==> x < 3 && f[x] == 0 && tree[x].fc == 1)
    && (forall x :: 0 <= x < |f| && x !in forced ==> tree[x].fc == f[x])
    && (forall x :: 0 <= x < |f| && f[x] > 0 ==> x in leaves)
    && (forall x :: x in leaves && x !in forced ==> f[x] > 0)
    && (forced != {} ==> |leaves| == 2)
  }

  /** The tree once all lengths are set. */
  ghost predicate LengthsSet(f: seq<nat>, lens: seq<nat>, tree: seq<CtData>, desc: Desc, maxCode: nat,
                             forced: set<nat>, leaves: set<nat>) {
    && |f| == |lens| == desc.elems <= |tree| && maxCode < desc.elems
    && LargestOf(leaves, maxCode) && LeafFreqs(f, tree, forced, leaves)
    && (forall i :: 0 <= i < desc.elems ==> lens[i] == tree[i].dl)
    && Supported(lens, leaves) && InRange(leaves, tree, desc.maxLength)
    && Kraft(leaves, Dls(tree), desc.maxLength) == Pow2(desc.maxLength)
  }

  lemma KraftOfLens(lens: seq<nat>, tree: seq<CtData>, leaves: set<nat>, cap: nat, n: nat)
    requires n <= |lens| <= |tree| && Supported(lens, leaves) && (forall i :: 0 <= i < |lens| ==> lens[i] == tree[i].dl <= cap)
    requires forall x :: x in leaves ==> x < n
    ensures KraftSum(lens[..n], cap) == Kraft(leaves, Dls(tree), cap)
  {
    hide Sum, KraftSum, Pow2;
    KraftSumIsKraft(lens, leaves, cap, n);
    UpToAll(leaves, n);
    SumSame(leaves, ShareOf(lens, cap), ShareOf(Dls(tree), cap));
  }

  lemma LensBounded(f: seq<nat>, lens: seq<nat>, tree: seq<CtData>, desc: Desc, maxCode: nat, forced: set<nat>, leaves: set<nat>)
    requires LengthsSet(f, lens, tree, desc, maxCode, forced, leaves)
    ensures forall i :: 0 <= i < |lens| ==> lens[i] <= desc.maxLength
    ensures lens[maxCode] > 0 && forall i :: maxCode < i < |lens| ==> lens[i] == 0
  {
    hide Kraft, Pow2;
    forall i | 0 <= i < |lens|
      ensures lens[i] <= desc.maxLength && (i > maxCode ==> lens[i] == 0)
    {
      if i in leaves { assert i < |tree|; }
    }
  }

  /** What gen_codes needs. */
  lemma CodesReady(f: seq<nat>, lens: seq<nat>, tree: seq<CtData>, desc: Desc, maxCode: nat, forced: set<nat>, leaves: set<nat>,
                   bl: seq<nat>)
    requires LengthsSet(f, lens, tree, desc, maxCode, forced, leaves) && Counts(bl, leaves, tree)
    ensures Lens(tree, maxCode + 1) == lens[..maxCode + 1]
    ensures Fits(lens[..maxCode + 1], desc.maxLength)
    ensures forall k :: 1 <= k <= MAX_BITS ==> bl[k] == CountLen(lens[..maxCode + 1], k)
  {
    hide Sum, KraftSum, Pow2, CountLen, Kraft;
    LensBounded(f, lens, tree, desc, maxCode, forced, leaves);
    KraftOfLens(lens, tree, leaves, desc.maxLength, maxCode + 1);
    forall k | 1 <= k <= MAX_BITS
      ensures bl[k] == CountLen(lens[..maxCode + 1], k)
    {
      CountLenIsSum(lens, leaves, tree, k, maxCode + 1);
      UpToAll(leaves, maxCode + 1);
    }
  }

  lemma ForcedLengths(f: seq<nat>, lens: seq<nat>, tree: seq<CtData>, desc: Desc, maxCode: nat, forced: set<nat>, leaves: set<nat>)
    requires LengthsSet(f, lens, tree, desc, maxCode, forced, leaves) && forced != {}
    ensures forall x :: x in leaves ==> tree[x].dl == 1
  {
    hide Kraft, Pow2;
    forall x | x in leaves
      ensures tree[x].dl == 1
    {
      TwoLeaves(leaves, tree, desc.maxLength, x);
    }
  }

  lemma Optimal(f: seq<nat>, lens: seq<nat>, tree: seq<CtData>, desc: Desc, maxCode: nat, forced: set<nat>, leaves: set<nat>,
                merges: seq<(nat, nat)>, bl: seq<nat>)
    requires LengthsSet(f, lens, tree, desc, maxCode, forced, leaves) && Counts(bl, leaves, tree) && desc.maxLength <= MAX_BITS
    requires Script(leaves, merges, desc.elems)
    requires forall i :: 0 <= i < |merges| ==> GreedyAt(leaves, merges, desc.elems, Freqs(tree), i)
    requires bl[desc.maxLength] == 0 || Shallow(merges, desc.elems, desc.maxLength) ==> Unlimited(tree, merges, desc.elems, desc.maxLength)
    ensures (forall i :: 0 <= i < |lens| ==> lens[i] < desc.maxLength) ==> NoBetter(f, lens)
    ensures Shallow(merges, desc.elems, desc.maxLength) ==> NoBetter(f, lens)
  {
    hide Script, GreedyAt, Unlimited, Kraft, Pow2, NoBetter, Sum, Shallow;
    var short := forall i :: 0 <= i < |lens| ==> lens[i] < desc.maxLength;
    if short || Shallow(merges, desc.elems, desc.maxLength) {
      if short { SumZero(leaves, LenIs(tree, desc.maxLength)); }
      if forced == {} {
        GreedyNoBetter(f, tree, lens, leaves, merges, desc.elems, desc.maxLength);
      } else {
        ForcedLengths(f, lens, tree, desc, maxCode, forced, leaves);
        OnesNoBetter(f, lens);
      }
    }
  }

  lemma Costs(f: seq<nat>, lens: seq<nat>, tree: seq<CtData>, desc: Desc, maxCode: nat, forced: set<nat>, leaves: set<nat>)
    requires desc.Valid() && LengthsSet(f, lens, tree, desc, maxCode, forced, leaves)
    ensures Sum(leaves, DynCost(tree, desc)) == Dot(f, DynBits(lens, desc)) + Sum(leaves, ForcedDyn(forced))
    ensures Sum(leaves, FixedCost(tree, desc))
         == if desc.staticTree.Some? then Dot(f, FixedBits(desc.elems, desc)) + Sum(leaves, ForcedFix(forced, desc)) else 0
  {
    hide Kraft, Pow2, Sum, Dot;
    if forced != {} { ForcedLengths(f, lens, tree, desc, maxCode, forced, leaves); }
    var t0 := seq(|tree|, i requires 0 <= i < |tree| => if i < desc.elems then tree[i].(fc := f[i]) else tree[i]);
    CostsExact(f, t0, tree, desc, forced, leaves, lens);
  }
}
