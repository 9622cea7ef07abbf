/** The theory behind build_tree and gen_bitlen: merging two nodes at a time, the lengths this gives
    the leaves, and why no other lengths are cheaper. */
module Huffman {
  import opened Bits

  // ---------- Sums over sets of nodes ----------

  ghost function Sum(s: set<nat>, g: nat -> nat): nat {
    if s == {} then 0 else var x :| x in s; g(x) + Sum(s - {x}, g)
  }

  lemma {:induction false} SumRemove(s: set<nat>, x: nat, g: nat -> nat)
    requires x in s
    ensures Sum(s, g) == g(x) + Sum(s - {x}, g)
  {
    var y :| y in s && Sum(s, g) == g(y) + Sum(s - {y}, g);
    if y != x {
      SumRemove(s - {y}, x, g);
      SumRemove(s - {x}, y, g);
      assert s - {y} - {x} == s - {x} - {y};
    }
  }

  lemma SumAdd(s: set<nat>, x: nat, g: nat -> nat)
    requires x !in s
    ensures Sum(s + {x}, g) == g(x) + Sum(s, g)
  {
    SumRemove(s + {x}, x, g);
    assert s + {x} - {x} == s;
  }

  lemma SumOne(x: nat, g: nat -> nat)
    ensures Sum({x}, g) == g(x)
  {
    SumRemove({x}, x, g);
    assert {x} - {x} == {};
  }

  lemma SumRemove2(s: set<nat>, a: nat, b: nat, g: nat -> nat)
    requires a in s && b in s && a != b
    ensures Sum(s, g) == g(a) + g(b) + Sum(s - {a, b}, g)
  {
    SumRemove(s, a, g);
    SumRemove(s - {a}, b, g);
    assert s - {a} - {b} == s - {a, b};
  }

  lemma {:induction false} SumSame(s: set<nat>, g: nat -> nat, h: nat -> nat)
    requires forall x :: x in s ==> g(x) == h(x)
    ensures Sum(s, g) == Sum(s, h)
  {
    if s != {} {
      var x :| x in s;
      SumRemove(s, x, g);
      SumRemove(s, x, h);
      SumSame(s - {x}, g, h);
    }
  }

  // ---------- Code lengths: their share of the code space and their cost ----------

  function ShareOf(len: seq<nat>, m: nat): nat -> nat {
    (x: nat) => if x < |len| && len[x] <= m then Pow2(m - len[x]) else 0
  }

  function CostOf(w: seq<nat>, len: seq<nat>): nat -> nat {
    (x: nat) => if x < |len| && x < |w| then w[x] * len[x] else 0
  }

  ghost function Kraft(s: set<nat>, len: seq<nat>, m: nat): nat { Sum(s, ShareOf(len, m)) }

  ghost function Cost(s: set<nat>, w: seq<nat>, len: seq<nat>): nat { Sum(s, CostOf(w, len)) }

  /** Lengths that some prefix code for the symbols `s` has: Kraft's inequality. */
  ghost predicate Feasible(s: set<nat>, len: seq<nat>, m: nat) {
    (forall x :: x in s ==> x < |len| && len[x] <= m) && Kraft(s, len, m) <= Pow2(m)
  }

  /** Every prefix code for `s` costs at least `bound`. */
  ghost predicate NoCheaper(s: set<nat>, w: seq<nat>, bound: nat) {
    forall len: seq<nat>, m: nat :: |len| == |w| && Feasible(s, len, m) ==> Cost(s, w, len) >= bound
  }

  // ---------- Exchange: the two rarest symbols may be the two longest, side by side ----------

  lemma ExchangeCost(w1: nat, w2: nat, l1: nat, l2: nat)
    requires w1 <= w2 && l1 <= l2
    ensures w1 * l2 + w2 * l1 <= w1 * l1 + w2 * l2
  {
    assert w2 * l2 - w2 * l1 - (w1 * l2 - w1 * l1) == (w2 - w1) * (l2 - l1);
  }

  function Swapped(len: seq<nat>, p: nat, q: nat): (r: seq<nat>)
    requires p < |len| && q < |len|
    ensures |r| == |len| && r[p] == len[q] && r[q] == len[p]
    ensures forall i :: 0 <= i < |len| && i != p && i != q ==> r[i] == len[i]
  {
    len[p := len[q]][q := len[p]]
  }

  lemma SwapLengths(s: set<nat>, w: seq<nat>, len: seq<nat>, m: nat, p: nat, q: nat)
    requires |len| == |w| && Feasible(s, len, m) && p in s && q in s
    requires w[p] <= w[q] && len[p] <= len[q]
    ensures Feasible(s, Swapped(len, p, q), m)
    ensures Cost(s, w, Swapped(len, p, q)) <= Cost(s, w, len)
  {
    if p == q {
      assert Swapped(len, p, q) == len;
    } else {
      SwapShares(s, len, m, p, q);
      SwapCosts(s, w, len, p, q);
    }
  }

  lemma SwapShares(s: set<nat>, len: seq<nat>, m: nat, p: nat, q: nat)
    requires p in s && q in s && p != q && p < |len| && q < |len|
    ensures Kraft(s, Swapped(len, p, q), m) == Kraft(s, len, m)
  {
    var g, h := ShareOf(len, m), ShareOf(Swapped(len, p, q), m);
    assert g(p) == h(q) && g(q) == h(p);
    SwapTerms(s, p, q, g, h);
  }

  lemma SwapTerms(s: set<nat>, p: nat, q: nat, g: nat -> nat, h: nat -> nat)
    requires p in s && q in s && p != q && forall x :: x in s && x != p && x != q ==> g(x) == h(x)
    ensures Sum(s, g) + h(p) + h(q) == Sum(s, h) + g(p) + g(q)
  {
    SumRemove2(s, p, q, g);
    SumRemove2(s, p, q, h);
    SumSame(s - {p, q}, g, h);
  }

  lemma SwapCosts(s: set<nat>, w: seq<nat>, len: seq<nat>, p: nat, q: nat)
    requires |len| == |w| && p in s && q in s && p != q && p < |len| && q < |len|
    requires w[p] <= w[q] && len[p] <= len[q]
    ensures Cost(s, w, Swapped(len, p, q)) <= Cost(s, w, len)
  {
    var g, h := CostOf(w, len), CostOf(w, Swapped(len, p, q));
    SwapTerms(s, p, q, g, h);
    ExchangeCost(w[p], w[q], len[p], len[q]);
  }

  lemma {:induction false} Longest(s: set<nat>, len: seq<nat>) returns (x: nat)
    requires s != {} && forall y :: y in s ==> y < |len|
    ensures x in s && forall y :: y in s ==> len[y] <= len[x]
  {
    var z :| z in s;
    var rest := s - {z};
    x := z;
    if rest != {} {
      var y := Longest(rest, len);
      if len[z] < len[y] { x := y; }
    }
    assert forall y :: y in s ==> y == z || y in rest;
  }

  /** Shares of lengths up to `t` are whole multiples of the share of `t`. */
  lemma {:induction false} KraftMultiple(s: set<nat>, len: seq<nat>, m: nat, t: nat) returns (q: nat)
    requires t <= m && forall x :: x in s ==> x < |len| && len[x] <= t
    ensures Kraft(s, len, m) == q * Pow2(m - t)
    ensures s != {} ==> q > 0
  {
    if s == {} {
      q := 0;
    } else {
      var x :| x in s;
      SumRemove(s, x, ShareOf(len, m));
      q := KraftMultiple(s - {x}, len, m, t);
      var k := Pow2(t - len[x]);
      Pow2Add(t - len[x], m - t);
      MulDistribute(q, k, Pow2(m - t));
      q := q + k;
    }
  }

  lemma MulCancelLess(a: nat, b: nat, c: nat)
    requires a * c < b * c
    ensures a + 1 <= b
  {
    if b <= a { MulMonotone(b, a, c); }
  }

  /** If `b` is longest among the others, the code space left always allows `a` the length of `b`. */
  lemma Shorten(s: set<nat>, len: seq<nat>, m: nat, a: nat, b: nat)
    requires Feasible(s, len, m) && a in s && b in s && a != b
    requires len[b] <= len[a] && forall x :: x in s && x != a ==> len[x] <= len[b]
    ensures len[b] >= 1
    ensures Feasible(s, len[a := len[b]], m)
  {
    hide Sum, Pow2;
    var t, rest := len[b], s - {a};
    assert b in rest;
    var q := KraftMultiple(rest, len, m, t);
    SumRemove(s, a, ShareOf(len, m));
    var u := Pow2(m - t);
    assert Pow2(m) == Pow2(t) * u by { Pow2Add(t, m - t); }
    MulCancelLess(q, Pow2(t), u);
    MulMonotone(q + 1, Pow2(t), u);
    MulDistribute(q, 1, u);
    ReplaceShare(s, len, m, a, t);
  }

  lemma ReplaceShare(s: set<nat>, len: seq<nat>, m: nat, a: nat, t: nat)
    requires a in s && a < |len| && t <= len[a] <= m
    ensures Kraft(s, len[a := t], m) + Pow2(m - len[a]) == Kraft(s, len, m) + Pow2(m - t)
  {
    hide Pow2, Sum;
    var g, h := ShareOf(len, m), ShareOf(len[a := t], m);
    assert g(a) == Pow2(m - len[a]) && h(a) == Pow2(m - t);
    ReplaceTerm(s, a, g, h);
  }

  lemma ReplaceTerm(s: set<nat>, a: nat, g: nat -> nat, h: nat -> nat)
    requires a in s && forall x :: x in s && x != a ==> g(x) == h(x)
    ensures Sum(s, h) + g(a) == Sum(s, g) + h(a)
  {
    SumRemove(s, a, g);
    SumRemove(s, a, h);
    SumSame(s - {a}, g, h);
  }

  lemma ShortenCost(s: set<nat>, w: seq<nat>, len: seq<nat>, a: nat, t: nat)
    requires |len| == |w| && a in s && a < |len| && t <= len[a]
    ensures Cost(s, w, len[a := t]) <= Cost(s, w, len)
  {
    hide Sum;
    var g, h := CostOf(w, len), CostOf(w, len[a := t]);
    assert h(a) <= g(a) by { MulMonotone(t, len[a], w[a]); }
    forall x | x in s && x != a
      ensures g(x) == h(x)
    {
    }
    ReplaceTerm(s, a, g, h);
  }

  /** Two terms of a sum give way to one. */
  lemma JoinTerms(s: set<nat>, a: nat, b: nat, c: nat, g: nat -> nat, h: nat -> nat)
    requires a in s && b in s && a != b && c !in s
    requires forall x :: x in s && x != a && x != b ==> g(x) == h(x)
    ensures Sum(s - {a, b} + {c}, h) + g(a) + g(b) == Sum(s, g) + h(c)
  {
    var rest := s - {a, b};
    SumRemove2(s, a, b, g);
    SumAdd(rest, c, h);
    SumSame(rest, g, h);
  }

  /** Two siblings of equal length are one node, one bit shorter. */
  lemma JoinSiblings(s: set<nat>, w: seq<nat>, len: seq<nat>, m: nat, a: nat, b: nat, c: nat)
    requires |len| == |w| && Feasible(s, len, m) && a in s && b in s && a != b && c !in s && c < |len|
    requires len[a] == len[b] >= 1 && w[c] == w[a] + w[b]
    ensures Feasible(s - {a, b} + {c}, len[c := len[b] - 1], m)
    ensures Cost(s - {a, b} + {c}, w, len[c := len[b] - 1]) + w[c] == Cost(s, w, len)
  {
    JoinShares(s, len, len[c := len[b] - 1], m, a, b, c);
    JoinCosts(s, w, len, len[c := len[b] - 1], a, b, c);
  }

  ghost predicate SameOn(s: set<nat>, len: seq<nat>, len': seq<nat>) {
    |len| == |len'| && forall x :: x in s ==> x < |len| && len[x] == len'[x]
  }

  lemma JoinShares(s: set<nat>, len: seq<nat>, len': seq<nat>, m: nat, a: nat, b: nat, c: nat)
    requires a in s && b in s && a != b && c !in s && SameOn(s, len, len') && c < |len|
    requires len[a] == len[b] == len'[c] + 1 <= m
    ensures Kraft(s - {a, b} + {c}, len', m) == Kraft(s, len, m)
  {
    var g, h := ShareOf(len, m), ShareOf(len', m);
    assert g(a) == g(b) && h(c) == 2 * g(a);
    hide Pow2, Sum;
    JoinTerms(s, a, b, c, g, h);
  }

  lemma JoinCosts(s: set<nat>, w: seq<nat>, len: seq<nat>, len': seq<nat>, a: nat, b: nat, c: nat)
    requires a in s && b in s && a != b && c !in s && SameOn(s, len, len') && c < |len| == |w|
    requires len[a] == len[b] == len'[c] + 1 && w[c] == w[a] + w[b]
    ensures Cost(s - {a, b} + {c}, w, len') + w[c] == Cost(s, w, len)
  {
    var g, h := CostOf(w, len), CostOf(w, len');
    assert h(c) + w[c] == g(a) + g(b) by { JoinCost(w[a], w[b], len[a]); }
    hide Sum;
    JoinTerms(s, a, b, c, g, h);
  }

  lemma JoinCost(x: nat, y: nat, l: nat)
    requires l >= 1
    ensures (x + y) * (l - 1) + (x + y) == x * l + y * l
  {
  }

  /** `a` is rarest, `b` is rarest among the others. */
  ghost predicate Rarest(s: set<nat>, w: seq<nat>, a: nat, b: nat) {
    && a in s && b in s && a != b
    && (forall x :: x in s ==> x < |w|)
    && (forall x :: x in s ==> w[a] <= w[x])
    && (forall x :: x in s && x != a ==> w[b] <= w[x])
  }

  lemma RarestLongest(s: set<nat>, w: seq<nat>, len: seq<nat>, m: nat, a: nat, b: nat) returns (r: seq<nat>)
    requires |len| == |w| && Feasible(s, len, m) && Rarest(s, w, a, b)
    ensures |r| == |w| && Feasible(s, r, m) && Cost(s, w, r) <= Cost(s, w, len)
    ensures r[b] <= r[a] && forall x :: x in s && x != a ==> r[x] <= r[b]
  {
    hide Sum, Pow2, Kraft, Cost;
    var x := Longest(s, len);
    SwapLengths(s, w, len, m, a, x);
    var len1 := Swapped(len, a, x);
    assert b in s - {a};
    var y := Longest(s - {a}, len1);
    SwapLengths(s, w, len1, m, b, y);
    r := Swapped(len1, b, y);
  }

  lemma MergeLengths(s: set<nat>, w: seq<nat>, len: seq<nat>, m: nat, a: nat, b: nat, c: nat) returns (r: seq<nat>)
    requires |len| == |w| && Feasible(s, len, m) && Rarest(s, w, a, b)
    requires c !in s && c < |w| && w[c] == w[a] + w[b]
    ensures |r| == |w| && Feasible(s - {a, b} + {c}, r, m)
    ensures Cost(s - {a, b} + {c}, w, r) + w[c] <= Cost(s, w, len)
  {
    var len2 := RarestLongest(s, w, len, m, a, b);
    Shorten(s, len2, m, a, b);
    ShortenCost(s, w, len2, a, len2[b]);
    var len3 := len2[a := len2[b]];
    JoinSiblings(s, w, len3, m, a, b, c);
    r := len3[c := len3[b] - 1];
  }

  lemma MergeBound(s: set<nat>, w: seq<nat>, a: nat, b: nat, c: nat, bound: nat)
    requires Rarest(s, w, a, b) && c !in s && c < |w| && w[c] == w[a] + w[b]
    requires NoCheaper(s - {a, b} + {c}, w, bound)
    ensures NoCheaper(s, w, bound + w[c])
  {
    forall len: seq<nat>, m: nat | |len| == |w| && Feasible(s, len, m)
      ensures Cost(s, w, len) >= bound + w[c]
    {
      var r := MergeLengths(s, w, len, m, a, b, c);
    }
  }

  // ---------- A whole run of merges ----------

  /** The nodes still without a father after `k` merges; merge `k` creates node `elems + k`. */
  ghost function Live(leaves: set<nat>, merges: seq<(nat, nat)>, elems: nat, k: nat): set<nat>
    requires k <= |merges|
  {
    if k == 0 then leaves
    else Live(leaves, merges, elems, k - 1) - {merges[k - 1].0, merges[k - 1].1} + {elems + k - 1}
  }

  ghost predicate MergeAt(leaves: set<nat>, merges: seq<(nat, nat)>, elems: nat, k: nat)
    requires k < |merges|
  {
    var s := Live(leaves, merges, elems, k);
    merges[k].0 in s && merges[k].1 in s && merges[k].0 != merges[k].1
  }

  /** The merges take the leaves to a single root. */
  ghost predicate Script(leaves: set<nat>, merges: seq<(nat, nat)>, elems: nat) {
    && (forall x :: x in leaves ==> x < elems)
    && |merges| >= 1
    && (forall k :: 0 <= k < |merges| ==> MergeAt(leaves, merges, elems, k))
    && Live(leaves, merges, elems, |merges|) == {elems + |merges| - 1}
  }

  lemma {:induction false} LiveBound(leaves: set<nat>, merges: seq<(nat, nat)>, elems: nat, k: nat)
    requires (forall x :: x in leaves ==> x < elems) && k <= |merges|
    ensures forall x :: x in Live(leaves, merges, elems, k) ==> x < elems + k
  {
    if k > 0 { LiveBound(leaves, merges, elems, k - 1); }
  }

  /** Weights of the created nodes, from merge `k` on. */
  ghost function Inner(merges: seq<(nat, nat)>, elems: nat, w: seq<nat>, k: nat): nat
    requires k <= |merges| && elems + |merges| <= |w|
    decreases |merges| - k
  {
    if k == |merges| then 0 else w[elems + k] + Inner(merges, elems, w, k + 1)
  }

  ghost predicate GreedyAt(leaves: set<nat>, merges: seq<(nat, nat)>, elems: nat, w: seq<nat>, k: nat)
    requires k < |merges|
  {
    && elems + k < |w|
    && Rarest(Live(leaves, merges, elems, k), w, merges[k].0, merges[k].1)
    && w[elems + k] == w[merges[k].0] + w[merges[k].1]
  }

  /** Always merging the two rarest nodes leaves no cheaper prefix code. */
  lemma {:induction false} GreedyOptimal(leaves: set<nat>, merges: seq<(nat, nat)>, elems: nat, w: seq<nat>, k: nat)
    requires Script(leaves, merges, elems) && k <= |merges| && elems + |merges| <= |w|
    requires forall i :: 0 <= i < |merges| ==> GreedyAt(leaves, merges, elems, w, i)
    ensures NoCheaper(Live(leaves, merges, elems, k), w, Inner(merges, elems, w, k))
    decreases |merges| - k
  {
    if k < |merges| {
      hide NoCheaper;
      var s, a, b, c := Live(leaves, merges, elems, k), merges[k].0, merges[k].1, elems + k;
      var bound := Inner(merges, elems, w, k + 1);
      assert NoCheaper(s - {a, b} + {c}, w, bound) by { GreedyOptimal(leaves, merges, elems, w, k + 1); }
      LiveBound(leaves, merges, elems, k);
      assert GreedyAt(leaves, merges, elems, w, k);
      MergeBound(s, w, a, b, c, bound);
    }
  }

  // ---------- The lengths the merges give, cut off at a cap ----------

  function Capped(l: nat, cap: nat): nat { if l > cap then cap else l }

  ghost predicate DepthAt(merges: seq<(nat, nat)>, elems: nat, len: seq<nat>, cap: nat, k: nat)
    requires k < |merges|
  {
    && elems + k < |len| && merges[k].0 < |len| && merges[k].1 < |len|
    && len[merges[k].0] == Capped(len[elems + k] + 1, cap)
    && len[merges[k].1] == Capped(len[elems + k] + 1, cap)
  }

  /** The root has length 0 and every child one more than its father, but at most `cap`. */
  ghost predicate Depths(merges: seq<(nat, nat)>, elems: nat, len: seq<nat>, cap: nat) {
    && |merges| >= 1 && elems + |merges| <= |len|
    && len[elems + |merges| - 1] == 0
    && forall k :: 0 <= k < |merges| ==> DepthAt(merges, elems, len, cap, k)
  }

  /** How many of the fathers created from merge `k` on are themselves at the cap. */
  ghost function Full(merges: seq<(nat, nat)>, elems: nat, len: seq<nat>, cap: nat, k: nat): nat
    requires k <= |merges| && elems + |merges| <= |len|
    decreases |merges| - k
  {
    if k == |merges| then 0
    else (if len[elems + k] >= cap then 1 else 0) + Full(merges, elems, len, cap, k + 1)
  }

  /** No father is as deep as the cap, so nothing is cut off at it. */
  ghost predicate Shallow(merges: seq<(nat, nat)>, elems: nat, cap: nat) {
    exists len: seq<nat> :: Depths(merges, elems, len, cap) && Full(merges, elems, len, cap, 0) == 0
  }

  /** The merges alone decide all depths. */
  lemma {:induction false} DepthsAgree(leaves: set<nat>, merges: seq<(nat, nat)>, elems: nat, len: seq<nat>, len': seq<nat>, cap: nat, k: nat)
    requires Script(leaves, merges, elems) && Depths(merges, elems, len, cap) && Depths(merges, elems, len', cap) && k <= |merges|
    ensures forall x :: x in Live(leaves, merges, elems, k) ==> x < |len| && x < |len'| && len[x] == len'[x]
    ensures Full(merges, elems, len, cap, k) == Full(merges, elems, len', cap, k)
    decreases |merges| - k
  {
    if k < |merges| {
      DepthsAgree(leaves, merges, elems, len, len', cap, k + 1);
      assert MergeAt(leaves, merges, elems, k);
      assert DepthAt(merges, elems, len, cap, k) && DepthAt(merges, elems, len', cap, k);
      var next := Live(leaves, merges, elems, k + 1);
      assert elems + k in next;
      forall x | x in Live(leaves, merges, elems, k)
        ensures x < |len| && x < |len'| && len[x] == len'[x]
      {
        if x != merges[k].0 && x != merges[k].1 {
          assert x in next;
        }
      }
    } else {
      assert Live(leaves, merges, elems, k) == {elems + |merges| - 1};
    }
  }

  ghost function AtCap(s: set<nat>, len: seq<nat>, cap: nat): set<nat> {
    set x | x in s && x < |len| && len[x] == cap
  }

  /** Each father at the cap oversubscribes the code space by one unit; and nodes at the cap outnumber them. */
  lemma {:induction false} CappedKraft(leaves: set<nat>, merges: seq<(nat, nat)>, elems: nat, len: seq<nat>, cap: nat, k: nat)
    requires Script(leaves, merges, elems) && Depths(merges, elems, len, cap) && k <= |merges| && cap >= 1
    ensures InCap(Live(leaves, merges, elems, k), len, cap)
    ensures Kraft(Live(leaves, merges, elems, k), len, cap) == Pow2(cap) + Full(merges, elems, len, cap, k)
    ensures Full(merges, elems, len, cap, k) > 0 ==>
              |AtCap(Live(leaves, merges, elems, k), len, cap)| > Full(merges, elems, len, cap, k)
    decreases |merges| - k
  {
    hide Sum, Pow2;
    var s := Live(leaves, merges, elems, k);
    if k == |merges| {
      SumOne(elems + k - 1, ShareOf(len, cap));
    } else {
      CappedKraft(leaves, merges, elems, len, cap, k + 1);
      LiveBound(leaves, merges, elems, k);
      assert MergeAt(leaves, merges, elems, k) && DepthAt(merges, elems, len, cap, k);
      SplitNode(s, len, cap, merges[k].0, merges[k].1, elems + k);
    }
  }

  ghost predicate InCap(s: set<nat>, len: seq<nat>, cap: nat) {
    forall x :: x in s ==> x < |len| && len[x] <= cap
  }

  lemma SplitNode(s: set<nat>, len: seq<nat>, cap: nat, a: nat, b: nat, c: nat)
    requires cap >= 1 && a in s && b in s && a != b && c !in s && c < |len|
    requires InCap(s - {a, b} + {c}, len, cap) && a < |len| && b < |len|
    requires len[a] == len[b] == Capped(len[c] + 1, cap)
    ensures InCap(s, len, cap)
    ensures Kraft(s, len, cap) == Kraft(s - {a, b} + {c}, len, cap) + if len[c] >= cap then 1 else 0
    ensures |AtCap(s, len, cap)| >= |AtCap(s - {a, b} + {c}, len, cap)| + if len[c] >= cap then 1 else 0
    ensures len[c] >= cap ==> |AtCap(s, len, cap)| >= 2
  {
    hide AtCap, Kraft;
    forall x | x in s
      ensures x < |len| && len[x] <= cap
    {
      if x != a && x != b { assert x in s - {a, b} + {c}; }
    }
    assert c in s - {a, b} + {c};
    CountAtCap(s, a, b, c, len, cap);
    TwoAtCap(s, a, b, len, cap);
    SplitShares(s, len, cap, a, b, c);
  }

  lemma SplitShares(s: set<nat>, len: seq<nat>, cap: nat, a: nat, b: nat, c: nat)
    requires a in s && b in s && a != b && c !in s && c < |len| && InCap(s, len, cap) && len[c] <= cap
    requires len[a] == len[b] == Capped(len[c] + 1, cap)
    ensures Kraft(s, len, cap) == Kraft(s - {a, b} + {c}, len, cap) + if len[c] >= cap then 1 else 0
  {
    if len[c] < cap {
      JoinShares(s, len, len, cap, a, b, c);
    } else {
      var g := ShareOf(len, cap);
      assert g(a) == g(b) == g(c) == 1;
      hide Sum;
      JoinTerms(s, a, b, c, g, g);
    }
  }

  lemma TwoAtCap(s: set<nat>, a: nat, b: nat, len: seq<nat>, cap: nat)
    requires a in s && b in s && a != b && a < |len| && b < |len| && len[a] == len[b]
    ensures len[a] == cap ==> |AtCap(s, len, cap)| >= 2
  {
    if len[a] == cap { SubsetSize({a, b}, AtCap(s, len, cap)); }
  }

  lemma {:induction false} SubsetSize(a: set<nat>, b: set<nat>)
    requires a <= b
    ensures |a| <= |b|
  {
    if a != {} {
      var x :| x in a;
      SubsetSize(a - {x}, b - {x});
    }
  }

  lemma CountAtCap(s: set<nat>, a: nat, b: nat, c: nat, len: seq<nat>, cap: nat)
    requires a in s && b in s && a != b && c !in s && a < |len| && b < |len| && c < |len| && len[a] == len[b]
    ensures |AtCap(s, len, cap)| + (if len[c] == cap then 1 else 0)
         == |AtCap(s - {a, b} + {c}, len, cap)| + (if len[a] == cap then 2 else 0)
  {
    var rest := s - {a, b};
    AtCapAdd(rest, c, len, cap);
    AtCapAdd(rest, a, len, cap);
    AtCapAdd(rest + {a}, b, len, cap);
    assert rest + {a} + {b} == s;
  }

  lemma AtCapAdd(s: set<nat>, x: nat, len: seq<nat>, cap: nat)
    requires x !in s && x < |len|
    ensures |AtCap(s + {x}, len, cap)| == |AtCap(s, len, cap)| + if len[x] == cap then 1 else 0
  {
    assert AtCap(s + {x}, len, cap) == AtCap(s, len, cap) + if len[x] == cap then {x} else {};
  }

  /** Without a cut-off the cost of the lengths is the weight of all created nodes. */
  lemma {:induction false} DepthCost(leaves: set<nat>, merges: seq<(nat, nat)>, elems: nat, w: seq<nat>, len: seq<nat>,
                                     cap: nat, k: nat)
    requires Script(leaves, merges, elems) && Depths(merges, elems, len, cap) && k <= |merges| && |w| == |len|
    requires forall i :: 0 <= i < |merges| ==> GreedyAt(leaves, merges, elems, w, i)
    requires Full(merges, elems, len, cap, k) == 0
    ensures Cost(Live(leaves, merges, elems, k), w, len) == Inner(merges, elems, w, k)
    decreases |merges| - k
  {
    var s := Live(leaves, merges, elems, k);
    if k == |merges| {
      SumOne(elems + k - 1, CostOf(w, len));
    } else {
      var a, b, c := merges[k].0, merges[k].1, elems + k;
      DepthCost(leaves, merges, elems, w, len, cap, k + 1);
      LiveBound(leaves, merges, elems, k);
      assert GreedyAt(leaves, merges, elems, w, k) && DepthAt(merges, elems, len, cap, k);
      JoinCosts(s, w, len, len, a, b, c);
    }
  }
}
