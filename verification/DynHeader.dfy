/** The header of a dynamic block: what send_all_trees sends, how a decoder reads it, and what it costs. */
module DynHeaders {
  import opened Bits
  import opened Inflate
  import opened Canonical
  import opened RunLengths
  import opened SendTrees
  import opened TreeFacts
  import opened TreeResults
  import opened TokenBuffers

  const BL_ORDER_RANK: seq<nat> := [3, 17, 15, 13, 11, 9, 7, 5, 4, 6, 8, 10, 12, 14, 16, 18, 0, 1, 2]

  function Rank(i: nat): (r: nat)
    requires i < 19
    ensures r < 19
  {
    BL_ORDER_RANK[i]
  }

  /** bl_order is a permutation. */
  lemma OrderRank(i: nat)
    requires i < 19
    ensures Order(Rank(i)) == i && Rank(Order(i)) == i
  {
  }

  /** The code lengths of the code length alphabet, 3 bits each. */
  function ClBits(cl: seq<nat>, n: nat): (r: seq<bool>)
    requires |cl| == 19 && n <= 19
    ensures |r| == 3 * n
  {
    if n == 0 then [] else ClBits(cl, n - 1) + BitsOf(cl[Order(n - 1)], 3)
  }

  lemma {:induction false} ClReads(s: seq<bool>, p: nat, cl: seq<nat>, n: nat, i: nat)
    requires |cl| == 19 && n <= 19 && i < 19 && At(s, p, ClBits(cl, n)) && forall j :: 0 <= j < 19 ==> cl[j] < 8
    ensures p + 3 * n <= |s| && CodeLengthLengths(s, p, n)[i] == if Rank(i) < n then cl[i] else 0
  {
    hide Order, Rank, NatOf, BitsOf;
    if n > 0 {
      AtSplit(s, p, ClBits(cl, n - 1), BitsOf(cl[Order(n - 1)], 3));
      ClReads(s, p, cl, n - 1, i);
      EightIsPow2();
      ReadsBack(s, p + 3 * (n - 1), cl[Order(n - 1)], 3);
      OrderRank(n - 1);
      OrderRank(i);
    }
  }

  lemma EightIsPow2()
    ensures Pow2(3) == 8 && Pow2(5) == 32 && Pow2(4) == 16
  {
  }

  /** Nothing is lost when only the first `n` code lengths, in bl_order, are sent. */
  ghost predicate Sends(cl: seq<nat>, n: nat)
    ensures Sends(cl, n) ==> |cl| == 19 && 4 <= n <= 19
  {
    |cl| == 19 && 4 <= n <= 19 && (forall j :: 0 <= j < 19 ==> cl[j] < 8) && forall j :: n <= j < 19 ==> cl[Order(j)] == 0
  }

  lemma ClRoundTrip(s: seq<bool>, p: nat, cl: seq<nat>, n: nat)
    requires Sends(cl, n) && At(s, p, ClBits(cl, n))
    ensures p + 3 * n <= |s| && CodeLengthLengths(s, p, n) == cl
  {
    hide Order, Rank, CodeLengthLengths, ClBits;
    forall i | 0 <= i < 19
      ensures CodeLengthLengths(s, p, n)[i] == cl[i]
    {
      ClReads(s, p, cl, n, i);
      OrderRank(i);
    }
  }

  // ---------- The whole header ----------

  ghost function LengthItems(lens: seq<nat>): seq<Item> {
    Runs(lens, 0, -1, 0)
  }

  ghost function HeaderBits(ll: seq<nat>, dl: seq<nat>, cl: seq<nat>, n: nat): seq<bool>
    requires |ll| >= 257 && |dl| >= 1 && |cl| == 19 && 4 <= n <= 19
  {
    BitsOf(|ll| - 257, 5) + (BitsOf(|dl| - 1, 5) + (BitsOf(n - 4, 4)
      + (ClBits(cl, n) + (ItemsBits(cl, LengthItems(ll)) + ItemsBits(cl, LengthItems(dl))))))
  }

  /** Everything the header needs: sizes within their fields, and a code for every item. */
  ghost predicate HeaderOk(ll: seq<nat>, dl: seq<nat>, cl: seq<nat>, n: nat)
    ensures HeaderOk(ll, dl, cl, n) ==> 257 <= |ll| && 1 <= |dl| && |cl| == 19 && 4 <= n <= 19
  {
    && 257 <= |ll| <= 288 && 1 <= |dl| <= 32 && Sends(cl, n) && Fits(cl, 7)
    && (forall i :: 0 <= i < |ll| ==> ll[i] < 16) && (forall i :: 0 <= i < |dl| ==> dl[i] < 16)
    && Coded(cl, LengthItems(ll)) && Coded(cl, LengthItems(dl))
  }

  lemma ItemsMean(acc: seq<nat>, lens: seq<nat>)
    requires |lens| > 0 && forall i :: 0 <= i < |lens| ==> lens[i] < 16
    ensures Expand(acc, LengthItems(lens)) == acc + lens
  {
    hide Runs, Expand;
    RunsMean(lens, 0, -1, 0, acc);
    assert Unsent(lens, 0, 0) == lens;
  }

  lemma {:induction false} FirstNotRep(lens: seq<nat>, n: nat, count: nat)
    requires n < |lens| && forall i :: 0 <= i < |lens| ==> lens[i] < 16
    ensures Runs(lens, n, -1, count) != [] && !Runs(lens, n, -1, count)[0].Rep?
    decreases |lens| - n
  {
    var cur := lens[n];
    if count + 1 < MaxCount(cur, -1) && cur == LenAt(lens, n + 1) {
      FirstNotRep(lens, n + 1, count + 1);
    }
  }

  /** Both trees' lengths are read back, as one sequence. */
  lemma LengthsDecode(ll: seq<nat>, dl: seq<nat>, cl: seq<nat>, n: nat, s: seq<bool>, p: nat)
    requires HeaderOk(ll, dl, cl, n) && At(s, p, ItemsBits(cl, LengthItems(ll)) + ItemsBits(cl, LengthItems(dl)))
    ensures DecodeLengths(cl, s, p, |ll| + |dl|, [])
         == Some((p + |ItemsBits(cl, LengthItems(ll))| + |ItemsBits(cl, LengthItems(dl))|, ll + dl))
  {
    hide Runs, Expand, ItemsBits, Fits, At, Coded, Sends;
    var a, b := ItemsBits(cl, LengthItems(ll)), ItemsBits(cl, LengthItems(dl));
    AtSplit(s, p, a, b);
    ItemsMean([], ll);
    ItemsMean(ll, dl);
    assert [] + ll == ll;
    FirstNotRep(ll, 0, 0);
    ItemsDecode(cl, 7, s, p, |ll| + |dl|, [], LengthItems(ll));
    ItemsDecode(cl, 7, s, p + |a|, |ll| + |dl|, ll, LengthItems(dl));
  }

  /** A decoder that reads the header goes on with exactly the two codes of the encoder. */
  lemma HeaderDecodes(ll: seq<nat>, dl: seq<nat>, cl: seq<nat>, n: nat, s: seq<bool>, p: nat, out: seq<byte>)
    requires HeaderOk(ll, dl, cl, n) && At(s, p, HeaderBits(ll, dl, cl, n))
    ensures DecodeDynamic(s, p, out) == DecodeData(ll, dl, s, p + |HeaderBits(ll, dl, cl, n)|, out)
  {
    hide Runs, ItemsBits, Fits, At, Coded, Sends, DecodeData, DecodeLengths, BitsOf, NatOf, CodeLengthLengths, ClBits, Pow2;
    EightIsPow2();
    var a, b := ItemsBits(cl, LengthItems(ll)), ItemsBits(cl, LengthItems(dl));
    var c := ClBits(cl, n);
    AtSplit(s, p, BitsOf(|ll| - 257, 5), BitsOf(|dl| - 1, 5) + (BitsOf(n - 4, 4) + (c + (a + b))));
    AtSplit(s, p + 5, BitsOf(|dl| - 1, 5), BitsOf(n - 4, 4) + (c + (a + b)));
    AtSplit(s, p + 10, BitsOf(n - 4, 4), c + (a + b));
    AtSplit(s, p + 14, c, a + b);
    ReadsBack(s, p, |ll| - 257, 5);
    ReadsBack(s, p + 5, |dl| - 1, 5);
    ReadsBack(s, p + 10, n - 4, 4);
    ClRoundTrip(s, p + 14, cl, n);
    LengthsDecode(ll, dl, cl, n, s, p + 14 + 3 * n);
    assert (ll + dl)[..|ll|] == ll && (ll + dl)[|ll|..] == dl;
  }

  // ---------- Exact cost ----------

  ghost function ItemFreqs(items: seq<Item>): (f: seq<nat>)
    ensures |f| == 19
  {
    seq(19, s requires 0 <= s < 19 => CountSymbol(items, s))
  }

  lemma ItemFreqsSnoc(items: seq<Item>, x: Item)
    ensures ItemFreqs(items + [x]) == AddOne(ItemFreqs(items), x.Symbol())
    ensures ItemFreqs([]) == seq(19, i => 0)
  {
    assert (items + [x])[..|items|] == items;
  }

  lemma {:induction false} ItemTotal(items: seq<Item>)
    requires AllValid(items)
    ensures Total(ItemFreqs(items)) == |items|
  {
    hide Total, ItemFreqs;
    if items == [] {
      ItemFreqsSnoc([], Len(0));
      TotalZeros(ItemFreqs([]));
    } else {
      var rest, x := items[..|items| - 1], items[|items| - 1];
      ItemTotal(rest);
      ItemFreqsSnoc(rest, x);
      assert rest + [x] == items;
      AddOneTotal(ItemFreqs(rest), x.Symbol());
    }
  }

  /** extra_blbits */
  const EXTRA_BLBITS: seq<nat> := [0, 0, 0, 0, 0, 0, 0, 0, 0, 0, 0, 0, 0, 0, 0, 0, 2, 3, 7]

  lemma ItemCost(cl: seq<nat>, x: Item, c: seq<nat>)
    requires |cl| == 19 && x.Valid() && |c| == 19 && Costed(cl, c, 0, EXTRA_BLBITS)
    ensures |ItemBits(cl, x)| == c[x.Symbol()]
  {
    hide CodeWord, BitsOf;
  }

  lemma {:induction false} ItemsCost(cl: seq<nat>, items: seq<Item>, c: seq<nat>)
    requires |cl| == 19 == |c| && AllValid(items) && Costed(cl, c, 0, EXTRA_BLBITS)
    ensures |ItemsBits(cl, items)| == Dot(ItemFreqs(items), c)
    decreases |items|
  {
    hide Dot, ItemFreqs, Costed, ItemBits;
    if items == [] {
      ItemFreqsSnoc([], Len(0));
      DotZeros(ItemFreqs([]), c);
    } else {
      var rest, x := items[..|items| - 1], items[|items| - 1];
      ItemsCost(cl, rest, c);
      ItemFreqsSnoc(rest, x);
      assert rest + [x] == items;
      ItemsBitsSnoc(cl, rest, x);
      ItemCost(cl, x, c);
      AddOneDot(ItemFreqs(rest), x.Symbol(), c);
    }
  }

  /** Every item is counted. */
  lemma {:induction false} ItemCounted(items: seq<Item>, i: nat)
    requires i < |items|
    ensures CountSymbol(items, items[i].Symbol()) > 0
  {
    var n := |items|;
    if i < n - 1 { ItemCounted(items[..n - 1], i); }
  }

  /** A run sequence is no longer than the lengths it stands for. */
  lemma {:induction false} ItemsShort(acc: seq<nat>, items: seq<Item>)
    requires AllValid(items)
    ensures |acc| + |items| <= |Expand(acc, items)|
    decreases items
  {
    hide Item.Meaning;
    if items != [] {
      MeaningNonEmpty(acc, items[0]);
      ItemsShort(acc + items[0].Meaning(acc), items[1..]);
    }
  }

  /** A nonzero length is sent at least once as itself: the header needs a code other than the three repeat codes. */
  lemma {:induction false} SomeLen(lens: seq<nat>, n: nat, prev: int, count: nat, j: nat) returns (i: nat)
    requires n <= j < |lens| && lens[j] > 0 && (forall i :: 0 <= i < |lens| ==> lens[i] < 16) && prev <= 0
    ensures i < |Runs(lens, n, prev, count)| && Runs(lens, n, prev, count)[i].Len? && Runs(lens, n, prev, count)[i].len > 0
    decreases |lens| - n
  {
    var cur := lens[n];
    if count + 1 < MaxCount(cur, prev) && cur == LenAt(lens, n + 1) {
      i := SomeLen(lens, n + 1, prev, count + 1, if j == n then n + 1 else j);
    } else {
      var e, rest := Emit(cur, prev, count + 1), Runs(lens, n + 1, cur, 0);
      if cur > 0 {
        i := 0;
        assert e[0] == Len(cur);
      } else {
        var k := SomeLen(lens, n + 1, 0, 0, j);
        i := |e| + k;
        assert (e + rest)[i] == rest[k];
      }
    }
  }

  // ---------- Trailing zeros ----------

  /** Unused symbols at the end do not take part in the code. */
  ghost predicate ZerosFrom(lens: seq<nat>, k: nat) {
    k <= |lens| && forall i :: k <= i < |lens| ==> lens[i] == 0
  }

  lemma {:induction false} CountTrim(lens: seq<nat>, k: nat, l: nat)
    requires ZerosFrom(lens, k) && l > 0
    ensures CountLen(lens[..k], l) == CountLen(lens, l)
    decreases |lens|
  {
    var n := |lens|;
    if k == n {
      assert lens[..k] == lens;
    } else {
      CountTrim(lens[..n - 1], k, l);
      assert lens[..n - 1][..k] == lens[..k];
    }
  }

  lemma {:induction false} KraftTrim(lens: seq<nat>, k: nat, m: nat)
    requires ZerosFrom(lens, k)
    ensures KraftSum(lens[..k], m) == KraftSum(lens, m)
    decreases |lens|
  {
    var n := |lens|;
    if k == n {
      assert lens[..k] == lens;
    } else {
      KraftTrim(lens[..n - 1], k, m);
      assert lens[..n - 1][..k] == lens[..k];
    }
  }

  lemma {:induction false} FirstTrim(lens: seq<nat>, k: nat, l: nat)
    requires ZerosFrom(lens, k)
    ensures FirstCode(lens[..k], l) == FirstCode(lens, l)
  {
    if l > 1 {
      FirstTrim(lens, k, l - 1);
      CountTrim(lens, k, l - 1);
    }
  }

  lemma CarriesTrim(tree: seq<CtData>, lens: seq<nat>, k: nat)
    requires ZerosFrom(lens, k) && Carries(tree, lens[..k])
    ensures Carries(tree, lens)
  {
    hide FirstCode, MsbBits, CountLen, BitsOf, Pow2;
    forall n | 0 <= n < |lens| && n < |tree| && lens[n] > 0
      ensures CarriesAt(tree[n], lens, n)
    {
      assert lens[..k][n] == lens[n] && CarriesAt(tree[n], lens[..k], n);
      FirstTrim(lens, k, lens[n]);
      assert lens[..k][..n] == lens[..n];
    }
  }
}
