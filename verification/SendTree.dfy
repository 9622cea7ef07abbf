/** send_tree: the code lengths of one alphabet on the wire, and how a decoder reads them. */
module SendTrees {
  import opened Bits
  import opened Inflate
  import opened Canonical
  import opened BitSinks
  import opened RunLengths

  function ItemBits(cl: seq<nat>, x: Item): seq<bool> {
    if x.Symbol() < |cl| then CodeWord(cl, x.Symbol()) + BitsOf(x.Extra().0, x.Extra().1) else []
  }

  /** Every item has a code. */
  ghost predicate Coded(cl: seq<nat>, items: seq<Item>) {
    |cl| == 19 && forall i :: 0 <= i < |items| ==> items[i].Valid() && 0 < cl[items[i].Symbol()] <= MAX_BITS
  }

  function ItemsBits(cl: seq<nat>, items: seq<Item>): seq<bool> {
    if items == [] then [] else ItemBits(cl, items[0]) + ItemsBits(cl, items[1..])
  }

  lemma {:induction false} ItemsBitsAppend(cl: seq<nat>, a: seq<Item>, b: seq<Item>)
    ensures ItemsBits(cl, a + b) == ItemsBits(cl, a) + ItemsBits(cl, b)
    decreases a
  {
    hide ItemBits;
    if a == [] {
      assert a + b == b;
    } else {
      assert (a + b)[1..] == a[1..] + b;
      ItemsBitsAppend(cl, a[1..], b);
    }
  }

  lemma ItemsBitsSnoc(cl: seq<nat>, a: seq<Item>, x: Item)
    ensures ItemsBits(cl, a + [x]) == ItemsBits(cl, a) + ItemBits(cl, x)
  {
    hide ItemBits;
    ItemsBitsAppend(cl, a, [x]);
    assert [x][1..] == [];
    assert ItemsBits(cl, [x]) == ItemBits(cl, x) + [];
  }

  // ---------- Decoding ----------

  lemma ReadsBack(s: seq<bool>, p: nat, v: nat, n: nat)
    requires At(s, p, BitsOf(v, n)) && v < Pow2(n)
    ensures p + n <= |s| && NatOf(s[p..p + n]) == v
  {
    NatOfBitsOf(v, n);
  }

  lemma ExtraFits(x: Item)
    requires x.Valid()
    ensures x.Extra().0 < Pow2(x.Extra().1) && x.Extra().1 <= 16
    ensures x.Extra().1 == 0 ==> BitsOf(x.Extra().0, x.Extra().1) == []
  {
    assert Pow2(2) == 4 && Pow2(3) == 8 && Pow2(7) == 128 && BitsOf(x.Extra().0, 0) == [];
  }

  /** A decoder reads one item as what it means. */
  lemma ItemDecodes(cl: seq<nat>, m: nat, s: seq<bool>, p: nat, want: nat, acc: seq<nat>, x: Item)
    requires |cl| == 19 && Fits(cl, m) && x.Valid() && cl[x.Symbol()] > 0 && |acc| < want && (x.Rep? ==> acc != [])
    requires At(s, p, ItemBits(cl, x))
    ensures DecodeLengths(cl, s, p, want, acc)
         == DecodeLengths(cl, s, p + |ItemBits(cl, x)|, want, acc + x.Meaning(acc))
  {
    hide CodeWord, BitsOf, NatOf, Fits, Pow2;
    var sym, e := x.Symbol(), x.Extra();
    AtSplit(s, p, CodeWord(cl, sym), BitsOf(e.0, e.1));
    FindsSymbol(cl, s, p, sym, m);
    ExtraFits(x);
    ReadsBack(s, p + cl[sym], e.0, e.1);
  }

  lemma {:induction false} ItemsDecode(cl: seq<nat>, m: nat, s: seq<bool>, p: nat, want: nat, acc: seq<nat>, items: seq<Item>)
    requires Coded(cl, items) && Fits(cl, m) && |Expand(acc, items)| <= want
    requires acc != [] || items == [] || !items[0].Rep?
    requires At(s, p, ItemsBits(cl, items))
    ensures DecodeLengths(cl, s, p, want, acc) == DecodeLengths(cl, s, p + |ItemsBits(cl, items)|, want, Expand(acc, items))
    decreases items
  {
    hide Fits, ItemBits, DecodeLengths, Item.Meaning;
    if items != [] {
      var x, rest := items[0], items[1..];
      MeaningNonEmpty(acc, x);
      ExpandGrows(acc + x.Meaning(acc), rest);
      AtSplit(s, p, ItemBits(cl, x), ItemsBits(cl, rest));
      ItemDecodes(cl, m, s, p, want, acc, x);
      ItemsDecode(cl, m, s, p + |ItemBits(cl, x)|, want, acc + x.Meaning(acc), rest);
    }
  }

  lemma MeaningNonEmpty(acc: seq<nat>, x: Item)
    requires x.Valid()
    ensures |x.Meaning(acc)| >= 1
  {
  }

  lemma {:induction false} ExpandGrows(acc: seq<nat>, items: seq<Item>)
    ensures |acc| <= |Expand(acc, items)|
    decreases items
  {
    if items != [] { ExpandGrows(acc + items[0].Meaning(acc), items[1..]); }
  }

  // ---------- Sending ----------

  /** SEND_CODE */
  method SendCode(sink: BitSink, tree: seq<CtData>, c: nat, ghost lens: seq<nat>)
    requires sink.Valid() && c < |lens| && c < |tree| && 0 < lens[c] <= MAX_BITS && Carries(tree, lens)
    modifies sink, sink.outbuf
    ensures sink.Valid() && sink.Sent() == old(sink.Sent()) + CodeWord(lens, c)
  {
    hide CodeWord, BitsOf, Pow2;
    assert CarriesAt(tree[c], lens, c);
    sink.SendBits(tree[c].fc, tree[c].dl);
  }

  method SendItem(sink: BitSink, blTree: seq<CtData>, x: Item, ghost cl: seq<nat>, ghost start: seq<bool>, ghost items: seq<Item>)
    requires sink.Valid() && |cl| == 19 <= |blTree| && Carries(blTree, cl) && x.Valid() && 0 < cl[x.Symbol()] <= MAX_BITS
    requires sink.Sent() == start + ItemsBits(cl, items)
    modifies sink, sink.outbuf
    ensures sink.Valid() && sink.Sent() == start + ItemsBits(cl, items + [x])
  {
    hide CodeWord, BitsOf, Pow2, ItemsBits, Carries, BytesBits, BitSink.Sent, BitSink.Valid, Item.Extra;
    ItemsBitsSnoc(cl, items, x);
    ExtraFits(x);
    SendCode(sink, blTree, x.Symbol(), cl);
    var e := x.Extra();
    if e.1 != 0 {
      sink.SendBits(e.0, e.1);
    }
  }

  /** One run of equal lengths, as one item or as single lengths if it is short. */
  method SendRun(sink: BitSink, blTree: seq<CtData>, cur: nat, prev: int, count: nat, minCount: nat,
                 ghost cl: seq<nat>, ghost start: seq<bool>, ghost items: seq<Item>)
    requires sink.Valid() && |cl| == 19 <= |blTree| && Carries(blTree, cl) && minCount == MinCount(cur, prev) && count > 0
    requires Coded(cl, Emit(cur, prev, count)) && sink.Sent() == start + ItemsBits(cl, items)
    modifies sink, sink.outbuf
    ensures sink.Valid() && sink.Sent() == start + ItemsBits(cl, items + Emit(cur, prev, count))
  {
    hide ItemsBits, Carries, BitSink.Sent, BitSink.Valid;
    ghost var all := Emit(cur, prev, count);
    if count < minCount {
      assert all[0] == Len(cur);
      var left := count;
      assert items + all[..0] == items;
      while true
        invariant 1 <= left <= count && sink.Valid()
        invariant sink.Sent() == start + ItemsBits(cl, items + all[..count - left])
        decreases left
      {
        SendItem(sink, blTree, Len(cur), cl, start, items + all[..count - left]);
        assert items + all[..count - left] + [Len(cur)] == items + all[..count - left + 1];
        left := left - 1;
        if left == 0 { break; }
      }
      assert all[..count] == all;
    } else if cur != 0 {
      if cur != prev {
        assert all[0] == Len(cur) && all[1] == Rep(count - 1);
        SendItem(sink, blTree, Len(cur), cl, start, items);
        SendItem(sink, blTree, Rep(count - 1), cl, start, items + [Len(cur)]);
        assert items + [Len(cur)] + [Rep(count - 1)] == items + all;
      } else {
        assert all[0] == Rep(count);
        SendItem(sink, blTree, Rep(count), cl, start, items);
      }
    } else if count <= 10 {
      assert all[0] == Zeros3(count);
      SendItem(sink, blTree, Zeros3(count), cl, start, items);
    } else {
      assert all[0] == Zeros11(count);
      SendItem(sink, blTree, Zeros11(count), cl, start, items);
    }
  }

  lemma SentNothing(cl: seq<nat>, start: seq<bool>)
    ensures start + ItemsBits(cl, []) == start
  {
  }

  /** The items still to be sent are coded. */
  lemma CodedNext(cl: seq<nat>, lens: seq<nat>, n: nat, prev: int, count: nat, maxCount: nat, minCount: nat, done: seq<Item>)
    requires Scanning(lens, n, prev, count, maxCount, minCount, done) && n < |lens| && Coded(cl, Runs(lens, 0, -1, 0))
    requires !(count + 1 < maxCount && lens[n] == LenAt(lens, n + 1))
    ensures Coded(cl, Emit(lens[n], prev, count + 1))
  {
    hide Emit, Runs, Coded;
    RunsStep(lens, n, prev, count);
    CodedMid(cl, done, Emit(lens[n], prev, count + 1), Runs(lens, n + 1, lens[n], 0));
  }

  lemma RunsStep(lens: seq<nat>, n: nat, prev: int, count: nat)
    requires n < |lens| && !(count + 1 < MaxCount(lens[n], prev) && lens[n] == LenAt(lens, n + 1))
    ensures Runs(lens, n, prev, count) == Emit(lens[n], prev, count + 1) + Runs(lens, n + 1, lens[n], 0)
  {
  }

  lemma CodedMid(cl: seq<nat>, a: seq<Item>, b: seq<Item>, c: seq<Item>)
    requires Coded(cl, a + (b + c))
    ensures Coded(cl, b)
  {
    assert forall i :: 0 <= i < |b| ==> (a + (b + c))[|a| + i] == b[i];
  }

  /** The lengths of one alphabet as run-length items in the code of bl_tree. */
  method SendTree(sink: BitSink, tree: array<CtData>, maxCode: nat, blTree: seq<CtData>, ghost cl: seq<nat>)
    requires sink.Valid() && maxCode + 1 < tree.Length && tree[maxCode + 1].dl == GUARD
    requires forall i :: 0 <= i <= maxCode ==> tree[i].dl < 16
    requires |cl| == 19 <= |blTree| && Carries(blTree, cl) && Coded(cl, Runs(Lens(tree[..], maxCode + 1), 0, -1, 0))
    modifies sink, sink.outbuf
    ensures sink.Valid()
    ensures sink.Sent() == old(sink.Sent()) + ItemsBits(cl, Runs(Lens(tree[..], maxCode + 1), 0, -1, 0))
  {
    hide Runs, Emit, Carries, Coded, BitSink.Sent, BitSink.Valid, Scanning, ItemsBits;
    ghost var lens, start, done := Lens(tree[..], maxCode + 1), sink.Sent(), [];
    SentNothing(cl, start);
    ScanStart(lens);
    var prevlen: int, nextlen: nat := -1, tree[0].dl;
    var count: nat, maxCount: nat, minCount: nat := 0, 7, 4;
    if nextlen == 0 {
      maxCount := 138;
      minCount := 3;
    }
    for n := 0 to maxCode + 1
      invariant sink.Valid() && sink.Sent() == start + ItemsBits(cl, done)
      invariant Scanning(lens, n, prevlen, count, maxCount, minCount, done) && nextlen == LenAt(lens, n)
    {
      var curlen := nextlen;
      nextlen := tree[n + 1].dl;
      assert nextlen == LenAt(lens, n + 1);
      ScanOn(lens, n, prevlen, count, maxCount, minCount, done);
      count := count + 1;
      if count < maxCount && curlen == nextlen { continue; }
      CodedNext(cl, lens, n, prevlen, count - 1, maxCount, minCount, done);
      ScanCounts(lens, n, prevlen, count - 1, maxCount, minCount, done);
      SendRun(sink, blTree, curlen, prevlen, count, minCount, cl, start, done);
      done := done + Emit(curlen, prevlen, count);
      count := 0;
      prevlen := curlen;
      if nextlen == 0 {
        maxCount := 138;
        minCount := 3;
      } else if curlen == nextlen {
        maxCount := 6;
        minCount := 3;
      } else {
        maxCount := 7;
        minCount := 4;
      }
    }
    ScanEnd(lens, prevlen, count, maxCount, minCount, done);
  }
}
