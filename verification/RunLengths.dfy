/** The run-length form in which code lengths are sent: scan_tree, send_tree and their decoding. */
module RunLengths {
  import opened Inflate
  import opened Canonical

  const GUARD := 0xffff

  /** One symbol of the code length alphabet with its repeat count. */
  datatype Item =
    | Len(len: nat)
    | Rep(n: nat)     // REP_3_6: the previous length, 3 to 6 times
    | Zeros3(n: nat)  // REPZ_3_10
    | Zeros11(n: nat) // REPZ_11_138
  {
    predicate Valid() {
      match this
      case Len(l) => l < 16
      case Rep(n) => 3 <= n <= 6
      case Zeros3(n) => 3 <= n <= 10
      case Zeros11(n) => 11 <= n <= 138
    }

    function Symbol(): nat {
      match this
      case Len(l) => l
      case Rep(n) => 16
      case Zeros3(n) => 17
      case Zeros11(n) => 18
    }

    /** The extra bits: their value and how many. */
    function Extra(): (nat, nat) {
      match this
      case Len(l) => (0, 0)
      case Rep(n) => (if n >= 3 then n - 3 else 0, 2)
      case Zeros3(n) => (if n >= 3 then n - 3 else 0, 3)
      case Zeros11(n) => (if n >= 11 then n - 11 else 0, 7)
    }

    /** What the item stands for after `acc`. */
    function Meaning(acc: seq<nat>): seq<nat> {
      match this
      case Len(l) => [l]
      case Rep(n) => Repeat(if acc == [] then 0 else acc[|acc| - 1], n)
      case Zeros3(n) => Repeat(0, n)
      case Zeros11(n) => Repeat(0, n)
    }
  }

  function Expand(acc: seq<nat>, items: seq<Item>): seq<nat>
    decreases items
  {
    if items == [] then acc else Expand(acc + items[0].Meaning(acc), items[1..])
  }

  lemma {:induction false} ExpandAppend(acc: seq<nat>, a: seq<Item>, b: seq<Item>)
    ensures Expand(acc, a + b) == Expand(Expand(acc, a), b)
    decreases a
  {
    if a == [] {
      assert a + b == b;
    } else {
      assert (a + b)[1..] == a[1..] + b;
      ExpandAppend(acc + a[0].Meaning(acc), a[1..], b);
    }
  }

  // ---------- The run scanner shared by scan_tree and send_tree ----------

  function MaxCount(cur: nat, prev: int): nat { if cur == 0 then 138 else if cur == prev then 6 else 7 }

  function MinCount(cur: nat, prev: int): nat { if cur == 0 || cur == prev then 3 else 4 }

  /** What is sent for a finished run of `count` lengths `cur`, where `prev` was sent last. */
  function Emit(cur: nat, prev: int, count: nat): seq<Item> {
    if count < MinCount(cur, prev) then seq(count, i => Len(cur))
    else if cur != 0 then
      if cur != prev then [Len(cur), Rep(count - 1)] else [Rep(count)]
    else if count <= 10 then [Zeros3(count)]
    else [Zeros11(count)]
  }

  function LenAt(lens: seq<nat>, n: nat): nat { if n < |lens| then lens[n] else GUARD }

  /** Everything sent from position `n` on, with `count` equal lengths before it still unsent. */
  function Runs(lens: seq<nat>, n: nat, prev: int, count: nat): seq<Item>
    requires n <= |lens|
    decreases |lens| - n
  {
    if n == |lens| then []
    else
      var cur := lens[n];
      if count + 1 < MaxCount(cur, prev) && cur == LenAt(lens, n + 1) then Runs(lens, n + 1, prev, count + 1)
      else Emit(cur, prev, count + 1) + Runs(lens, n + 1, cur, 0)
  }

  lemma {:induction false} ExpandLens(acc: seq<nat>, cur: nat, count: nat)
    ensures Expand(acc, seq(count, i => Len(cur))) == acc + Repeat(cur, count)
    decreases count
  {
    if count > 0 {
      var items := seq(count, i => Len(cur));
      assert items[1..] == seq(count - 1, i => Len(cur));
      ExpandLens(acc + [cur], cur, count - 1);
      assert acc + [cur] + Repeat(cur, count - 1) == acc + Repeat(cur, count);
    }
  }

  lemma ExpandOne(acc: seq<nat>, x: Item)
    ensures Expand(acc, [x]) == acc + x.Meaning(acc)
  {
    assert [x][1..] == [];
    assert Expand(acc + x.Meaning(acc), []) == acc + x.Meaning(acc);
  }

  lemma RepeatCons(cur: nat, count: nat)
    ensures [cur] + Repeat(cur, count) == Repeat(cur, count + 1)
  {
  }

  /** A new length, and then its repetition. */
  lemma ExpandTwo(acc: seq<nat>, cur: nat, count: nat)
    ensures Expand(acc, [Len(cur), Rep(count)]) == acc + Repeat(cur, count + 1)
  {
    hide Repeat;
    assert [Len(cur), Rep(count)] == [Len(cur)] + [Rep(count)];
    ExpandAppend(acc, [Len(cur)], [Rep(count)]);
    ExpandOne(acc, Len(cur));
    ExpandOne(acc + [cur], Rep(count));
    RepeatCons(cur, count);
  }

  /** A finished run is sent within the range of every field and means what it stood for. */
  lemma EmitMeans(acc: seq<nat>, cur: nat, prev: int, count: nat)
    requires cur < 16 && 1 <= count <= MaxCount(cur, prev)
    requires prev == -1 || (acc != [] && acc[|acc| - 1] == prev)
    ensures Expand(acc, Emit(cur, prev, count)) == acc + Repeat(cur, count)
    ensures forall i :: 0 <= i < |Emit(cur, prev, count)| ==> Emit(cur, prev, count)[i].Valid()
  {
    hide Expand, Repeat;
    if count < MinCount(cur, prev) {
      ExpandLens(acc, cur, count);
    } else if cur != 0 && cur != prev {
      ExpandTwo(acc, cur, count - 1);
    } else {
      ExpandOne(acc, Emit(cur, prev, count)[0]);
    }
  }

  lemma RunShift(lens: seq<nat>, n: nat, count: nat)
    requires n < |lens|
    ensures Repeat(lens[n], count + 1) + lens[n + 1..] == Repeat(lens[n], count) + lens[n..]
    ensures n + 1 < |lens| ==> Repeat(lens[n + 1], 0) == []
  {
  }

  /** The lengths that a scanner at `n` still has to send. */
  function Unsent(lens: seq<nat>, n: nat, count: nat): seq<nat>
    requires n <= |lens|
  {
    (if n < |lens| then Repeat(lens[n], count) else []) + lens[n..]
  }

  ghost predicate AllValid(items: seq<Item>) {
    forall i :: 0 <= i < |items| ==> items[i].Valid()
  }

  lemma UnsentStep(lens: seq<nat>, n: nat, count: nat, acc: seq<nat>)
    requires n < |lens|
    ensures n + 1 < |lens| && lens[n + 1] == lens[n] ==> Unsent(lens, n + 1, count + 1) == Unsent(lens, n, count)
    ensures acc + Repeat(lens[n], count + 1) + Unsent(lens, n + 1, 0) == acc + Unsent(lens, n, count)
  {
    RunShift(lens, n, count);
    assert Unsent(lens, n + 1, 0) == lens[n + 1..];
  }

  /** Decoding what is sent gives the lengths back; every repeat count fits its field. */
  lemma {:induction false} RunsMean(lens: seq<nat>, n: nat, prev: int, count: nat, acc: seq<nat>)
    requires n <= |lens| && (forall i :: 0 <= i < |lens| ==> lens[i] < 16)
    requires prev == -1 || (acc != [] && acc[|acc| - 1] == prev)
    requires if n < |lens| then count < MaxCount(lens[n], prev) else count == 0
    ensures Expand(acc, Runs(lens, n, prev, count)) == acc + Unsent(lens, n, count)
    ensures AllValid(Runs(lens, n, prev, count))
    decreases |lens| - n
  {
    hide Emit, Unsent, Expand;
    if n == |lens| {
      UnsentNone(lens, acc);
    } else {
      var cur := lens[n];
      UnsentStep(lens, n, count, acc);
      if count + 1 < MaxCount(cur, prev) && cur == LenAt(lens, n + 1) {
        RunsMean(lens, n + 1, prev, count + 1, acc);
      } else {
        EmitMeans(acc, cur, prev, count + 1);
        RunsMean(lens, n + 1, cur, 0, acc + Repeat(cur, count + 1));
        ExpandAppend(acc, Emit(cur, prev, count + 1), Runs(lens, n + 1, cur, 0));
      }
    }
  }

  lemma UnsentNone(lens: seq<nat>, acc: seq<nat>)
    ensures Expand(acc, []) == acc == acc + Unsent(lens, |lens|, 0)
  {
  }

  // ---------- scan_tree ----------

  function CountSymbol(items: seq<Item>, s: nat): nat {
    if items == [] then 0 else CountSymbol(items[..|items| - 1], s) + if items[|items| - 1].Symbol() == s then 1 else 0
  }

  lemma {:induction false} CountAppend(a: seq<Item>, b: seq<Item>, s: nat)
    ensures CountSymbol(a + b, s) == CountSymbol(a, s) + CountSymbol(b, s)
  {
    if b == [] {
      assert a + b == a;
    } else {
      CountAppend(a, b[..|b| - 1], s);
      assert (a + b)[..|a + b| - 1] == a + b[..|b| - 1];
    }
  }

  lemma {:induction false} CountLens(cur: nat, count: nat, s: nat)
    ensures CountSymbol(seq(count, i => Len(cur)), s) == if s == cur then count else 0
  {
    if count > 0 {
      CountLens(cur, count - 1, s);
      assert seq(count, i => Len(cur))[..count - 1] == seq(count - 1, i => Len(cur));
    }
  }

  /** The frequencies of the code length alphabet count `items` on top of `base`. */
  ghost predicate Tallied(base: seq<CtData>, bl: seq<CtData>, items: seq<Item>) {
    && |bl| == |base| >= 19
    && (forall s :: 0 <= s < |bl| ==> bl[s].dl == base[s].dl)
    && (forall s :: 0 <= s < |bl| ==> bl[s].fc == base[s].fc + CountSymbol(items, s))
  }

  function Bump(bl: seq<CtData>, s: nat, k: nat): (r: seq<CtData>)
    requires s < |bl|
    ensures |r| == |bl|
  {
    bl[s := bl[s].(fc := bl[s].fc + k)]
  }

  lemma TallyLens(base: seq<CtData>, bl: seq<CtData>, items: seq<Item>, cur: nat, k: nat)
    requires Tallied(base, bl, items) && cur < |bl|
    ensures Tallied(base, Bump(bl, cur, k), items + seq(k, i => Len(cur)))
  {
    hide CountSymbol;
    var more, bl' := seq(k, i => Len(cur)), Bump(bl, cur, k);
    forall s | 0 <= s < |bl|
      ensures bl'[s].fc == base[s].fc + CountSymbol(items + more, s)
    {
      CountAppend(items, more, s);
      CountLens(cur, k, s);
    }
  }

  lemma TallyOne(base: seq<CtData>, bl: seq<CtData>, items: seq<Item>, x: Item)
    requires Tallied(base, bl, items) && x.Symbol() < |bl|
    ensures Tallied(base, Bump(bl, x.Symbol(), 1), items + [x])
  {
    var bl' := Bump(bl, x.Symbol(), 1);
    forall s | 0 <= s < |bl|
      ensures bl'[s].fc == base[s].fc + CountSymbol(items + [x], s)
    {
      assert (items + [x])[..|items|] == items;
    }
  }

  /** Count a finished run. */
  method TallyRun(blTree: array<CtData>, cur: nat, prev: int, count: nat, minCount: nat, ghost base: seq<CtData>, ghost items: seq<Item>)
    requires blTree.Length >= 19 && cur < 16 && minCount == MinCount(cur, prev) && Tallied(base, blTree[..], items)
    modifies blTree
    ensures Tallied(base, blTree[..], items + Emit(cur, prev, count))
  {
    hide Tallied;
    ghost var b0 := blTree[..];
    if count < minCount {
      TallyLens(base, b0, items, cur, count);
      blTree[cur] := blTree[cur].(fc := blTree[cur].fc + count);
      assert blTree[..] == Bump(b0, cur, count);
    } else if cur != 0 {
      ghost var done := items;
      if cur != prev {
        TallyOne(base, b0, items, Len(cur));
        blTree[cur] := blTree[cur].(fc := blTree[cur].fc + 1);
        assert blTree[..] == Bump(b0, cur, 1);
        done := items + [Len(cur)];
        assert items + [Len(cur), Rep(count - 1)] == done + [Rep(count - 1)];
      }
      ghost var b1 := blTree[..];
      TallyOne(base, b1, done, Rep(if cur != prev then count - 1 else count));
      blTree[16] := blTree[16].(fc := blTree[16].fc + 1);
      assert blTree[..] == Bump(b1, 16, 1);
    } else if count <= 10 {
      TallyOne(base, b0, items, Zeros3(count));
      blTree[17] := blTree[17].(fc := blTree[17].fc + 1);
      assert blTree[..] == Bump(b0, 17, 1);
    } else {
      TallyOne(base, b0, items, Zeros11(count));
      blTree[18] := blTree[18].(fc := blTree[18].fc + 1);
      assert blTree[..] == Bump(b0, 18, 1);
    }
  }

  /** The scanner's position: what it has sent and what it will send are all of it. */
  ghost predicate Scanning(lens: seq<nat>, n: nat, prev: int, count: nat, maxCount: nat, minCount: nat, done: seq<Item>) {
    && n <= |lens| && Runs(lens, 0, -1, 0) == done + Runs(lens, n, prev, count)
    && (n < |lens| ==> maxCount == MaxCount(lens[n], prev) && minCount == MinCount(lens[n], prev) && count < maxCount)
  }

  lemma ScanOn(lens: seq<nat>, n: nat, prev: int, count: nat, maxCount: nat, minCount: nat, done: seq<Item>)
    requires Scanning(lens, n, prev, count, maxCount, minCount, done) && n < |lens|
    requires forall i :: 0 <= i < |lens| ==> lens[i] < 16
    ensures count + 1 < maxCount && lens[n] == LenAt(lens, n + 1) ==>
              Scanning(lens, n + 1, prev, count + 1, maxCount, minCount, done)
    ensures !(count + 1 < maxCount && lens[n] == LenAt(lens, n + 1)) ==>
              Scanning(lens, n + 1, lens[n], 0, NextMax(lens[n], LenAt(lens, n + 1)), NextMin(lens[n], LenAt(lens, n + 1)),
                       done + Emit(lens[n], prev, count + 1))
  {
    assert n + 1 == |lens| ==> lens[n] != LenAt(lens, n + 1);
    var e, r := Emit(lens[n], prev, count + 1), Runs(lens, n + 1, lens[n], 0);
    assert done + (e + r) == done + e + r;
  }

  function NextMax(cur: nat, next: nat): nat { if next == 0 then 138 else if cur == next then 6 else 7 }

  function NextMin(cur: nat, next: nat): nat { if next == 0 || cur == next then 3 else 4 }

  /** Count the symbols that send_tree will send for this tree. */
  method ScanTree(tree: array<CtData>, maxCode: nat, blTree: array<CtData>)
    requires maxCode + 1 < tree.Length && blTree.Length >= 19 && tree != blTree
    requires forall i :: 0 <= i <= maxCode ==> tree[i].dl < 16
    modifies tree, blTree
    ensures tree[..] == old(tree[..])[maxCode + 1 := old(tree[maxCode + 1]).(dl := GUARD)]
    ensures Tallied(old(blTree[..]), blTree[..], Runs(old(Lens(tree[..], maxCode + 1)), 0, -1, 0))
  {
    hide Tallied, Runs, Emit, CountSymbol, Scanning;
    ghost var lens, base, done := Lens(tree[..], maxCode + 1), blTree[..], [];
    var prevlen: int, nextlen: nat := -1, tree[0].dl;
    var count: nat, maxCount: nat, minCount: nat := 0, 7, 4;
    if nextlen == 0 {
      maxCount := 138;
      minCount := 3;
    }
    tree[maxCode + 1] := tree[maxCode + 1].(dl := GUARD);
    ghost var t := tree[..];
    TallyNone(base);
    ScanStart(lens);
    for n := 0 to maxCode + 1
      invariant tree[..] == t && Tallied(base, blTree[..], done)
      invariant Scanning(lens, n, prevlen, count, maxCount, minCount, done) && nextlen == LenAt(lens, n)
    {
      var curlen := nextlen;
      nextlen := tree[n + 1].dl;
      assert nextlen == LenAt(lens, n + 1);
      ScanOn(lens, n, prevlen, count, maxCount, minCount, done);
      count := count + 1;
      if count < maxCount && curlen == nextlen { continue; }
      ScanCounts(lens, n, prevlen, count - 1, maxCount, minCount, done);
      TallyRun(blTree, curlen, prevlen, count, minCount, base, done);
      done := done + Emit(curlen, prevlen, count);
      count := 0;
      prevlen := curlen;
      maxCount := 7;
      minCount := 4;
      if nextlen == 0 {
        maxCount := 138;
        minCount := 3;
      } else if curlen == nextlen {
        maxCount := 6;
        minCount := 3;
      }
    }
    ScanEnd(lens, prevlen, count, maxCount, minCount, done);
  }

  lemma TallyNone(base: seq<CtData>)
    requires |base| >= 19
    ensures Tallied(base, base, [])
  {
  }

  lemma ScanStart(lens: seq<nat>)
    requires |lens| > 0
    ensures Scanning(lens, 0, -1, 0, if lens[0] == 0 then 138 else 7, if lens[0] == 0 then 3 else 4, [])
  {
    assert [] + Runs(lens, 0, -1, 0) == Runs(lens, 0, -1, 0);
  }

  lemma ScanEnd(lens: seq<nat>, prev: int, count: nat, maxCount: nat, minCount: nat, done: seq<Item>)
    requires Scanning(lens, |lens|, prev, count, maxCount, minCount, done)
    ensures done == Runs(lens, 0, -1, 0)
  {
    assert done + [] == done;
  }

  lemma ScanCounts(lens: seq<nat>, n: nat, prev: int, count: nat, maxCount: nat, minCount: nat, done: seq<Item>)
    requires Scanning(lens, n, prev, count, maxCount, minCount, done) && n < |lens|
    ensures minCount == MinCount(lens[n], prev)
  {
  }
}
