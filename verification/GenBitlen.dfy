/** gen_bitlen as it runs: first pass, repair of overlong lengths, reassignment. */
module GenBitlen {
  import opened Canonical
  import opened Huffman
  import opened TreeHeap
  import opened TreeMerge
  import opened TreeLengths

  /** Every listed node names its father. */
  ghost predicate Linked(tree: seq<CtData>, merges: seq<(nat, nat)>, elems: nat) {
    && 1 <= |merges| && elems + |merges| <= |tree|
    && (forall e :: 0 <= e < 2 * |merges| ==> NodeAt(merges, e) < |tree|)
    && (forall e :: 0 <= e < 2 * |merges| ==> tree[NodeAt(merges, e)].dl == elems + e / 2)
  }

  /** Only lengths of listed nodes and the root are written. */
  ghost predicate OnlyLengths(tree: seq<CtData>, tree': seq<CtData>, leaves: set<nat>, elems: nat) {
    && |tree'| == |tree| && elems <= |tree|
    && (forall x :: 0 <= x < |tree| ==> tree'[x].fc == tree[x].fc)
    && (forall x :: 0 <= x < elems && x !in leaves ==> tree'[x].dl == tree[x].dl)
  }

  lemma RootStep(tree: seq<CtData>, tree': seq<CtData>, leaves: set<nat>, merges: seq<(nat, nat)>, elems: nat, cap: nat)
    requires Script(leaves, merges, elems) && Linked(tree, merges, elems)
    requires var root := elems + |merges| - 1; tree' == tree[root := tree[root].(dl := 0)]
    ensures PassedTo(tree', merges, elems, cap, 2 * |merges|)
  {
    hide Script, NodeAt, Capped;
    forall e | 0 <= e < 2 * |merges|
      ensures NodeAt(merges, e) != elems + |merges| - 1
    {
      NodeBound(leaves, merges, elems, e);
    }
  }

  /** An entry is a leaf exactly if its number is not above max_code. */
  lemma LeafTest(leaves: set<nat>, merges: seq<(nat, nat)>, elems: nat, maxCode: nat, e: nat)
    requires Script(leaves, merges, elems) && e < 2 * |merges| && maxCode < elems && forall x :: x in leaves ==> x <= maxCode
    ensures NodeAt(merges, e) < elems <==> NodeAt(merges, e) <= maxCode
    ensures NodeAt(merges, e) < elems ==> NodeAt(merges, e) in leaves
  {
    NodeBound(leaves, merges, elems, e);
    LiveLeaves(leaves, merges, elems, e / 2);
  }

  /** The state of the first pass with `j` entries to go. */
  ghost predicate Passing(blCount: seq<nat>, opt: int, stat: int, overflow: nat,
                          tree: seq<CtData>, merges: seq<(nat, nat)>, desc: Desc, j: nat) {
    && PassedTo(tree, merges, desc.elems, desc.maxLength, j)
    && Stats(blCount, tree, merges, desc.elems, j, 2 * |merges|)
    && overflow == CutOff(tree, merges, desc.elems, desc.maxLength, j)
    && opt == EntrySum(merges, desc.elems, DynCost(tree, desc), j, 2 * |merges|)
    && stat == EntrySum(merges, desc.elems, FixedCost(tree, desc), j, 2 * |merges|)
  }

  lemma PassingStep(blCount: seq<nat>, opt: int, stat: int, overflow: nat, tree: seq<CtData>,
                    blCount': seq<nat>, opt': int, stat': int, overflow': nat, tree': seq<CtData>,
                    leaves: set<nat>, merges: seq<(nat, nat)>, desc: Desc, j: nat, bits: nat)
    requires desc.Valid() && Script(leaves, merges, desc.elems) && 1 <= j
    requires Passing(blCount, opt, stat, overflow, tree, merges, desc, j)
    requires var up := tree[desc.elems + (j - 1) / 2].dl + 1;
             && bits == Capped(up, desc.maxLength)
             && overflow' == overflow + if up > desc.maxLength then 1 else 0
    requires var n := NodeAt(merges, j - 1);
             && tree' == tree[n := tree[n].(dl := bits)]
             && blCount' == (if n < desc.elems then blCount[bits := blCount[bits] + 1] else blCount)
             && opt' == opt + (if n < desc.elems then tree[n].fc * (bits + desc.ExtraBits(n)) else 0)
             && stat' == stat + (if n < desc.elems && desc.staticTree.Some?
                                 then tree[n].fc * (desc.StaticLen(n) + desc.ExtraBits(n)) else 0)
    ensures Passing(blCount', opt', stat', overflow', tree', merges, desc, j - 1)
  {
    hide Script, PassedTo, Stats, EntrySum, NodeAt, Term, DynCost, FixedCost, CutOff, OthersKept, Desc.ExtraBits, Desc.StaticLen;
    NodesInRange(tree, merges, desc.elems, desc.maxLength, j);
    PassStep(tree, tree', leaves, merges, desc.elems, desc.maxLength, j);
    KeptOthers(tree, tree', merges, j - 1);
    StatsStep(blCount, blCount', tree, tree', merges, desc.elems, j);
    CostStep(tree, tree', merges, desc, j);
    CostTerm(tree, tree', merges, desc, j - 1, bits);
    CutOffStep(tree, tree', merges, desc.elems, desc.maxLength, j);
  }

  lemma KeptOthers(tree: seq<CtData>, tree': seq<CtData>, merges: seq<(nat, nat)>, j: nat)
    requires |tree'| == |tree| && forall e :: 0 <= e < 2 * |merges| ==> NodeAt(merges, e) < |tree|
    requires forall e :: 0 <= e < 2 * |merges| && e != j ==> tree'[NodeAt(merges, e)] == tree[NodeAt(merges, e)]
    ensures OthersKept(tree, tree', merges, j)
  {
  }

  lemma CostTerm(tree: seq<CtData>, tree': seq<CtData>, merges: seq<(nat, nat)>, desc: Desc, e: nat, bits: nat)
    requires e < 2 * |merges| && NodeAt(merges, e) < |tree|
    requires var n := NodeAt(merges, e); tree' == tree[n := tree[n].(dl := bits)]
    ensures var n := NodeAt(merges, e);
            && Term(merges, desc.elems, DynCost(tree', desc), e)
               == (if n < desc.elems then tree[n].fc * (bits + desc.ExtraBits(n)) else 0)
            && Term(merges, desc.elems, FixedCost(tree', desc), e)
               == (if n < desc.elems && desc.staticTree.Some? then tree[n].fc * (desc.StaticLen(n) + desc.ExtraBits(n)) else 0)
  {
    hide NodeAt, Desc.ExtraBits, Desc.StaticLen;
  }

  lemma CutOffStep(tree: seq<CtData>, tree': seq<CtData>, merges: seq<(nat, nat)>, elems: nat, cap: nat, j: nat)
    requires 1 <= j <= 2 * |merges| && elems + |merges| <= |tree| == |tree'|
    requires forall x :: elems + (j - 1) / 2 <= x < elems + |merges| ==> tree'[x].dl == tree[x].dl
    ensures CutOff(tree', merges, elems, cap, j - 1)
         == (if tree[elems + (j - 1) / 2].dl >= cap then 1 else 0) + CutOff(tree, merges, elems, cap, j)
  {
    CutOffSame(tree, tree', merges, elems, cap, j);
  }

  lemma NodesInRange(tree: seq<CtData>, merges: seq<(nat, nat)>, elems: nat, cap: nat, j: nat)
    requires PassedTo(tree, merges, elems, cap, j)
    ensures j <= 2 * |merges| && elems + |merges| <= |tree|
    ensures forall e :: 0 <= e < 2 * |merges| ==> NodeAt(merges, e) < |tree|
  {
  }

  lemma PassingStart(blCount: seq<nat>, tree: seq<CtData>, merges: seq<(nat, nat)>, desc: Desc)
    requires PassedTo(tree, merges, desc.elems, desc.maxLength, 2 * |merges|)
    requires blCount == seq(MAX_BITS + 1, i => 0)
    ensures Passing(blCount, 0, 0, 0, tree, merges, desc, 2 * |merges|)
  {
    hide PassedTo;
  }

  /** What must hold of the lists before lengths can be computed. */
  ghost predicate Ready(heap: seq<nat>, heapMax: nat, tree: seq<CtData>, desc: Desc, maxCode: nat,
                        leaves: set<nat>, merges: seq<(nat, nat)>) {
    && desc.Valid() && Script(leaves, merges, desc.elems) && Listed(heap, merges, desc.elems)
    && heapMax == HEAP_SIZE - 1 - 2 * |merges|
    && desc.elems + |merges| <= |tree|
    && maxCode < desc.elems && forall x :: x in leaves ==> x <= maxCode
  }

  /** The body of the first pass: give node `n` its length and count it. */
  method PlaceNode(b: TreeBuilder, tree: array<CtData>, desc: Desc, maxCode: nat, n: nat) returns (bits: nat, cut: nat)
    requires b.Valid() && desc.Valid() && maxCode < desc.elems
    requires n < tree.Length && tree[n].dl < tree.Length
    modifies b`optLen, b`staticLen, b.blCount, tree
    ensures var up := old(tree[tree[n].dl].dl) + 1;
            bits == Capped(up, desc.maxLength) && cut == if up > desc.maxLength then 1 else 0
    ensures tree[..] == old(tree[..])[n := old(tree[n]).(dl := bits)]
    ensures b.blCount[..] == if n <= maxCode then old(b.blCount[..])[bits := old(b.blCount[..])[bits] + 1] else old(b.blCount[..])
    ensures b.optLen == old(b.optLen) + if n <= maxCode then old(tree[n]).fc * (bits + desc.ExtraBits(n)) else 0
    ensures b.staticLen == old(b.staticLen)
              + if n <= maxCode && desc.staticTree.Some? then old(tree[n]).fc * (desc.StaticLen(n) + desc.ExtraBits(n)) else 0
  {
    bits := tree[tree[n].dl].dl + 1;
    cut := 0;
    if bits > desc.maxLength {
      bits := desc.maxLength;
      cut := 1;
    }
    tree[n] := tree[n].(dl := bits);
    if n > maxCode { return; }
    b.blCount[bits] := b.blCount[bits] + 1;
    var xbits := 0;
    if n >= desc.extraBase { xbits := desc.extraBits[n - desc.extraBase]; }
    var f := tree[n].fc;
    b.optLen := b.optLen + f * (bits + xbits);
    if desc.staticTree.Some? {
      b.staticLen := b.staticLen + f * (desc.staticTree.value[n].dl + xbits);
    }
  }

  method ClearCounts(b: TreeBuilder)
    requires b.Valid()
    modifies b.blCount
    ensures b.blCount[..] == seq(MAX_BITS + 1, i => 0)
  {
    for bits := 0 to MAX_BITS + 1
      invariant forall i :: 0 <= i < bits ==> b.blCount[i] == 0
    {
      b.blCount[bits] := 0;
    }
  }

  method FirstPass(b: TreeBuilder, tree: array<CtData>, desc: Desc, maxCode: nat,
                   ghost leaves: set<nat>, ghost merges: seq<(nat, nat)>) returns (overflow: nat)
    requires b.Valid() && Ready(b.heap[..], b.heapMax, tree[..], desc, maxCode, leaves, merges)
    requires Linked(tree[..], merges, desc.elems)
    modifies b`optLen, b`staticLen, b.blCount, tree
    ensures Passing(b.blCount[..], b.optLen - old(b.optLen), b.staticLen - old(b.staticLen), overflow,
                    tree[..], merges, desc, 0)
    ensures OnlyLengths(old(tree[..]), tree[..], leaves, desc.elems)
  {
    hide Script, NodeAt, PassedTo, Passing, Linked, OnlyLengths, Listed, Desc.ExtraBits, Desc.StaticLen, Desc.Valid, Capped;
    ClearCounts(b);
    ghost var t0 := tree[..];
    ListedRoot(b.heap[..], merges, desc.elems);
    tree[b.heap[b.heapMax]] := tree[b.heap[b.heapMax]].(dl := 0);
    RootStep(t0, tree[..], leaves, merges, desc.elems, desc.maxLength);
    PassingStart(b.blCount[..], tree[..], merges, desc);
    OnlyLength(t0, t0, leaves, desc.elems, desc.elems + |merges| - 1, 0);
    overflow := 0;
    ghost var opt0, stat0 := b.optLen, b.staticLen;
    for h := b.heapMax + 1 to HEAP_SIZE
      invariant Passing(b.blCount[..], b.optLen - opt0, b.staticLen - stat0, overflow, tree[..], merges, desc, HEAP_SIZE - h)
      invariant OnlyLengths(t0, tree[..], leaves, desc.elems)
    {
      ghost var j := HEAP_SIZE - h;
      ghost var t, bl, opt, stat, over := tree[..], b.blCount[..], b.optLen - opt0, b.staticLen - stat0, overflow;
      ListedAt(b.heap[..], merges, desc.elems, j - 1);
      var n := b.heap[h];
      PassingFacts(bl, opt, stat, over, t, merges, desc, j);
      LeafTest(leaves, merges, desc.elems, maxCode, j - 1);
      var bits, cut := PlaceNode(b, tree, desc, maxCode, n);
      overflow := overflow + cut;
      PassingStep(bl, opt, stat, over, t, b.blCount[..], b.optLen - opt0, b.staticLen - stat0, overflow, tree[..],
                  leaves, merges, desc, j, bits);
      OnlyLength(t0, t, leaves, desc.elems, n, bits);
    }
  }

  lemma ListedAt(heap: seq<nat>, merges: seq<(nat, nat)>, elems: nat, e: nat)
    requires Listed(heap, merges, elems) && e < 2 * |merges|
    ensures |heap| == HEAP_SIZE && 2 * |merges| < HEAP_SIZE && heap[HEAP_SIZE - 1 - e] == NodeAt(merges, e)
  {
  }

  lemma ListedRoot(heap: seq<nat>, merges: seq<(nat, nat)>, elems: nat)
    requires Listed(heap, merges, elems)
    ensures |heap| == HEAP_SIZE && 0 < 2 * |merges| < HEAP_SIZE && heap[HEAP_SIZE - 1 - 2 * |merges|] == elems + |merges| - 1
  {
  }

  lemma OnlyLength(t0: seq<CtData>, t: seq<CtData>, leaves: set<nat>, elems: nat, n: nat, bits: nat)
    requires t == t0 || OnlyLengths(t0, t, leaves, elems)
    requires elems <= |t| && n < |t| && (n in leaves || n >= elems)
    ensures OnlyLengths(t0, t[n := t[n].(dl := bits)], leaves, elems)
  {
  }

  lemma PassingFacts(blCount: seq<nat>, opt: int, stat: int, overflow: nat, tree: seq<CtData>, merges: seq<(nat, nat)>,
                     desc: Desc, j: nat)
    requires Passing(blCount, opt, stat, overflow, tree, merges, desc, j) && 1 <= j
    ensures desc.elems + |merges| <= |tree| && NodeAt(merges, j - 1) < |tree|
    ensures tree[NodeAt(merges, j - 1)].dl == desc.elems + (j - 1) / 2
  {
  }
}
