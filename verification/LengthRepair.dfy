/** The overflow repair of gen_bitlen: it works on the length statistics alone. */
module LengthRepair {
  import opened Bits
  import opened Canonical
  import opened TreeMerge

  /** The code space, in units of 2^-cap, taken by the codes counted in bl[1..b]. */
  function BlKraft(bl: seq<nat>, cap: nat, b: nat): nat
    requires b <= cap < |bl|
  {
    if b == 0 then 0 else BlKraft(bl, cap, b - 1) + bl[b] * Pow2(cap - b)
  }

  function BlTotal(bl: seq<nat>, b: nat): nat
    requires b < |bl|
  {
    if b == 0 then 0 else BlTotal(bl, b - 1) + bl[b]
  }

  lemma {:induction false} BlUpdate(bl: seq<nat>, cap: nat, b: nat, i: nat, d: int)
    requires 1 <= i && b <= cap < |bl| && i < |bl| && bl[i] + d >= 0
    ensures BlKraft(bl[i := bl[i] + d], cap, b) == BlKraft(bl, cap, b) + if i <= b then d * Pow2(cap - i) else 0
    ensures BlTotal(bl[i := bl[i] + d], b) == BlTotal(bl, b) + if i <= b then d else 0
  {
    if b > 0 {
      BlUpdate(bl, cap, b - 1, i, d);
      if i == b { MulDistribute(bl[i], d, Pow2(cap - i)); }
    }
  }

  lemma {:induction false} ZeroBelow(bl: seq<nat>, cap: nat, b: nat)
    requires b <= cap < |bl| && forall k :: 1 <= k <= b ==> bl[k] == 0
    ensures BlKraft(bl, cap, b) == 0 && BlTotal(bl, b) == 0
  {
    if b > 0 { ZeroBelow(bl, cap, b - 1); }
  }

  /** An oversubscribed code with few enough symbols has a code shorter than the cap. */
  lemma ShorterExists(bl: seq<nat>, cap: nat) returns (w: nat)
    requires 1 <= cap < |bl| && BlTotal(bl, cap) <= Pow2(cap) < BlKraft(bl, cap, cap)
    ensures 1 <= w < cap && bl[w] > 0
  {
    if forall k :: 1 <= k <= cap - 1 ==> bl[k] == 0 {
      ZeroBelow(bl, cap, cap - 1);
      assert false;
    }
    w :| 1 <= w <= cap - 1 && bl[w] != 0;
  }

  /** Statistics that exceed the code space by `full` units, all of them due to codes at the cap. */
  ghost predicate Overfull(bl: seq<nat>, cap: nat, total: nat, full: nat) {
    && |bl| == MAX_BITS + 1 && 1 <= cap <= MAX_BITS
    && BlTotal(bl, cap) == total <= Pow2(cap)
    && BlKraft(bl, cap, cap) == Pow2(cap) + full
    && bl[cap] > full
    && bl[0] == 0 && forall k :: cap < k <= MAX_BITS ==> bl[k] == 0
  }

  /** Moving a leaf of length `bits` down, with an overlong one as its brother, frees one unit. */
  lemma RepairStep(bl: seq<nat>, bl': seq<nat>, cap: nat, total: nat, full: nat, bits: nat)
    requires Overfull(bl, cap, total, full) && full > 0 && 1 <= bits < cap && bl[bits] > 0
    requires var bl1 := bl[bits := bl[bits] - 1];
             var bl2 := bl1[bits + 1 := bl1[bits + 1] + 2];
             bl' == bl2[cap := bl2[cap] - 1]
    ensures Overfull(bl', cap, total, full - 1)
  {
    var u := Pow2(cap - (bits + 1));
    assert Pow2(cap - bits) == 2 * u && Pow2(cap - cap) == 1;
    hide BlKraft, BlTotal, Pow2;
    var bl1 := bl[bits := bl[bits] - 1];
    var bl2 := bl1[bits + 1 := bl1[bits + 1] + 2];
    BlUpdate(bl, cap, cap, bits, -1);
    BlUpdate(bl1, cap, cap, bits + 1, 2);
    BlUpdate(bl2, cap, cap, cap, -1);
  }

  method RepairOverflow(b: TreeBuilder, cap: nat, overflow: nat, ghost total: nat, ghost full: nat)
    requires b.Valid() && full > 0 && overflow == 2 * full && Overfull(b.blCount[..], cap, total, full)
    modifies b.blCount
    ensures Overfull(b.blCount[..], cap, total, 0)
  {
    hide BlKraft, BlTotal, Pow2;
    var overflow': int := overflow;
    ghost var full' := full;
    while true
      invariant full' > 0 && overflow' == 2 * full' && Overfull(b.blCount[..], cap, total, full')
      decreases full'
    {
      var bits := cap - 1;
      ghost var w := ShorterExists(b.blCount[..], cap);
      while b.blCount[bits] == 0
        invariant w <= bits < cap
        decreases bits
      {
        bits := bits - 1;
      }
      ghost var bl := b.blCount[..];
      b.blCount[bits] := b.blCount[bits] - 1;
      b.blCount[bits + 1] := b.blCount[bits + 1] + 2;
      b.blCount[cap] := b.blCount[cap] - 1;
      RepairStep(bl, b.blCount[..], cap, total, full', bits);
      overflow' := overflow' - 2;
      full' := full' - 1;
      if overflow' <= 0 { break; }
    }
  }
}
