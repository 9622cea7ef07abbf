/** isqrt_ull: the integer square root, one bit at a time. */
module Isqrts {
  import opened Bits

  const MAX64 := 0xffff_ffff_ffff_ffff

  lemma Square(a: nat, p: nat)
    ensures (a + p) * (a + p) == a * a + 2 * (a * p) + p * p
  {
  }

  /** `a` is the root found so far, `p` the value of the next bit. */
  ghost predicate Rooting(n: nat, x: nat, y: nat, m: nat, a: nat, p: nat, k: nat) {
    && p == Pow2(k) && k <= 31 && m == p * p && y == 2 * (a * p) && x + a * a == n && n < (a + 2 * p) * (a + 2 * p)
  }

  /** Whether the next bit is set or not. */
  lemma NextBit(n: nat, x: nat, y: nat, m: nat, a: nat, p: nat, k: nat)
    requires Rooting(n, x, y, m, a, p, k)
    ensures y / 2 == a * p
    ensures x >= y + m ==> x - (y + m) + (a + p) * (a + p) == n && a * p + m == (a + p) * p
    ensures x < y + m ==> n < (a + p) * (a + p)
  {
    Square(a, p);
    MulDistribute(a, p, p);
  }

  /** The next bit is half as much. */
  lemma Halve(a: nat, p: nat, k: nat)
    requires p == Pow2(k)
    ensures k == 0 ==> p == 1 && p * p / 4 == 0 && a * p == a
    ensures k > 0 ==> p * p / 4 == Pow2(k - 1) * Pow2(k - 1) > 0 && a * p == 2 * (a * Pow2(k - 1))
  {
    if k > 0 {
      var h := Pow2(k - 1);
      Quarter(h);
      Twice(a, h);
    }
  }

  lemma Quarter(h: nat)
    requires h >= 1
    ensures 2 * h * (2 * h) / 4 == h * h > 0
  {
    assert 2 * h * (2 * h) == 4 * (h * h);
  }

  lemma Twice(a: nat, h: nat)
    ensures a * (2 * h) == 2 * (a * h)
  {
  }

  method IsqrtUll(n: nat) returns (y: nat)
    requires n <= MAX64
    ensures y * y <= n < (y + 1) * (y + 1)
  {
    hide Pow2;
    var x: nat, m: nat := n, 0x4000_0000_0000_0000;
    y := 0;
    ghost var a: nat, p: nat, k: nat := 0, Pow2(31), 31;
    FirstBit();
    while true
      invariant Rooting(n, x, y, m, a, p, k)
      decreases k
    {
      NextBit(n, x, y, m, a, p, k);
      var b := y + m;
      y := y / 2;
      if x >= b {
        x := x - b;
        y := y + m;
        a := a + p;
      }
      Halve(a, p, k);
      m := m / 4;
      if m == 0 {
        break;
      }
      k := k - 1;
      p := Pow2(k);
      assert p * 2 == Pow2(k + 1) by { PowStep(k); }
    }
  }

  lemma PowStep(k: nat)
    ensures Pow2(k + 1) == 2 * Pow2(k)
  {
  }

  lemma FirstBit()
    ensures Pow2(31) == 0x8000_0000 && Pow2(31) * Pow2(31) == 0x4000_0000_0000_0000
  {
    assert Pow2(8) == 256;
    Pow2Add(8, 8);
    Pow2Add(16, 8);
    assert Pow2(7) == 128;
    Pow2Add(24, 7);
  }
}
