/** Open addressing as dpkg does it: a prime table size and a step down by a non-zero amount. */
module Probing {
  import opened Primes

  /** Where a search starts and by how much it goes on: make_hash. */
  datatype Hash = Hash(start: nat, dec: nat)
  {
    ghost predicate Fits(p: nat) {
      start < p && 1 <= dec < p
    }
  }

  /** The next address. */
  function Next(h: Hash, p: nat, a: nat): nat
    requires h.dec < p
  {
    if a < h.dec then a + p - h.dec else a - h.dec
  }

  /** The address after `i` steps. */
  function Addr(h: Hash, p: nat, i: nat): (a: nat)
    requires h.Fits(p)
    ensures a < p
  {
    if i == 0 then h.start else Next(h, p, Addr(h, p, i - 1))
  }

  /** `k` steps go down by `k * dec`, up to some turns around the table. */
  lemma {:induction false} AddrGap(h: Hash, p: nat, i: nat, k: nat) returns (t: int)
    requires h.Fits(p)
    ensures p * t == Addr(h, p, i) - Addr(h, p, i + k) - k * h.dec
    decreases k
  {
    if k == 0 {
      t := 0;
    } else {
      var t0 := AddrGap(h, p, i, k - 1);
      var a := Addr(h, p, i + k - 1);
      assert Addr(h, p, i + k) == Next(h, p, a);
      OneMore(k, h.dec);
      if a < h.dec {
        t := t0 - 1;
        OneLess(p, t0);
      } else {
        t := t0;
      }
    }
  }

  lemma OneMore(k: int, d: int)
    ensures k * d == (k - 1) * d + d
  {
  }

  lemma OneLess(p: int, t: int)
    ensures p * (t - 1) == p * t - p
  {
  }

  /** The first `p` addresses are all different. */
  lemma AddrDistinct(h: Hash, p: nat, i: nat, j: nat)
    requires Prime(p) && h.Fits(p) && i < j < p
    ensures Addr(h, p, i) != Addr(h, p, j)
  {
    hide Addr, Prime;
    var t := AddrGap(h, p, i, j - i);
    NotMultiple(p, j - i, h.dec, t);
  }

  lemma NotMultiple(p: nat, a: nat, b: nat, t: int)
    requires Prime(p) && 1 <= a < p && 1 <= b < p
    ensures p * t != -(a * b)
  {
    hide Divides;
    if p * t == -(a * b) {
      MulAtLeast(a, b, 1, 1);
      assert t < 0 by {
        if t >= 0 { MulAtLeast(p, t, p, 0); }
      }
      assert p * -t == a * b;
      FactorDivides(p, -t);
      EuclidSmall(p, a, b);
      TooSmall(p, b);
    }
  }

  lemma TooSmall(p: nat, b: nat)
    requires 1 <= b < p
    ensures !Divides(p, b)
  {
    if Divides(p, b) {
      var q: nat :| Times(p, q) == b;
      assert Times(p, 0) == 0;
      MulAtLeast(p, q, p, 1);
    }
  }

  // ---------- Every slot is probed ----------

  function Visited(h: Hash, p: nat, n: nat): (s: set<nat>)
    requires h.Fits(p)
    ensures forall a :: a in s ==> a < p
  {
    if n == 0 then {} else Visited(h, p, n - 1) + {Addr(h, p, n - 1)}
  }

  lemma {:induction false} VisitedAt(h: Hash, p: nat, n: nat, a: nat) returns (i: nat)
    requires h.Fits(p) && a in Visited(h, p, n)
    ensures i < n && Addr(h, p, i) == a
    decreases n
  {
    hide Addr;
    if Addr(h, p, n - 1) == a {
      i := n - 1;
    } else {
      i := VisitedAt(h, p, n - 1, a);
    }
  }

  lemma {:induction false} VisitedSize(h: Hash, p: nat, n: nat)
    requires Prime(p) && h.Fits(p) && n <= p
    ensures |Visited(h, p, n)| == n
  {
    hide Addr, Prime;
    if n > 0 {
      VisitedSize(h, p, n - 1);
      var a := Addr(h, p, n - 1);
      if a in Visited(h, p, n - 1) {
        var i := VisitedAt(h, p, n - 1, a);
        AddrDistinct(h, p, i, n - 1);
      }
    }
  }

  lemma {:induction false} BelowSize(s: set<nat>, n: nat)
    requires forall a :: a in s ==> a < n
    ensures |s| <= n
    ensures |s| == n ==> forall a :: 0 <= a < n ==> a in s
    decreases n
  {
    if n == 0 {
      assert s == {};
    } else if n - 1 in s {
      var r := s - {n - 1};
      BelowSize(r, n - 1);
      if |s| == n {
        forall a | 0 <= a < n
          ensures a in s
        {
          assert a < n - 1 ==> a in r;
        }
      }
    } else {
      BelowSize(s, n - 1);
    }
  }

  /** Within `p` probes every slot is seen. */
  lemma EverySlot(h: Hash, p: nat, a: nat) returns (i: nat)
    requires Prime(p) && h.Fits(p) && a < p
    ensures i < p && Addr(h, p, i) == a
  {
    hide Addr, Prime;
    VisitedSize(h, p, p);
    BelowSize(Visited(h, p, p), p);
    i := VisitedAt(h, p, p, a);
  }
}
