/** Divisors, primes and factorizations. */
module Primes {

  function Times(d: nat, q: nat): nat { d * q }

  ghost predicate Divides(d: nat, n: nat) {
    exists q :: Times(d, q) == n
  }

  ghost predicate Prime(p: nat) {
    p >= 2 && forall d :: 2 <= d < p ==> !Divides(d, p)
  }

  /** No number from 2 to `m` divides `n`. */
  ghost predicate Rough(n: nat, m: nat) {
    forall d :: 2 <= d <= m ==> !Divides(d, n)
  }

  // ---------- Arithmetic ----------

  lemma MulAtLeast(a: nat, b: nat, c: nat, d: nat)
    requires a >= c && b >= d
    ensures a * b >= c * d
  {
    assert a * b >= c * b && c * b >= c * d;
  }

  lemma Assoc(a: nat, b: nat, c: nat)
    ensures a * b * c == a * (b * c)
  {
  }

  lemma NoMultipleBetween(d: nat, t: int, r: nat)
    requires d > 0 && d * t == r < d
    ensures r == 0
  {
    if t >= 1 {
      MulGrows(d, t);
    } else if t <= -1 {
      MulGrows(d, -t);
    }
  }

  lemma MulGrows(d: int, t: int)
    requires t >= 1 && d >= 0
    ensures d * t >= d && d * -t <= -d
  {
  }

  lemma DivMod(n: nat, d: nat)
    requires d > 0
    ensures 0 <= n / d && 0 <= n % d < d && n == d * (n / d) + n % d
  {
  }

  lemma Difference(d: nat, q: nat, q0: nat, r: nat)
    requires d * q == d * q0 + r
    ensures d * (q - q0) == r
  {
  }

  /** The remainder tells whether a number divides another. */
  lemma ModDivides(d: nat, n: nat)
    requires d > 0
    ensures n % d == 0 <==> Divides(d, n)
    ensures n % d == 0 ==> n == d * (n / d)
  {
    var q0, r := n / d, n % d;
    DivMod(n, d);
    if r == 0 {
      assert Times(d, q0) == n;
    }
    if Divides(d, n) {
      var q: nat :| Times(d, q) == n;
      Difference(d, q, q0, r);
      NoMultipleBetween(d, q - q0, r);
    }
  }

  lemma DividesMultiple(d: nat, a: nat, k: nat)
    requires Divides(d, a)
    ensures Divides(d, a * k)
  {
    var q: nat :| Times(d, q) == a;
    Assoc(d, q, k);
    assert Times(d, q * k) == a * k;
  }

  lemma DividesTransitive(d: nat, a: nat, n: nat)
    requires Divides(d, a) && Divides(a, n)
    ensures Divides(d, n)
  {
    var q: nat :| Times(a, q) == n;
    DividesMultiple(d, a, q);
  }

  lemma FactorDivides(d: nat, q: nat)
    ensures Divides(d, d * q) && Divides(q, d * q)
  {
    assert Times(d, q) == d * q && Times(q, d) == d * q;
  }

  // ---------- Trial division ----------

  /** The smallest divisor is prime. */
  lemma SmallestIsPrime(n: nat, f: nat)
    requires f >= 2 && Rough(n, f - 1) && Divides(f, n)
    ensures Prime(f)
  {
    forall d | 2 <= d < f
      ensures !Divides(d, f)
    {
      if Divides(d, f) {
        DividesTransitive(d, f, n);
      }
    }
  }

  /** A number without divisors up to its square root is prime. */
  lemma RoughIsPrime(n: nat, m: nat)
    requires n >= 2 && Rough(n, m) && n < (m + 1) * (m + 1)
    ensures Prime(n)
  {
    forall d | 2 <= d < n
      ensures !Divides(d, n)
    {
      if Divides(d, n) {
        var q: nat :| Times(d, q) == n;
        FactorDivides(d, q);
        assert q != 0 && q != 1;
        MulAtLeast(d, q, m + 1, m + 1);
      }
    }
  }

  lemma RoughQuotient(n: nat, f: nat, q: nat, m: nat)
    requires Rough(n, m) && n == f * q
    ensures Rough(q, m)
  {
    FactorDivides(f, q);
    forall d | 2 <= d <= m
      ensures !Divides(d, q)
    {
      if Divides(d, q) {
        DividesTransitive(d, q, n);
      }
    }
  }

  // ---------- Euclid's lemma ----------

  lemma DividesDifference(p: nat, a: nat, b: nat)
    requires Divides(p, a) && Divides(p, b) && b <= a
    ensures Divides(p, a - b)
  {
    var x: nat :| Times(p, x) == a;
    var y: nat :| Times(p, y) == b;
    if x < y {
      MulAtLeast(p, y, p, x + 1);
      assert p * (x + 1) == p * x + p;
    }
    if x >= y {
      assert p * (x - y) == p * x - p * y;
      assert Times(p, x - y) == a - b;
    } else {
      assert Times(p, 0) == 0;
    }
  }

  /** A prime that divides a product and not its first factor, which is smaller, divides the second. */
  lemma {:induction false} EuclidSmall(p: nat, r: nat, b: nat)
    requires Prime(p) && 1 <= r < p && Divides(p, r * b)
    ensures Divides(p, b)
    decreases r
  {
    if r == 1 {
      assert r * b == b;
    } else {
      var q, s := p / r, p % r;
      DivMod(p, r);
      ModDivides(r, p);
      assert s != 0;
      // s * b == p * b - q * (r * b)
      Expand3(p, q, r, s, b);
      FactorDivides(p, b);
      DividesMultiple(p, r * b, q);
      DividesDifference(p, p * b, r * b * q);
      EuclidSmall(p, s, b);
    }
  }

  lemma Expand3(p: nat, q: nat, r: nat, s: nat, b: nat)
    requires p == r * q + s
    ensures p * b == r * b * q + s * b && r * b * q <= p * b
  {
    assert p * b == r * q * b + s * b;
    assert r * q * b == r * (q * b) == r * (b * q) == r * b * q;
  }

  lemma Euclid(p: nat, a: nat, b: nat)
    requires Prime(p) && Divides(p, a * b)
    ensures Divides(p, a) || Divides(p, b)
  {
    var q, r := a / p, a % p;
    DivMod(a, p);
    if r == 0 {
      ModDivides(p, a);
    } else {
      Expand3(a, q, p, r, b);
      FactorDivides(p, b * q);
      Assoc(p, b, q);
      DividesDifference(p, a * b, p * b * q);
      EuclidSmall(p, r, b);
    }
  }

  // ---------- Factorizations ----------

  function Product(fs: seq<nat>): nat {
    if fs == [] then 1 else fs[0] * Product(fs[1..])
  }

  ghost predicate Sorted(fs: seq<nat>) {
    forall i, j :: 0 <= i < j < |fs| ==> fs[i] <= fs[j]
  }

  ghost predicate AllPrime(fs: seq<nat>) {
    forall i :: 0 <= i < |fs| ==> Prime(fs[i])
  }

  /** The primes, in non-decreasing order, whose product is `n`. */
  ghost predicate Factorization(fs: seq<nat>, n: nat) {
    AllPrime(fs) && Sorted(fs) && Product(fs) == n
  }

  lemma {:induction false} ProductAppend(a: seq<nat>, b: seq<nat>)
    ensures Product(a + b) == Product(a) * Product(b)
    decreases a
  {
    if a == [] {
      assert a + b == b;
    } else {
      assert (a + b)[1..] == a[1..] + b;
      ProductAppend(a[1..], b);
      Assoc(a[0], Product(a[1..]), Product(b));
    }
  }

  lemma ProductOne(f: nat)
    ensures Product([f]) == f && Product([]) == 1
  {
    assert [f][1..] == [];
  }

  lemma {:induction false} MemberDivides(fs: seq<nat>, i: nat)
    requires i < |fs|
    ensures Divides(fs[i], Product(fs))
    decreases fs
  {
    hide Divides;
    FactorDivides(fs[0], Product(fs[1..]));
    if i > 0 {
      MemberDivides(fs[1..], i - 1);
      DividesTransitive(fs[i], Product(fs[1..]), Product(fs));
    }
  }

  /** What trial division has split off so far. */
  ghost predicate Split(done: seq<nat>, factor: nat) {
    AllPrime(done) && Sorted(done) && forall i :: 0 <= i < |done| ==> done[i] <= factor
  }

  /** Small primes before, and larger ones after. */
  lemma JoinFactors(done: seq<nat>, rest: seq<nat>, n: nat, factor: nat)
    requires factor >= 1 && Split(done, factor) && Factorization(rest, n) && Rough(n, factor - 1)
    ensures Factorization(done + rest, Product(done) * n)
  {
    hide Divides, Product;
    forall i | 0 <= i < |rest|
      ensures rest[i] >= factor
    {
      MemberDivides(rest, i);
      assert Prime(rest[i]);
    }
    ProductAppend(done, rest);
  }

  lemma SplitMore(done: seq<nat>, factor: nat)
    requires Split(done, factor) && Prime(factor)
    ensures Split(done + [factor], factor) && Product(done + [factor]) == Product(done) * factor
  {
    hide Prime, Product;
    ProductAppend(done, [factor]);
    ProductOne(factor);
  }

  lemma PrimeFactorization(p: nat)
    requires Prime(p)
    ensures Factorization([p], p)
  {
    ProductOne(p);
  }

  // ---------- There is only one ----------

  lemma PrimeDividesPrime(p: nat, f: nat)
    requires Prime(p) && Prime(f) && Divides(p, f)
    ensures p == f
  {
    if p > f {
      var q: nat :| Times(p, q) == f;
      assert q != 0 by { assert Times(p, 0) == 0; }
      MulAtLeast(p, q, p, 1);
    }
  }

  lemma {:induction false} PrimeInProduct(p: nat, fs: seq<nat>)
    requires Prime(p) && AllPrime(fs) && Divides(p, Product(fs))
    ensures p in fs
    decreases fs
  {
    hide Divides, Prime;
    if fs == [] {
      NotOne(p);
    } else {
      Euclid(p, fs[0], Product(fs[1..]));
      if Divides(p, fs[0]) {
        PrimeDividesPrime(p, fs[0]);
      } else {
        PrimeInProduct(p, fs[1..]);
      }
    }
  }

  lemma NotOne(p: nat)
    requires Prime(p)
    ensures !Divides(p, 1) && p >= 2
  {
    if Divides(p, 1) {
      var q: nat :| Times(p, q) == 1;
      assert Times(p, 0) == 0;
      MulAtLeast(p, q, 2, 1);
    }
  }

  /** Every number has one factorization only. */
  lemma {:induction false} FactorizationUnique(a: seq<nat>, b: seq<nat>, n: nat)
    requires Factorization(a, n) && Factorization(b, n)
    ensures a == b
    decreases |a|
  {
    hide Divides, Prime;
    if a == [] || b == [] {
      if a != [] { MemberDivides(a, 0); NotOne(a[0]); }
      if b != [] { MemberDivides(b, 0); NotOne(b[0]); }
    } else {
      MemberDivides(a, 0);
      MemberDivides(b, 0);
      PrimeInProduct(a[0], b);
      PrimeInProduct(b[0], a);
      assert a[0] == b[0];
      NotOne(a[0]);
      Cancel(a[0], Product(a[1..]), Product(b[1..]));
      FactorizationUnique(a[1..], b[1..], Product(a[1..]));
    }
  }

  lemma Cancel(f: nat, x: nat, y: nat)
    requires f * x == f * y
    ensures f >= 1 ==> x == y
  {
    if x < y {
      MulAtLeast(f, y, f, x + 1);
    } else if y < x {
      MulAtLeast(f, x, f, y + 1);
    }
    assert f * (x + 1) == f * x + f && f * (y + 1) == f * y + f;
  }

  // ---------- Repetition ----------

  function Repeat(f: nat, c: nat): (r: seq<nat>)
    ensures |r| == c
  {
    seq(c, i => f)
  }

  /** Every number `c` times. */
  function Each(fs: seq<nat>, c: nat): seq<nat> {
    if fs == [] then [] else Repeat(fs[0], c) + Each(fs[1..], c)
  }

  lemma {:induction false} EachAppend(a: seq<nat>, b: seq<nat>, c: nat)
    ensures Each(a + b, c) == Each(a, c) + Each(b, c)
    decreases a
  {
    if a == [] {
      assert a + b == b;
    } else {
      assert (a + b)[1..] == a[1..] + b;
      EachAppend(a[1..], b, c);
    }
  }

  lemma EachOne(f: nat, c: nat)
    ensures Each([f], c) == Repeat(f, c) && Each([], c) == []
  {
    assert [f][1..] == [];
  }

  lemma {:induction false} EachOnce(fs: seq<nat>)
    ensures Each(fs, 1) == fs
    decreases fs
  {
    if fs != [] { EachOnce(fs[1..]); }
  }

  lemma {:induction false} EachTwice(fs: seq<nat>, c: nat)
    ensures Each(Each(fs, 2), c) == Each(fs, 2 * c)
    decreases fs
  {
    if fs != [] {
      var f := fs[0];
      EachTwice(fs[1..], c);
      EachAppend(Repeat(f, 2), Each(fs[1..], 2), c);
      assert Repeat(f, 2) == [f] + [f];
      EachAppend([f], [f], c);
      EachOne(f, c);
      assert Repeat(f, c) + Repeat(f, c) == Repeat(f, 2 * c);
    }
  }

  lemma {:induction false} EachMembers(fs: seq<nat>, c: nat, i: nat)
    requires i < |Each(fs, c)|
    ensures Each(fs, c)[i] in fs
    decreases fs
  {
    if i >= c {
      EachMembers(fs[1..], c, i - c);
    }
  }

  lemma {:induction false} EachSorted(fs: seq<nat>, c: nat)
    requires Sorted(fs)
    ensures Sorted(Each(fs, c))
    decreases fs
  {
    if fs != [] {
      EachSorted(fs[1..], c);
      var rest := Each(fs[1..], c);
      forall i | 0 <= i < |rest|
        ensures fs[0] <= rest[i]
      {
        EachMembers(fs[1..], c, i);
      }
    }
  }

  lemma {:induction false} EachProduct(fs: seq<nat>)
    ensures Product(Each(fs, 2)) == Product(fs) * Product(fs)
    decreases fs
  {
    if fs != [] {
      var f, p := fs[0], Product(fs[1..]);
      EachProduct(fs[1..]);
      assert Repeat(f, 2) == [f] + [f];
      ProductAppend(Repeat(f, 2), Each(fs[1..], 2));
      ProductAppend([f], [f]);
      ProductOne(f);
      Regroup(f, p);
    }
  }

  lemma Regroup(f: nat, p: nat)
    ensures f * f * (p * p) == f * p * (f * p)
  {
    assert f * f * (p * p) == f * (f * (p * p)) == f * (f * p * p) == f * (p * (f * p));
  }

  /** The factors of a square are those of its root, twice. */
  lemma SquareFactors(fs: seq<nat>, s: nat)
    requires Factorization(fs, s)
    ensures Factorization(Each(fs, 2), s * s)
  {
    hide Prime, Product;
    EachSorted(fs, 2);
    EachProduct(fs);
    forall i | 0 <= i < |Each(fs, 2)|
      ensures Prime(Each(fs, 2)[i])
    {
      EachMembers(fs, 2, i);
    }
  }
}
