/** factor: trial division on a wheel, with a shortcut for perfect squares. */
module Factors {
  import opened Bits
  import opened Primes
  import opened Wheels
  import opened Isqrts

  const HALF_MAX := 0xffff_ffff

  // ---------- How large square_count can get ----------

  function Power(n: nat, c: nat): nat {
    if c == 0 then 1 else n * Power(n, c - 1)
  }

  lemma {:induction false} PowerSquare(s: nat, c: nat)
    ensures Power(s, 2 * c) == Power(s * s, c)
    decreases c
  {
    if c > 0 {
      PowerSquare(s, c - 1);
      assert Power(s, 2 * c) == s * Power(s, 2 * c - 1) == s * (s * Power(s, 2 * (c - 1)));
      Assoc(s, s, Power(s * s, c - 1));
    }
  }

  lemma {:induction false} PowerMonotone(a: nat, b: nat, c: nat)
    requires a <= b
    ensures Power(a, c) <= Power(b, c)
    decreases c
  {
    if c > 0 {
      PowerMonotone(a, b, c - 1);
      MulAtLeast(b, Power(b, c - 1), a, Power(a, c - 1));
    }
  }

  lemma {:induction false} PowerOfTwo(c: nat)
    ensures Power(2, c) == Pow2(c)
    decreases c
  {
    if c > 0 { PowerOfTwo(c - 1); }
  }

  lemma Pow64()
    ensures Pow2(64) == 0x1_0000_0000_0000_0000
  {
    FirstBit();
    Pow2Add(31, 31);
    assert Pow2(2) == 4;
    Pow2Add(62, 2);
  }

  /** Each printed number stands `c` times in the original one, which has 64 bits. */
  ghost predicate CountFits(n: nat, c: nat) {
    1 <= c <= 126 && Power(n, c) <= MAX64
  }

  lemma CountBound(n: nat, c: nat)
    requires CountFits(n, c) && n >= 2
    ensures c <= 63
  {
    hide Pow2, Power;
    if c >= 64 {
      PowerMonotone(2, n, c);
      PowerOfTwo(c);
      Pow64();
      Pow2Monotone(64, c);
      assert false;
    }
  }

  lemma CountDoubles(s: nat, c: nat)
    requires CountFits(s * s, c) && c <= 63
    ensures CountFits(s, 2 * c)
  {
    hide Power;
    PowerSquare(s, c);
  }

  lemma CountLess(n: nat, n': nat, c: nat)
    requires CountFits(n, c) && n' <= n
    ensures CountFits(n', c)
  {
    hide Power;
    PowerMonotone(n', n, c);
  }

  // ---------- The next divisors ----------

  /** A multiple of a small prime that does not divide `n` does not divide `n` either. */
  lemma SkippedDividesNot(n: nat, factor: nat, d: nat, p: nat)
    requires 2 <= p <= factor && Rough(n, factor) && d % p == 0
    ensures !Divides(d, n)
  {
    ModDivides(p, d);
    if Divides(d, n) {
      DividesTransitive(p, d, n);
    }
  }

  lemma SmallSkippable(factor: nat, fw: nat, d: nat)
    requires (factor, fw) in {(2, 3), (3, 5), (5, 7), (7, 11)} && factor < d < fw
    ensures d % 2 == 0 || (d % 3 == 0 && factor >= 3)
  {
  }

  lemma RoughOverGap(n: nat, factor: nat, fw: nat)
    requires 2 <= factor && Rough(n, factor) && GapOk(factor, fw) && (factor >= 11 || (factor, fw) in {(2, 3), (3, 5), (5, 7), (7, 11)})
    ensures Rough(n, fw - 1)
  {
    forall d | 2 <= d <= fw - 1
      ensures !Divides(d, n)
    {
      if d > factor {
        assert Skippable(d);
        if factor < 11 {
          SmallSkippable(factor, fw, d);
        }
        if d % 2 == 0 { SkippedDividesNot(n, factor, d, 2); }
        else if d % 3 == 0 { SkippedDividesNot(n, factor, d, 3); }
        else if d % 5 == 0 { SkippedDividesNot(n, factor, d, 5); }
        else if d % 7 == 0 { SkippedDividesNot(n, factor, d, 7); }
        else { SkippedDividesNot(n, factor, d, 11); }
      }
    }
  }

  /** Nothing up to the largest odd number below the square root divides an odd `n`: it is prime. */
  ghost predicate OddRoot(n: nat, s: nat) {
    s >= 1 && s % 2 == 1 && (n < (s + 1) * (s + 1) || n < (s + 2) * (s + 2)) && s <= HALF_MAX
  }

  lemma OddRoughIsPrime(n: nat, s: nat, m: nat)
    requires n >= 2 && OddRoot(n, s) && m >= s && m >= 2 && Rough(n, m)
    ensures Prime(n)
  {
    if n < (s + 1) * (s + 1) {
      RoughIsPrime(n, s);
    } else {
      forall d | 2 <= d <= s + 1
        ensures !Divides(d, n)
      {
        if d == s + 1 {
          SkippedDividesNot(n, m, d, 2);
        }
      }
      RoughIsPrime(n, s + 1);
    }
  }

  // ---------- Printing ----------

  datatype Out = Num(n: nat) | Newline

  function Nums(fs: seq<nat>): (r: seq<Out>)
    ensures |r| == |fs|
  {
    seq(|fs|, i requires 0 <= i < |fs| => Num(fs[i]))
  }

  lemma NumsAppend(a: seq<nat>, b: seq<nat>)
    ensures Nums(a + b) == Nums(a) + Nums(b)
  {
  }

  /** The printed line for the factors `fs`, each printed `c` times. */
  ghost function Line(fs: seq<nat>, c: nat): seq<Out> {
    Nums(Each(fs, c)) + [Newline]
  }

  lemma LineAfter(done: seq<nat>, rest: seq<nat>, c: nat)
    ensures Nums(Each(done, c)) + Line(rest, c) == Line(done + rest, c)
  {
    EachAppend(done, rest, c);
    NumsAppend(Each(done, c), Each(rest, c));
  }

  lemma PrintedMore(done: seq<nat>, f: nat, c: nat)
    ensures Nums(Each(done, c)) + Nums(Repeat(f, c)) == Nums(Each(done + [f], c))
  {
    EachAppend(done, [f], c);
    EachOne(f, c);
    NumsAppend(Each(done, c), Repeat(f, c));
  }

  // ---------- The program ----------

  class Factorizer {
    const wheelTab: seq<nat>
    var squareCount: nat
    var out: seq<Out>

    ghost predicate WheelOk() {
      HeadOk(wheelTab) && From(wheelTab, 0, 2) && From(wheelTab, WHEEL_START, 13)
    }

    constructor ()
      ensures WheelOk() && out == []
    {
      hide HeadOk, From, Rows;
      var tab := UnpackWheel();
      WheelStarts();
      wheelTab := tab;
      squareCount := 1;
      out := [];
    }

    method PrintW(n: nat)
      requires squareCount >= 1
      modifies `out
      ensures out == old(out) + Nums(Repeat(n, squareCount))
    {
      var rep := squareCount;
      while true
        invariant 1 <= rep <= squareCount && out == old(out) + Nums(Repeat(n, squareCount - rep))
        decreases rep
      {
        out := out + [Num(n)];
        rep := rep - 1;
        if rep == 0 { break; }
      }
    }

    method PrintLast(n: nat)
      requires squareCount >= 1
      modifies `out
      ensures out == old(out) + Line(Tail(n), squareCount)
    {
      EachOne(n, squareCount);
      if n > 1 {
        PrintW(n);
      }
      out := out + [Newline];
    }

    /** The largest odd number up to the square root, or 0 after having printed the factors of a perfect square. */
    method IsqrtOdd(n: nat, ghost bound: nat) returns (s: nat, ghost fs: seq<nat>)
      requires WheelOk() && 1 <= n <= MAX64 && CountFits(n, squareCount) && squareCount <= 63
      requires forall r: nat :: Times(r, r) <= n ==> r < bound
      modifies this
      ensures s == 0 ==> Factorization(fs, n) && out == old(out) + Line(fs, old(squareCount))
      ensures s != 0 ==> OddRoot(n, s) && n > 1 && out == old(out) && squareCount == old(squareCount)
      decreases bound, 0
    {
      hide From, HeadOk, CountFits, Factorization, Line, OddRoot;
      var r := IsqrtUll(n);
      RootBounds(n, r);
      assert Times(r, r) <= n;
      if r * r == n {
        CountDoubles(r, squareCount);
        squareCount := squareCount * 2;
        ghost var gs := Factorize(r);
        SquareFactors(gs, r);
        TwiceLine(gs, old(squareCount));
        return 0, Each(gs, 2);
      }
      return (if r % 2 == 0 then r - 1 else r), [];
    }

    /** Divide by `factor` as often as possible; 0 if what was left became a perfect square and is done. */
    method Strip(n0: nat, factor: nat, maxFactor0: nat, ghost N: nat, ghost done0: seq<nat>, ghost out0: seq<Out>)
      returns (n: nat, maxFactor: nat, ghost done: seq<nat>, ghost fs: seq<nat>)
      requires WheelOk() && 4 <= N <= MAX64 && CountFits(N, squareCount) && squareCount <= 63
      requires Dividing(n0, done0, N, factor) && OddRoot(n0, maxFactor0) && out == out0 + Nums(Each(done0, squareCount))
      modifies this
      ensures maxFactor == 0 ==> Factorization(fs, N) && out == out0 + Line(fs, old(squareCount))
      ensures maxFactor != 0 ==> Dividing(n, done, N, factor) && Rough(n, factor) && OddRoot(n, maxFactor)
      ensures maxFactor != 0 ==> out == out0 + Nums(Each(done, squareCount)) && squareCount == old(squareCount)
      decreases N, 1
    {
      hide From, HeadOk, CountFits, Factorization, Line, OddRoot, Dividing, Rough, Nums, Each;
      n, maxFactor, done, fs := n0, maxFactor0, done0, [];
      ghost var c := squareCount;
      CountPositive(N, c);
      DividingBounds(n, done, N, factor);
      RootNonzero(n, maxFactor);
      while n % factor == 0
        invariant Dividing(n, done, N, factor) && OddRoot(n, maxFactor) && maxFactor != 0 && 2 <= n <= N && factor >= 2
        invariant out == out0 + Nums(Each(done, c)) && squareCount == c
        decreases n
      {
        DivideOnce(n, done, N, factor);
        CountLess(N, n / factor, c);
        RootBelow(n / factor, N);
        PrintedMore(done, factor, c);
        n := n / factor;
        PrintW(factor);
        done := done + [factor];
        ghost var rest;
        maxFactor, rest := IsqrtOdd(n, N);
        if maxFactor == 0 {
          fs := done + rest;
          DividedAll(n, done, N, factor, rest);
          LineAfter(done, rest, c);
          return;
        }
        DividingBounds(n, done, N, factor);
      }
      DividedOut(n, done, N, factor);
    }

    /** Print the prime factors of N, each squareCount times. */
    method Factorize(N: nat) returns (ghost fs: seq<nat>)
      requires WheelOk() && N <= MAX64 && CountFits(N, squareCount)
      modifies this
      ensures if N >= 1 then Factorization(fs, N) else fs == []
      ensures out == old(out) + Line(fs, old(squareCount))
      decreases N, 2
    {
      hide From, HeadOk, CountFits, Factorization, Line, OddRoot, Dividing, Rough, Nums, Each, OnWheel, GapOk, Prime;
      ghost var c, out0 := squareCount, out;
      CountPositive(N, c);
      if N < 4 {
        SmallFactors(N);
        PrintLast(N);
        fs := Tail(N);
        return;
      }
      CountBound(N, c);
      RootBelow(N, N);
      var maxFactor, rest := IsqrtOdd(N, N);
      if maxFactor == 0 {
        fs := rest;
        return;
      }
      var n, factor, w := N, 2, 0;
      ghost var done, pos := [], 2;
      DividingStarts(N);
      WheelBegins(wheelTab);
      NothingPrinted(out0, c);
      while true
        invariant 0 <= w && 2 <= factor <= HALF_MAX && Dividing(n, done, N, factor) && OddRoot(n, maxFactor) && OnWheel(wheelTab, w, factor, pos)
        invariant out == out0 + Nums(Each(done, c)) && squareCount == c
        decreases HALF_MAX - factor
      {
        n, maxFactor, done, fs := Strip(n, factor, maxFactor, N, done, out0);
        if maxFactor == 0 { return; }
        if factor >= maxFactor {
          DividingBounds(n, done, N, factor);
          OddRoughIsPrime(n, maxFactor, factor);
          break;
        }
        WheelStep(wheelTab, w, factor, pos);
        WheelSize(wheelTab, w, factor, pos);
        var fw := (factor + wheelTab[w]) % 0x1_0000_0000;
        DividingOn(n, done, N, factor, factor + wheelTab[w]);
        if fw < factor {
          RootBelowHalf(n, maxFactor);
          DividingBounds(n, done, N, factor + wheelTab[w]);
          DividingRough(n, done, N, factor + wheelTab[w]);
          OddRoughIsPrime(n, maxFactor, factor + wheelTab[w] - 1);
          break;
        }
        factor := fw;
        pos := pos + wheelTab[w];
        w := w + 1;
        if w < WHEEL_SIZE { continue; }
        w := WHEEL_START;
        pos := 13;
        WheelAgain(wheelTab, factor);
      }
      PrintLast(n);
      fs := done + [n];
      DividedPrime(n, done, N, factor);
      LineAfter(done, [n], c);
    }

    /** The line for one number: its prime factors once each, smallest first. */
    method FactorizeNum(N: nat) returns (ghost fs: seq<nat>)
      requires WheelOk() && N <= MAX64
      modifies this
      ensures if N >= 1 then Factorization(fs, N) else fs == []
      ensures out == old(out) + Nums(fs) + [Newline]
    {
      hide From, HeadOk, Factorization, Nums, Each;
      squareCount := 1;
      assert Power(N, 1) == N * Power(N, 0) == N;
      fs := Factorize(N);
      EachOnce(fs);
    }
  }

  function Tail(n: nat): seq<nat> { if n > 1 then [n] else [] }

  /** Trial division of `N`: the small factors `done` are split off and `n` is left. */
  ghost predicate Dividing(n: nat, done: seq<nat>, N: nat, factor: nat) {
    2 <= n <= N && factor >= 2 && Product(done) * n == N && Split(done, factor) && Rough(n, factor - 1)
  }

  lemma DividingBounds(n: nat, done: seq<nat>, N: nat, factor: nat)
    requires Dividing(n, done, N, factor)
    ensures 2 <= n <= N && factor >= 2
  {
  }

  lemma DividingRough(n: nat, done: seq<nat>, N: nat, factor: nat)
    requires Dividing(n, done, N, factor)
    ensures Rough(n, factor - 1)
  {
  }

  lemma DividingStarts(N: nat)
    requires N >= 2
    ensures Dividing(N, [], N, 2)
  {
    ProductOne(0);
  }

  lemma RootBounds(n: nat, r: nat)
    requires 1 <= n <= MAX64 && r * r <= n < (r + 1) * (r + 1)
    ensures 1 <= r <= HALF_MAX
    ensures r * r != n ==> n > 1 && OddRoot(n, if r % 2 == 0 then r - 1 else r)
  {
    if r > HALF_MAX {
      MulAtLeast(r, r, HALF_MAX + 1, HALF_MAX + 1);
    }
  }

  lemma RootNonzero(n: nat, s: nat)
    requires OddRoot(n, s)
    ensures s != 0
  {
  }

  lemma RootBelowHalf(n: nat, s: nat)
    requires OddRoot(n, s)
    ensures s <= HALF_MAX
  {
  }

  lemma RootBelow(n: nat, N: nat)
    requires n <= N && N >= 4
    ensures forall r: nat :: Times(r, r) <= n ==> r < N
  {
    forall r: nat | Times(r, r) <= n
      ensures r < N
    {
      if r >= N {
        MulAtLeast(r, r, N, 4);
      }
    }
  }

  lemma TwiceLine(gs: seq<nat>, c: nat)
    ensures Line(gs, 2 * c) == Line(Each(gs, 2), c)
  {
    EachTwice(gs, c);
  }

  lemma DivideOnce(n: nat, done: seq<nat>, N: nat, factor: nat)
    requires Dividing(n, done, N, factor) && n % factor == 0
    ensures 1 <= n / factor < n && Prime(factor) && Split(done + [factor], factor) && Rough(n / factor, factor - 1)
    ensures Product(done + [factor]) * (n / factor) == N
    ensures n / factor >= 2 ==> Dividing(n / factor, done + [factor], N, factor)
  {
    hide Rough, Split, Product, Divides, Prime;
    ModDivides(factor, n);
    SmallestIsPrime(n, factor);
    var q := n / factor;
    QuotientLess(n, factor, q);
    RoughQuotient(n, factor, q, factor - 1);
    SplitMore(done, factor);
    Assoc(Product(done), factor, q);
  }

  lemma QuotientLess(n: nat, f: nat, q: nat)
    requires n == f * q && n >= 2 && f >= 2
    ensures 1 <= q < n
  {
    assert f * 0 == 0;
    assert q != 0;
    MulAtLeast(f, q, 2, q);
  }

  lemma DividedAll(n: nat, done: seq<nat>, N: nat, factor: nat, rest: seq<nat>)
    requires factor >= 1 && Split(done, factor) && Rough(n, factor - 1) && Product(done) * n == N && Factorization(rest, n)
    ensures Factorization(done + rest, N)
  {
    hide Rough, Split, Product, Factorization;
    JoinFactors(done, rest, n, factor);
  }

  lemma DividedPrime(n: nat, done: seq<nat>, N: nat, factor: nat)
    requires Dividing(n, done, N, factor) && Prime(n)
    ensures Factorization(done + [n], N) && Tail(n) == [n]
  {
    hide Rough, Split, Product, Factorization, Prime;
    PrimeFactorization(n);
    DividedAll(n, done, N, factor, [n]);
  }

  lemma DividedOut(n: nat, done: seq<nat>, N: nat, factor: nat)
    requires Dividing(n, done, N, factor) && n % factor != 0
    ensures Rough(n, factor)
  {
    ModDivides(factor, n);
  }

  lemma DividingOn(n: nat, done: seq<nat>, N: nat, factor: nat, fw: nat)
    requires Dividing(n, done, N, factor) && Rough(n, factor) && GapOk(factor, fw)
    requires factor >= 11 || (factor, fw) in {(2, 3), (3, 5), (5, 7), (7, 11)}
    ensures Dividing(n, done, N, fw)
  {
    hide Rough, Prime;
    RoughOverGap(n, factor, fw);
  }

  lemma SmallFactors(N: nat)
    requires N < 4
    ensures N >= 1 ==> Factorization(Tail(N), N)
  {
    ProductOne(N);
    if N >= 2 {
      forall d | 2 <= d < N
        ensures !Divides(d, N)
      {
        ModDivides(d, N);
      }
    }
  }

  lemma CountPositive(n: nat, c: nat)
    requires CountFits(n, c)
    ensures c >= 1
  {
  }

  lemma NothingPrinted(out: seq<Out>, c: nat)
    ensures out == out + Nums(Each([], c))
  {
  }

  lemma WheelBegins(tab: seq<nat>)
    requires HeadOk(tab) && From(tab, 0, 2)
    ensures OnWheel(tab, 0, 2, 2)
  {
  }

  lemma WheelAgain(tab: seq<nat>, factor: nat)
    requires HeadOk(tab) && From(tab, WHEEL_START, 13) && factor >= 13 && (factor - 13) % TURN == 0
    ensures OnWheel(tab, WHEEL_START, factor, 13)
  {
  }

  lemma WheelSize(tab: seq<nat>, w: nat, factor: nat, pos: nat)
    requires OnWheel(tab, w, factor, pos)
    ensures w < |tab| == WHEEL_SIZE
  {
  }
}
