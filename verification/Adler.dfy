/** lzo_adler32: Adler-32 with the reductions put off. */
module Adlers {
  import opened Bits

  const BASE := 65521
  const NMAX := 5552

  /** The two sums of section 8.2 of RFC 1950, reduced after every byte. */
  datatype Sums = Sums(s1: nat, s2: nat)

  function Add(s: Sums, b: byte): Sums {
    var s1 := (s.s1 + b) % BASE;
    Sums(s1, (s.s2 + s1) % BASE)
  }

  function AddAll(s: Sums, data: seq<byte>): Sums {
    if data == [] then s else Add(AddAll(s, data[..|data| - 1]), data[|data| - 1])
  }

  function Joined(s: Sums): nat { s.s2 * 0x10000 + s.s1 }

  function Halves(adler: nat): Sums { Sums(adler % 0x10000, adler / 0x10000 % 0x10000) }

  /** Adler-32 of `data` after `adler`. */
  function Adler(adler: nat, data: seq<byte>): nat {
    Joined(AddAll(Halves(adler), data))
  }

  ghost predicate Reduced(adler: nat) {
    adler < 0x1_0000_0000 && Halves(adler).s1 < BASE && Halves(adler).s2 < BASE
  }

  // ---------- Splitting the data ----------

  lemma {:induction false} AddAllAppend(s: Sums, a: seq<byte>, b: seq<byte>)
    ensures AddAll(s, a + b) == AddAll(AddAll(s, a), b)
    decreases |b|
  {
    if b == [] {
      assert a + b == a;
    } else {
      AddAllAppend(s, a, b[..|b| - 1]);
      assert (a + b)[..|a + b| - 1] == a + b[..|b| - 1];
    }
  }

  lemma {:induction false} AddAllReduced(s: Sums, data: seq<byte>)
    requires s.s1 < BASE && s.s2 < BASE
    ensures AddAll(s, data).s1 < BASE && AddAll(s, data).s2 < BASE
    decreases |data|
  {
    if data != [] { AddAllReduced(s, data[..|data| - 1]); }
  }

  lemma HalvesJoined(s: Sums)
    requires s.s1 < 0x10000 && s.s2 < 0x10000
    ensures Halves(Joined(s)) == s
  {
  }

  /** It does not matter how the data is split across calls. */
  lemma AdlerSplits(adler: nat, a: seq<byte>, b: seq<byte>)
    requires Reduced(adler)
    ensures Adler(Adler(adler, a), b) == Adler(adler, a + b) && Reduced(Adler(adler, a))
  {
    hide AddAll;
    AddAllAppend(Halves(adler), a, b);
    AddAllReduced(Halves(adler), a);
    HalvesJoined(AddAll(Halves(adler), a));
  }

  // ---------- How large the sums get between reductions ----------

  function Triangle(n: nat): nat {
    if n == 0 then 0 else Triangle(n - 1) + n
  }

  lemma {:induction false} TriangleIs(n: nat)
    ensures 2 * Triangle(n) == n * (n + 1)
  {
    if n > 0 {
      TriangleIs(n - 1);
      assert n * (n + 1) == (n - 1) * n + 2 * n;
    }
  }

  /** After `n` bytes of a chunk. */
  ghost predicate Bounded(s1: nat, s2: nat, n: nat) {
    s1 <= 0xffff + 255 * n && s2 <= 0xffff * (n + 1) + 255 * Triangle(n)
  }

  /** NMAX bytes do not wrap 32 bits, from any start. */
  lemma NoWrap(s1: nat, s2: nat, n: nat)
    requires Bounded(s1, s2, n) && n <= NMAX
    ensures s1 < 0x1_0000_0000 && s2 < 0x1_0000_0000
  {
    TriangleIs(NMAX);
    TriangleMonotone(n, NMAX);
  }

  lemma {:induction false} TriangleMonotone(m: nat, n: nat)
    requires m <= n
    ensures Triangle(m) <= Triangle(n)
    decreases n
  {
    if m < n { TriangleMonotone(m, n - 1); }
  }

  lemma BoundedMore(s1: nat, s2: nat, n: nat, b: byte)
    requires Bounded(s1, s2, n)
    ensures Bounded(s1 + b, s2 + s1 + b, n + 1)
  {
    assert Triangle(n + 1) == Triangle(n) + n + 1;
    hide Triangle;
    assert 0xffff * (n + 2) == 0xffff * (n + 1) + 0xffff;
  }

  // ---------- The method ----------

  /** The sums not yet reduced stand for the reduced ones. */
  ghost predicate Stand(s1: nat, s2: nat, s: Sums) {
    s1 % BASE == s.s1 % BASE && s2 % BASE == s.s2 % BASE
  }

  lemma StandMore(s1: nat, s2: nat, s: Sums, b: byte)
    requires Stand(s1, s2, s)
    ensures Stand(s1 + b, s2 + s1 + b, Add(s, b))
  {
    ModAdd(s1, s.s1, b);
    var t := (s.s1 + b) % BASE;
    ModSum(s2, s.s2, s1 + b, t);
  }

  lemma ModAdd(x: nat, y: nat, b: nat)
    requires x % BASE == y % BASE
    ensures (x + b) % BASE == (y + b) % BASE
  {
  }

  lemma ModSum(x: nat, y: nat, u: nat, v: nat)
    requires x % BASE == y % BASE && u % BASE == v % BASE
    ensures (x + u) % BASE == (y + v) % BASE
  {
    ModAdd(x, y, u);
    ModAdd(u, v, y);
  }

  method LzoAdler32(adler: nat, buf: Option<seq<byte>>) returns (r: nat)
    requires adler < 0x1_0000_0000
    ensures buf == None ==> r == 1
    ensures buf == Some([]) ==> r == adler
    ensures buf.Some? && buf.value != [] ==> Stand(Halves(r).s1, Halves(r).s2, AddAll(Halves(adler), buf.value)) && Reduced(r)
    ensures buf.Some? && Reduced(adler) ==> r == Adler(adler, buf.value)
  {
    hide AddAll, Stand, Halves, Joined;
    HalvesOf(adler);
    var s1: nat, s2: nat := adler % 0x10000, adler / 0x10000 % 0x10000;
    ghost var start := Sums(s1, s2);
    if buf == None {
      return 1;
    }
    var data := buf.value;
    var done: nat := 0;
    NothingAdded(start);
    StandSelf(start);
    while done < |data|
      invariant done <= |data| && s1 <= 0xffff && s2 <= 0xffff && Stand(s1, s2, AddAll(start, data[..done]))
      invariant done == 0 ==> s1 == start.s1 && s2 == start.s2
      invariant done > 0 ==> s1 < BASE && s2 < BASE
    {
      var k := if |data| - done < NMAX then |data| - done else NMAX;
      s1, s2 := AddChunk(s1, s2, data, done, k, start);
      done := done + k;
      StandReduced(s1, s2, AddAll(start, data[..done]));
      s1 := s1 % BASE;
      s2 := s2 % BASE;
    }
    assert data[..done] == data;
    r := s2 * 0x10000 + s1;
    JoinedIs(s1, s2, r);
    if Reduced(adler) {
      AddAllReduced(start, data);
      StandSame(s1, s2, AddAll(start, data));
    }
  }

  lemma HalvesOf(adler: nat)
    requires adler < 0x1_0000_0000
    ensures Halves(adler) == Sums(adler % 0x10000, adler / 0x10000 % 0x10000) && Joined(Halves(adler)) == adler
  {
  }

  lemma JoinedIs(s1: nat, s2: nat, r: nat)
    requires s1 <= 0xffff && s2 <= 0xffff && r == s2 * 0x10000 + s1
    ensures r == Joined(Sums(s1, s2)) < 0x1_0000_0000 && Halves(r) == Sums(s1, s2)
  {
    HalvesJoined(Sums(s1, s2));
  }

  lemma StandReduced(s1: nat, s2: nat, s: Sums)
    requires Stand(s1, s2, s)
    ensures Stand(s1 % BASE, s2 % BASE, s) && s1 % BASE < BASE && s2 % BASE < BASE
  {
  }

  lemma StandSame(s1: nat, s2: nat, s: Sums)
    requires Stand(s1, s2, s) && s1 < BASE && s2 < BASE && s.s1 < BASE && s.s2 < BASE
    ensures s == Sums(s1, s2)
  {
  }

  lemma StandSelf(s: Sums)
    ensures Stand(s.s1, s.s2, s)
  {
  }

  lemma NothingAdded(s: Sums)
    ensures AddAll(s, []) == s
  {
  }

  /** One chunk, without reducing; no sum leaves 32 bits. */
  method AddChunk(s10: nat, s20: nat, data: seq<byte>, done: nat, k: nat, ghost start: Sums) returns (s1: nat, s2: nat)
    requires done + k <= |data| && 0 < k <= NMAX && s10 <= 0xffff && s20 <= 0xffff && Stand(s10, s20, AddAll(start, data[..done]))
    ensures Stand(s1, s2, AddAll(start, data[..done + k])) && s1 < 0x1_0000_0000 && s2 < 0x1_0000_0000
  {
    hide Triangle, Stand, Add;
    s1, s2 := s10, s20;
    StartBounded(s1, s2);
    for n := 0 to k
      invariant Stand(s1, s2, AddAll(start, data[..done + n])) && Bounded(s1, s2, n) && s1 < 0x1_0000_0000 && s2 < 0x1_0000_0000
    {
      var b := data[done + n];
      assert data[..done + n + 1][..done + n] == data[..done + n];
      StandMore(s1, s2, AddAll(start, data[..done + n]), b);
      BoundedMore(s1, s2, n, b);
      s1 := s1 + b;
      s2 := s2 + s1;
      NoWrap(s1, s2, n + 1);
    }
  }

  lemma StartBounded(s1: nat, s2: nat)
    requires s1 <= 0xffff && s2 <= 0xffff
    ensures Bounded(s1, s2, 0)
  {
  }
}
