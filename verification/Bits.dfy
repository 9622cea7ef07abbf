/** Numbers as bit strings: the vocabulary shared by the bit writer, the codes and the decoder. */
module Bits {

  type byte = x: int | 0 <= x < 256

  datatype Option<+T> = None | Some(value: T)

  function Pow2(n: nat): (p: nat)
    ensures p >= 1
  {
    if n == 0 then 1 else 2 * Pow2(n - 1)
  }

  /** The low `n` bits of `v`, least significant first (section 3.1.1 of RFC 1951). */
  function BitsOf(v: nat, n: nat): (s: seq<bool>)
    ensures |s| == n
  {
    if n == 0 then [] else [v % 2 == 1] + BitsOf(v / 2, n - 1)
  }

  /** The low `n` bits of `v`, most significant first: the order in which Huffman codes are packed. */
  function MsbBits(v: nat, n: nat): (s: seq<bool>)
    ensures |s| == n
  {
    if n == 0 then [] else MsbBits(v / 2, n - 1) + [v % 2 == 1]
  }

  /** `v >> n` */
  function Shr(v: nat, n: nat): nat {
    if n == 0 then v else Shr(v / 2, n - 1)
  }

  /** The low `n` bits of `v`: what is left of it in an unsigned integer `n` bits wide. */
  function Trunc(v: nat, n: nat): nat {
    if n == 0 then 0 else v % 2 + 2 * Trunc(v / 2, n - 1)
  }

  /** The number whose bits, least significant first, are `s`. */
  function NatOf(s: seq<bool>): nat {
    if s == [] then 0 else (if s[0] then 1 else 0) + 2 * NatOf(s[1..])
  }

  function BytesBits(b: seq<byte>): (s: seq<bool>)
    ensures |s| == 8 * |b|
  {
    if b == [] then [] else BytesBits(b[..|b| - 1]) + BitsOf(b[|b| - 1], 8)
  }

  function Zeros(n: nat): (s: seq<bool>)
    ensures |s| == n
  {
    seq(n, i => false)
  }

  lemma MulDistribute(a: int, b: int, c: int)
    ensures (a + b) * c == a * c + b * c
  {
  }

  lemma MulMonotone(a: int, b: int, c: nat)
    requires a <= b
    ensures a * c <= b * c
  {
    assert b * c == a * c + (b - a) * c;
  }

  lemma {:induction false} Pow2Add(a: nat, b: nat)
    ensures Pow2(a + b) == Pow2(a) * Pow2(b)
  {
    if a > 0 {
      Pow2Add(a - 1, b);
      MulDouble(Pow2(b), Pow2(a - 1));
    }
  }

  lemma {:induction false} Pow2Monotone(a: nat, b: nat)
    requires a <= b
    ensures Pow2(a) <= Pow2(b)
  {
    if a < b { Pow2Monotone(a, b - 1); }
  }

  lemma {:induction false} NatOfBitsOf(v: nat, n: nat)
    requires v < Pow2(n)
    ensures NatOf(BitsOf(v, n)) == v
  {
    if n > 0 {
      NatOfBitsOf(v / 2, n - 1);
      assert BitsOf(v, n)[1..] == BitsOf(v / 2, n - 1);
    }
  }

  /** Shifting out the low bits and truncating to them takes a number apart. */
  lemma {:induction false} ShrTrunc(v: nat, n: nat)
    ensures v == Trunc(v, n) + Shr(v, n) * Pow2(n)
    ensures Trunc(v, n) < Pow2(n)
  {
    if n > 0 {
      ShrTrunc(v / 2, n - 1);
      MulDouble(Shr(v, n), Pow2(n - 1));
    }
  }

  lemma MulDouble(a: int, b: int)
    ensures a * (2 * b) == 2 * (a * b)
  {
  }

  lemma {:induction false} ShrTruncJoin(x: nat, y: nat, n: nat)
    requires x < Pow2(n)
    ensures Shr(x + y * Pow2(n), n) == y
    ensures Trunc(x + y * Pow2(n), n) == x
  {
    if n > 0 {
      HalfJoin(x, y, n);
      ShrTruncJoin(x / 2, y, n - 1);
    }
  }

  lemma HalfJoin(x: nat, y: nat, n: nat)
    requires n > 0
    ensures (x + y * Pow2(n)) % 2 == x % 2
    ensures (x + y * Pow2(n)) / 2 == x / 2 + y * Pow2(n - 1)
  {
    MulDouble(y, Pow2(n - 1));
  }

  lemma {:induction false} BitsOfSplit(v: nat, n: nat, m: nat)
    ensures BitsOf(v, n + m) == BitsOf(v, n) + BitsOf(Shr(v, n), m)
  {
    if n > 0 {
      BitsOfSplit(v / 2, n - 1, m);
    }
  }

  lemma {:induction false} BitsOfTrunc(v: nat, n: nat, m: nat)
    requires n <= m
    ensures BitsOf(Trunc(v, m), n) == BitsOf(v, n)
  {
    if n > 0 {
      BitsOfTrunc(v / 2, n - 1, m - 1);
    }
  }

  lemma {:induction false} BitsOfJoin(x: nat, n: nat, v: nat, m: nat)
    requires x < Pow2(n)
    ensures BitsOf(x + v * Pow2(n), n + m) == BitsOf(x, n) + BitsOf(v, m)
  {
    if n > 0 {
      HalfJoin(x, v, n);
      BitsOfJoin(x / 2, n - 1, v, m);
    }
  }

  lemma {:induction false} BitsOfZero(n: nat)
    ensures BitsOf(0, n) == Zeros(n)
  {
    if n > 0 { BitsOfZero(n - 1); }
  }

  lemma {:induction false} BytesBitsAppend(a: seq<byte>, b: seq<byte>)
    ensures BytesBits(a + b) == BytesBits(a) + BytesBits(b)
  {
    if b == [] {
      assert a + b == a;
    } else {
      BytesBitsAppend(a, b[..|b| - 1]);
      assert (a + b)[..|a + b| - 1] == a + b[..|b| - 1];
    }
  }

  /** A code packed most significant bit first is the reverse of the number's bits. */
  lemma {:induction false} MsbReverses(v: nat, n: nat, i: nat)
    requires i < n
    ensures MsbBits(v, n)[i] == BitsOf(v, n)[n - 1 - i]
  {
    if i < n - 1 {
      MsbReverses(v / 2, n - 1, i);
    }
  }

  /** A code word that begins another is its leading part, read as numbers. */
  lemma {:induction false} MsbPrefix(a: nat, n: nat, b: nat, m: nat)
    requires a < Pow2(n) && b < Pow2(m) && n <= m
    requires MsbBits(a, n) == MsbBits(b, m)[..n]
    ensures a == Shr(b, m - n)
  {
    if n < m {
      assert MsbBits(b, m)[..n] == MsbBits(b / 2, m - 1)[..n];
      MsbPrefix(a, n, b / 2, m - 1);
    } else if n > 0 {
      var s, t := MsbBits(a, n), MsbBits(b, n);
      assert MsbBits(b, m)[..n] == t;
      assert s[n - 1] == t[n - 1];
      assert s[..n - 1] == MsbBits(a / 2, n - 1) && t[..n - 1] == MsbBits(b / 2, n - 1);
      assert MsbBits(b / 2, n - 1)[..n - 1] == MsbBits(b / 2, n - 1);
      MsbPrefix(a / 2, n - 1, b / 2, n - 1);
    }
  }
}
