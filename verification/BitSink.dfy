/** The output side of gzip: the byte buffer in front of the file and the bit buffer in front of it. */
module BitSinks {
  import opened Bits

  /** Bitwise or of two unsigned integers. */
  function Or(a: nat, b: nat): nat {
    if a == 0 then b else (if a % 2 == 1 || b % 2 == 1 then 1 else 0) + 2 * Or(a / 2, b / 2)
  }

  lemma {:induction false} OrJoins(x: nat, n: nat, y: nat)
    requires x < Pow2(n)
    ensures Or(x, y * Pow2(n)) == x + y * Pow2(n)
  {
    if x != 0 {
      assert n > 0;
      HalfJoin(0, y, n);
      OrJoins(x / 2, n - 1, y);
    }
  }

  /** Truncating a shifted value loses only its own top bits. */
  lemma {:induction false} TruncShifted(v: nat, k: nat, n: nat)
    requires k <= n
    ensures Trunc(v * Pow2(k), n) == Trunc(v, n - k) * Pow2(k)
  {
    if k > 0 {
      HalfJoin(0, v, k);
      TruncShifted(v, k - 1, n - 1);
      MulDouble(Trunc(v, n - k), Pow2(k - 1));
    }
  }

  lemma {:induction false} TruncSmall(v: nat, n: nat)
    requires v < Pow2(n)
    ensures Trunc(v, n) == v
  {
    if n > 0 { TruncSmall(v / 2, n - 1); }
  }

  lemma {:induction false} ShrSmall(v: nat, n: nat, m: nat)
    requires v < Pow2(n + m)
    ensures Shr(v, n) < Pow2(m)
  {
    if n > 0 { ShrSmall(v / 2, n - 1, m); }
  }

  /** `n` bytes of `v`, least significant first. */
  function LittleEndian(v: nat, n: nat): (b: seq<byte>)
    ensures |b| == n
    decreases n
  {
    if n == 0 then [] else [v % 256] + LittleEndian(v / 256, n - 1)
  }

  lemma {:induction false} LittleEndianBits(b: seq<byte>, v: nat, n: nat)
    ensures BytesBits(b + LittleEndian(v, n)) == BytesBits(b) + BitsOf(v, 8 * n)
    decreases n
  {
    if n == 0 {
      assert b + [] == b;
    } else {
      var c, t := [v % 256], LittleEndian(v / 256, n - 1);
      assert b + LittleEndian(v, n) == (b + c) + t;
      calc {
        BytesBits((b + c) + t);
        { LittleEndianBits(b + c, v / 256, n - 1); }
        BytesBits(b + c) + BitsOf(v / 256, 8 * (n - 1));
        { NextByte(b, v, 8 * n); assert 8 * n - 8 == 8 * (n - 1); }
        BytesBits(b) + BitsOf(v, 8 * n);
      }
    }
  }

  lemma LittleEndianHalves(n: nat)
    ensures LittleEndian(n, 4) == LittleEndian(n, 2) + LittleEndian(n / 0x10000, 2)
  {
  }

  lemma ByteShift(v: nat)
    ensures Shr(v, 8) == v / 256 && Trunc(v, 8) == v % 256
  {
    ShrTrunc(v, 8);
    assert Pow2(8) == 256;
  }

  lemma NextByte(b: seq<byte>, bits: nat, n: nat)
    requires n >= 8
    ensures BytesBits(b) + BitsOf(bits, n) == BytesBits(b + [bits % 256]) + BitsOf(bits / 256, n - 8)
  {
    var c := bits % 256;
    assert (b + [c])[..|b|] == b;
    assert BytesBits(b + [c]) == BytesBits(b) + BitsOf(c, 8);
    ByteShift(bits);
    BitsOfTrunc(bits, 8, 8);
    BitsOfSplit(bits, 8, n - 8);
  }

  class BitSink {
    const bufSize: nat         // BUF_SIZE, the width of `unsigned`
    const unaligned: bool      // BB_UNALIGNED_MEMACCESS_OK && BB_LITTLE_ENDIAN
    const optimized32: bool    // OPTIMIZED_PUT_32BIT
    const outbuf: array<byte>  // OUTBUFSIZ bytes
    var outcnt: nat
    var biBuf: nat
    var biValid: nat
    var file: seq<byte>        // everything given to xwrite so far

    ghost predicate Valid()
      reads this
    {
      && bufSize in {16, 32}
      && outbuf.Length >= 8
      && outcnt < outbuf.Length
      && biValid < bufSize
      && biBuf < Pow2(biValid)
    }

    /** Every whole byte produced so far, flushed or not. */
    ghost function Bytes(): seq<byte>
      reads this, outbuf
    {
      file + if outcnt <= outbuf.Length then outbuf[..outcnt] else []
    }

    /** Every bit sent so far. */
    ghost function Sent(): seq<bool>
      reads this, outbuf
    {
      BytesBits(Bytes()) + BitsOf(biBuf, biValid)
    }

    constructor (bufSize: nat, unaligned: bool, optimized32: bool, outBufSize: nat)
      requires bufSize in {16, 32} && outBufSize >= 8
      ensures Valid() && fresh(outbuf)
      ensures Bytes() == [] && Sent() == [] && biValid == 0
    {
      this.bufSize, this.unaligned, this.optimized32 := bufSize, unaligned, optimized32;
      outbuf := new byte[outBufSize];
      outcnt, biBuf, biValid := 0, 0, 0;
      file := [];
    }

    method FlushOutbuf()
      requires outcnt <= outbuf.Length
      modifies this`file, this`outcnt
      ensures outcnt == 0 && Bytes() == old(Bytes())
    {
      if outcnt == 0 { return; }
      file := file + outbuf[..outcnt];
      outcnt := 0;
    }

    method Put8(c: byte)
      requires Valid()
      modifies this`file, this`outcnt, outbuf
      ensures Valid() && Bytes() == old(Bytes()) + [c]
    {
      outbuf[outcnt] := c;
      outcnt := outcnt + 1;
      assert Bytes() == old(Bytes()) + [c];
      if outcnt == outbuf.Length { FlushOutbuf(); }
    }

    /** Adds the two bytes of `w` to the output, the low one in front. */
    method Put16(w: nat)
      requires Valid()
      modifies this`file, this`outcnt, outbuf
      ensures Valid() && Bytes() == old(Bytes()) + LittleEndian(w, 2)
    {
      var lo, hi := w % 256, w / 256 % 256;
      assert LittleEndian(w, 2) == [lo, hi];
      ghost var was := Bytes();
      if unaligned {
        if outcnt < outbuf.Length - 2 {
          outbuf[outcnt], outbuf[outcnt + 1] := lo, hi;
          outcnt := outcnt + 2;
          assert Bytes() == was + [lo, hi];
          return;
        }
        outbuf[outcnt] := lo;
      } else {
        outbuf[outcnt] := lo;
        if outcnt < outbuf.Length - 2 {
          outbuf[outcnt + 1] := hi;
          outcnt := outcnt + 2;
          assert Bytes() == was + [lo, hi];
          return;
        }
      }
      outcnt := outcnt + 1;
      assert Bytes() == was + [lo];
      if outcnt == outbuf.Length { FlushOutbuf(); }
      Put8(hi);
      assert Bytes() == was + [lo, hi];
    }

    method Put32(n: nat)
      requires Valid()
      modifies this`file, this`outcnt, outbuf
      ensures Valid() && Bytes() == old(Bytes()) + LittleEndian(n, 4)
    {
      hide LittleEndian;
      if optimized32 && outcnt < outbuf.Length - 4 {
        var b := LittleEndian(n, 4);
        outbuf[outcnt], outbuf[outcnt + 1], outbuf[outcnt + 2], outbuf[outcnt + 3] := b[0], b[1], b[2], b[3];
        outcnt := outcnt + 4;
        assert outbuf[..outcnt] == old(outbuf[..outcnt]) + b;
        return;
      }
      LittleEndianHalves(n);
      Put16(n);
      Put16(n / 0x10000);
    }

    method FlushOutbufIf32BitOptimized()
      requires Valid()
      modifies this`file, this`outcnt
      ensures Valid() && Bytes() == old(Bytes())
    {
      if optimized32 && bufSize > 16 { FlushOutbuf(); }
    }

    /** Everything sent so far is followed by the low `length` bits of `value`, lowest first, and by nothing else. */
    method SendBits(value: nat, length: nat)
      requires Valid() && length <= 16 && value < Pow2(length)
      modifies this, outbuf
      ensures Valid() && Sent() == old(Sent()) + BitsOf(value, length)
    {
      hide BitsOf, BytesBits, Pow2, Merged, Shr, LittleEndian;
      var newBuf := Merged(biBuf, biValid, value, bufSize);
      var total := length + biValid;
      if total >= bufSize {
        MergedFull(Bytes(), biBuf, biValid, value, length, bufSize / 8);
        var rest := Shr(value, bufSize - biValid);
        if bufSize == 32 {
          Put32(newBuf);
        } else {
          Put16(newBuf);
        }
        newBuf := rest;
        total := total - bufSize;
      } else {
        MergedSmall(Bytes(), biBuf, biValid, value, length, bufSize);
      }
      biBuf := newBuf;
      biValid := total;
    }

    /** Afterwards a byte boundary is reached; the bits that were missing are zero. */
    method BiWindup()
      requires Valid()
      modifies this, outbuf
      ensures Valid() && biValid == 0
      ensures Sent() == BytesBits(Bytes())
      ensures Sent() == old(Sent()) + Zeros(Padding(old(biValid)))
    {
      hide BitsOf, BytesBits, Pow2;
      var bits := biBuf;
      var cnt: int := biValid;
      ghost var pad := Padding(biValid);
      ghost var padded := Sent() + Zeros(pad);
      ghost var left: nat := (cnt + pad) / 8;
      assert padded == BytesBits(Bytes()) + BitsOf(bits, 8 * left) by { PadBits(Bytes(), bits, cnt, pad); }
      while cnt > 0
        invariant Valid()
        invariant cnt + pad == 8 * left
        invariant padded == BytesBits(Bytes()) + BitsOf(bits, 8 * left)
      {
        ghost var was := Bytes();
        var c, rest := bits % 256, bits / 256;
        assert padded == BytesBits(was + [c]) + BitsOf(rest, 8 * (left - 1)) by { NextByte(was, bits, 8 * left); }
        Put8(c);
        bits := rest;
        cnt := cnt - 8;
        left := left - 1;
      }
      assert padded == BytesBits(Bytes()) + [] == BytesBits(Bytes());
      biBuf := 0;
      biValid := 0;
    }
  }

  /** How many zero bits reach the next byte boundary. */
  function Padding(n: nat): (r: nat)
    ensures r < 8 && (n + r) % 8 == 0
  {
    if n % 8 == 0 then 0 else 8 - n % 8
  }

  /** The bit buffer with `value` put above its `valid` bits, in an unsigned of `width` bits. */
  function Merged(buf: nat, valid: nat, value: nat, width: nat): nat {
    Or(buf, Trunc(value * Pow2(valid), width))
  }

  lemma MergedAdds(buf: nat, valid: nat, value: nat, width: nat)
    requires buf < Pow2(valid) && valid <= width
    ensures Merged(buf, valid, value, width) == buf + Trunc(value, width - valid) * Pow2(valid)
  {
    TruncShifted(value, valid, width);
    OrJoins(buf, valid, Trunc(value, width - valid));
  }

  /** When the buffer fills up, its whole width and what is left of the value are all the bits. */
  lemma MergedFull(b: seq<byte>, buf: nat, valid: nat, value: nat, length: nat, bytes: nat)
    requires buf < Pow2(valid) && value < Pow2(length) && valid <= 8 * bytes <= length + valid
    ensures BytesBits(b + LittleEndian(Merged(buf, valid, value, 8 * bytes), bytes))
              + BitsOf(Shr(value, 8 * bytes - valid), length + valid - 8 * bytes)
         == BytesBits(b) + BitsOf(buf, valid) + BitsOf(value, length)
    ensures Shr(value, 8 * bytes - valid) < Pow2(length + valid - 8 * bytes)
  {
    hide BitsOf, BytesBits, Pow2, Merged, Shr, Trunc, LittleEndian;
    var width := 8 * bytes;
    var room := width - valid;
    var low, high := BitsOf(value, room), BitsOf(Shr(value, room), length - room);
    assert BitsOf(Merged(buf, valid, value, width), width) == BitsOf(buf, valid) + low by {
      MergedAdds(buf, valid, value, width);
      BitsOfJoin(buf, valid, Trunc(value, room), room);
      BitsOfTrunc(value, room, room);
    }
    assert BitsOf(value, length) == low + high by { BitsOfSplit(value, room, length - room); }
    ShrSmall(value, room, length - room);
    LittleEndianBits(b, Merged(buf, valid, value, width), bytes);
    assert BytesBits(b) + (BitsOf(buf, valid) + low) + high == BytesBits(b) + BitsOf(buf, valid) + (low + high);
  }

  lemma MergedSmall(b: seq<byte>, buf: nat, valid: nat, value: nat, length: nat, width: nat)
    requires buf < Pow2(valid) && value < Pow2(length) && length + valid <= width
    ensures BytesBits(b) + BitsOf(Merged(buf, valid, value, width), length + valid)
         == BytesBits(b) + BitsOf(buf, valid) + BitsOf(value, length)
    ensures Merged(buf, valid, value, width) < Pow2(length + valid)
  {
    MergedAdds(buf, valid, value, width);
    Pow2Monotone(length, width - valid);
    TruncSmall(value, width - valid);
    BitsOfJoin(buf, valid, value, length);
    JoinBound(buf, valid, value, length);
  }

  lemma PadBits(b: seq<byte>, bits: nat, cnt: nat, pad: nat)
    requires bits < Pow2(cnt)
    ensures BytesBits(b) + BitsOf(bits, cnt) + Zeros(pad) == BytesBits(b) + BitsOf(bits, cnt + pad)
  {
    BitsOfSplit(bits, cnt, pad);
    ShrSmall(bits, cnt, 0);
    BitsOfZero(pad);
  }

  lemma JoinBound(x: nat, n: nat, v: nat, m: nat)
    requires x < Pow2(n) && v < Pow2(m)
    ensures x + v * Pow2(n) < Pow2(m + n)
  {
    var p, q := Pow2(n), Pow2(m);
    assert Pow2(m + n) == q * p by { Pow2Add(m, n); }
    MulMonotone(v + 1, q, p);
    assert (v + 1) * p == v * p + p;
  }
}
