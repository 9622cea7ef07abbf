/** copy_block: a block stored as it is, and how a decoder reads it. */
module StoredBlocks {
  import opened Bits
  import opened Inflate
  import opened BitSinks
  import opened SendTrees

  /** The two length words and the bytes. */
  ghost function StoredBits(buf: seq<byte>): seq<bool>
    requires |buf| <= 0xffff
  {
    BitsOf(|buf|, 16) + (BitsOf(0xffff - |buf|, 16) + BytesBits(buf))
  }

  lemma {:induction false} ReadsBytes(s: seq<bool>, p: nat, buf: seq<byte>)
    requires At(s, p, BytesBits(buf))
    ensures p + 8 * |buf| <= |s| && ReadBytes(s, p, |buf|) == buf
  {
    hide NatOf, BitsOf;
    if buf != [] {
      var n := |buf|;
      AtSplit(s, p, BytesBits(buf[..n - 1]), BitsOf(buf[n - 1], 8));
      ReadsBytes(s, p, buf[..n - 1]);
      ByteFits();
      ReadsBack(s, p + 8 * (n - 1), buf[n - 1], 8);
      ReadsOneMore(s, p, n);
      assert buf == buf[..n - 1] + [buf[n - 1]];
    }
  }

  lemma ReadsOneMore(s: seq<bool>, p: nat, n: nat)
    requires n > 0 && p + 8 * n <= |s| && NatOf(s[p + 8 * (n - 1)..p + 8 * (n - 1) + 8]) < 256
    ensures ReadBytes(s, p, n) == ReadBytes(s, p, n - 1) + [NatOf(s[p + 8 * (n - 1)..p + 8 * (n - 1) + 8])]
  {
    hide NatOf;
    assert p + 8 * (n - 1) + 8 == p + 8 * n;
  }

  lemma ByteFits()
    ensures Pow2(8) == 256
  {
  }

  lemma WordFits()
    ensures Pow2(16) == 0x10000
  {
    assert Pow2(8) == 256;
    Pow2Add(8, 8);
  }

  /** A decoder reads a stored block as its bytes. */
  lemma StoredDecodes(s: seq<bool>, p: nat, pad: nat, buf: seq<byte>, out: seq<byte>)
    requires |buf| <= 0xffff && pad < 8 && (p + pad) % 8 == 0 && At(s, p + pad, StoredBits(buf))
    ensures DecodeStored(s, p, out) == Some((p + pad + |StoredBits(buf)|, out + buf))
  {
    hide NatOf, BitsOf, At, ReadBytes, BytesBits, Pow2;
    var q, n := p + pad, |buf|;
    assert Align(p) == q;
    AtSplit(s, q, BitsOf(n, 16), BitsOf(0xffff - n, 16) + BytesBits(buf));
    AtSplit(s, q + 16, BitsOf(0xffff - n, 16), BytesBits(buf));
    WordFits();
    ReadsBack(s, q, n, 16);
    ReadsBack(s, q + 16, 0xffff - n, 16);
    ReadsBytes(s, q + 32, buf);
  }

  /** Both length words together, as one 32-bit number. */
  lemma LengthWord(n: nat)
    requires n <= 0xffff
    ensures Or(n % 0x10000, (0xffff_ffff - n) * 0x10000 % 0x1_0000_0000) == n + (0xffff - n) * 0x10000
    ensures BitsOf(n + (0xffff - n) * 0x10000, 32) == BitsOf(n, 16) + BitsOf(0xffff - n, 16)
  {
    hide BitsOf, Pow2, Or;
    WordFits();
    OrJoins(n, 16, 0xffff - n);
    BitsOfJoin(n, 16, 0xffff - n, 16);
  }

  method PutBytes(sink: BitSink, buf: seq<byte>)
    requires sink.Valid()
    modifies sink`outcnt, sink`file, sink.outbuf
    ensures sink.Valid() && sink.Bytes() == old(sink.Bytes()) + buf
  {
    hide Pow2, BitSink.Bytes;
    ghost var b1 := sink.Bytes();
    for i := 0 to |buf|
      invariant sink.Valid() && sink.Bytes() == b1 + buf[..i]
    {
      sink.Put8(buf[i]);
      assert buf[..i] + [buf[i]] == buf[..i + 1];
    }
    assert buf[..|buf|] == buf;
  }

  /** From a byte boundary on: the 16-bit length, what complements it to 0xffff, and the bytes unchanged. */
  method CopyBlock(sink: BitSink, buf: seq<byte>)
    requires sink.Valid() && |buf| <= 0xffff
    modifies sink, sink.outbuf
    ensures sink.Valid() && sink.Sent() == old(sink.Sent()) + Zeros(Padding(old(sink.biValid))) + StoredBits(buf)
  {
    hide BytesBits, Or, LittleEndian, Padding, Zeros, BitSink.Bytes;
    sink.BiWindup();
    ghost var start, b0 := sink.Sent(), sink.Bytes();
    var len := |buf|;
    LengthWord(len);
    var v := Or(len % 0x10000, (0xffff_ffff - len) * 0x10000 % 0x1_0000_0000);
    sink.Put32(v);
    LittleEndianBits(b0, v, 4);
    ghost var b1 := sink.Bytes();
    PutBytes(sink, buf);
    BytesBitsAppend(b1, buf);
    if sink.outcnt % 4 != 0 {
      sink.FlushOutbufIf32BitOptimized();
    }
    StoredJoin(start, buf, sink.biBuf);
  }

  lemma StoredJoin(start: seq<bool>, buf: seq<byte>, v: nat)
    requires |buf| <= 0xffff
    ensures start + (BitsOf(|buf|, 16) + BitsOf(0xffff - |buf|, 16)) + BytesBits(buf) + BitsOf(v, 0) == start + StoredBits(buf)
  {
    hide BytesBits;
  }
}
