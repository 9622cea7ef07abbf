/** zip(): a gzip member, and that reading it back by RFC 1952 gives the input. */
module Gzip {
  import opened Bits
  import opened Inflate
  import opened BitSinks
  import opened StoredBlocks
  import opened HashChains
  import opened Windows
  import opened Tokens
  import opened BlockWriters
  import opened Deflating

  // ---------- RFC 1952 ----------

  function LittleWord(b: seq<byte>, i: nat): int
    requires i + 4 <= |b|
  {
    Word(b[i], b[i + 1], b[i + 2], b[i + 3])
  }

  function Word(a: int, b: int, c: int, d: int): int {
    a + 256 * (b + 256 * (c + 256 * d))
  }

  /** Section 2.3 of RFC 1952: one member without optional fields, its checksum and its size verified. */
  function Gunzip(crcStep: (nat, byte) -> nat, file: seq<byte>): Option<seq<byte>> {
    if |file| < 18 || file[0] != 0x1f || file[1] != 0x8b || file[2] != 8 || file[3] != 0 then None
    else match Decode(BytesBits(file), 80, [])
         case None => None
         case Some((q, out)) =>
           var end := Align(q) / 8;
           if end + 8 != |file| then None
           else if LittleWord(file, end) != 0xffff_ffff - Fold(crcStep, 0xffff_ffff, out) then None
           else if LittleWord(file, end + 4) != |out| % 0x1_0000_0000 then None
           else Some(out)
  }

  lemma WordBack(a: seq<byte>, v: nat, c: seq<byte>)
    ensures LittleWord(a + LittleEndian(v, 4) + c, |a|) == v % 0x1_0000_0000
  {
    var f := a + LittleEndian(v, 4) + c;
    var w := LittleEndian(v, 4);
    assert f[|a|] == w[0] && f[|a| + 1] == w[1] && f[|a| + 2] == w[2] && f[|a| + 3] == w[3];
    WordDigits(v);
  }

  lemma WordDigits(v: nat)
    ensures var w := LittleEndian(v, 4); Word(w[0], w[1], w[2], w[3]) == v % 0x1_0000_0000
  {
    assert LittleEndian(v, 4) == [v % 256] + LittleEndian(v / 256, 3);
    assert LittleEndian(v / 256, 3) == [v / 256 % 256] + LittleEndian(v / 256 / 256, 2);
    assert LittleEndian(v / 256 / 256, 2) == [v / 256 / 256 % 256] + LittleEndian(v / 256 / 256 / 256, 1);
    assert LittleEndian(v / 256 / 256 / 256, 1) == [v / 256 / 256 / 256 % 256] + LittleEndian(v / 256 / 256 / 256 / 256, 0);
  }

  /** Equal bits come from equal bytes. */
  lemma SameBytes(a: seq<byte>, b: seq<byte>)
    requires BytesBits(a) <= BytesBits(b)
    ensures a <= b
  {
    hide BytesBits;
    var n, s := |a|, BytesBits(b);
    assert n <= |b|;
    assert b == b[..n] + b[n..];
    BytesBitsAppend(b[..n], b[n..]);
    ReadsBytes(s, 0, a);
    ReadsBytes(s, 0, b[..n]);
  }

  /** Everything zip() writes around the compressed data fits RFC 1952. */
  lemma MemberReadsBack(crcStep: (nat, byte) -> nat, head: seq<byte>, body: seq<byte>, crc: nat, out: seq<byte>, q: nat)
    requires HeaderAt(head)
    requires Complete(BytesBits(body), BytesBits(head), out, q) && crc == Fold(crcStep, 0xffff_ffff, out) <= 0xffff_ffff
    ensures Gunzip(crcStep, body + LittleEndian(0xffff_ffff - crc, 4) + LittleEndian(|out|, 4)) == Some(out)
  {
    hide BytesBits, Decode, Fold, LittleEndian, LittleWord;
    var tail := LittleEndian(0xffff_ffff - crc, 4) + LittleEndian(|out|, 4);
    var file := body + LittleEndian(0xffff_ffff - crc, 4) + LittleEndian(|out|, 4);
    assert file == body + tail;
    BytesBitsAppend(body, tail);
    SameBytes(head, body);
    assert body[..10] == head && file[..4] == body[..4] == head[..4];
    assert file[0] == file[..4][0] && file[1] == file[..4][1] && file[2] == file[..4][2] && file[3] == file[..4][3];
    AlignsTo(q, |body|);
    WordBack(body, 0xffff_ffff - crc, LittleEndian(|out|, 4));
    WordBack(body + LittleEndian(0xffff_ffff - crc, 4), |out|, []);
    assert body + LittleEndian(0xffff_ffff - crc, 4) + LittleEndian(|out|, 4) + [] == file;
  }

  lemma AlignsTo(q: nat, n: nat)
    requires q <= 8 * n < q + 8
    ensures Align(q) / 8 == n
  {
  }

  // ---------- zip() ----------

  const HEADER: seq<byte> := [0x1f, 0x8b, 8, 0, 0, 0, 0, 0]

  lemma HeaderBytes()
    ensures LittleEndian(0x00088b1f, 4) + LittleEndian(0, 4) == HEADER
  {
    assert LittleEndian(0x00088b1f, 4) == [0x1f, 0x8b, 8, 0];
    assert LittleEndian(0, 4) == [0, 0, 0, 0];
  }

  /** The build-time parameters of gzip. */
  datatype Config = Config(bufSize: nat, unaligned: bool, optimized32: bool, outBufSize: nat, hashBits: nat, litBufSize: nat,
                           distBufSize: nat)
  {
    predicate Valid() {
      && bufSize in {16, 32} && outBufSize >= 8 && 13 <= hashBits <= 15
      && 8 <= litBufSize <= 0x8000 && litBufSize % 8 == 0 && 1 <= distBufSize
    }
  }

  lemma WholeBytes(sink: BitSink)
    requires sink.biValid == 0
    ensures sink.Sent() == BytesBits(sink.Bytes())
  {
    hide BytesBits, BitSink.Bytes;
    assert BitsOf(sink.biBuf, 0) == [];
  }

  ghost predicate HeaderAt(head: seq<byte>) {
    |head| == 10 && head[..4] == [0x1f, 0x8b, 8, 0]
  }

  /** A new output with the magic number, the method, no flags and no time stamp. */
  method WriteMagic(config: Config) returns (sink: BitSink)
    requires config.Valid()
    ensures fresh(sink) && fresh(sink.outbuf) && sink.Valid() && sink.biValid == 0 && sink.Bytes() == HEADER
  {
    hide BytesBits, LittleEndian;
    sink := new BitSink(config.bufSize, config.unaligned, config.optimized32, config.outBufSize);
    sink.Put32(0x00088b1f);
    sink.Put32(0);
    HeaderBytes();
  }

  /** The extra flags and the operating system. */
  method WriteFlags(e: Encoder, slowFlag: bool)
    requires e.Valid() && e.sink.biValid == 0 && e.sink.Bytes() == HEADER
    modifies e.sink`file, e.sink`outcnt, e.sink.outbuf
    ensures e.Valid() && HeaderAt(e.sink.Bytes()) && e.Sent() == BytesBits(e.sink.Bytes())
  {
    hide BytesBits, LittleEndian, BitSink.Bytes;
    e.sink.Put16(if slowFlag then 0x302 else 0x300);
    e.sink.FlushOutbufIf32BitOptimized();
    WholeBytes(e.sink);
  }

  /** The window as lm_init leaves it. */
  ghost predicate Loaded(w: Window)
    reads w, w.src, w.window, w.prev, w.head
  {
    && w.Shape() && w.Filled() && w.Counted() && w.EndRoom() && (w.eofile && !w.src.failed ==> w.src.pos == |w.src.data|)
    && w.base == 0 && w.strstart == 0 && w.blockStart == 0
    && (w.lookahead > 0 ==> w.Hashed(0)) && (w.lookahead >= MIN_LOOKAHEAD || w.eofile)
  }

  method LoadWindow(src: Source, hashBits: nat, crcStep: (nat, byte) -> nat) returns (w: Window)
    requires src.Valid() && src.pos == 0 && 13 <= hashBits <= 15
    modifies src
    ensures Loaded(w) && w.src == src && w.crcStep == crcStep && fresh(w) && fresh(w.window) && fresh(w.prev) && fresh(w.head)
  {
    hide Fold, Chains, Rolled;
    w := new Window(src, hashBits, crcStep);
    w.LmInit();
  }

  /** The compressed data. */
  method WriteBody(e: Encoder, w: Window, level: Level) returns (ghost q: nat)
    requires e.Valid() && e.Tokens() == [] && e.b.Room() && Loaded(w) && level.maxChainLength >= 4
    requires {w, w.src, w.window, w.prev, w.head} !! e.repr
    modifies e.repr, w, w.src, w.window, w.prev, w.head
    ensures e.Valid() && e.sink.biValid == 0 && w.Counted() && (!w.src.failed ==> w.src.pos == |w.src.data|)
    ensures Complete(e.Sent(), old(e.Sent()), w.src.data[..w.src.pos], q)
  {
    hide Encoder.Valid, Complete, Encoder.Sent, Encoder.Tokens, Window.Hashed, Window.Filled, Window.Counted;
    var d := new Deflater(w, e, level, e.Sent());
    NothingYet(e.Sent(), w.src.data);
    q := d.Deflate();
  }

  lemma NothingYet(sent: seq<bool>, data: seq<byte>)
    ensures data[..0] == [] && Expands(data[..0], [], data[..0]) && Progress(sent, sent, data, 0) && Admissible([])
  {
  }

  /** The crc and the uncompressed size. */
  method WriteTrailer(sink: BitSink, crc: nat, isize: nat) returns (file: seq<byte>)
    requires sink.Valid() && crc <= 0xffff_ffff
    modifies sink`file, sink`outcnt, sink.outbuf
    ensures file == old(sink.Bytes()) + LittleEndian(0xffff_ffff - crc, 4) + LittleEndian(isize, 4)
  {
    hide LittleEndian;
    sink.Put32(0xffff_ffff - crc);
    sink.Put32(isize);
    sink.FlushOutbuf();
    file := sink.file;
  }

  lemma FoldBound(step: (nat, byte) -> nat, data: seq<byte>)
    ensures Fold(step, 0xffff_ffff, data) <= 0xffff_ffff
  {
  }

  /** Deflate in to out: reading the result back gives what was read from the input. */
  method Zip(src: Source, config: Config, level: Level, slowFlag: bool, crcStep: (nat, byte) -> nat) returns (file: seq<byte>)
    requires src.Valid() && src.pos == 0 && config.Valid() && level.maxChainLength >= 4
    modifies src
    ensures src.Valid() && Gunzip(crcStep, file) == Some(src.data[..src.pos])
    ensures !src.failed ==> Gunzip(crcStep, file) == Some(src.data)
  {
    hide BytesBits, LittleEndian, Fold, Gunzip, Encoder.Valid, Complete, BitSink.Bytes, Encoder.Sent, HeaderAt, Loaded;
    var sink := WriteMagic(config);
    var e := new Encoder(sink, config.litBufSize, config.distBufSize);
    var w := LoadWindow(src, config.hashBits, crcStep);
    WriteFlags(e, slowFlag);
    ghost var head := sink.Bytes();
    ghost var q := WriteBody(e, w, level);
    ghost var body := sink.Bytes();
    EndsWhole(e);
    FoldBound(crcStep, src.data[..src.pos]);
    file := WriteTrailer(sink, w.crc, w.isize);
    MemberReadsBack(crcStep, head, body, w.crc, src.data[..src.pos], q);
    assert src.data[..|src.data|] == src.data;
  }

  lemma EndsWhole(e: Encoder)
    requires e.Valid() && e.sink.biValid == 0
    ensures e.sink.Valid() && e.Sent() == BytesBits(e.sink.Bytes())
  {
    WholeBytes(e.sink);
  }
}
