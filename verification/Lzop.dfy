/** lzop's block framing: what lzo_compress writes, lzo_decompress reads back. */
module Lzops {
  import opened Bits
  import opened Adlers

  const LZO_BLOCK_SIZE := 0x40000
  const MAX_BLOCK_SIZE := 0x400_0000
  const ADLER32_INIT_VALUE := 1
  const CRC32_INIT_VALUE := 0

  // ---------- 32-bit words, most significant byte first ----------

  function Be32(v: nat): (r: seq<byte>)
    ensures |r| == 4
  {
    [v / 0x100_0000 % 256, v / 0x1_0000 % 256, v / 0x100 % 256, v % 256]
  }

  function WordAt(s: seq<byte>, p: nat): int
    requires p + 4 <= |s|
  {
    var a: int, b: int, c: int, d: int := s[p], s[p + 1], s[p + 2], s[p + 3];
    ((a * 256 + b) * 256 + c) * 256 + d
  }

  ghost predicate At(s: seq<byte>, p: nat, x: seq<byte>) {
    p + |x| <= |s| && s[p..p + |x|] == x
  }

  lemma AtSplit(s: seq<byte>, p: nat, x: seq<byte>, y: seq<byte>)
    requires At(s, p, x + y)
    ensures At(s, p, x) && At(s, p + |x|, y)
  {
    var t := s[p..p + |x + y|];
    assert s[p..p + |x|] == t[..|x|] == x;
    assert s[p + |x|..p + |x| + |y|] == t[|x|..] == y;
  }

  lemma WordBack(s: seq<byte>, p: nat, v: nat)
    requires At(s, p, Be32(v)) && v < 0x1_0000_0000
    ensures p + 4 <= |s| && WordAt(s, p) == v
  {
    var w := s[p..p + 4];
    assert w[0] == s[p] && w[1] == s[p + 1] && w[2] == s[p + 2] && w[3] == s[p + 3];
    Digits(v);
  }

  lemma Digits(v: nat)
    requires v < 0x1_0000_0000
    ensures ((v / 0x100_0000 % 256 * 256 + v / 0x1_0000 % 256) * 256 + v / 0x100 % 256) * 256 + v % 256 == v
  {
  }

  // ---------- The parts a block depends on ----------

  /** Which checksums the header asks for. */
  datatype Flags = Flags(adlerD: bool, adlerC: bool, crcD: bool, crcC: bool)

  /** The LZO codec and CRC-32 are not part of this model. */
  datatype Env = Env(flags: Flags, compress: seq<byte> -> seq<byte>, decompress: (seq<byte>, nat) -> Option<seq<byte>>,
                     crc32: (nat, seq<byte>) -> nat)
  {
    function Crc(b: seq<byte>): nat { crc32(CRC32_INIT_VALUE, b) }

    /** Decompressing undoes compressing, nothing is compressed to nothing, and checksums are 32 bits wide. */
    ghost predicate Valid() {
      && (forall b :: decompress(compress(b), |b|) == Some(b))
      && (forall b :: b != [] ==> compress(b) != [])
      && (forall c, b :: crc32(c, b) < 0x1_0000_0000)
    }
  }

  function AdlerOf(b: seq<byte>): nat { Adler(ADLER32_INIT_VALUE, b) }

  lemma AdlerFits(b: seq<byte>)
    ensures AdlerOf(b) < 0x1_0000_0000
  {
    AddAllReduced(Halves(1), b);
  }

  function WordIf(cond: bool, v: nat): seq<byte> { if cond then Be32(v) else [] }

  // ---------- Writing ----------

  /** A block that shrinks is sent compressed, any other as it is. */
  function FrameOf(env: Env, b: seq<byte>): seq<byte> {
    var c := env.compress(b);
    var f := env.flags;
    if |c| < |b| then
      Be32(|b|) + (Be32(|c|) + (WordIf(f.adlerD, AdlerOf(b)) + (WordIf(f.crcD, env.Crc(b))
        + (WordIf(f.adlerC, AdlerOf(c)) + (WordIf(f.crcC, env.Crc(c)) + c)))))
    else
      Be32(|b|) + (Be32(|b|) + (WordIf(f.adlerD, AdlerOf(b)) + (WordIf(f.crcD, env.Crc(b)) + b)))
  }

  function BlockLength(data: seq<byte>): (n: nat)
    ensures n <= |data| && (data != [] ==> n > 0) && n <= LZO_BLOCK_SIZE
  {
    if |data| < LZO_BLOCK_SIZE then |data| else LZO_BLOCK_SIZE
  }

  function Framed(env: Env, data: seq<byte>): seq<byte> {
    if data == [] then Be32(0)
    else
      var n := BlockLength(data);
      FrameOf(env, data[..n]) + Framed(env, data[n..])
  }

  // ---------- Reading ----------

  datatype Read = End(pos: nat) | Block(out: seq<byte>, pos: nat) | Bad

  /** A checksum word, if there is one: whether it is there and is right. */
  function Checked(s: seq<byte>, p: nat, cond: bool, force: bool, want: nat): bool {
    cond ==> p + 4 <= |s| && (force || WordAt(s, p) == want)
  }

  function Skip(cond: bool): nat { if cond then 4 else 0 }

  /** One block from `p` on. */
  function ReadBlock(env: Env, force: bool, s: seq<byte>, p: nat): (r: Read)
    ensures r.Block? ==> p < r.pos <= |s|
    ensures r.End? ==> p < r.pos <= |s|
  {
    if p + 4 > |s| then Bad
    else
      var dst := WordAt(s, p);
      if dst == 0 then End(p + 4)
      else if dst > MAX_BLOCK_SIZE || p + 8 > |s| then Bad
      else
        var src := WordAt(s, p + 4);
        if src <= 0 || src > dst then Bad
        else ReadBody(env, force, s, p + 8, dst, src)
  }

  function ReadBody(env: Env, force: bool, s: seq<byte>, p: nat, dst: nat, src: nat): (r: Read)
    requires 0 < src <= dst
    ensures r.Block? ==> p < r.pos <= |s|
    ensures !r.End?
  {
    var f := env.flags;
    var small := src < dst;
    var p1 := p + Skip(f.adlerD);
    var p2 := p1 + Skip(f.crcD);
    var p3 := p2 + Skip(small && f.adlerC);
    var p4 := p3 + Skip(small && f.crcC);
    if p4 + src > |s| then Bad
    else
      var c := s[p4..p4 + src];
      if small && !(Checked(s, p2, f.adlerC, force, AdlerOf(c)) && Checked(s, p3, f.crcC, force, env.Crc(c))) then Bad
      else
        match (if small then env.decompress(c, dst) else Some(c))
        case None => Bad
        case Some(out) =>
          if |out| != dst then Bad
          else if !(Checked(s, p, f.adlerD, force, AdlerOf(out)) && Checked(s, p1, f.crcD, force, env.Crc(out))) then Bad
          else Block(out, p4 + src)
  }

  /** All blocks, and where the data after them begins. */
  function Unframed(env: Env, force: bool, s: seq<byte>, p: nat): Option<(seq<byte>, nat)>
    decreases |s| - p
  {
    match ReadBlock(env, force, s, p)
    case Bad => None
    case End(q) => Some(([], q))
    case Block(out, q) =>
      match Unframed(env, force, s, q)
      case None => None
      case Some((rest, e)) => Some((out + rest, e))
  }

  // ---------- Round trip ----------

  lemma WordIfBack(s: seq<byte>, p: nat, cond: bool, v: nat, force: bool)
    requires At(s, p, WordIf(cond, v)) && v < 0x1_0000_0000
    ensures Checked(s, p, cond, force, v) && |WordIf(cond, v)| == Skip(cond)
  {
    hide Be32;
    if cond { WordBack(s, p, v); }
  }

  lemma CodecAt(env: Env, b: seq<byte>)
    requires env.Valid()
    ensures env.decompress(env.compress(b), |b|) == Some(b) && (b != [] ==> env.compress(b) != []) && env.Crc(b) < 0x1_0000_0000
  {
  }

  lemma AtIs(s: seq<byte>, p: nat, x: seq<byte>)
    requires At(s, p, x)
    ensures p + |x| <= |s| && s[p..p + |x|] == x
  {
  }

  /** The words and the payload `c` of a block for `b`, from `p` on. */
  ghost predicate BodyAt(env: Env, s: seq<byte>, p: nat, b: seq<byte>, c: seq<byte>) {
    var f := env.flags;
    var small := |c| < |b|;
    var p1 := p + Skip(f.adlerD);
    var p2 := p1 + Skip(f.crcD);
    var p3 := p2 + Skip(small && f.adlerC);
    var p4 := p3 + Skip(small && f.crcC);
    && Checked(s, p, f.adlerD, false, AdlerOf(b)) && Checked(s, p1, f.crcD, false, env.Crc(b))
    && (small ==> Checked(s, p2, f.adlerC, false, AdlerOf(c)) && Checked(s, p3, f.crcC, false, env.Crc(c)))
    && At(s, p4, c)
  }

  function BodyEnd(env: Env, p: nat, small: bool, n: nat): nat {
    var f := env.flags;
    p + Skip(f.adlerD) + Skip(f.crcD) + Skip(small && f.adlerC) + Skip(small && f.crcC) + n
  }

  lemma BodyReads(env: Env, force: bool, s: seq<byte>, p: nat, b: seq<byte>, c: seq<byte>)
    requires 0 < |c| <= |b| && BodyAt(env, s, p, b, c)
    requires if |c| < |b| then env.decompress(c, |b|) == Some(b) else b == c
    ensures ReadBody(env, force, s, p, |b|, |c|) == Block(b, BodyEnd(env, p, |c| < |b|, |c|))
  {
    hide AdlerOf, WordAt;
    AtIs(s, BodyEnd(env, p, |c| < |b|, 0), c);
  }

  lemma HeadReads(env: Env, force: bool, s: seq<byte>, p: nat, dst: nat, src: nat)
    requires 0 < src <= dst <= MAX_BLOCK_SIZE && At(s, p, Be32(dst)) && At(s, p + 4, Be32(src))
    ensures ReadBlock(env, force, s, p) == ReadBody(env, force, s, p + 8, dst, src)
  {
    hide Be32, WordAt, ReadBody, At;
    WordBack(s, p, dst);
    WordBack(s, p + 4, src);
  }

  lemma StoredBack(env: Env, force: bool, s: seq<byte>, p: nat, b: seq<byte>)
    requires env.Valid() && 0 < |b| <= LZO_BLOCK_SIZE && |env.compress(b)| >= |b| && At(s, p, FrameOf(env, b))
    ensures ReadBlock(env, force, s, p) == Block(b, p + |FrameOf(env, b)|)
  {
    hide Be32, WordAt, Checked, AdlerOf, At, WordIf, ReadBlock, ReadBody, Env.Valid;
    CodecAt(env, b);
    CodecAt(env, env.compress(b));
    var f := env.flags;
    var a, c := WordIf(f.adlerD, AdlerOf(b)), WordIf(f.crcD, env.Crc(b));
    AdlerFits(b);
    AtSplit(s, p, Be32(|b|), Be32(|b|) + (a + (c + b)));
    AtSplit(s, p + 4, Be32(|b|), a + (c + b));
    AtSplit(s, p + 8, a, c + b);
    AtSplit(s, p + 8 + |a|, c, b);
    HeadReads(env, force, s, p, |b|, |b|);
    WordIfBack(s, p + 8, f.adlerD, AdlerOf(b), false);
    WordIfBack(s, p + 8 + |a|, f.crcD, env.Crc(b), false);
    BodyReads(env, force, s, p + 8, b, b);
  }

  lemma ShrunkBack(env: Env, force: bool, s: seq<byte>, p: nat, b: seq<byte>)
    requires env.Valid() && 0 < |b| <= LZO_BLOCK_SIZE && |env.compress(b)| < |b| && At(s, p, FrameOf(env, b))
    ensures ReadBlock(env, force, s, p) == Block(b, p + |FrameOf(env, b)|)
  {
    hide Be32, WordAt, Checked, AdlerOf, At, WordIf, ReadBlock, ReadBody, Env.Valid;
    CodecAt(env, b);
    CodecAt(env, env.compress(b));
    var f, z := env.flags, env.compress(b);
    var a, c := WordIf(f.adlerD, AdlerOf(b)), WordIf(f.crcD, env.Crc(b));
    var d, e := WordIf(f.adlerC, AdlerOf(z)), WordIf(f.crcC, env.Crc(z));
    AdlerFits(b);
    AdlerFits(z);
    AtSplit(s, p, Be32(|b|), Be32(|z|) + (a + (c + (d + (e + z)))));
    AtSplit(s, p + 4, Be32(|z|), a + (c + (d + (e + z))));
    AtSplit(s, p + 8, a, c + (d + (e + z)));
    AtSplit(s, p + 8 + |a|, c, d + (e + z));
    AtSplit(s, p + 8 + |a| + |c|, d, e + z);
    AtSplit(s, p + 8 + |a| + |c| + |d|, e, z);
    HeadReads(env, force, s, p, |b|, |z|);
    WordIfBack(s, p + 8, f.adlerD, AdlerOf(b), false);
    WordIfBack(s, p + 8 + |a|, f.crcD, env.Crc(b), false);
    WordIfBack(s, p + 8 + |a| + |c|, f.adlerC, AdlerOf(z), false);
    WordIfBack(s, p + 8 + |a| + |c| + |d|, f.crcC, env.Crc(z), false);
    BodyReads(env, force, s, p + 8, b, z);
  }

  /** What lzo_compress framed is read back, wherever it stands and whatever follows. */
  lemma {:induction false} FramedBack(env: Env, force: bool, s: seq<byte>, p: nat, data: seq<byte>)
    requires env.Valid() && At(s, p, Framed(env, data))
    ensures Unframed(env, force, s, p) == Some((data, p + |Framed(env, data)|))
    decreases |data|
  {
    hide ReadBlock, FrameOf, At, Be32, Env.Valid;
    if data == [] {
      EndBack(env, force, s, p);
    } else {
      var n := BlockLength(data);
      var b := data[..n];
      AtSplit(s, p, FrameOf(env, b), Framed(env, data[n..]));
      if |env.compress(b)| < |b| {
        ShrunkBack(env, force, s, p, b);
      } else {
        StoredBack(env, force, s, p, b);
      }
      FramedBack(env, force, s, p + |FrameOf(env, b)|, data[n..]);
      assert b + data[n..] == data;
    }
  }

  lemma EndBack(env: Env, force: bool, s: seq<byte>, p: nat)
    requires At(s, p, Be32(0))
    ensures ReadBlock(env, force, s, p) == End(p + 4)
  {
    WordBack(s, p, 0);
  }
}
