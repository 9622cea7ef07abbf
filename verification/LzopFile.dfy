/** lzop files: the loops of lzo_compress and lzo_decompress, and the header around them. */
module LzopFiles {
  import opened Bits
  import opened Adlers
  import opened Lzops

  // ---------- lzo_compress ----------

  lemma InitReduced()
    ensures Reduced(ADLER32_INIT_VALUE)
  {
  }

  method AdlerSum(b: seq<byte>) returns (v: nat)
    ensures v == AdlerOf(b)
  {
    InitReduced();
    v := LzoAdler32(ADLER32_INIT_VALUE, Some(b));
  }

  /** One block: its two lengths, the checksums asked for, and the shorter of both forms. */
  method CompressBlock(env: Env, b1: seq<byte>) returns (frame: seq<byte>)
    ensures frame == FrameOf(env, b1)
  {
    hide Be32, AdlerOf;
    var words := Be32(|b1|);
    var b2 := env.compress(b1);
    if |b2| < |b1| {
      words := words + Be32(|b2|);
    } else {
      words := words + Be32(|b1|);
    }
    if env.flags.adlerD {
      var v := AdlerSum(b1);
      words := words + Be32(v);
    }
    if env.flags.crcD {
      words := words + Be32(env.Crc(b1));
    }
    if |b2| < |b1| {
      if env.flags.adlerC {
        var v := AdlerSum(b2);
        words := words + Be32(v);
      }
      if env.flags.crcC {
        words := words + Be32(env.Crc(b2));
      }
      frame := words + b2;
    } else {
      frame := words + b1;
    }
    FrameJoin(env, b1, words, frame);
  }

  lemma FrameJoin(env: Env, b: seq<byte>, words: seq<byte>, frame: seq<byte>)
    requires var f, c := env.flags, env.compress(b);
             var small := |c| < |b|;
             && words == Be32(|b|) + Be32(if small then |c| else |b|) + WordIf(f.adlerD, AdlerOf(b)) + WordIf(f.crcD, env.Crc(b))
                         + WordIf(small && f.adlerC, AdlerOf(c)) + WordIf(small && f.crcC, env.Crc(c))
             && frame == words + if small then c else b
    ensures frame == FrameOf(env, b)
  {
    hide Be32, AdlerOf;
  }

  method LzoCompress(env: Env, data: seq<byte>) returns (out: seq<byte>)
    ensures out == Framed(env, data)
  {
    hide FrameOf, Be32;
    out := [];
    var pos := 0;
    assert data[0..] == data;
    while true
      invariant 0 <= pos <= |data| && out + Framed(env, data[pos..]) == Framed(env, data)
      decreases |data| - pos
    {
      var left := data[pos..];
      var srcLen := BlockLength(left);
      if srcLen == 0 {
        out := out + Be32(0);
        break;
      }
      var frame := CompressBlock(env, left[..srcLen]);
      assert left[srcLen..] == data[pos + srcLen..];
      out := out + frame;
      pos := pos + srcLen;
    }
  }

  // ---------- lzo_decompress ----------

  class Input {
    const s: seq<byte>
    var pos: nat

    constructor (s: seq<byte>)
      ensures this.s == s && pos == 0
    {
      this.s := s;
      pos := 0;
    }

    /** xread: all `n` bytes, or nothing at all. */
    method XRead(n: nat) returns (r: Option<seq<byte>>)
      modifies this
      ensures r.Some? <==> old(pos) + n <= |s|
      ensures r.Some? ==> pos == old(pos) + n && r.value == s[old(pos)..pos]
    {
      if pos + n > |s| {
        return None;
      }
      r := Some(s[pos..pos + n]);
      pos := pos + n;
    }

    method Read32() returns (r: Option<int>)
      modifies this
      ensures r.Some? <==> old(pos) + 4 <= |s|
      ensures r.Some? ==> pos == old(pos) + 4 && r.value == WordAt(s, old(pos))
    {
      if pos + 4 > |s| {
        return None;
      }
      r := Some(WordAt(s, pos));
      pos := pos + 4;
    }

    method Read32If(cond: bool) returns (r: Option<int>)
      modifies this
      ensures r.Some? <==> (cond ==> old(pos) + 4 <= |s|)
      ensures r.Some? ==> pos == old(pos) + Skip(cond) && (cond ==> r.value == WordAt(s, old(pos)))
    {
      if cond {
        r := Read32();
      } else {
        r := Some(0);
      }
    }
  }

  /** The checksum words of a block. */
  datatype Words = Words(dAdler: int, dCrc: int, cAdler: int, cCrc: int)

  /** `out` is what the payload `c` holds, and every checksum that is asked for and looked at agrees. */
  ghost predicate Holds(env: Env, force: bool, dst: nat, sums: Words, c: seq<byte>, out: seq<byte>) {
    var f := env.flags;
    && |out| == dst && (if |c| < dst then env.decompress(c, dst) == Some(out) else out == c)
    && (!force ==>
          && (f.adlerD ==> sums.dAdler == AdlerOf(out)) && (f.crcD ==> sums.dCrc == env.Crc(out))
          && (|c| < dst && f.adlerC ==> sums.cAdler == AdlerOf(c)) && (|c| < dst && f.crcC ==> sums.cCrc == env.Crc(c)))
  }

  /** What a block holds, or nothing if it cannot hold anything. */
  method Unpack(env: Env, force: bool, dst: nat, sums: Words, b1: seq<byte>) returns (r: Option<seq<byte>>)
    requires |b1| <= dst
    ensures r.Some? ==> Holds(env, force, dst, sums, b1, r.value)
    ensures r == None ==> forall out :: !Holds(env, force, dst, sums, b1, out)
  {
    hide AdlerOf;
    var f := env.flags;
    var out := b1;
    if |b1| < dst {
      if !force {
        var a := AdlerSum(b1);
        if f.adlerC && sums.cAdler != a { return None; }
        if f.crcC && sums.cCrc != env.Crc(b1) { return None; }
      }
      var d := env.decompress(b1, dst);
      if d == None || |d.value| != dst { return None; }
      out := d.value;
    }
    if !force {
      var a := AdlerSum(out);
      if f.adlerD && sums.dAdler != a { return None; }
      if f.crcD && sums.dCrc != env.Crc(out) { return None; }
    }
    return Some(out);
  }

  /** The word at `p`, if there is one. */
  ghost predicate WordIs(s: seq<byte>, p: nat, cond: bool, w: int) {
    cond ==> p + 4 <= |s| && WordAt(s, p) == w
  }

  /** The words of a block's body, wherever each of them stands. */
  ghost predicate SumsAt(env: Env, s: seq<byte>, p: nat, small: bool, sums: Words) {
    var f := env.flags;
    var p1 := p + Skip(f.adlerD);
    var p2 := p1 + Skip(f.crcD);
    var p3 := p2 + Skip(small && f.adlerC);
    && WordIs(s, p, f.adlerD, sums.dAdler) && WordIs(s, p1, f.crcD, sums.dCrc)
    && WordIs(s, p2, small && f.adlerC, sums.cAdler) && WordIs(s, p3, small && f.crcC, sums.cCrc)
  }

  /** A body is read as `out` exactly if its payload holds that. */
  lemma ReadBodyIs(env: Env, force: bool, s: seq<byte>, p: nat, dst: nat, src: nat, sums: Words, out: seq<byte>)
    requires 0 < src <= dst && BodyEnd(env, p, src < dst, src) <= |s| && SumsAt(env, s, p, src < dst, sums)
    ensures var e := BodyEnd(env, p, src < dst, src);
            ReadBody(env, force, s, p, dst, src) == Block(out, e) <==> Holds(env, force, dst, sums, s[e - src..e], out)
    ensures ReadBody(env, force, s, p, dst, src) != Bad ==> ReadBody(env, force, s, p, dst, src).pos == BodyEnd(env, p, src < dst, src)
  {
    hide AdlerOf, WordAt;
  }

  /** What was read, and where the cursor stands. */
  ghost predicate Gave(r: Option<seq<byte>>, pos: nat, want: Read) {
    match want
    case Bad => r == None
    case End(q) => r == Some([]) && pos == q
    case Block(out, q) => r == Some(out) && pos == q
  }

  lemma ShortBody(env: Env, force: bool, s: seq<byte>, p: nat, dst: nat, src: nat)
    requires 0 < src <= dst && BodyEnd(env, p, src < dst, src) > |s|
    ensures ReadBody(env, force, s, p, dst, src) == Bad
  {
  }

  method DecompressBody(env: Env, force: bool, inp: Input, dstLen: nat, srcLen: nat) returns (r: Option<seq<byte>>)
    requires 0 < srcLen <= dstLen
    modifies inp
    ensures Gave(r, inp.pos, ReadBody(env, force, inp.s, old(inp.pos), dstLen, srcLen))
  {
    hide AdlerOf, WordAt, ReadBody, Holds;
    ghost var p := inp.pos;
    if BodyEnd(env, p, srcLen < dstLen, srcLen) > |inp.s| {
      ShortBody(env, force, inp.s, p, dstLen, srcLen);
    }
    var f, small := env.flags, srcLen < dstLen;
    var dAdler := inp.Read32If(f.adlerD);
    if dAdler == None { return None; }
    var dCrc := inp.Read32If(f.crcD);
    if dCrc == None { return None; }
    var cAdler := inp.Read32If(small && f.adlerC);
    if cAdler == None { return None; }
    var cCrc := inp.Read32If(small && f.crcC);
    if cCrc == None { return None; }
    var b1 := inp.XRead(srcLen);
    if b1 == None { return None; }
    var sums := Words(dAdler.value, dCrc.value, cAdler.value, cCrc.value);
    r := Unpack(env, force, dstLen, sums, b1.value);
    ghost var out := if r.Some? then r.value else ReadOut(ReadBody(env, force, inp.s, p, dstLen, srcLen));
    ReadBodyIs(env, force, inp.s, p, dstLen, srcLen, sums, out);
  }

  /** What a block that was read holds. */
  function ReadOut(r: Read): seq<byte> { if r.Block? then r.out else [] }

  method LzoDecompress(env: Env, force: bool, inp: Input) returns (r: Option<seq<byte>>)
    modifies inp
    ensures r == match Unframed(env, force, inp.s, old(inp.pos)) case None => None case Some((out, e)) => Some(out)
    ensures r.Some? ==> inp.pos == Unframed(env, force, inp.s, old(inp.pos)).value.1
  {
    hide ReadBody, WordAt;
    var out := [];
    ghost var p0 := inp.pos;
    PrependNone(Unframed(env, force, inp.s, p0));
    while true
      invariant Unframed(env, force, inp.s, p0) == Prepended(out, Unframed(env, force, inp.s, inp.pos))
      decreases |inp.s| - inp.pos
    {
      ghost var p := inp.pos;
      var dstLen := inp.Read32();
      if dstLen == None { return None; }
      if dstLen.value == 0 {
        assert out + [] == out;
        return Some(out);
      }
      if dstLen.value == 0xffff_ffff || dstLen.value > MAX_BLOCK_SIZE { return None; }
      var srcLen := inp.Read32();
      if srcLen == None { return None; }
      if srcLen.value <= 0 || srcLen.value > dstLen.value { return None; }
      var block := DecompressBody(env, force, inp, dstLen.value, srcLen.value);
      if block == None { return None; }
      PrependMore(out, block.value, Unframed(env, force, inp.s, inp.pos));
      out := out + block.value;
    }
  }

  function Prepended(out: seq<byte>, r: Option<(seq<byte>, nat)>): Option<(seq<byte>, nat)> {
    match r
    case None => None
    case Some((rest, e)) => Some((out + rest, e))
  }

  lemma PrependNone(r: Option<(seq<byte>, nat)>)
    ensures Prepended([], r) == r
  {
    if r.Some? {
      assert [] + r.value.0 == r.value.0;
    }
  }

  lemma PrependMore(a: seq<byte>, b: seq<byte>, r: Option<(seq<byte>, nat)>)
    ensures Prepended(a + b, r) == Prepended(a, Prepended(b, r))
  {
    if r.Some? {
      assert a + b + r.value.0 == a + (b + r.value.0);
    }
  }
}
