/** The lzop file header, and whole files: what do_lzo_compress writes, do_lzo_decompress reads back. */
module LzopHeaders {
  import opened Bits
  import opened Adlers
  import opened Lzops
  import opened LzopFiles

  const LZOP_VERSION := 0x1010
  const OLDEST_VERSION := 0x0940
  const HEADER_SIZE := 25

  const F_ADLER32_D := 0x0000_0001
  const F_ADLER32_C := 0x0000_0002
  const F_H_EXTRA_FIELD := 0x0000_0040
  const F_CRC32_D := 0x0000_0100
  const F_CRC32_C := 0x0000_0200
  const F_H_FILTER := 0x0000_0800
  const F_H_CRC32 := 0x0000_1000
  const F_OS_UNIX := 0x0300_0000

  const M_LZO1X_1 := 1
  const M_LZO1X_1_15 := 2
  const M_LZO1X_999 := 3

  predicate Has(flags: nat, mask: nat)
    requires mask > 0
  {
    flags / mask % 2 == 1
  }

  /** Bits 14 to 19. */
  predicate HasReserved(flags: nat) { flags / 0x4000 % 64 != 0 }

  function FlagsOf(flags: nat): Flags {
    Flags(Has(flags, F_ADLER32_D), Has(flags, F_ADLER32_C), Has(flags, F_CRC32_D), Has(flags, F_CRC32_C))
  }

  datatype Header = Header(version: nat, lib: nat, needed: nat, algo: byte, level: byte, flags: nat, mode: nat, mtime: nat, gmtdiff: nat)
  {
    predicate Fits() {
      && version < 0x1_0000 && lib < 0x1_0000 && needed < 0x1_0000
      && flags < 0x1_0000_0000 && mode < 0x1_0000_0000 && mtime < 0x1_0000_0000 && gmtdiff < 0x1_0000_0000
    }
  }

  // ---------- Checksums ----------

  /** Both checksums at once: which one counts is not known before the flags are read. */
  datatype Chksum = Chksum(adler: nat, crc: nat)

  function InitChksum(): Chksum { Chksum(ADLER32_INIT_VALUE, CRC32_INIT_VALUE) }

  function AddBytes(env: Env, c: Chksum, b: seq<byte>): Chksum { Chksum(Adler(c.adler, b), env.crc32(c.crc, b)) }

  /** Byte by byte. */
  function AddEach(env: Env, c: Chksum, b: seq<byte>): Chksum {
    if b == [] then c else AddBytes(env, AddEach(env, c, b[..|b| - 1]), [b[|b| - 1]])
  }

  function Result(c: Chksum, flags: nat): nat { if Has(flags, F_H_CRC32) then c.crc else c.adler }

  // ---------- write_header ----------

  function Be16(v: nat): (r: seq<byte>)
    ensures |r| == 2
  {
    [v / 256 % 256, v % 256]
  }

  function Half(s: seq<byte>, p: nat): nat
    requires p + 2 <= |s|
  {
    var a: nat, b: nat := s[p], s[p + 1];
    a * 256 + b
  }

  function Magic(): (r: seq<byte>)
    ensures |r| == 9
  {
    [0x89, 0x4c, 0x5a, 0x4f, 0x00, 0x0d, 0x0a, 0x1a, 0x0a]
  }

  /** The header proper; the name is always empty. */
  function HeaderBytes(h: Header): (r: seq<byte>)
    ensures |r| == HEADER_SIZE
  {
    Be16(h.version) + (Be16(h.lib) + (Be16(h.needed) + ([h.algo, h.level]
      + (Be32(h.flags) + (Be32(h.mode) + (Be32(h.mtime) + (Be32(h.gmtdiff) + [0])))))))
  }

  function WriteHeader(env: Env, h: Header): seq<byte> {
    Magic() + (HeaderBytes(h) + Be32(Result(AddBytes(env, InitChksum(), HeaderBytes(h)), h.flags)))
  }

  // ---------- read_header ----------

  datatype HeaderRead = Accepted(flags: nat, pos: nat) | Rejected(code: int) | Short

  /** The error the fixed fields lead to, 0 if none; a level of 0 stands for the method's own. */
  function FieldsCode(version: nat, needed: nat, algo: nat, level: nat, flags: nat): int {
    if version < OLDEST_VERSION then 3
    else if needed > LZOP_VERSION then 16
    else if needed < OLDEST_VERSION then 3
    else if algo <= 0 then 14
    else if algo > M_LZO1X_999 then -1
    else if level > 9 then 15
    else if Has(flags, F_H_FILTER) then 16
    else if HasReserved(flags) then -13
    else 0
  }

  /** The name's length byte is a signed character. */
  function NameLength(l: byte): nat { if l < 128 then l else 0 }

  function HeaderAt(env: Env, s: seq<byte>, p: nat): HeaderRead {
    if p + HEADER_SIZE > |s| then Short
    else
      var flags := WordAt(s, p + 8);
      var code := FieldsCode(Half(s, p), Half(s, p + 4), s[p + 6], s[p + 7], flags);
      var n := NameLength(s[p + 24]);
      var q := p + HEADER_SIZE + n;
      if code != 0 then Rejected(code)
      else if q + 4 > |s| then Short
      else
        var head := AddBytes(env, InitChksum(), s[p..p + HEADER_SIZE]);
        var sums := if n > 0 then AddBytes(env, head, s[p + HEADER_SIZE..q]) else head;
        if WordAt(s, q) != Result(sums, flags) then Rejected(2)
        else if Has(flags, F_H_EXTRA_FIELD) then ExtraAt(env, s, q + 4, flags)
        else Accepted(flags, q + 4)
  }

  /** The extra field: its length, its bytes and their checksum. */
  function ExtraAt(env: Env, s: seq<byte>, p: nat, flags: nat): HeaderRead {
    if p + 4 > |s| then Short
    else
      var n := WordAt(s, p);
      var q := p + 4 + n;
      if q + 4 > |s| then Short
      else
        var sums := AddEach(env, AddBytes(env, InitChksum(), s[p..p + 4]), s[p + 4..q]);
        if WordAt(s, q) != Result(sums, flags) then Rejected(3) else Accepted(flags, q + 4)
  }

  // ---------- A header written is read back ----------

  lemma HalfBack(s: seq<byte>, p: nat, v: nat)
    requires At(s, p, Be16(v)) && v < 0x1_0000
    ensures p + 2 <= |s| && Half(s, p) == v
  {
    var w := s[p..p + 2];
    assert w[0] == s[p] && w[1] == s[p + 1];
  }

  lemma BytesBack(s: seq<byte>, p: nat, a: byte, b: byte)
    requires At(s, p, [a, b])
    ensures p + 2 <= |s| && s[p] == a && s[p + 1] == b
  {
    var w := s[p..p + 2];
    assert w[0] == s[p] && w[1] == s[p + 1];
  }

  lemma ByteBack(s: seq<byte>, p: nat, a: byte)
    requires At(s, p, [a])
    ensures p < |s| && s[p] == a
  {
    assert s[p..p + 1][0] == s[p];
  }

  lemma FieldsBack(s: seq<byte>, p: nat, h: Header)
    requires h.Fits() && At(s, p, HeaderBytes(h))
    ensures p + HEADER_SIZE <= |s| && Half(s, p) == h.version && Half(s, p + 4) == h.needed
    ensures s[p + 6] == h.algo && s[p + 7] == h.level && WordAt(s, p + 8) == h.flags && s[p + 24] == 0
  {
    hide Be16, Be32, At, Half, WordAt;
    var g := Be32(h.gmtdiff) + [0];
    var t := Be32(h.mtime) + g;
    var m := Be32(h.mode) + t;
    var f := Be32(h.flags) + m;
    var al := [h.algo, h.level] + f;
    var ne := Be16(h.needed) + al;
    var li := Be16(h.lib) + ne;
    AtIs(s, p, HeaderBytes(h));
    AtSplit(s, p, Be16(h.version), li);
    AtSplit(s, p + 2, Be16(h.lib), ne);
    AtSplit(s, p + 4, Be16(h.needed), al);
    AtSplit(s, p + 6, [h.algo, h.level], f);
    AtSplit(s, p + 8, Be32(h.flags), m);
    AtSplit(s, p + 12, Be32(h.mode), t);
    AtSplit(s, p + 16, Be32(h.mtime), g);
    AtSplit(s, p + 20, Be32(h.gmtdiff), [0]);
    HalfBack(s, p, h.version);
    HalfBack(s, p + 4, h.needed);
    BytesBack(s, p + 6, h.algo, h.level);
    WordBack(s, p + 8, h.flags);
    ByteBack(s, p + 24, 0);
  }

  lemma ResultFits(env: Env, b: seq<byte>, flags: nat)
    requires env.Valid()
    ensures Result(AddBytes(env, InitChksum(), b), flags) < 0x1_0000_0000
  {
    hide Has;
    AdlerFits(b);
    assert env.crc32(CRC32_INIT_VALUE, b) < 0x1_0000_0000;
  }

  /** The fixed fields of a header that was written, and its checksum, are read back. */
  lemma FieldsRead(env: Env, s: seq<byte>, p: nat, h: Header)
    requires env.Valid() && h.Fits() && At(s, p, WriteHeader(env, h))
    ensures At(s, p, Magic()) && |WriteHeader(env, h)| == 38
    ensures var code := FieldsCode(h.version, h.needed, h.algo, h.level, h.flags);
            HeaderAt(env, s, p + 9)
            == if code != 0 then Rejected(code)
               else if Has(h.flags, F_H_EXTRA_FIELD) then ExtraAt(env, s, p + 38, h.flags)
               else Accepted(h.flags, p + 38)
  {
    hide Be32, At, Half, WordAt, Has, FieldsCode, AddBytes, HeaderBytes, Magic, Env.Valid, ExtraAt;
    var sum := Result(AddBytes(env, InitChksum(), HeaderBytes(h)), h.flags);
    AtSplit(s, p, Magic(), HeaderBytes(h) + Be32(sum));
    AtSplit(s, p + 9, HeaderBytes(h), Be32(sum));
    FieldsBack(s, p + 9, h);
    AtIs(s, p + 9, HeaderBytes(h));
    ResultFits(env, HeaderBytes(h), h.flags);
    WordBack(s, p + 9 + HEADER_SIZE, sum);
  }

  /** A header that was written is read back, and taken or turned down by its fields alone. */
  lemma HeaderBack(env: Env, s: seq<byte>, p: nat, h: Header)
    requires env.Valid() && h.Fits() && !Has(h.flags, F_H_EXTRA_FIELD) && At(s, p, WriteHeader(env, h))
    ensures At(s, p, Magic())
    ensures var code := FieldsCode(h.version, h.needed, h.algo, h.level, h.flags);
            HeaderAt(env, s, p + 9) == if code == 0 then Accepted(h.flags, p + |WriteHeader(env, h)|) else Rejected(code)
  {
    hide At, FieldsCode, Env.Valid, Has, HeaderAt, WriteHeader;
    FieldsRead(env, s, p, h);
  }

  // ---------- The extra field ----------

  /** An extra field: its length, its bytes, and the checksum of both. */
  function ExtraBytes(env: Env, flags: nat, extra: seq<byte>): seq<byte> {
    Be32(|extra|) + (extra + Be32(Result(ExtraSums(env, Be32(|extra|), extra), flags)))
  }

  function ExtraSums(env: Env, len: seq<byte>, extra: seq<byte>): Chksum {
    AddEach(env, AddBytes(env, InitChksum(), len), extra)
  }

  lemma {:induction false} EachFits(env: Env, c: Chksum, b: seq<byte>)
    requires env.Valid() && Reduced(c.adler) && c.crc < 0x1_0000_0000
    ensures Reduced(AddEach(env, c, b).adler) && AddEach(env, c, b).crc < 0x1_0000_0000
    decreases |b|
  {
    hide Adler, Reduced;
    if b != [] {
      var rest, last := AddEach(env, c, b[..|b| - 1]), [b[|b| - 1]];
      EachFits(env, c, b[..|b| - 1]);
      AdlerSplits(rest.adler, last, []);
      assert env.crc32(rest.crc, last) < 0x1_0000_0000;
    }
  }

  lemma ExtraFits(env: Env, flags: nat, len: seq<byte>, extra: seq<byte>)
    requires env.Valid()
    ensures Result(ExtraSums(env, len, extra), flags) < 0x1_0000_0000
  {
    hide Has, Adler, AddEach;
    InitReduced();
    AdlerSplits(ADLER32_INIT_VALUE, len, []);
    assert env.crc32(CRC32_INIT_VALUE, len) < 0x1_0000_0000;
    EachFits(env, AddBytes(env, InitChksum(), len), extra);
  }

  lemma WordBytes(s: seq<byte>, p: nat)
    requires p + 4 <= |s|
    ensures 0 <= WordAt(s, p) < 0x1_0000_0000 && Be32(WordAt(s, p)) == s[p..p + 4]
  {
    var a: int, b: int, c: int, d: int := s[p], s[p + 1], s[p + 2], s[p + 3];
    BackDigits(a, b, c, d);
  }

  lemma BackDigits(a: byte, b: byte, c: byte, d: byte)
    ensures var v := ((a * 256 + b) * 256 + c) * 256 + d;
            v / 0x100_0000 % 256 == a && v / 0x1_0000 % 256 == b && v / 0x100 % 256 == c && v % 256 == d
  {
  }

  lemma AtJoin(s: seq<byte>, p: nat, x: seq<byte>, y: seq<byte>)
    requires At(s, p, x) && At(s, p + |x|, y)
    ensures At(s, p, x + y)
  {
    assert s[p..p + |x + y|] == s[p..p + |x|] + s[p + |x|..p + |x| + |y|];
  }

  /** An extra field is taken exactly if its bytes are followed by their checksum. */
  lemma ExtraAccepted(env: Env, s: seq<byte>, p: nat, flags: nat, extra: seq<byte>)
    requires env.Valid() && |extra| < 0x1_0000_0000
    ensures At(s, p, ExtraBytes(env, flags, extra)) ==> ExtraAt(env, s, p, flags) == Accepted(flags, p + 8 + |extra|)
    ensures ExtraAt(env, s, p, flags).Accepted? && At(s, p, Be32(|extra|) + extra) ==> At(s, p, ExtraBytes(env, flags, extra))
  {
    hide Be32, WordAt, At, Result, AddEach, AddBytes, Env.Valid;
    var len := Be32(|extra|);
    var sum := Result(ExtraSums(env, len, extra), flags);
    ExtraFits(env, flags, len, extra);
    if At(s, p, ExtraBytes(env, flags, extra)) {
      AtSplit(s, p, len, extra + Be32(sum));
      AtSplit(s, p + 4, extra, Be32(sum));
      ExtraRead(env, s, p, flags, extra);
      WordBack(s, p + 4 + |extra|, sum);
    }
    if ExtraAt(env, s, p, flags).Accepted? && At(s, p, len + extra) {
      AtSplit(s, p, len, extra);
      ExtraRead(env, s, p, flags, extra);
      WordBytes(s, p + 4 + |extra|);
      AtWord(s, p + 4 + |extra|, sum);
      AtJoin(s, p + 4, extra, Be32(sum));
      AtJoin(s, p, len, extra + Be32(sum));
    }
  }

  lemma AtWord(s: seq<byte>, p: nat, v: nat)
    requires p + 4 <= |s| && Be32(v) == s[p..p + 4]
    ensures At(s, p, Be32(v))
  {
  }

  /** What is there is what read_header takes for length and bytes. */
  lemma ExtraRead(env: Env, s: seq<byte>, p: nat, flags: nat, extra: seq<byte>)
    requires |extra| < 0x1_0000_0000 && At(s, p, Be32(|extra|)) && At(s, p + 4, extra)
    ensures var q := p + 4 + |extra|;
            ExtraAt(env, s, p, flags)
            == if q + 4 > |s| then Short
               else if WordAt(s, q) != Result(ExtraSums(env, Be32(|extra|), extra), flags) then Rejected(3)
               else Accepted(flags, q + 4)
  {
    hide Be32, WordAt, At, Result, AddEach, AddBytes;
    WordBack(s, p, |extra|);
    AtIs(s, p, Be32(|extra|));
    AtIs(s, p + 4, extra);
  }

  /** A header with an extra field is read back too, and judged by its fields alone. */
  lemma ExtraHeaderBack(env: Env, s: seq<byte>, p: nat, h: Header, extra: seq<byte>)
    requires env.Valid() && h.Fits() && Has(h.flags, F_H_EXTRA_FIELD) && |extra| < 0x1_0000_0000
    requires At(s, p, WriteHeader(env, h) + ExtraBytes(env, h.flags, extra))
    ensures At(s, p, Magic())
    ensures var code := FieldsCode(h.version, h.needed, h.algo, h.level, h.flags);
            HeaderAt(env, s, p + 9)
            == if code == 0 then Accepted(h.flags, p + |WriteHeader(env, h)| + 8 + |extra|) else Rejected(code)
  {
    hide Be32, At, Half, WordAt, FieldsCode, AddBytes, HeaderBytes, Magic, Env.Valid, ExtraAt, ExtraBytes;
    AtSplit(s, p, WriteHeader(env, h), ExtraBytes(env, h.flags, extra));
    FieldsRead(env, s, p, h);
    ExtraAccepted(env, s, p + |WriteHeader(env, h)|, h.flags, extra);
  }

  method ReadHeader(env: Env, inp: Input) returns (r: HeaderRead)
    modifies inp
    ensures r == HeaderAt(env, inp.s, old(inp.pos)) && (r.Accepted? ==> inp.pos == r.pos)
  {
    hide WordAt, Half, AddBytes, FieldsCode, Has, ExtraAt, Result;
    ghost var p := inp.pos;
    var sums := InitChksum();
    var b := inp.XRead(HEADER_SIZE);
    if b == None { return Short; }
    sums := AddBytes(env, sums, b.value);
    var flags := WordAt(b.value, 8);
    SameFields(inp.s, p, b.value);
    var code := FieldsCode(Half(b.value, 0), Half(b.value, 4), b.value[6], b.value[7], flags);
    if code != 0 { return Rejected(code); }
    var l := NameLength(b.value[24]);
    if l > 0 {
      var name := inp.XRead(l);
      if name == None { return Short; }
      sums := AddBytes(env, sums, name.value);
    }
    var checksum := inp.Read32();
    if checksum == None { return Short; }
    if checksum.value != Result(sums, flags) { return Rejected(2); }
    if Has(flags, F_H_EXTRA_FIELD) {
      r := ReadExtra(env, inp, flags);
    } else {
      r := Accepted(flags, inp.pos);
    }
  }

  lemma SameFields(s: seq<byte>, p: nat, b: seq<byte>)
    requires p + HEADER_SIZE <= |s| && b == s[p..p + HEADER_SIZE]
    ensures Half(b, 0) == Half(s, p) && Half(b, 4) == Half(s, p + 4) && WordAt(b, 8) == WordAt(s, p + 8)
    ensures b[6] == s[p + 6] && b[7] == s[p + 7] && b[24] == s[p + 24] && WordAt(b, 8) >= 0
  {
  }

  method ReadExtra(env: Env, inp: Input, flags: nat) returns (r: HeaderRead)
    modifies inp
    ensures r == ExtraAt(env, inp.s, old(inp.pos), flags) && (r.Accepted? ==> inp.pos == r.pos)
  {
    hide AddBytes, Result, WordAt;
    ghost var p := inp.pos;
    var word := inp.XRead(4);
    if word == None { return Short; }
    var sums := AddBytes(env, InitChksum(), word.value);
    var n := WordAt(word.value, 0);
    SameWord(inp.s, p, word.value);
    var k := 0;
    while k < n
      invariant 0 <= k <= n && inp.pos == p + 4 + k <= |inp.s|
      invariant sums == AddEach(env, AddBytes(env, InitChksum(), inp.s[p..p + 4]), inp.s[p + 4..p + 4 + k])
    {
      var dummy := inp.XRead(1);
      if dummy == None { return Short; }
      AddOne(env, AddBytes(env, InitChksum(), inp.s[p..p + 4]), inp.s, p + 4, p + 4 + k);
      sums := AddBytes(env, sums, dummy.value);
      k := k + 1;
    }
    var checksum := inp.Read32();
    if checksum == None { return Short; }
    if checksum.value != Result(sums, flags) { return Rejected(3); }
    r := Accepted(flags, inp.pos);
  }

  lemma SameWord(s: seq<byte>, p: nat, b: seq<byte>)
    requires p + 4 <= |s| && b == s[p..p + 4]
    ensures WordAt(b, 0) == WordAt(s, p) >= 0
  {
  }

  lemma AddOne(env: Env, c: Chksum, s: seq<byte>, p: nat, q: nat)
    requires p <= q < |s|
    ensures AddEach(env, c, s[p..q + 1]) == AddBytes(env, AddEach(env, c, s[p..q]), s[q..q + 1])
  {
    var b := s[p..q + 1];
    assert b[..|b| - 1] == s[p..q] && [b[|b| - 1]] == s[q..q + 1];
  }

  // ---------- Whole files ----------

  /** The options that count; `high` says that high compression is compiled in. */
  datatype Options = Options(opt1: bool, opt7: bool, opt8: bool, opt9: bool, force: bool, checkC: bool, high: bool)

  /** The method and level, or none when high compression is asked for and not compiled in. */
  function SetMethod(o: Options): Option<(byte, byte)> {
    if o.opt7 || o.opt8 || o.opt9 then
      if o.high then Some((M_LZO1X_999, if o.opt7 then 7 else if o.opt8 then 8 else 9)) else None
    else if o.opt1 then Some((M_LZO1X_1_15, 1))
    else Some((M_LZO1X_1, 5))
  }

  function FileFlags(o: Options, algo: nat): nat {
    F_OS_UNIX + if !o.force || algo == M_LZO1X_999 then F_ADLER32_D + if o.checkC then F_ADLER32_C else 0 else 0
  }

  function FileHeader(o: Options, lib: nat): Option<Header> {
    match SetMethod(o)
    case None => None
    case Some((algo, level)) => Some(Header(LZOP_VERSION, lib % 0x1_0000, OLDEST_VERSION, algo, level, FileFlags(o, algo), 0, 0, 0))
  }

  /** The environment with the checksums that a header asks for. */
  function WithFlags(env: Env, flags: nat): Env { env.(flags := FlagsOf(flags)) }

  function FileWritten(env: Env, o: Options, lib: nat, data: seq<byte>): Option<seq<byte>> {
    match FileHeader(o, lib)
    case None => None
    case Some(h) => Some(WriteHeader(env, h) + Framed(WithFlags(env, h.flags), data))
  }

  function FileRead(env: Env, force: bool, s: seq<byte>): Option<seq<byte>> {
    if |s| < 9 || s[..9] != Magic() then None
    else
      match HeaderAt(env, s, 9)
      case Short => None
      case Rejected(_) => None
      case Accepted(flags, p) =>
        match Unframed(WithFlags(env, flags), force, s, p)
        case None => None
        case Some((data, e)) => Some(data)
  }

  /** lzop accepts its own headers. */
  lemma OwnHeader(o: Options, lib: nat)
    requires FileHeader(o, lib).Some?
    ensures var h := FileHeader(o, lib).value;
            && h.Fits() && !Has(h.flags, F_H_EXTRA_FIELD)
            && FieldsCode(h.version, h.needed, h.algo, h.level, h.flags) == 0
  {
  }

  lemma AnyFlags(env: Env, flags: nat)
    requires env.Valid()
    ensures WithFlags(env, flags).Valid()
  {
  }

  lemma ReadFrom(env: Env, force: bool, s: seq<byte>, flags: nat, p: nat)
    requires At(s, 0, Magic()) && HeaderAt(env, s, 9) == Accepted(flags, p)
    requires Unframed(WithFlags(env, flags), force, s, p).Some?
    ensures FileRead(env, force, s) == Some(Unframed(WithFlags(env, flags), force, s, p).value.0)
  {
    hide HeaderAt, Unframed, WithFlags, Magic, At;
    AtIs(s, 0, Magic());
    assert s[0..9] == s[..9];
  }

  lemma InTurn(a: seq<byte>, b: seq<byte>, c: seq<byte>)
    ensures At(a + b + c, 0, a) && At(a + b + c, |a|, b)
  {
    var s := a + b + c;
    assert s[0..|a|] == a && s[|a|..|a| + |b|] == b;
  }

  lemma HeaderTaken(env: Env, h: Header, s: seq<byte>)
    requires env.Valid() && h.Fits() && !Has(h.flags, F_H_EXTRA_FIELD) && At(s, 0, WriteHeader(env, h))
    requires FieldsCode(h.version, h.needed, h.algo, h.level, h.flags) == 0
    ensures At(s, 0, Magic()) && HeaderAt(env, s, 9) == Accepted(h.flags, |WriteHeader(env, h)|)
  {
    hide WriteHeader, HeaderAt, FieldsCode, Has, Magic, At, Env.Valid, Header.Fits;
    HeaderBack(env, s, 0, h);
  }

  lemma BodyTaken(env: Env, flags: nat, data: seq<byte>, force: bool, s: seq<byte>, p: nat)
    requires env.Valid() && At(s, p, Framed(WithFlags(env, flags), data))
    ensures Unframed(WithFlags(env, flags), force, s, p) == Some((data, p + |Framed(WithFlags(env, flags), data)|))
  {
    hide Framed, Unframed, WithFlags, At, Env.Valid;
    AnyFlags(env, flags);
    FramedBack(WithFlags(env, flags), force, s, p, data);
  }

  /** Any file with a header that is taken is read back, with its checksums verified or not, whatever follows it. */
  lemma TakenBack(env: Env, h: Header, data: seq<byte>, force: bool, s: seq<byte>)
    requires env.Valid() && h.Fits() && !Has(h.flags, F_H_EXTRA_FIELD)
    requires FieldsCode(h.version, h.needed, h.algo, h.level, h.flags) == 0
    requires At(s, 0, WriteHeader(env, h)) && At(s, |WriteHeader(env, h)|, Framed(WithFlags(env, h.flags), data))
    ensures FileRead(env, force, s) == Some(data)
  {
    hide WriteHeader, HeaderAt, Framed, Unframed, FieldsCode, Has, WithFlags, Magic, At, Env.Valid, Header.Fits, FileRead;
    var p := |WriteHeader(env, h)|;
    HeaderTaken(env, h, s);
    BodyTaken(env, h.flags, data, force, s, p);
    ReadFrom(env, force, s, h.flags, p);
  }

  /** Whatever the options, lzop reads its own files back. */
  lemma FileBack(env: Env, o: Options, lib: nat, data: seq<byte>, force: bool, tail: seq<byte>)
    requires env.Valid() && FileHeader(o, lib).Some?
    ensures FileWritten(env, o, lib, data).Some?
    ensures FileRead(env, force, FileWritten(env, o, lib, data).value + tail) == Some(data)
  {
    hide WriteHeader, Framed, FileHeader, FieldsCode, Has, WithFlags, At, Env.Valid, Header.Fits, FileRead;
    var h := FileHeader(o, lib).value;
    OwnHeader(o, lib);
    InTurn(WriteHeader(env, h), Framed(WithFlags(env, h.flags), data), tail);
    TakenBack(env, h, data, force, FileWritten(env, o, lib, data).value + tail);
  }

  method DoLzoCompress(env: Env, o: Options, lib: nat, data: seq<byte>) returns (r: Option<seq<byte>>)
    requires env.Valid()
    ensures r.Some? <==> (o.opt7 || o.opt8 || o.opt9 ==> o.high)
    ensures r.Some? ==> forall force, tail :: FileRead(env, force, r.value + tail) == Some(data)
  {
    hide WriteHeader, Framed, FileRead, Env.Valid;
    var h := FileHeader(o, lib);
    if h == None { return None; }
    var out := LzoCompress(WithFlags(env, h.value.flags), data);
    r := Some(WriteHeader(env, h.value) + out);
    forall force, tail ensures FileRead(env, force, r.value + tail) == Some(data) {
      FileBack(env, o, lib, data, force, tail);
    }
  }

  method DoLzoDecompress(env: Env, force: bool, s: seq<byte>) returns (r: Option<seq<byte>>)
    ensures r == FileRead(env, force, s)
  {
    hide HeaderAt, Unframed, Magic, FlagsOf;
    var inp := new Input(s);
    var magic := inp.XRead(9);
    if magic == None || magic.value != Magic() { return None; }
    var h := ReadHeader(env, inp);
    if !h.Accepted? { return None; }
    r := LzoDecompress(WithFlags(env, h.flags), force, inp);
  }
}
