/** Literals and matches: what they stand for, how they are coded, and how a decoder reads them. */
module Tokens {
  import opened Bits
  import opened Inflate
  import opened Canonical
  import opened CodeTables
  import opened SendTrees

  const END_BLOCK := 256

  datatype Token = Literal(b: byte) | Match(len: nat, dist: nat)
  {
    ghost predicate Valid() {
      Match? ==> MIN_MATCH <= len <= MAX_MATCH && 1 <= dist <= 32768
    }
  }

  datatype Tables = Tables(lengthCode: seq<nat>, baseLength: seq<nat>, distCode: seq<nat>, baseDist: seq<nat>)
  {
    ghost predicate Valid()
      ensures Valid() ==> |lengthCode| == 256 && |baseLength| == LENGTH_CODES && |distCode| == 512 && |baseDist| == D_CODES
    {
      LengthsOk(lengthCode, baseLength) && DistancesOk(distCode, baseDist)
    }

    function LenCode(len: nat): nat
      requires |lengthCode| == 256 && MIN_MATCH <= len <= MAX_MATCH
    {
      lengthCode[len - MIN_MATCH]
    }

    function DistCode(dist: nat): nat
      requires |distCode| == 512 && 1 <= dist <= 32768
    {
      DCode(distCode, dist - 1)
    }
  }

  // ---------- What tokens stand for ----------

  ghost predicate Applies(out: seq<byte>, t: Token) {
    t.Valid() && (t.Match? ==> t.dist <= |out|)
  }

  function Apply(out: seq<byte>, t: Token): (r: seq<byte>)
    requires t.Match? ==> 1 <= t.dist <= |out|
    ensures out <= r
  {
    match t
    case Literal(b) => out + [b]
    case Match(len, dist) => CopyMatch(out, dist, len)
  }

  /** Expanding `tokens` after `out` gives `out'`. */
  ghost predicate Expands(out: seq<byte>, tokens: seq<Token>, out': seq<byte>)
    decreases tokens
  {
    if tokens == [] then out == out'
    else Applies(out, tokens[0]) && Expands(Apply(out, tokens[0]), tokens[1..], out')
  }

  lemma {:induction false} ExpandsSnoc(out: seq<byte>, tokens: seq<Token>, mid: seq<byte>, t: Token)
    requires Expands(out, tokens, mid) && Applies(mid, t)
    ensures Expands(out, tokens + [t], Apply(mid, t))
    decreases tokens
  {
    if tokens == [] {
      assert ([] + [t])[1..] == [];
    } else {
      ExpandsSnoc(Apply(out, tokens[0]), tokens[1..], mid, t);
      assert (tokens + [t])[1..] == tokens[1..] + [t];
    }
  }

  lemma {:induction false} ExpandsValid(out: seq<byte>, tokens: seq<Token>, out': seq<byte>)
    requires Expands(out, tokens, out')
    ensures forall i :: 0 <= i < |tokens| ==> tokens[i].Valid()
    decreases tokens
  {
    if tokens != [] {
      ExpandsValid(Apply(out, tokens[0]), tokens[1..], out');
      assert forall i :: 1 <= i < |tokens| ==> tokens[i] == tokens[1..][i - 1];
    }
  }

  // ---------- Codes ----------

  function LitSymbol(tab: Tables, t: Token): nat
    requires |tab.lengthCode| == 256 && (t.Match? ==> MIN_MATCH <= t.len <= MAX_MATCH)
  {
    match t
    case Literal(b) => b
    case Match(len, _) => tab.LenCode(len) + 257
  }

  /** What the code of a match length leaves to be said, and on how many bits. */
  function LenExtra(tab: Tables, len: nat): (r: (nat, nat))
    requires tab.Valid() && MIN_MATCH <= len <= MAX_MATCH
    ensures r.0 < Pow2(r.1) && LengthBase(tab.LenCode(len)) + r.0 == len && r.1 <= 5
    ensures r.1 != 0 ==> r.0 == len - MIN_MATCH - tab.baseLength[tab.LenCode(len)]
  {
    LenCodeHolds(tab, len);
    var c := tab.LenCode(len);
    (if LengthExtra(c) == 0 then 0 else len - MIN_MATCH - tab.baseLength[c], LengthExtra(c))
  }

  function DistExtraOf(tab: Tables, dist: nat): (r: (nat, nat))
    requires tab.Valid() && 1 <= dist <= 32768
    ensures r.0 < Pow2(r.1) && DistBase(tab.DistCode(dist)) + r.0 == dist && r.1 <= 13
    ensures r.1 != 0 ==> r.0 == dist - 1 - tab.baseDist[tab.DistCode(dist)]
  {
    DistCodeHolds(tab, dist);
    var c := tab.DistCode(dist);
    (if DistExtra(c) == 0 then 0 else dist - 1 - tab.baseDist[c], DistExtra(c))
  }

  lemma LenCodeHolds(tab: Tables, len: nat)
    requires tab.Valid() && MIN_MATCH <= len <= MAX_MATCH
    ensures CodeOk(tab.baseLength, LENGTH_BASE, LENGTH_EXTRA, 3, tab.LenCode(len), len - 3)
  {
  }

  lemma DistCodeHolds(tab: Tables, dist: nat)
    requires tab.Valid() && 1 <= dist <= 32768
    ensures CodeOk(tab.baseDist, DIST_BASE, DIST_EXTRA, 1, tab.DistCode(dist), dist - 1)
  {
  }

  /** The alphabets have the symbols for a match. */
  ghost predicate HasLength(ll: seq<nat>, tab: Tables, len: nat) {
    tab.Valid() && MIN_MATCH <= len <= MAX_MATCH && tab.LenCode(len) + 257 < |ll|
  }

  ghost predicate HasDistance(dl: seq<nat>, tab: Tables, dist: nat) {
    tab.Valid() && 1 <= dist <= 32768 && tab.DistCode(dist) < |dl|
  }

  ghost function LengthBits(ll: seq<nat>, tab: Tables, len: nat): seq<bool>
    requires HasLength(ll, tab, len)
  {
    CodeWord(ll, tab.LenCode(len) + 257) + BitsOf(LenExtra(tab, len).0, LenExtra(tab, len).1)
  }

  ghost function DistanceBits(dl: seq<nat>, tab: Tables, dist: nat): seq<bool>
    requires HasDistance(dl, tab, dist)
  {
    CodeWord(dl, tab.DistCode(dist)) + BitsOf(DistExtraOf(tab, dist).0, DistExtraOf(tab, dist).1)
  }

  /** The two alphabets have the symbols the token needs. */
  ghost predicate InAlphabets(ll: seq<nat>, dl: seq<nat>, tab: Tables, t: Token) {
    && t.Valid() && tab.Valid() && 256 < |ll|
    && (t.Match? ==> HasLength(ll, tab, t.len) && HasDistance(dl, tab, t.dist))
  }

  ghost function TokenBits(ll: seq<nat>, dl: seq<nat>, tab: Tables, t: Token): seq<bool> {
    if !InAlphabets(ll, dl, tab, t) then []
    else match t
      case Literal(b) => CodeWord(ll, b)
      case Match(len, dist) => LengthBits(ll, tab, len) + DistanceBits(dl, tab, dist)
  }

  ghost function TokensBits(ll: seq<nat>, dl: seq<nat>, tab: Tables, tokens: seq<Token>): seq<bool> {
    if tokens == [] then [] else TokenBits(ll, dl, tab, tokens[0]) + TokensBits(ll, dl, tab, tokens[1..])
  }

  lemma {:induction false} TokensBitsSnoc(ll: seq<nat>, dl: seq<nat>, tab: Tables, tokens: seq<Token>, t: Token)
    ensures TokensBits(ll, dl, tab, tokens + [t]) == TokensBits(ll, dl, tab, tokens) + TokenBits(ll, dl, tab, t)
    decreases tokens
  {
    hide TokenBits;
    if tokens == [] {
      assert ([] + [t])[1..] == [];
    } else {
      TokensBitsSnoc(ll, dl, tab, tokens[1..], t);
      assert (tokens + [t])[1..] == tokens[1..] + [t];
    }
  }

  /** The two codes have a code word for everything the token needs. */
  ghost predicate TokenCoded(ll: seq<nat>, dl: seq<nat>, tab: Tables, t: Token) {
    && InAlphabets(ll, dl, tab, t)
    && (match t
        case Literal(b) => ll[b] > 0
        case Match(len, dist) => ll[tab.LenCode(len) + 257] > 0 && dl[tab.DistCode(dist)] > 0)
  }

  // ---------- Decoding ----------

  ghost predicate BothFit(ll: seq<nat>, dl: seq<nat>, ml: nat, md: nat) {
    Fits(ll, ml) && Fits(dl, md)
  }

  lemma LiteralDecodes(ll: seq<nat>, dl: seq<nat>, ml: nat, s: seq<bool>, p: nat, out: seq<byte>, b: byte)
    requires Fits(ll, ml) && b < |ll| && ll[b] > 0 && At(s, p, CodeWord(ll, b))
    ensures DecodeData(ll, dl, s, p, out) == DecodeData(ll, dl, s, p + ll[b], out + [b])
  {
    hide Fits, CodeWord;
    FindsSymbol(ll, s, p, b, ml);
  }

  lemma EndDecodes(ll: seq<nat>, dl: seq<nat>, ml: nat, s: seq<bool>, p: nat, out: seq<byte>)
    requires Fits(ll, ml) && 256 < |ll| && ll[256] > 0 && At(s, p, CodeWord(ll, 256))
    ensures DecodeData(ll, dl, s, p, out) == Some((p + ll[256], out))
  {
    hide Fits, CodeWord;
    FindsSymbol(ll, s, p, 256, ml);
  }

  /** A decoder that reads these two symbols and extra bits copies `len` bytes from `dist` back. */
  lemma DecodeCopy(ll: seq<nat>, dl: seq<nat>, s: seq<bool>, p: nat, out: seq<byte>, lc: nat, lx: nat, dc: nat, dx: nat)
    requires lc < LENGTH_CODES && lc + 257 < |ll| && FindSymbol(ll, s, p, 0) == Some(lc + 257)
    requires dc < D_CODES && dc < |dl| && dx < Pow2(DistExtra(dc)) && lx < Pow2(LengthExtra(lc))
    requires var q := p + ll[lc + 257];
             && At(s, q, BitsOf(lx, LengthExtra(lc)))
             && FindSymbol(dl, s, q + LengthExtra(lc), 0) == Some(dc)
             && At(s, q + LengthExtra(lc) + dl[dc], BitsOf(dx, DistExtra(dc)))
    requires DistBase(dc) + dx <= |out|
    ensures DecodeData(ll, dl, s, p, out)
         == DecodeData(ll, dl, s, p + ll[lc + 257] + LengthExtra(lc) + dl[dc] + DistExtra(dc),
                       CopyMatch(out, DistBase(dc) + dx, LengthBase(lc) + lx))
  {
    hide FindSymbol, BitsOf, NatOf, CopyMatch, Pow2, At, LengthExtra, LengthBase, DistExtra, DistBase;
    var q := p + ll[lc + 257];
    ReadsBack(s, q, lx, LengthExtra(lc));
    ReadsBack(s, q + LengthExtra(lc) + dl[dc], dx, DistExtra(dc));
  }

  lemma MatchDecodes(ll: seq<nat>, dl: seq<nat>, ml: nat, md: nat, tab: Tables, s: seq<bool>, p: nat, out: seq<byte>, t: Token)
    requires BothFit(ll, dl, ml, md) && t.Match? && TokenCoded(ll, dl, tab, t) && Applies(out, t)
    requires At(s, p, TokenBits(ll, dl, tab, t))
    ensures DecodeData(ll, dl, s, p, out) == DecodeData(ll, dl, s, p + |TokenBits(ll, dl, tab, t)|, Apply(out, t))
  {
    hide Fits, CodeWord, BitsOf, DecodeData, FindSymbol, Pow2, CopyMatch, At, LengthExtra, LengthBase, DistExtra, DistBase,
         Tables.Valid, LenExtra, DistExtraOf;
    var lc, dc := tab.LenCode(t.len), tab.DistCode(t.dist);
    TableFacts(tab, t.len, t.dist);
    var le, de := LenExtra(tab, t.len), DistExtraOf(tab, t.dist);
    var q := p + ll[lc + 257];
    AtSplit(s, p, LengthBits(ll, tab, t.len), DistanceBits(dl, tab, t.dist));
    AtSplit(s, p, CodeWord(ll, lc + 257), BitsOf(le.0, le.1));
    AtSplit(s, q + le.1, CodeWord(dl, dc), BitsOf(de.0, de.1));
    FindsSymbol(ll, s, p, lc + 257, ml);
    FindsSymbol(dl, s, q + le.1, dc, md);
    DecodeCopy(ll, dl, s, p, out, lc, le.0, dc, de.0);
  }

  lemma TableFacts(tab: Tables, len: nat, dist: nat)
    requires tab.Valid() && MIN_MATCH <= len <= MAX_MATCH && 1 <= dist <= 32768
    ensures tab.LenCode(len) < LENGTH_CODES && tab.DistCode(dist) < D_CODES
    ensures LenExtra(tab, len).1 == LengthExtra(tab.LenCode(len)) && DistExtraOf(tab, dist).1 == DistExtra(tab.DistCode(dist))
  {
  }

  lemma TokenDecodes(ll: seq<nat>, dl: seq<nat>, ml: nat, md: nat, tab: Tables, s: seq<bool>, p: nat, out: seq<byte>, t: Token)
    requires BothFit(ll, dl, ml, md) && TokenCoded(ll, dl, tab, t) && Applies(out, t)
    requires At(s, p, TokenBits(ll, dl, tab, t))
    ensures DecodeData(ll, dl, s, p, out) == DecodeData(ll, dl, s, p + |TokenBits(ll, dl, tab, t)|, Apply(out, t))
  {
    hide Fits, CodeWord, DecodeData, LengthBits, DistanceBits, CopyMatch, At, Tables.Valid;
    if t.Literal? {
      LiteralDecodes(ll, dl, ml, s, p, out, t.b);
    } else {
      MatchDecodes(ll, dl, ml, md, tab, s, p, out, t);
    }
  }

  /** Whatever the two codes are, a decoder that has them reads coded tokens and the end of the block
      as the bytes the tokens stand for. */
  lemma {:induction false} TokensDecode(ll: seq<nat>, dl: seq<nat>, ml: nat, md: nat, tab: Tables, s: seq<bool>, p: nat,
                                        out: seq<byte>, tokens: seq<Token>, out': seq<byte>)
    requires BothFit(ll, dl, ml, md) && Expands(out, tokens, out') && 256 < |ll| && ll[256] > 0
    requires forall i :: 0 <= i < |tokens| ==> TokenCoded(ll, dl, tab, tokens[i])
    requires At(s, p, TokensBits(ll, dl, tab, tokens) + CodeWord(ll, 256))
    ensures DecodeData(ll, dl, s, p, out) == Some((p + |TokensBits(ll, dl, tab, tokens)| + ll[256], out'))
    decreases tokens
  {
    hide CodeWord, DecodeData, TokenBits, TokenCoded, Fits, At, Apply;
    if tokens == [] {
      assert TokensBits(ll, dl, tab, tokens) + CodeWord(ll, 256) == CodeWord(ll, 256);
      EndDecodes(ll, dl, ml, s, p, out);
    } else {
      var t, rest := tokens[0], tokens[1..];
      var a, b, c := TokenBits(ll, dl, tab, t), TokensBits(ll, dl, tab, rest), CodeWord(ll, 256);
      assert a + b + c == a + (b + c);
      AtSplit(s, p, a, b + c);
      TokenDecodes(ll, dl, ml, md, tab, s, p, out, t);
      assert forall i :: 0 <= i < |rest| ==> rest[i] == tokens[i + 1];
      TokensDecode(ll, dl, ml, md, tab, s, p + |a|, Apply(out, t), rest, out');
    }
  }
}
