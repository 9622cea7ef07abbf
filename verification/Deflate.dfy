/** deflate(): lazy match selection over the sliding window, and what its output decodes to. */
module Deflating {
  import opened Bits
  import opened Inflate
  import opened HashChains
  import opened Windows
  import opened Tokens
  import opened BlockBuffers
  import opened BlockWriters

  const TOO_FAR := 4096

  // ---------- Matches in the input ----------

  /** `len` bytes at `pos` repeat those `dist` before. */
  ghost predicate Repeats(data: seq<byte>, pos: nat, dist: nat, len: nat) {
    1 <= dist <= pos && pos + len <= |data| && data[pos - dist..pos - dist + len] == data[pos..pos + len]
  }

  ghost predicate MatchAt(data: seq<byte>, pos: int, start: int, len: nat) {
    && MIN_MATCH <= len <= MAX_MATCH && 0 <= start < pos <= start + MAX_DIST && Repeats(data, pos, pos - start, len)
    && (len == MIN_MATCH ==> pos - start <= TOO_FAR)
  }

  /** What deflate() records: near enough matches only, and the shortest ones nearer still. */
  ghost predicate Admissible(tokens: seq<Token>) {
    forall i :: 0 <= i < |tokens| && tokens[i].Match? ==>
      && MIN_MATCH <= tokens[i].len <= MAX_MATCH && 1 <= tokens[i].dist <= MAX_DIST
      && (tokens[i].len == MIN_MATCH ==> tokens[i].dist <= TOO_FAR)
  }

  lemma {:induction false} CopyRepeats(data: seq<byte>, pos: nat, dist: nat, len: nat)
    requires Repeats(data, pos, dist, len)
    ensures CopyMatch(data[..pos], dist, len) == data[..pos + len]
    decreases len
  {
    if len > 0 {
      var a, b := data[pos - dist..pos - dist + len], data[pos..pos + len];
      assert data[pos] == b[0] == a[0] == data[pos - dist];
      assert data[..pos] + [data[..pos][pos - dist]] == data[..pos + 1];
      assert data[pos + 1 - dist..pos + 1 - dist + (len - 1)] == a[1..] == b[1..] == data[pos + 1..pos + 1 + (len - 1)];
      CopyRepeats(data, pos + 1, dist, len - 1);
    }
  }

  lemma LiteralExpands(data: seq<byte>, out: seq<byte>, tokens: seq<Token>, pos: nat)
    requires pos < |data| && Expands(out, tokens, data[..pos])
    ensures Expands(out, tokens + [TokenOf(0, data[pos])], data[..pos + 1])
  {
    hide Expands;
    ExpandsSnoc(out, tokens, data[..pos], Literal(data[pos]));
    assert data[..pos] + [data[pos]] == data[..pos + 1];
  }

  lemma MatchExpands(data: seq<byte>, out: seq<byte>, tokens: seq<Token>, pos: nat, start: nat, len: nat)
    requires MatchAt(data, pos, start, len) && Expands(out, tokens, data[..pos])
    ensures Expands(out, tokens + [TokenOf(pos - start, len - MIN_MATCH)], data[..pos + len])
  {
    hide Expands, CopyMatch;
    CopyRepeats(data, pos, pos - start, len);
    ExpandsSnoc(out, tokens, data[..pos], Match(len, pos - start));
  }

  /** A match in the window, cut to the valid bytes, is a match in the input. */
  lemma MatchInData(win: seq<byte>, data: seq<byte>, base: nat, e: nat, start: int, strstart: nat, len: nat, prevLength: nat, cut: nat)
    requires Found(win, start, strstart, len, prevLength) && MIN_MATCH <= cut <= len && strstart + cut <= e <= |win|
    requires base + e <= |data| && win[..e] == data[base..base + e] && (cut == MIN_MATCH ==> strstart - start <= TOO_FAR)
    ensures MatchAt(data, base + strstart, base + start, cut)
  {
    SameLess(win, start, strstart, len, cut);
    SliceOf(win, data, base, e, start, cut);
    SliceOf(win, data, base, e, strstart, cut);
  }

  lemma SliceOf(win: seq<byte>, data: seq<byte>, base: nat, e: nat, p: nat, n: nat)
    requires p + n <= e <= |win| && base + e <= |data| && win[..e] == data[base..base + e]
    ensures win[p..p + n] == data[base + p..base + p + n]
  {
    var a, b := win[p..p + n], data[base + p..base + p + n];
    forall i | 0 <= i < n
      ensures a[i] == b[i]
    {
      assert win[..e][p + i] == data[base..base + e][p + i];
    }
  }

  // ---------- Output so far ----------

  /** A decoder of anything that goes on after `sent` has produced the first `blk` bytes of the input. */
  ghost predicate Progress(sent: seq<bool>, start: seq<bool>, data: seq<byte>, blk: int) {
    start <= sent && 0 <= blk <= |data| && forall s :: sent <= s ==> Decode(s, |start|, []) == Decode(s, |sent|, data[..blk])
  }

  lemma ProgressOn(s0: seq<bool>, s1: seq<bool>, start: seq<bool>, data: seq<byte>, blk: nat, blk': nat, q: nat)
    requires Progress(s0, start, data, blk) && blk' <= |data| && Flushed(s0, s1, data[..blk], data[..blk'], false, q)
    ensures Progress(s1, start, data, blk')
  {
    hide DecodeBlock;
    assert s1[..q] == s1;
    forall s | s1 <= s
      ensures Decode(s, |start|, []) == Decode(s, |s1|, data[..blk'])
    {
      assert s0 <= s;
      assert DecodeBlock(s, |s0|, data[..blk]) == Some(Block(false, |s1|, data[..blk']));
    }
  }

  /** The whole output, whatever follows it, decodes to `out` and ends at `q`. */
  ghost predicate Complete(sent: seq<bool>, start: seq<bool>, out: seq<byte>, q: nat) {
    start <= sent && q <= |sent| < q + 8 && forall s :: sent <= s ==> Decode(s, |start|, []) == Some((q, out))
  }

  lemma ProgressEnds(s0: seq<bool>, s1: seq<bool>, start: seq<bool>, data: seq<byte>, blk: nat, n: nat, q: nat)
    requires Progress(s0, start, data, blk) && n <= |data| && Flushed(s0, s1, data[..blk], data[..n], true, q)
    ensures Complete(s1, start, data[..n], q)
  {
    hide DecodeBlock;
    forall s | s1 <= s
      ensures Decode(s, |start|, []) == Some((q, data[..n]))
    {
      assert s1[..q] <= s && s0 <= s;
      assert DecodeBlock(s, |s0|, data[..blk]) == Some(Block(true, q, data[..n]));
    }
  }

  // ---------- The loop ----------

  /** The search parameters of a compression level. */
  datatype Level = Level(maxChainLength: nat, maxLazyMatch: nat, goodMatch: nat, niceMatch: nat)

  class Deflater {
    const w: Window
    const e: Encoder
    const level: Level
    ghost const start: seq<bool>  // the output before the compressed data
    var matchAvailable: bool  // set if previous match exists
    var matchLength: nat      // length of best match
    ghost var trace: seq<Token>  // everything ct_tally was given

    constructor (w: Window, e: Encoder, level: Level, ghost start: seq<bool>)
      ensures this.w == w && this.e == e && this.level == level && this.start == start
      ensures !matchAvailable && matchLength == MIN_MATCH - 1 && trace == []
    {
      this.w := w;
      this.e := e;
      this.level := level;
      this.start := start;
      matchAvailable := false;
      matchLength := MIN_MATCH - 1;
      trace := [];
    }

    ghost function WindowParts(): set<object> {
      {w, w.src, w.window, w.prev, w.head}
    }

    ghost predicate Apart() {
      w.Shape() && level.maxChainLength >= 4 && WindowParts() !! e.repr && this !in WindowParts() && this !in e.repr
    }

    /** The window holds what was read; once its end is reached, that is all of the input. */
    ghost predicate WindowRead()
      requires w.Shape()
      reads w`strstart, w`lookahead, w`base, w`isize, w`crc, w`eofile, w.src, w.window
    {
      w.Filled() && w.Counted() && w.EndRoom() && (w.eofile && !w.src.failed ==> w.src.pos == |w.src.data|)
    }

    /** All strings before `n` are inserted. */
    ghost predicate WindowOk(n: nat)
      requires w.Shape()
      reads w`strstart, w`lookahead, w`base, w`isize, w`crc, w`insH, w`eofile, w.src, w.window, w.prev, w.head
    {
      WindowRead() && w.Hashed(n)
    }

    /** Blocks sent and tokens buffered stand for the first `done` bytes of the input. */
    ghost predicate Recorded(done: int)
      reads w`base, w`blockStart, `trace, e.repr
    {
      && e.Valid() && 0 <= w.base + w.blockStart <= done <= |w.src.data|
      && Expands(w.src.data[..w.base + w.blockStart], e.Tokens(), w.src.data[..done])
      && Progress(e.Sent(), start, w.src.data, w.base + w.blockStart)
      && Expands([], trace, w.src.data[..done]) && Admissible(trace)
    }

    ghost predicate OutputOk(done: int)
      reads w`base, w`blockStart, `trace, e.repr
    {
      Recorded(done) && e.b.Room()
    }

    /** The bytes of the current block, if the window still has them all. */
    method BlockBytes() returns (buf: Option<seq<byte>>)
      requires w.Shape() && w.Filled() && 0 <= w.base + w.blockStart && w.blockStart <= w.strstart
      ensures buf.Some? <==> w.blockStart >= 0
      ensures buf.Some? ==> |buf.value| == w.strstart - w.blockStart
      ensures buf.Some? ==> w.src.data[..w.base + w.strstart] == w.src.data[..w.base + w.blockStart] + buf.value
    {
      if w.blockStart >= 0 {
        SliceOf(w.window[..], w.src.data, w.base, w.strstart + w.lookahead, w.blockStart, w.strstart - w.blockStart);
        return Some(w.window[w.blockStart..w.strstart]);
      }
      return None;
    }

    /** FLUSH_BLOCK(0) */
    method FlushHere()
      requires Apart() && w.Filled() && w.strstart <= 0xffff && Recorded(w.base + w.strstart)
      modifies e.repr, w`blockStart
      ensures w.blockStart == w.strstart && OutputOk(w.base + w.strstart)
    {
      hide Expands, Progress, Encoder.Valid, Encoder.Sent, Encoder.Tokens, Flushed, Window.Filled, Window.Shape;
      ghost var data, blk, s0 := w.src.data, w.base + w.blockStart, e.Sent();
      var buf := BlockBytes();
      ghost var q := e.Flush(buf, w.strstart - w.blockStart, false, data[..blk], data[..w.base + w.strstart]);
      ProgressOn(s0, e.Sent(), start, data, blk, w.base + w.strstart, q);
      w.blockStart := w.strstart;
      NoTokens(data[..w.base + w.strstart]);
    }

    /** The longest match at strstart, cut to the lookahead and without distant short ones. */
    method Search(hashHead: nat) returns (len: nat)
      requires w.Shape() && level.maxChainLength >= 4 && WindowOk(w.strstart + 1)
      requires Candidate(w.window[..], hashHead, w.strstart, w.hashBits) && 1 <= w.prevLength <= MAX_MATCH
      requires Earlier(w.window[..], hashHead, w.strstart, HashAt(w.window[..], w.strstart, w.hashBits), w.hashBits)
      requires w.lookahead >= 1 && w.strstart < 2 * WSIZE
      modifies w`matchStart
      ensures 1 <= len <= MAX_MATCH && len <= w.lookahead
      ensures len >= MIN_MATCH && len > w.prevLength ==> MatchAt(w.src.data, w.base + w.strstart, w.base + w.matchStart, len)
    {
      hide Chains, Rolled, HashAt, Same, Repeats, Found, Fold, Earlier;
      ghost var win := w.window[..];
      ghost var seen;
      len, seen := w.LongestMatch(hashHead, level.maxChainLength, level.goodMatch, level.niceMatch);
      FoundBounds(win, w.matchStart, w.strstart, len, w.prevLength);
      ghost var full := len;
      if len > w.lookahead {
        len := w.lookahead;
      }
      if len == MIN_MATCH && w.strstart - w.matchStart > TOO_FAR {
        len := len - 1;
      }
      if len >= MIN_MATCH && len > w.prevLength {
        MatchInData(win, w.src.data, w.base, w.strstart + w.lookahead, w.matchStart, w.strstart, full, w.prevLength, len);
      }
    }

    /** The other strings inside a match of `prevLength` bytes also become findable. */
    method InsertMatch()
      requires w.Shape() && WindowOk(w.strstart + 1) && w.prevLength >= MIN_MATCH && w.prevLength <= w.lookahead + 1
      modifies w`strstart, w`lookahead, w`prevLength, w`insH, w.prev, w.head
      ensures w.strstart == old(w.strstart) + old(w.prevLength) - 1 && w.lookahead == old(w.lookahead) - (old(w.prevLength) - 1)
      ensures WindowOk(w.strstart) && w.Filled()
    {
      hide Chains, Rolled, Fold, Earlier;
      ghost var s0, n := w.strstart, w.prevLength;
      w.lookahead := w.lookahead - (w.prevLength - 1);
      w.prevLength := w.prevLength - 2;
      while true
        invariant w.prevLength >= 1 && w.strstart == s0 + (n - 2 - w.prevLength) && w.lookahead == old(w.lookahead) - (n - 1)
        invariant w.Hashed(w.strstart + 1)
        decreases w.prevLength
      {
        w.strstart := w.strstart + 1;
        var _ := w.InsertString(w.strstart);
        w.prevLength := w.prevLength - 1;
        if w.prevLength == 0 { break; }
      }
      w.strstart := w.strstart + 1;
    }

    /** The strings at strstart and before it are inserted, and there is room before the end of the window. */
    ghost predicate AtString()
      requires w.Shape()
      reads WindowParts()
    {
      WindowOk(w.strstart + 1) && w.lookahead >= 1 && (!w.eofile ==> w.lookahead >= MIN_LOOKAHEAD)
    }

    method TallyMatch(prevMatch: int) returns (flush: bool)
      requires Apart() && OutputOk(w.base + w.strstart - 1) && w.strstart - 1 + w.prevLength <= 2 * WSIZE
      requires MatchAt(w.src.data, w.base + w.strstart - 1, w.base + prevMatch, w.prevLength)
      modifies e.repr, `trace
      ensures Recorded(w.base + w.strstart - 1 + w.prevLength) && (!flush ==> OutputOk(w.base + w.strstart - 1 + w.prevLength))
    {
      hide Expands, Progress, Encoder.Valid, Encoder.Sent, Encoder.Tokens, Repeats, BlockBuffer.Room, Admissible;
      ghost var data, blk := w.src.data, w.base + w.blockStart;
      MatchExpands(data, data[..blk], e.Tokens(), w.base + w.strstart - 1, w.base + prevMatch, w.prevLength);
      MatchExpands(data, [], trace, w.base + w.strstart - 1, w.base + prevMatch, w.prevLength);
      MatchSize(data, w.base + w.strstart - 1, w.base + prevMatch, w.prevLength);
      AdmitMatch(trace, data, w.base + w.strstart - 1, w.base + prevMatch, w.prevLength);
      flush := e.Tally(w.strstart - 1 - prevMatch, w.prevLength - MIN_MATCH, w.strstart - w.blockStart);
      trace := trace + [TokenOf(w.strstart - 1 - prevMatch, w.prevLength - MIN_MATCH)];
    }

    method TallyLiteral() returns (flush: bool)
      requires Apart() && w.Filled() && OutputOk(w.base + w.strstart - 1) && w.strstart >= 1
      modifies e.repr, `trace
      ensures Recorded(w.base + w.strstart) && (!flush ==> OutputOk(w.base + w.strstart))
    {
      hide Expands, Progress, Encoder.Valid, Encoder.Sent, Encoder.Tokens, BlockBuffer.Room, Admissible;
      ghost var data, pos, blk := w.src.data, w.base + w.strstart - 1, w.base + w.blockStart;
      ByteOf(w.window[..], data, w.base, w.strstart + w.lookahead, w.strstart - 1);
      LiteralExpands(data, data[..blk], e.Tokens(), pos);
      LiteralExpands(data, [], trace, pos);
      AdmitLiteral(trace, w.window[w.strstart - 1]);
      flush := e.Tally(0, w.window[w.strstart - 1], w.strstart - w.blockStart);
      trace := trace + [TokenOf(0, w.window[w.strstart - 1])];
    }

    lemma EndOfString()
      requires w.Shape() && AtString()
      ensures w.Filled() && w.strstart + w.lookahead <= 2 * WSIZE && (w.eofile ==> w.strstart + w.lookahead <= 2 * WSIZE - 2)
    {
    }

    /** The match of the position before is recorded. */
    method OutputMatch(prevMatch: int)
      requires Apart() && AtString() && OutputOk(w.base + w.strstart - 1) && w.prevLength <= w.lookahead + 1
      requires MatchAt(w.src.data, w.base + w.strstart - 1, w.base + prevMatch, w.prevLength)
      modifies e.repr, `trace, w`blockStart, w`strstart, w`lookahead, w`prevLength, w`insH, w.prev, w.head
      ensures WindowOk(w.strstart) && OutputOk(w.base + w.strstart)
      ensures w.strstart > old(w.strstart) && (!w.eofile ==> w.lookahead >= 2)
    {
      hide Recorded, MatchAt, OutputOk, WindowOk, Window.Filled;
      EndOfString();
      MatchSize(w.src.data, w.base + w.strstart - 1, w.base + prevMatch, w.prevLength);
      var flush := TallyMatch(prevMatch);
      InsertMatch();
      if flush {
        FlushHere();
      }
    }

    /** The byte before strstart is recorded as a literal. */
    method OutputLiteral()
      requires Apart() && AtString() && OutputOk(w.base + w.strstart - 1) && w.strstart >= 1
      modifies e.repr, `trace, w`blockStart
      ensures AtString() && OutputOk(w.base + w.strstart)
    {
      hide Recorded, OutputOk, WindowOk, Window.Filled;
      EndOfString();
      var flush := TallyLiteral();
      if flush {
        FlushHere();
      }
    }

    /** A match found at the previous position and not yet output. */
    ghost predicate Pending()
      reads this, w
    {
      && 1 <= matchLength <= MAX_MATCH && (matchAvailable ==> w.strstart >= 1)
      && (matchLength >= MIN_MATCH ==>
            matchAvailable && matchLength <= w.lookahead + 1
            && MatchAt(w.src.data, w.base + w.strstart - 1, w.base + w.matchStart, matchLength))
    }

    /** The string at strstart becomes findable, and the best earlier match of it is looked for unless the last one was good enough. */
    method Consider() returns (prevMatch: int)
      requires Apart() && WindowOk(w.strstart) && w.lookahead >= 1 && (w.lookahead >= MIN_LOOKAHEAD || w.eofile)
      requires 1 <= matchLength <= MAX_MATCH
      modifies `matchLength, w`insH, w`prevLength, w`matchStart, w.prev, w.head
      ensures AtString() && prevMatch == old(w.matchStart) && w.prevLength == old(matchLength) && 1 <= matchLength <= MAX_MATCH
      ensures matchLength >= MIN_MATCH && matchLength > w.prevLength ==>
                matchLength <= w.lookahead && MatchAt(w.src.data, w.base + w.strstart, w.base + w.matchStart, matchLength)
    {
      hide Chains, Rolled, HashAt, Fold, MatchAt, Earlier;
      var hashHead := w.InsertString(w.strstart);
      w.prevLength := matchLength;
      prevMatch := w.matchStart;
      matchLength := MIN_MATCH - 1;
      if hashHead != 0 && w.prevLength < level.maxLazyMatch && w.strstart - hashHead <= MAX_DIST {
        HeadIsCandidate(w.window[..], hashHead, w.strstart, w.hashBits);
        matchLength := Search(hashHead);
      }
    }

    /** Afterwards either the lookahead is large enough for any match or all of the input is in the window. */
    method Refill(ghost done: nat)
      requires Apart() && WindowOk(w.strstart) && OutputOk(done) && Pending() && w.strstart >= 1 && (!w.eofile ==> w.lookahead >= 2)
      modifies WindowParts()
      ensures WindowOk(w.strstart) && OutputOk(done) && Pending() && w.base + w.strstart == old(w.base + w.strstart)
      ensures w.lookahead >= MIN_LOOKAHEAD || w.eofile
    {
      hide Chains, Rolled, Fold, MatchAt, Expands, Progress, Encoder.Valid, BlockBuffer.Room, Encoder.Sent, Encoder.Tokens;
      w.FillWindowIfNeeded();
    }

    /** How much of the input is in the output or the buffered tokens. */
    ghost function Done(): int
      reads w`base, w`strstart, `matchAvailable
    {
      w.base + w.strstart - if matchAvailable then 1 else 0
    }

    /** One step of the loop: insert, search, and output what is decided. */
    method Step()
      requires Apart() && WindowOk(w.strstart) && w.lookahead >= 1 && (w.lookahead >= MIN_LOOKAHEAD || w.eofile)
      requires Pending() && OutputOk(Done())
      modifies this, e.repr, w`blockStart, w`strstart, w`lookahead, w`prevLength, w`insH, w`matchStart, w.prev, w.head
      ensures WindowOk(w.strstart) && Pending() && OutputOk(Done()) && w.base == old(w.base)
      ensures w.strstart > old(w.strstart) && (!w.eofile ==> w.lookahead >= 2)
    {
      hide Recorded, MatchAt, OutputOk, WindowOk;
      var prevMatch := Consider();
      if w.prevLength >= MIN_MATCH && matchLength <= w.prevLength {
        OutputMatch(prevMatch);
        matchAvailable := false;
        matchLength := MIN_MATCH - 1;
      } else {
        if matchAvailable {
          OutputLiteral();
        } else {
          matchAvailable := true;
        }
        Advance();
      }
    }

    method Advance()
      requires w.Shape() && AtString()
      modifies w`strstart, w`lookahead
      ensures w.strstart == old(w.strstart) + 1 && w.lookahead == old(w.lookahead) - 1 && WindowOk(w.strstart)
    {
      hide Chains, Rolled, Fold;
      w.strstart := w.strstart + 1;
      w.lookahead := w.lookahead - 1;
    }

    /** Output what is left and the end of the stream. */
    method Finish() returns (ghost q: nat)
      requires Apart() && WindowRead() && w.eofile && w.lookahead == 0 && OutputOk(Done()) && (matchAvailable ==> w.strstart >= 1)
      modifies e.repr, `trace
      ensures e.Valid() && e.sink.biValid == 0 && Complete(e.Sent(), start, w.src.data[..w.src.pos], q)
      ensures Expands([], trace, w.src.data[..w.src.pos]) && Admissible(trace)
    {
      hide Expands, Progress, Encoder.Valid, Encoder.Sent, Encoder.Tokens, Fold, BlockBuffer.Room, Flushed, Complete, Admissible;
      if matchAvailable {
        var _ := TallyLiteral();
      }
      ghost var data, pos, blk, s0 := w.src.data, w.base + w.strstart, w.base + w.blockStart, e.Sent();
      var buf := BlockBytes();
      q := e.Flush(buf, w.strstart - w.blockStart, true, data[..blk], data[..pos]);
      ProgressEnds(s0, e.Sent(), start, data, blk, pos, q);
    }

    /** A whole file: what was read is what the output decodes to. */
    method Deflate() returns (ghost q: nat)
      requires Apart() && WindowRead() && w.base == 0 && w.strstart == 0 && OutputOk(0)
      requires !matchAvailable && matchLength == MIN_MATCH - 1
      requires w.lookahead > 0 ==> w.Hashed(0)
      requires w.lookahead >= MIN_LOOKAHEAD || w.eofile
      modifies this, e.repr, WindowParts()
      ensures e.Valid() && e.sink.biValid == 0 && WindowRead() && w.eofile
      ensures Complete(e.Sent(), start, w.src.data[..w.src.pos], q)
      ensures Expands([], trace, w.src.data[..w.src.pos]) && Admissible(trace)
    {
      hide Expands, Admissible, Recorded, MatchAt, OutputOk, WindowRead, Window.Hashed, Complete;
      PosInData();
      while w.lookahead != 0
        invariant WindowRead() && (w.lookahead > 0 ==> w.Hashed(w.strstart)) && (w.lookahead >= MIN_LOOKAHEAD || w.eofile)
        invariant Pending() && OutputOk(Done()) && w.base + w.strstart <= |w.src.data|
        decreases |w.src.data| - (w.base + w.strstart)
      {
        Step();
        Refill(Done());
        PosInData();
      }
      q := Finish();
    }

    lemma PosInData()
      requires w.Shape() && WindowRead()
      ensures w.base + w.strstart + w.lookahead <= |w.src.data|
    {
    }
  }

  lemma HeadIsCandidate(win: seq<byte>, m: nat, strstart: nat, hb: nat)
    requires strstart + 2 < |win| && Earlier(win, m, strstart, HashAt(win, strstart, hb), hb) && m != 0 && strstart - m <= MAX_DIST
    ensures Candidate(win, m, strstart, hb)
  {
    hide HashAt;
  }

  lemma AdmitMatch(tokens: seq<Token>, data: seq<byte>, pos: int, start: int, len: nat)
    requires MatchAt(data, pos, start, len) && Admissible(tokens)
    ensures Admissible(tokens + [TokenOf(pos - start, len - MIN_MATCH)])
  {
  }

  lemma AdmitLiteral(tokens: seq<Token>, b: byte)
    requires Admissible(tokens)
    ensures Admissible(tokens + [TokenOf(0, b)])
  {
  }

  lemma MatchSize(data: seq<byte>, pos: int, start: int, len: nat)
    requires MatchAt(data, pos, start, len)
    ensures pos + len <= |data| && 1 <= pos - start <= 32768 && MIN_MATCH <= len <= MAX_MATCH
  {
  }

  lemma ByteOf(win: seq<byte>, data: seq<byte>, base: nat, e: nat, p: nat)
    requires p < e <= |win| && base + e <= |data| && win[..e] == data[base..base + e]
    ensures win[p] == data[base + p]
  {
    assert win[..e][p] == data[base..base + e][p];
  }

  lemma FoundBounds(win: seq<byte>, start: int, strstart: nat, len: nat, prevLength: nat)
    requires len == prevLength || Found(win, start, strstart, len, prevLength)
    ensures len > prevLength ==> len <= MAX_MATCH
    ensures prevLength <= len
  {
  }

  lemma NoTokens(out: seq<byte>)
    ensures Expands(out, [], out)
  {
  }
}
