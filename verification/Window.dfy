/** The sliding window of deflate(): longest_match, INSERT_STRING and fill_window. */
module Windows {
  import opened Bits
  import opened Inflate
  import opened HashChains

  const MIN_LOOKAHEAD := MAX_MATCH + MIN_MATCH + 1
  const MAX_DIST := WSIZE - MIN_LOOKAHEAD

  /** The input: reads give any non-empty part of what is left, or nothing at its end or on an error. */
  class Source {
    const data: seq<byte>
    var pos: nat
    var failed: bool

    ghost predicate Valid()
      reads this
    {
      pos <= |data|
    }

    constructor (data: seq<byte>)
      ensures Valid() && this.data == data && pos == 0 && !failed
    {
      this.data := data;
      pos := 0;
      failed := false;
    }

    /** Read at most `size` bytes; an empty result is the end of the input or an error. */
    method Read(size: nat) returns (chunk: seq<byte>)
      requires Valid() && size > 0
      modifies this
      ensures Valid() && |chunk| <= size && pos == old(pos) + |chunk| && chunk == data[old(pos)..pos]
      ensures old(failed) ==> failed
      ensures chunk == [] && !failed ==> pos == |data|
    {
      var left := |data| - pos;
      var n: nat :| n <= size && n <= left;
      chunk := data[pos..pos + n];
      pos := pos + n;
      if n == 0 && left > 0 {
        failed := true;
      }
    }
  }

  /** Two strings of the window agree in their first `n` bytes. */
  ghost predicate Same(win: seq<byte>, a: int, b: int, n: nat) {
    0 <= a && 0 <= b && a + n <= |win| && b + n <= |win| && win[a..a + n] == win[b..b + n]
  }

  lemma SameMore(win: seq<byte>, a: nat, b: nat, n: nat)
    requires Same(win, a, b, n) && a + n < |win| && b + n < |win| && win[a + n] == win[b + n]
    ensures Same(win, a, b, n + 1)
  {
    assert win[a..a + n + 1] == win[a..a + n] + [win[a + n]] && win[b..b + n + 1] == win[b..b + n] + [win[b + n]];
  }

  lemma SameLess(win: seq<byte>, a: nat, b: nat, n: nat, k: nat)
    requires Same(win, a, b, n) && k <= n
    ensures Same(win, a, b, k)
  {
    assert win[a..a + k] == win[a..a + n][..k] && win[b..b + k] == win[b..b + n][..k];
  }

  /** How far longest_match looks back. */
  function Limit(strstart: nat): nat { if strstart > MAX_DIST then strstart - MAX_DIST else 0 }

  /** `m` is on the hash chain of the string at `strstart`. */
  ghost predicate Candidate(win: seq<byte>, m: nat, strstart: nat, hb: nat) {
    && 0 < m < strstart <= m + MAX_DIST && strstart + 2 < |win|
    && HashAt(win, m, hb) == HashAt(win, strstart, hb)
  }

  /** A real match at `strstart`, better than `prevLength`. */
  ghost predicate Found(win: seq<byte>, start: int, strstart: nat, len: nat, prevLength: nat) {
    len > prevLength && MIN_MATCH <= len <= MAX_MATCH && 0 < start < strstart <= start + MAX_DIST && Same(win, start, strstart, len)
  }

  lemma Third(win: seq<byte>, m: nat, strstart: nat, hb: nat)
    requires Candidate(win, m, strstart, hb) && 8 <= hb && win[m] == win[strstart] && win[m + 1] == win[strstart + 1]
    ensures Same(win, m, strstart, 3)
  {
    hide Hash3;
    ThirdByte(win[m], win[m + 1], win[m + 2], win[strstart + 2], hb);
  }

  /** Following a link stays on the chain. */
  lemma NextCandidate(win: seq<byte>, head: seq<nat>, prev: seq<nat>, m: nat, strstart: nat, hb: nat)
    requires Chains(win, head, prev, strstart + 1, hb) && Candidate(win, m, strstart, hb)
    ensures prev[m % WSIZE] > Limit(strstart) ==> Candidate(win, prev[m % WSIZE], strstart, hb) && prev[m % WSIZE] < m
  {
    hide HashAt, Pow2;
    assert LinkOk(win, prev, m, hb);
  }

  lemma SameAt(win: seq<byte>, a: nat, b: nat, n: nat, i: nat)
    requires Same(win, a, b, n) && i < n
    ensures win[a + i] == win[b + i]
  {
    assert win[a + i] == win[a..a + n][i] && win[b + i] == win[b..b + n][i];
  }

  lemma Differs(win: seq<byte>, a: nat, b: nat, i: nat, n: nat)
    requires i < n && a + i < |win| && b + i < |win| && win[a + i] != win[b + i]
    ensures !Same(win, a, b, n)
  {
    if Same(win, a, b, n) {
      SameAt(win, a, b, n, i);
    }
  }

  /** No string in `seen` has more than `len` bytes in common with the one at `strstart`. */
  ghost predicate NoneLonger(win: seq<byte>, seen: seq<nat>, strstart: nat, len: nat) {
    len < MAX_MATCH ==> forall i :: 0 <= i < |seen| ==> !Same(win, seen[i], strstart, len + 1)
  }

  lemma SeenOne(win: seq<byte>, seen: seq<nat>, cur: nat, strstart: nat, best: nat, best': nat, i: nat)
    requires NoneLonger(win, seen, strstart, best) && best <= best'
    requires best' < MAX_MATCH ==> i <= best' && cur + i < |win| && strstart + i < |win| && win[cur + i] != win[strstart + i]
    ensures NoneLonger(win, seen + [cur], strstart, best')
  {
    hide Same;
    if best' < MAX_MATCH {
      Differs(win, cur, strstart, i, best' + 1);
      forall k | 0 <= k < |seen + [cur]|
        ensures !Same(win, (seen + [cur])[k], strstart, best' + 1)
      {
        if k < |seen| && Same(win, seen[k], strstart, best' + 1) {
          SameLess(win, seen[k], strstart, best' + 1, best + 1);
        }
      }
    }
  }

  lemma NoneSeen(win: seq<byte>, strstart: nat, len: nat)
    ensures NoneLonger(win, [], strstart, len)
  {
  }

  /** The strings that a search has looked at: some way along a hash chain. */
  ghost predicate Along(prev: seq<nat>, cur: nat, seen: seq<nat>) {
    && |prev| == WSIZE && (seen != [] ==> seen[0] == cur)
    && forall i :: 0 < i < |seen| ==> seen[i] == prev[seen[i - 1] % WSIZE]
  }

  lemma AlongStarts(prev: seq<nat>, cur: nat)
    requires |prev| == WSIZE
    ensures Along(prev, cur, [] + [cur])
  {
  }

  lemma AlongMore(prev: seq<nat>, cur: nat, seen: seq<nat>)
    requires Along(prev, cur, seen) && seen != [] && |prev| == WSIZE
    ensures Along(prev, cur, seen + [prev[seen[|seen| - 1] % WSIZE]])
  {
  }

  /** Every string of the key from the last one looked at on has been looked at. */
  ghost predicate Recent(win: seq<byte>, seen: seq<nat>, strstart: nat, hb: nat) {
    && seen != [] && strstart + 2 < |win|
    && forall q :: seen[|seen| - 1] <= q < strstart && HashAt(win, q, hb) == HashAt(win, strstart, hb) ==> q in seen
  }

  lemma RecentStarts(win: seq<byte>, cur: nat, strstart: nat, hb: nat)
    requires strstart + 2 < |win| && Earlier(win, cur, strstart, HashAt(win, strstart, hb), hb)
    ensures Recent(win, [] + [cur], strstart, hb)
  {
    hide HashAt;
  }

  lemma RecentMore(win: seq<byte>, head: seq<nat>, prev: seq<nat>, seen: seq<nat>, strstart: nat, hb: nat)
    requires Chains(win, head, prev, strstart + 1, hb) && Recent(win, seen, strstart, hb)
    requires Candidate(win, seen[|seen| - 1], strstart, hb)
    ensures Recent(win, seen + [prev[seen[|seen| - 1] % WSIZE]], strstart, hb)
  {
    hide HashAt, Pow2;
    var cur := seen[|seen| - 1];
    assert LinkOk(win, prev, cur, hb);
    var next := prev[cur % WSIZE];
    forall q | next <= q < strstart && HashAt(win, q, hb) == HashAt(win, strstart, hb)
      ensures q in seen + [next]
    {
      if q >= cur {
        assert q in seen;
      }
    }
  }

  /** From `low` on no string has more than `len` bytes in common with the one at `strstart`. */
  ghost predicate NothingLonger(win: seq<byte>, low: nat, strstart: nat, len: nat) {
    len < MAX_MATCH ==> NoneSame(win, low, strstart, len + 1)
  }

  ghost predicate NoneSame(win: seq<byte>, low: nat, strstart: nat, n: nat) {
    forall q: nat :: low <= q < strstart ==> !Same(win, q, strstart, n)
  }

  /** What a search has covered: all that longest_match may reach, or all from the last string looked at on. */
  function Covered(prev: seq<nat>, seen: seq<nat>, strstart: nat): nat
    requires |prev| == WSIZE && seen != []
  {
    if prev[seen[|seen| - 1] % WSIZE] <= Limit(strstart) then Limit(strstart) + 1 else seen[|seen| - 1]
  }

  lemma SameKey(win: seq<byte>, q: nat, strstart: nat, n: nat, hb: nat)
    requires Same(win, q, strstart, n) && n >= 3
    ensures HashAt(win, q, hb) == HashAt(win, strstart, hb)
  {
    hide Hash3, Same;
    SameLess(win, q, strstart, n, 3);
    SameFits(win, q, strstart, 3);
    SameAt(win, q, strstart, 3, 0);
    SameAt(win, q, strstart, 3, 1);
    SameAt(win, q, strstart, 3, 2);
  }

  lemma SameFits(win: seq<byte>, a: nat, b: nat, n: nat)
    requires Same(win, a, b, n)
    ensures a + n <= |win| && b + n <= |win|
  {
  }

  /** No string longer among those looked at, and all of the key looked at: none longer at all. */
  lemma LongestOfAll(win: seq<byte>, head: seq<nat>, prev: seq<nat>, seen: seq<nat>, strstart: nat, len: nat, hb: nat)
    requires Chains(win, head, prev, strstart + 1, hb) && Recent(win, seen, strstart, hb) && Candidate(win, seen[|seen| - 1], strstart, hb)
    requires NoneLonger(win, seen, strstart, len) && len >= 2
    ensures NothingLonger(win, Covered(prev, seen, strstart), strstart, len)
  {
    hide HashAt, Pow2, Chains, Same, Candidate, NoneLonger;
    ChainSizes(win, head, prev, strstart + 1, hb);
    if len < MAX_MATCH {
      var n := len + 1;
      forall q: nat | Covered(prev, seen, strstart) <= q < strstart
        ensures !Same(win, q, strstart, n)
      {
        if Same(win, q, strstart, n) {
          SameKey(win, q, strstart, n, hb);
          CoveredSeen(win, head, prev, seen, strstart, hb, q);
          SeenNot(win, seen, strstart, len, q);
        }
      }
    }
  }

  lemma CoveredSeen(win: seq<byte>, head: seq<nat>, prev: seq<nat>, seen: seq<nat>, strstart: nat, hb: nat, q: nat)
    requires Chains(win, head, prev, strstart + 1, hb) && Recent(win, seen, strstart, hb) && Candidate(win, seen[|seen| - 1], strstart, hb)
    requires Covered(prev, seen, strstart) <= q < strstart && HashAt(win, q, hb) == HashAt(win, strstart, hb)
    ensures q in seen
  {
    hide HashAt, Pow2, Chains, Candidate;
    RecentMore(win, head, prev, seen, strstart, hb);
  }

  lemma SeenNot(win: seq<byte>, seen: seq<nat>, strstart: nat, len: nat, q: nat)
    requires NoneLonger(win, seen, strstart, len) && len < MAX_MATCH && q in seen
    ensures !Same(win, q, strstart, len + 1)
  {
    hide Same;
  }

  /** How many strings a search may look at. */
  function ChainLimit(prevLength: nat, maxChainLength: nat, goodMatch: nat): nat {
    if prevLength >= goodMatch then maxChainLength / 4 else maxChainLength
  }

  /** Why a search stops: the match is good enough, the chain is too long, or it ends. */
  ghost predicate Stops(prev: seq<nat>, seen: seq<nat>, strstart: nat, limit: nat, best: nat, niceMatch: nat) {
    |prev| == WSIZE && seen != [] && (best >= niceMatch || |seen| == limit || prev[seen[|seen| - 1] % WSIZE] <= Limit(strstart))
  }

  /** The comparison of longest_match: 8 bytes between checks for the end; the first three are known to be equal. */
  method Compare(window: array<byte>, m: nat, strstart: nat) returns (len: nat)
    requires m < strstart && strstart + MAX_MATCH < window.Length && Same(window[..], m, strstart, 3)
    ensures MIN_MATCH <= len <= MAX_MATCH && Same(window[..], m, strstart, len)
    ensures len < MAX_MATCH ==> window[m + len] != window[strstart + len]
  {
    hide Same;
    ghost var win := window[..];
    var scan: nat := 2;
    ghost var r: nat := 0;
    while true
      invariant scan == 2 + 8 * r < MAX_MATCH && Same(win, m, strstart, scan + 1)
      decreases MAX_MATCH - scan
    {
      ghost var s0 := scan;
      var k: nat, equal := 0, true;
      while k < 8 && equal
        invariant k <= 8 && scan == s0 + k && (k == 0 ==> equal)
        invariant Same(win, m, strstart, if equal then scan + 1 else scan)
        invariant !equal ==> scan <= MAX_MATCH && window[m + scan] != window[strstart + scan]
        decreases 8 - k
      {
        scan := scan + 1;
        k := k + 1;
        equal := window[strstart + scan] == window[m + scan];
        if equal {
          SameMore(win, m, strstart, scan);
        }
      }
      if !equal || scan >= MAX_MATCH {
        if equal {
          SameLess(win, m, strstart, scan + 1, scan);
        }
        break;
      }
      r := r + 1;
    }
    len := scan;
  }

  /** A 32-bit checksum of a byte sequence, one `step` per byte. */
  function Fold(step: (nat, byte) -> nat, c: nat, data: seq<byte>): nat {
    if data == [] then c else step(Fold(step, c, data[..|data| - 1]), data[|data| - 1]) % 0x1_0000_0000
  }

  lemma {:induction false} FoldAppend(step: (nat, byte) -> nat, c: nat, a: seq<byte>, b: seq<byte>)
    ensures Fold(step, c, a + b) == Fold(step, Fold(step, c, a), b)
    decreases |b|
  {
    if b == [] {
      assert a + b == a;
    } else {
      FoldAppend(step, c, a, b[..|b| - 1]);
      assert (a + b)[..|a + b| - 1] == a + b[..|b| - 1];
    }
  }

  class Window {
    const hashBits: nat
    const crcStep: (nat, byte) -> nat
    const src: Source
    const window: array<byte>  // 2 * WSIZE bytes, and some after them that a search may look at
    const prev: array<nat>     // WSIZE entries
    const head: array<nat>     // HASH_SIZE entries
    var strstart: nat
    var lookahead: nat
    var matchStart: int
    var prevLength: nat
    var insH: nat
    var blockStart: int
    var eofile: bool
    var isize: nat
    var crc: nat
    ghost var base: nat        // where in the input the window begins

    ghost predicate Shape() {
      && 13 <= hashBits <= 15 && window.Length >= 2 * WSIZE + MAX_MATCH
      && prev.Length == WSIZE && head.Length == Pow2(hashBits) && prev != head
    }

    /** The window holds the input from `base` to what has been read. */
    ghost predicate Filled()
      requires Shape()
      reads `strstart, `lookahead, `base, src, window
    {
      && src.Valid() && strstart + lookahead <= 2 * WSIZE
      && base + strstart + lookahead == src.pos
      && window[..strstart + lookahead] == src.data[base..src.pos]
    }

    /** isize and crc cover everything read. */
    ghost predicate Counted()
      reads `isize, `crc, src
    {
      src.Valid() && isize == src.pos && crc == Fold(crcStep, 0xffff_ffff, src.data[..src.pos])
    }

    /** Every string before `n` is in the hash table. */
    ghost predicate Chained(n: nat)
      requires Shape()
      reads window, prev, head
    {
      Chains(window[..], head[..], prev[..], n, hashBits)
    }

    ghost predicate Hashed(n: nat)
      requires Shape()
      reads `insH, window, prev, head
    {
      Chained(n) && Rolled(insH, window[..], n, hashBits)
    }

    /** At the end of the input some room is left after it. */
    ghost predicate EndRoom()
      reads `eofile, `strstart, `lookahead
    {
      eofile ==> strstart + lookahead <= 2 * WSIZE - 2
    }

    /** The state every file starts with: the window and the hash table hold anything. */
    constructor (src: Source, hashBits: nat, crcStep: (nat, byte) -> nat)
      requires 13 <= hashBits <= 15 && src.Valid() && src.pos == 0
      ensures Shape() && Filled()
      ensures this.src == src && this.hashBits == hashBits && this.crcStep == crcStep && fresh(window) && fresh(prev) && fresh(head)
      ensures strstart == 0 && lookahead == 0 && blockStart == 0 && matchStart == 0 && insH == 0 && !eofile && Counted() && base == 0
    {
      this.hashBits := hashBits;
      this.crcStep := crcStep;
      this.src := src;
      window := new byte[2 * WSIZE + MAX_MATCH];
      prev := new nat[WSIZE];
      head := new nat[Pow2(hashBits)];
      strstart, lookahead, matchStart, prevLength, insH, blockStart := 0, 0, 0, 0, 0, 0;
      eofile := false;
      isize, crc, base := 0, 0xffff_ffff, 0;
    }

    /** The string at `s` becomes the newest of its hash chain; `matchHead` is the one that was before. */
    method InsertString(s: nat) returns (matchHead: nat)
      requires Shape() && Hashed(s) && s + 2 < window.Length
      modifies `insH, prev, head
      ensures Hashed(s + 1) && Earlier(window[..], matchHead, s, HashAt(window[..], s, hashBits), hashBits)
    {
      hide Chains, Rolled, HashAt, Update, Pow2, Earlier;
      ghost var win, h0, p0 := window[..], head[..], prev[..];
      RollOn(insH, win, s, hashBits);
      ChainSizes(win, h0, p0, s, hashBits);
      insH := Update(insH, window[s + 2], hashBits);
      InsertKeeps(win, h0, p0, s, hashBits);
      matchHead := head[insH];
      prev[s % WSIZE] := matchHead;
      head[insH] := s;
      assert head[..] == h0[insH := s] && prev[..] == p0[s % WSIZE := matchHead];
    }

    /** The length of the match at `cur`; 0 if it cannot be longer than `bestLen` or is less than 2. */
    method TryMatch(cur: nat, bestLen: nat, scanEnd1: byte, scanEnd: byte, ghost seen: seq<nat>) returns (len: nat)
      requires Shape() && strstart + MAX_MATCH < window.Length && Candidate(window[..], cur, strstart, hashBits)
      requires 1 <= bestLen <= MAX_MATCH && scanEnd1 == window[strstart + bestLen - 1] && scanEnd == window[strstart + bestLen]
      requires NoneLonger(window[..], seen, strstart, bestLen)
      ensures len == 0 || (MIN_MATCH <= len <= MAX_MATCH && Same(window[..], cur, strstart, len))
      ensures NoneLonger(window[..], seen + [cur], strstart, if len > bestLen then len else bestLen)
    {
      hide HashAt, Same, NoneLonger;
      ghost var win := window[..];
      if window[cur + bestLen] != scanEnd {
        SeenOne(win, seen, cur, strstart, bestLen, bestLen, bestLen);
        return 0;
      }
      if window[cur + bestLen - 1] != scanEnd1 {
        SeenOne(win, seen, cur, strstart, bestLen, bestLen, bestLen - 1);
        return 0;
      }
      if window[cur] != window[strstart] || window[cur + 1] != window[strstart + 1] {
        SeenOne(win, seen, cur, strstart, bestLen, bestLen, if window[cur] != window[strstart] then 0 else 1);
        return 0;
      }
      Third(win, cur, strstart, hashBits);
      len := Compare(window, cur, strstart);
      SeenOne(win, seen, cur, strstart, bestLen, if len > bestLen then len else bestLen, len);
    }

    /** A longest one among the strings looked at along the chain, if it is longer than prevLength; matchStart then tells where it is. */
    method LongestMatch(curMatch: nat, maxChainLength: nat, goodMatch: nat, niceMatch: nat) returns (bestLen: nat, ghost seen: seq<nat>)
      requires Shape() && Hashed(strstart + 1) && strstart + MAX_MATCH < window.Length
      requires 1 <= prevLength <= MAX_MATCH && maxChainLength >= 4 && Candidate(window[..], curMatch, strstart, hashBits)
      requires Earlier(window[..], curMatch, strstart, HashAt(window[..], strstart, hashBits), hashBits)
      modifies `matchStart
      ensures (bestLen == prevLength && matchStart == old(matchStart)) || Found(window[..], matchStart, strstart, bestLen, prevLength)
      ensures Along(prev[..], curMatch, seen) && NoneLonger(window[..], seen, strstart, bestLen)
      ensures Stops(prev[..], seen, strstart, ChainLimit(prevLength, maxChainLength, goodMatch), bestLen, niceMatch)
      ensures prevLength >= 2 ==> NothingLonger(window[..], Covered(prev[..], seen, strstart), strstart, bestLen)
    {
      hide Chains, Rolled, HashAt, Found, Same, NoneLonger, Along, Earlier, Recent, NothingLonger;
      ghost var win := window[..];
      var chainLength: nat, cur: nat := maxChainLength, curMatch;
      bestLen := prevLength;
      var limit := Limit(strstart);
      var scanEnd1, scanEnd := window[strstart + bestLen - 1], window[strstart + bestLen];
      if prevLength >= goodMatch {
        chainLength := chainLength / 4;
      }
      seen := [];
      NoneSeen(win, strstart, bestLen);
      AlongStarts(prev[..], cur);
      RecentStarts(win, cur, strstart, hashBits);
      while true
        invariant Candidate(win, cur, strstart, hashBits) && chainLength >= 1 && prevLength <= bestLen <= MAX_MATCH
        invariant (bestLen == prevLength && matchStart == old(matchStart)) || Found(win, matchStart, strstart, bestLen, prevLength)
        invariant scanEnd1 == win[strstart + bestLen - 1] && scanEnd == win[strstart + bestLen]
        invariant Along(prev[..], curMatch, seen + [cur]) && NoneLonger(win, seen, strstart, bestLen)
        invariant Recent(win, seen + [cur], strstart, hashBits)
        invariant |seen| + chainLength == ChainLimit(prevLength, maxChainLength, goodMatch)
        decreases cur
      {
        var len := TryMatch(cur, bestLen, scanEnd1, scanEnd, seen);
        seen := seen + [cur];
        if len > bestLen {
          matchStart := cur;
          bestLen := len;
          FoundIt(win, cur, strstart, len, prevLength, hashBits);
          if len >= niceMatch {
            break;
          }
          scanEnd1 := window[strstart + bestLen - 1];
          scanEnd := window[strstart + bestLen];
        }
        NextCandidate(win, head[..], prev[..], cur, strstart, hashBits);
        AlongMore(prev[..], curMatch, seen);
        RecentMore(win, head[..], prev[..], seen, strstart, hashBits);
        cur := prev[cur % WSIZE];
        if cur <= limit {
          break;
        }
        chainLength := chainLength - 1;
        if chainLength == 0 {
          break;
        }
      }
      if prevLength >= 2 {
        LongestOfAll(win, head[..], prev[..], seen, strstart, bestLen, hashBits);
      }
    }

    // ---------- fill_window ----------

    method Copy(at: nat, chunk: seq<byte>)
      requires at + |chunk| <= window.Length
      modifies window
      ensures window[..] == Spliced(old(window[..]), at, chunk)
    {
      ghost var w0 := window[..];
      for i := 0 to |chunk|
        invariant window[..] == Spliced(w0, at, chunk[..i])
      {
        window[at + i] := chunk[i];
      }
      assert chunk[..|chunk|] == chunk;
    }

    /** More of the input, counted and checksummed. */
    method FileRead(at: nat, size: nat) returns (n: nat)
      requires Shape() && size > 0 && at + size <= 2 * WSIZE && Counted()
      modifies src, window, `crc, `isize
      ensures Counted() && src.pos == old(src.pos) + n && n <= size
      ensures window[..] == Spliced(old(window[..]), at, src.data[old(src.pos)..src.pos])
      ensures n == 0 && !src.failed ==> src.pos == |src.data|
      ensures old(src.failed) ==> src.failed
    {
      hide Spliced, Pow2;
      var chunk := src.Read(size);
      n := |chunk|;
      if n == 0 {
        SpliceNone(window[..], at);
        return;
      }
      Copy(at, chunk);
      crc := Fold(crcStep, crc, chunk);
      isize := isize + n;
      FoldAppend(crcStep, 0xffff_ffff, src.data[..old(src.pos)], chunk);
      assert src.data[..src.pos] == src.data[..old(src.pos)] + chunk;
    }

    method SlideTable(a: array<nat>)
      modifies a
      ensures forall i :: 0 <= i < a.Length ==> a[i] == Slid(old(a[i]))
    {
      for n := 0 to a.Length
        invariant forall i :: 0 <= i < n ==> a[i] == Slid(old(a[i]))
        invariant forall i :: n <= i < a.Length ==> a[i] == old(a[i])
      {
        var m := a[n];
        a[n] := if m >= WSIZE then m - WSIZE else 0;
      }
    }

    /** The older half of the window gives way to the newer one. */
    method Slide()
      requires Shape() && Filled() && Hashed(strstart) && WSIZE <= strstart && lookahead >= 2
      modifies window, head, prev, `strstart, `matchStart, `blockStart, `base
      ensures Filled() && Hashed(strstart) && strstart == old(strstart) - WSIZE && base == old(base) + WSIZE
      ensures matchStart == old(matchStart) - WSIZE && blockStart == old(blockStart) - WSIZE
    {
      hide Chains, Rolled, Slid, Spliced, Pow2;
      ghost var w0, h0, p0, e := window[..], head[..], prev[..], strstart + lookahead;
      Copy(0, window[WSIZE..2 * WSIZE]);
      ghost var w1 := window[..];
      Upper(w0, w1);
      matchStart := matchStart - WSIZE;
      strstart := strstart - WSIZE;
      blockStart := blockStart - WSIZE;
      base := base + WSIZE;
      SlideTable(head);
      SlideTable(prev);
      ChainSizes(w0, h0, p0, strstart + WSIZE, hashBits);
      ChainsSlid(w0, w1, h0, head[..], p0, prev[..], strstart + WSIZE, hashBits);
      RolledSlid(insH, w0, w1, strstart + WSIZE, hashBits);
      FilledSlid(w0, w1, src.data, old(base), src.pos, e);
    }

    /** Read after the valid bytes. */
    method ReadMore(more: nat)
      requires Shape() && Filled() && Chained(strstart) && Counted() && 0 < more && strstart + lookahead + more <= 2 * WSIZE
      requires !eofile && strstart + lookahead <= 2 * WSIZE - 2 && (strstart > 0 ==> lookahead >= 2 && Hashed(strstart))
      modifies src, window, `lookahead, `eofile, `crc, `isize
      ensures Filled() && Chained(strstart) && Counted() && EndRoom() && (strstart > 0 ==> Hashed(strstart))
      ensures lookahead >= old(lookahead) && (eofile || src.pos > old(src.pos))
      ensures eofile && !src.failed ==> src.pos == |src.data|
      ensures old(src.failed) ==> src.failed
    {
      hide Chains, Rolled, Spliced, Pow2, Fold;
      ghost var w0, e, q := window[..], strstart + lookahead, src.pos;
      var n := FileRead(strstart + lookahead, more);
      FilledMore(w0, window[..], src.data, base, q, src.pos, e);
      ChainsRead(w0, window[..], head[..], prev[..], strstart, lookahead, src.data[q..src.pos], hashBits);
      if strstart > 0 {
        RolledRead(insH, w0, window[..], strstart, lookahead, src.data[q..src.pos], hashBits);
      }
      if n == 0 {
        eofile := true;
      } else {
        lookahead := lookahead + n;
      }
    }

    /** One more read of the input behind the valid bytes; if strstart is far enough, the older half makes room first. */
    method FillWindow()
      requires Shape() && Filled() && Chained(strstart) && Counted() && !eofile && lookahead < MIN_LOOKAHEAD
      requires strstart > 0 ==> lookahead >= 2 && Hashed(strstart)
      modifies src, window, head, prev, `strstart, `lookahead, `matchStart, `blockStart, `base, `eofile, `crc, `isize
      ensures Filled() && Chained(strstart) && Counted() && EndRoom()
      ensures old(strstart) > 0 ==> Hashed(strstart) && strstart > 0
      ensures old(strstart) == 0 ==> strstart == 0
      ensures Moved(old(base), base, old(strstart), strstart, old(matchStart), matchStart, old(blockStart), blockStart)
      ensures lookahead >= old(lookahead) && (eofile || src.pos > old(src.pos))
      ensures eofile && !src.failed ==> src.pos == |src.data|
      ensures old(src.failed) ==> src.failed
    {
      hide Chains, Rolled, Pow2, Fold;
      var more: int := 2 * WSIZE - lookahead - strstart;
      if more == -1 {
        more := more - 1;
      } else if strstart >= WSIZE + MAX_DIST {
        Slide();
        more := more + WSIZE;
      }
      ReadMore(more);
    }

    method FillWindowIfNeeded()
      requires Shape() && Filled() && Chained(strstart) && Counted() && EndRoom() && (eofile && !src.failed ==> src.pos == |src.data|)
      requires strstart > 0 ==> (!eofile ==> lookahead >= 2) && Hashed(strstart)
      modifies src, window, head, prev, `strstart, `lookahead, `matchStart, `blockStart, `base, `eofile, `crc, `isize
      ensures Filled() && Chained(strstart) && Counted() && EndRoom() && (eofile && !src.failed ==> src.pos == |src.data|)
      ensures old(strstart) > 0 ==> Hashed(strstart) && strstart > 0
      ensures old(strstart) == 0 ==> strstart == 0
      ensures Moved(old(base), base, old(strstart), strstart, old(matchStart), matchStart, old(blockStart), blockStart)
      ensures lookahead >= old(lookahead) && (lookahead >= MIN_LOOKAHEAD || eofile)
      ensures old(src.failed) ==> src.failed
    {
      hide Chains, Rolled, Pow2, Fold;
      while lookahead < MIN_LOOKAHEAD && !eofile
        invariant Filled() && Chained(strstart) && Counted() && EndRoom() && (eofile && !src.failed ==> src.pos == |src.data|)
        invariant strstart > 0 ==> (!eofile ==> lookahead >= 2) && Hashed(strstart)
        invariant old(strstart) > 0 <==> strstart > 0
        invariant Moved(old(base), base, old(strstart), strstart, old(matchStart), matchStart, old(blockStart), blockStart)
        invariant lookahead >= old(lookahead) && (old(src.failed) ==> src.failed)
        decreases |src.data| - src.pos, !eofile
      {
        FillWindow();
      }
    }

    method ClearHead()
      modifies head
      ensures forall i :: 0 <= i < head.Length ==> head[i] == 0
    {
      for n := 0 to head.Length
        invariant forall i :: 0 <= i < n ==> head[i] == 0
      {
        head[n] := 0;
      }
    }

    method StartHash()
      requires Shape() && insH == 0
      modifies `insH
      ensures Rolled(insH, window[..], 0, hashBits)
    {
      hide Rolled, Update, Pow2;
      for j := 0 to MIN_MATCH - 1
        invariant insH == Rolling(window[..], j, hashBits)
      {
        insH := Update(insH, window[j], hashBits);
      }
      RolledStart(window[..], hashBits);
    }

    /** The first bytes of a new file, an empty hash table, and the key of the first two bytes. */
    method LmInit()
      requires Shape() && Filled() && Counted() && strstart == 0 && lookahead == 0 && base == 0 && !eofile && insH == 0
      modifies src, window, head, prev, `strstart, `lookahead, `matchStart, `blockStart, `base, `eofile, `crc, `isize, `insH
      ensures Filled() && Counted() && EndRoom() && (eofile && !src.failed ==> src.pos == |src.data|)
      ensures strstart == 0 && base == 0 && blockStart == old(blockStart)
      ensures lookahead > 0 ==> Hashed(0) && (lookahead >= MIN_LOOKAHEAD || eofile)
      ensures lookahead == 0 ==> eofile
    {
      hide Chains, Rolled, Spliced, Pow2, Fold, Update;
      ClearHead();
      ghost var w0, q := window[..], src.pos;
      NoChains(w0, head[..], prev[..], hashBits);
      lookahead := FileRead(0, 2 * WSIZE);
      FilledMore(w0, window[..], src.data, 0, q, src.pos, 0);
      ChainsRead(w0, window[..], head[..], prev[..], 0, 0, src.data[q..src.pos], hashBits);
      if lookahead == 0 {
        eofile := true;
        lookahead := 0;
        return;
      }
      FillWindowIfNeeded();
      StartHash();
    }
  }

  /** The key after the first `j` bytes. */
  function Rolling(win: seq<byte>, j: nat, hb: nat): nat
    requires j <= |win|
  {
    if j == 0 then 0 else Update(Rolling(win, j - 1, hb), win[j - 1], hb)
  }

  lemma RolledStart(win: seq<byte>, hb: nat)
    requires 2 <= |win|
    ensures Rolled(Rolling(win, 2, hb), win, 0, hb)
  {
    hide Update;
    assert Rolling(win, 0, hb) == 0;
    assert Rolling(win, 1, hb) == Update(0, win[0], hb);
  }

  lemma NoChains(win: seq<byte>, head: seq<nat>, prev: seq<nat>, hb: nat)
    requires |head| == Pow2(hb) && |prev| == WSIZE && |win| > 1 && forall i :: 0 <= i < |head| ==> head[i] == 0
    ensures Chains(win, head, prev, 0, hb)
  {
  }

  /** The window moved, if at all, together with everything that points into it. */
  ghost predicate Moved(base: nat, base': nat, strstart: nat, strstart': nat, match0: int, match1: int, block0: int, block1: int) {
    base' - base == strstart - strstart' == match0 - match1 == block0 - block1 >= 0
  }

  lemma Upper(w0: seq<byte>, w1: seq<byte>)
    requires |w0| >= 2 * WSIZE && w1 == Spliced(w0, 0, w0[WSIZE..2 * WSIZE])
    ensures |w1| == |w0| && forall i :: 0 <= i < WSIZE ==> w1[i] == w0[i + WSIZE]
  {
  }

  lemma RolledSlid(insH: nat, w0: seq<byte>, w1: seq<byte>, n: nat, hb: nat)
    requires Rolled(insH, w0, n, hb) && WSIZE <= n <= 2 * WSIZE - 2 && |w1| == |w0| >= 2 * WSIZE
    requires forall i :: 0 <= i < WSIZE ==> w1[i] == w0[i + WSIZE]
    ensures Rolled(insH, w1, n - WSIZE, hb)
  {
    hide Hash3, Update;
    assert w1[n - WSIZE] == w0[n] && w1[n + 1 - WSIZE] == w0[n + 1];
  }

  lemma FilledSlid(w0: seq<byte>, w1: seq<byte>, data: seq<byte>, base: nat, pos: nat, e: nat)
    requires WSIZE <= e <= 2 * WSIZE <= |w0| == |w1| && base + e == pos <= |data| && w0[..e] == data[base..pos]
    requires forall i :: 0 <= i < WSIZE ==> w1[i] == w0[i + WSIZE]
    ensures w1[..e - WSIZE] == data[base + WSIZE..pos]
  {
    forall i | 0 <= i < e - WSIZE
      ensures w1[i] == data[base + WSIZE..pos][i]
    {
      assert w0[..e][i + WSIZE] == data[base..pos][i + WSIZE];
    }
  }

  lemma FilledMore(w0: seq<byte>, w1: seq<byte>, data: seq<byte>, base: nat, q: nat, pos: nat, e: nat)
    requires base + e == q <= pos <= |data| && e + (pos - q) <= |w0| && w0[..e] == data[base..q]
    requires w1 == Spliced(w0, e, data[q..pos])
    ensures w1[..e + (pos - q)] == data[base..pos]
  {
  }

  /** Reading after the valid bytes does not touch any inserted string. */
  lemma ChainsRead(w0: seq<byte>, w1: seq<byte>, head: seq<nat>, prev: seq<nat>, n: nat, lookahead: nat, chunk: seq<byte>, hb: nat)
    requires Chains(w0, head, prev, n, hb) && (n > 0 ==> lookahead >= 2)
    requires n + lookahead + |chunk| <= |w0| && w1 == Spliced(w0, n + lookahead, chunk)
    ensures Chains(w1, head, prev, n, hb)
  {
    if n == 0 {
      ChainsNone(w0, w1, head, prev, hb);
    } else {
      ChainsKept(w0, w1, head, prev, n, hb);
    }
  }

  lemma ChainsNone(w0: seq<byte>, w1: seq<byte>, head: seq<nat>, prev: seq<nat>, hb: nat)
    requires Chains(w0, head, prev, 0, hb) && |w1| == |w0|
    ensures Chains(w1, head, prev, 0, hb)
  {
    forall h | 0 <= h < |head|
      ensures Earlier(w1, head[h], 0, h, hb)
    {
      assert Earlier(w0, head[h], 0, h, hb);
    }
  }

  lemma RolledRead(insH: nat, w0: seq<byte>, w1: seq<byte>, n: nat, lookahead: nat, chunk: seq<byte>, hb: nat)
    requires Rolled(insH, w0, n, hb) && lookahead >= 2 && n + lookahead + |chunk| <= |w0| && w1 == Spliced(w0, n + lookahead, chunk)
    ensures Rolled(insH, w1, n, hb)
  {
    hide Hash3, Update;
    assert w1[n] == w0[n] && w1[n + 1] == w0[n + 1];
  }

  /** `win` with `chunk` written over it at `at`. */
  function Spliced(win: seq<byte>, at: nat, chunk: seq<byte>): (r: seq<byte>)
    requires at + |chunk| <= |win|
    ensures |r| == |win|
  {
    win[..at] + chunk + win[at + |chunk|..]
  }

  lemma SpliceNone(win: seq<byte>, at: nat)
    requires at <= |win|
    ensures Spliced(win, at, []) == win
  {
  }

  lemma FoundIt(win: seq<byte>, m: nat, strstart: nat, len: nat, prevLength: nat, hb: nat)
    requires Candidate(win, m, strstart, hb) && Same(win, m, strstart, len) && MIN_MATCH <= len <= MAX_MATCH && len > prevLength
    ensures Found(win, m, strstart, len, prevLength)
  {
  }

  lemma ChainSizes(win: seq<byte>, head: seq<nat>, prev: seq<nat>, n: nat, hb: nat)
    requires Chains(win, head, prev, n, hb)
    ensures |head| == Pow2(hb) && |prev| == WSIZE
  {
  }
}
