/** ct_tally and compress_block: the buffered literals and matches of the current block. */
module TokenBuffers {
  import opened Bits
  import opened Inflate
  import opened CodeTables
  import opened Tokens
  import opened TreeHeap
  import opened TreeFacts
  import opened TreeResults

  // ---------- The packed form of a token sequence ----------

  /** A literal byte, or how much longer than MIN_MATCH a match is. */
  function LitOrLen(t: Token): int {
    match t
    case Literal(b) => b
    case Match(len, _) => len - MIN_MATCH
  }

  /** d_buf: match distances - 1, matches only. */
  function Dists(tokens: seq<Token>): (r: seq<int>)
    ensures |r| <= |tokens|
  {
    if tokens == [] then []
    else
      var t := tokens[|tokens| - 1];
      Dists(tokens[..|tokens| - 1]) + if t.Match? then [t.dist - 1] else []
  }

  /** One flag bit per token, eight to a byte, the first token in the lowest bit. */
  function Flags(tokens: seq<Token>): seq<bool> {
    seq(|tokens|, i requires 0 <= i < |tokens| => tokens[i].Match?)
  }

  function FlagEnd(k: nat, n: nat): nat {
    if 8 * k + 8 <= n then 8 * k + 8 else n
  }

  function FlagByte(tokens: seq<Token>, k: nat): nat
    requires 8 * k <= |tokens|
  {
    NatOf(Flags(tokens[8 * k..FlagEnd(k, |tokens|)]))
  }

  lemma {:induction false} DistsAt(tokens: seq<Token>, i: nat)
    requires i < |tokens| && tokens[i].Match?
    ensures |Dists(tokens[..i])| < |Dists(tokens)| && Dists(tokens)[|Dists(tokens[..i])|] == tokens[i].dist - 1
  {
    var n := |tokens|;
    if i < n - 1 {
      DistsAt(tokens[..n - 1], i);
      assert tokens[..n - 1][..i] == tokens[..i];
    }
  }

  lemma {:induction false} NatOfSnoc(s: seq<bool>, b: bool)
    ensures NatOf(s + [b]) == NatOf(s) + if b then Pow2(|s|) else 0
    ensures NatOf(s) < Pow2(|s|)
  {
    if s == [] {
      assert [b][1..] == [];
    } else {
      NatOfSnoc(s[1..], b);
      assert (s + [b])[1..] == s[1..] + [b];
    }
  }

  // ---------- ct_tally, the buffers ----------

  ghost predicate LitsPacked(tokens: seq<Token>, l: seq<int>) {
    |tokens| <= |l| && forall i :: 0 <= i < |tokens| ==> l[i] == LitOrLen(tokens[i])
  }

  ghost predicate DistsPacked(tokens: seq<Token>, d: seq<int>, n: nat) {
    n == |Dists(tokens)| <= |d| && d[..n] == Dists(tokens)
  }

  /** `k` full bytes of flags are in the buffer. */
  ghost predicate FlagsPacked(tokens: seq<Token>, f: seq<int>, k: nat) {
    && 8 * k <= |tokens| && k <= |f|
    && forall j :: 0 <= j < k ==> f[j] == FlagByte(tokens, j)
  }

  lemma PackDist(tokens: seq<Token>, d: seq<int>, n: nat, t: Token)
    requires DistsPacked(tokens, d, n) && (t.Match? ==> n < |d|)
    ensures if t.Match? then DistsPacked(tokens + [t], d[n := t.dist - 1], n + 1) else DistsPacked(tokens + [t], d, n)
  {
    assert (tokens + [t])[..|tokens|] == tokens;
    if t.Match? {
      assert d[n := t.dist - 1][..n + 1] == d[..n] + [t.dist - 1];
    }
  }

  lemma PackFlags(tokens: seq<Token>, f: seq<int>, k: nat, t: Token)
    requires FlagsPacked(tokens, f, k)
    ensures FlagsPacked(tokens + [t], f, k)
  {
    hide NatOf;
    var more := tokens + [t];
    forall j | 0 <= j < k
      ensures FlagByte(more, j) == FlagByte(tokens, j)
    {
      assert 8 * j + 8 <= 8 * k;
      assert more[8 * j..8 * j + 8] == tokens[8 * j..8 * j + 8];
    }
  }

  /** The flags of the `r` tokens since the last full byte. */
  lemma FlagAdded(tokens: seq<Token>, t: Token, k: nat, r: nat)
    requires |tokens| == 8 * k + r && r < 8
    ensures FlagByte(tokens + [t], k) == FlagByte(tokens, k) + if t.Match? then Pow2(r) else 0
    ensures FlagByte(tokens, k) < Pow2(r)
    ensures r == 7 ==> FlagByte(tokens + [t], k + 1) == 0
  {
    hide Pow2, NatOf;
    var more, last := tokens + [t], tokens[8 * k..];
    assert more[8 * k..] == last + [t];
    assert Flags(last + [t]) == Flags(last) + [t.Match?];
    assert more[8 * k..FlagEnd(k, |more|)] == last + [t];
    assert tokens[8 * k..FlagEnd(k, |tokens|)] == last;
    NatOfSnoc(Flags(last), t.Match?);
    if r == 7 {
      NoFlags(more, k + 1);
    }
  }

  lemma NoFlags(tokens: seq<Token>, k: nat)
    requires |tokens| == 8 * k
    ensures FlagByte(tokens, k) == 0
  {
  }

  // ---------- ct_tally, the frequencies ----------

  function AddOne(f: seq<nat>, i: nat): (r: seq<nat>)
    ensures |r| == |f|
  {
    if i < |f| then f[i := f[i] + 1] else f
  }

  /** How often the block uses each literal or length code; the end of the block is always used. */
  ghost function LitFreqs(tab: Tables, tokens: seq<Token>): (f: seq<nat>)
    ensures |f| == L_CODES
  {
    if tokens == [] then seq(L_CODES, i => if i == END_BLOCK then 1 else 0)
    else
      var t, f := tokens[|tokens| - 1], LitFreqs(tab, tokens[..|tokens| - 1]);
      if tab.Valid() && t.Valid() then AddOne(f, LitSymbol(tab, t)) else f
  }

  ghost function DistFreqs(tab: Tables, tokens: seq<Token>): (f: seq<nat>)
    ensures |f| == D_CODES
  {
    if tokens == [] then seq(D_CODES, i => 0)
    else
      var t, f := tokens[|tokens| - 1], DistFreqs(tab, tokens[..|tokens| - 1]);
      if tab.Valid() && t.Valid() && t.Match? then AddOne(f, tab.DistCode(t.dist)) else f
  }

  lemma {:induction false} AddOneTotal(f: seq<nat>, i: nat)
    requires i < |f|
    ensures Total(AddOne(f, i)) == Total(f) + 1
    decreases |f|
  {
    var n, g := |f|, AddOne(f, i);
    if i == n - 1 {
      assert g[..n - 1] == f[..n - 1];
    } else {
      assert g[..n - 1] == AddOne(f[..n - 1], i);
      AddOneTotal(f[..n - 1], i);
    }
  }

  lemma {:induction false} AddOneDot(f: seq<nat>, i: nat, c: seq<nat>)
    requires i < |f| == |c|
    ensures Dot(AddOne(f, i), c) == Dot(f, c) + c[i]
    decreases |f|
  {
    var n, g := |f|, AddOne(f, i);
    if i == n - 1 {
      assert g[..n - 1] == f[..n - 1];
      assert g[i] * c[i] == f[i] * c[i] + c[i];
    } else {
      assert g[..n - 1] == AddOne(f[..n - 1], i);
      AddOneDot(f[..n - 1], i, c[..n - 1]);
    }
  }

  ghost predicate AllTokens(tab: Tables, tokens: seq<Token>) {
    tab.Valid() && forall i :: 0 <= i < |tokens| ==> tokens[i].Valid()
  }

  lemma SymbolBounds(tab: Tables, t: Token)
    requires tab.Valid() && t.Valid()
    ensures LitSymbol(tab, t) < L_CODES && LitSymbol(tab, t) != END_BLOCK
    ensures t.Match? ==> tab.DistCode(t.dist) < D_CODES
  {
    if t.Match? {
      TableFacts(tab, t.len, t.dist);
    }
  }

  lemma {:induction false} TotalZeros(f: seq<nat>)
    requires forall i :: 0 <= i < |f| ==> f[i] == 0
    ensures Total(f) == 0
    decreases |f|
  {
    if f != [] { TotalZeros(f[..|f| - 1]); }
  }

  lemma {:induction false} FreqTotals(tab: Tables, tokens: seq<Token>)
    requires AllTokens(tab, tokens)
    ensures Total(LitFreqs(tab, tokens)) == |tokens| + 1
    ensures Total(DistFreqs(tab, tokens)) == |Dists(tokens)|
    decreases |tokens|
  {
    hide Tables.Valid, Total;
    if tokens == [] {
      var z := seq(L_CODES, i => 0);
      TotalZeros(z);
      AddOneTotal(z, END_BLOCK);
      assert LitFreqs(tab, tokens) == AddOne(z, END_BLOCK);
      TotalZeros(DistFreqs(tab, tokens));
    } else {
      var rest, t := tokens[..|tokens| - 1], tokens[|tokens| - 1];
      FreqTotals(tab, rest);
      SymbolBounds(tab, t);
      AddOneTotal(LitFreqs(tab, rest), LitSymbol(tab, t));
      if t.Match? {
        AddOneTotal(DistFreqs(tab, rest), tab.DistCode(t.dist));
      }
    }
  }

  /** Every symbol the block needs is counted. */
  lemma {:induction false} Counted(tab: Tables, tokens: seq<Token>, i: nat)
    requires AllTokens(tab, tokens) && i < |tokens|
    ensures LitSymbol(tab, tokens[i]) < L_CODES && LitFreqs(tab, tokens)[LitSymbol(tab, tokens[i])] > 0
    ensures tokens[i].Match? ==> tab.DistCode(tokens[i].dist) < D_CODES && DistFreqs(tab, tokens)[tab.DistCode(tokens[i].dist)] > 0
    decreases |tokens|
  {
    hide Tables.Valid, LitSymbol, Tables.DistCode;
    SymbolBounds(tab, tokens[i]);
    var n := |tokens|;
    if i < n - 1 {
      Counted(tab, tokens[..n - 1], i);
    }
  }

  lemma {:induction false} EndCounted(tab: Tables, tokens: seq<Token>)
    ensures LitFreqs(tab, tokens)[END_BLOCK] > 0
    decreases |tokens|
  {
    if tokens != [] { EndCounted(tab, tokens[..|tokens| - 1]); }
  }

  // ---------- Exact cost ----------

  /** What one occurrence of each symbol costs with the given code lengths, extra bits included. */
  ghost predicate Costed(ll: seq<nat>, c: seq<nat>, first: nat, extra: seq<nat>) {
    forall n :: 0 <= n < |ll| && n < |c| ==> c[n] == ll[n] + if first <= n < first + |extra| then extra[n - first] else 0
  }

  lemma TokenCost(ll: seq<nat>, dl: seq<nat>, tab: Tables, t: Token, cl: seq<nat>, cd: seq<nat>)
    requires InAlphabets(ll, dl, tab, t) && Costed(ll, cl, 257, LENGTH_EXTRA) && Costed(dl, cd, 0, DIST_EXTRA)
    requires |cl| == L_CODES && |cd| == D_CODES
    ensures LitSymbol(tab, t) < L_CODES
    ensures t.Match? ==> tab.DistCode(t.dist) < D_CODES
    ensures |TokenBits(ll, dl, tab, t)| == cl[LitSymbol(tab, t)] + if t.Match? then cd[tab.DistCode(t.dist)] else 0
  {
    hide Tables.Valid, LenExtra, DistExtraOf, BitsOf, CodeWord;
    SymbolBounds(tab, t);
    if t.Match? {
      TableFacts(tab, t.len, t.dist);
    }
  }

  /** The block's data takes exactly the bits that its frequencies and code lengths foretell. */
  lemma {:induction false} TokensCost(ll: seq<nat>, dl: seq<nat>, tab: Tables, tokens: seq<Token>, cl: seq<nat>, cd: seq<nat>)
    requires AllTokens(tab, tokens) && (forall i :: 0 <= i < |tokens| ==> InAlphabets(ll, dl, tab, tokens[i]))
    requires Costed(ll, cl, 257, LENGTH_EXTRA) && Costed(dl, cd, 0, DIST_EXTRA) && |cl| == L_CODES && |cd| == D_CODES
    ensures |TokensBits(ll, dl, tab, tokens)| + cl[END_BLOCK] == Dot(LitFreqs(tab, tokens), cl) + Dot(DistFreqs(tab, tokens), cd)
    decreases |tokens|
  {
    hide Tables.Valid, InAlphabets, Costed, TokenBits, Dot, LitSymbol, Tables.DistCode;
    if tokens == [] {
      NoTokensCost(tab, cl, cd);
    } else {
      var rest, t := tokens[..|tokens| - 1], tokens[|tokens| - 1];
      TokensCost(ll, dl, tab, rest, cl, cd);
      TokensBitsSnoc(ll, dl, tab, rest, t);
      assert rest + [t] == tokens;
      TokenCost(ll, dl, tab, t, cl, cd);
      SymbolBounds(tab, t);
      AddOneDot(LitFreqs(tab, rest), LitSymbol(tab, t), cl);
      if t.Match? {
        AddOneDot(DistFreqs(tab, rest), tab.DistCode(t.dist), cd);
      }
    }
  }

  lemma {:induction false} DotZeros(f: seq<nat>, c: seq<nat>)
    requires |f| == |c| && forall i :: 0 <= i < |f| ==> f[i] == 0
    ensures Dot(f, c) == 0
    decreases |f|
  {
    if f != [] { DotZeros(f[..|f| - 1], c[..|c| - 1]); }
  }

  lemma NoTokensCost(tab: Tables, cl: seq<nat>, cd: seq<nat>)
    requires |cl| == L_CODES && |cd| == D_CODES
    ensures Dot(LitFreqs(tab, []), cl) == cl[END_BLOCK] && Dot(DistFreqs(tab, []), cd) == 0
  {
    hide Dot;
    var z := seq(L_CODES, i => 0);
    DotZeros(z, cl);
    AddOneDot(z, END_BLOCK, cl);
    assert LitFreqs(tab, []) == AddOne(z, END_BLOCK);
    DotZeros(DistFreqs(tab, []), cd);
  }
}
