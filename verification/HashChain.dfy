/** The rolling hash of deflate() and the hash chains that longest_match follows. */
module HashChains {
  import opened Bits

  const WSIZE := 0x8000
  const H_SHIFT := 5

  function Xor(a: nat, b: nat): nat
    decreases a + b
  {
    if a == 0 && b == 0 then 0 else (if a % 2 == b % 2 then 0 else 1) + 2 * Xor(a / 2, b / 2)
  }

  /** UPDATE_HASH, with a hash of `hb` bits. */
  function Update(h: nat, c: byte, hb: nat): nat {
    Trunc(Xor(h * 32, c), hb)
  }

  function Hash3(a: byte, b: byte, c: byte, hb: nat): nat {
    Update(Update(Update(0, a, hb), b, hb), c, hb)
  }

  // ---------- Only the last three bytes make a key ----------

  lemma {:induction false} XorAgree(h: nat, h': nat, c: nat, k: nat)
    requires Trunc(h, k) == Trunc(h', k)
    ensures Trunc(Xor(h, c), k) == Trunc(Xor(h', c), k)
    decreases k
  {
    if k > 0 {
      XorAgree(h / 2, h' / 2, c / 2, k - 1);
      XorHalf(h, c);
      XorHalf(h', c);
    }
  }

  lemma XorHalf(a: nat, b: nat)
    ensures Xor(a, b) / 2 == Xor(a / 2, b / 2) && Xor(a, b) % 2 == if a % 2 == b % 2 then 0 else 1
  {
    if a == 0 && b == 0 {
      assert Xor(0, 0) == 0;
    }
  }

  lemma {:induction false} XorShiftAgree(h: nat, h': nat, s: nat, c: nat, k: nat)
    requires Trunc(h, k) == Trunc(h', k)
    ensures Trunc(Xor(h * Pow2(s), c), k + s) == Trunc(Xor(h' * Pow2(s), c), k + s)
    decreases s
  {
    hide Xor;
    if s == 0 {
      XorAgree(h, h', c, k);
    } else {
      XorShiftAgree(h, h', s - 1, c / 2, k);
      XorHalf(h * Pow2(s), c);
      XorHalf(h' * Pow2(s), c);
      EvenHalf(h, s);
      EvenHalf(h', s);
    }
  }

  lemma EvenHalf(h: nat, s: nat)
    requires s > 0
    ensures h * Pow2(s) % 2 == 0 && h * Pow2(s) / 2 == h * Pow2(s - 1)
  {
    MulDouble(h, Pow2(s - 1));
  }

  lemma {:induction false} TruncTrunc(v: nat, n: nat, m: nat)
    requires n <= m
    ensures Trunc(Trunc(v, m), n) == Trunc(v, n)
  {
    if n > 0 { TruncTrunc(v / 2, n - 1, m - 1); }
  }

  lemma UpdateAgree(h: nat, h': nat, c: byte, k: nat, hb: nat)
    requires Trunc(h, k) == Trunc(h', k)
    ensures k + H_SHIFT <= hb ==> Trunc(Update(h, c, hb), k + H_SHIFT) == Trunc(Update(h', c, hb), k + H_SHIFT)
    ensures hb <= k + H_SHIFT ==> Update(h, c, hb) == Update(h', c, hb)
  {
    hide Xor, Trunc;
    assert Pow2(H_SHIFT) == 32;
    XorShiftAgree(h, h', H_SHIFT, c, k);
    if k + H_SHIFT <= hb {
      TruncTrunc(Xor(h * 32, c), k + H_SHIFT, hb);
      TruncTrunc(Xor(h' * 32, c), k + H_SHIFT, hb);
    } else {
      TruncTrunc(Xor(h * 32, c), hb, k + H_SHIFT);
      TruncTrunc(Xor(h' * 32, c), hb, k + H_SHIFT);
    }
  }

  /** Three updates forget whatever was there before. */
  lemma HashForgets(h: nat, a: byte, b: byte, c: byte, hb: nat)
    requires 10 <= hb <= 15
    ensures Update(Update(Update(h, a, hb), b, hb), c, hb) == Hash3(a, b, c, hb)
  {
    hide Xor, Update;
    UpdateAgree(h, 0, a, 0, hb);
    UpdateAgree(Update(h, a, hb), Update(0, a, hb), b, 5, hb);
    UpdateAgree(Update(Update(h, a, hb), b, hb), Update(Update(0, a, hb), b, hb), c, 10, hb);
  }

  // ---------- Equal keys and two equal bytes leave no choice for the third ----------

  lemma {:induction false} XorInjective(a: nat, c: nat, c': nat, n: nat)
    requires c < Pow2(n) && c' < Pow2(n) && Trunc(Xor(a, c), n) == Trunc(Xor(a, c'), n)
    ensures c == c'
    decreases n
  {
    if n > 0 {
      XorHalf(a, c);
      XorHalf(a, c');
      XorInjective(a / 2, c / 2, c' / 2, n - 1);
    }
  }

  lemma ThirdByte(a: byte, b: byte, c: byte, c': byte, hb: nat)
    requires 8 <= hb && Hash3(a, b, c, hb) == Hash3(a, b, c', hb)
    ensures c == c'
  {
    hide Xor, Trunc;
    var h := Update(Update(0, a, hb), b, hb);
    TruncTrunc(Xor(h * 32, c), 8, hb);
    TruncTrunc(Xor(h * 32, c'), 8, hb);
    assert Pow2(8) == 256;
    XorInjective(h * 32, c, c', 8);
  }

  lemma {:induction false} TruncBound(v: nat, n: nat)
    ensures Trunc(v, n) < Pow2(n)
  {
    if n > 0 { TruncBound(v / 2, n - 1); }
  }

  // ---------- The rolling key ----------

  function HashAt(win: seq<byte>, p: nat, hb: nat): nat
    requires p + 2 < |win|
  {
    Hash3(win[p], win[p + 1], win[p + 2], hb)
  }

  /** One more update turns `insH` into the key of the string at `n`. */
  ghost predicate Rolled(insH: nat, win: seq<byte>, n: nat, hb: nat) {
    n + 1 < |win| && forall c: byte :: Update(insH, c, hb) == Hash3(win[n], win[n + 1], c, hb)
  }

  lemma RollOn(insH: nat, win: seq<byte>, n: nat, hb: nat)
    requires Rolled(insH, win, n, hb) && n + 2 < |win| && 10 <= hb <= 15
    ensures Update(insH, win[n + 2], hb) == HashAt(win, n, hb) < Pow2(hb)
    ensures Rolled(Update(insH, win[n + 2], hb), win, n + 1, hb)
  {
    hide Xor, Trunc, Update;
    forall c: byte
      ensures Update(HashAt(win, n, hb), c, hb) == Hash3(win[n + 1], win[n + 2], c, hb)
    {
      HashForgets(Update(0, win[n], hb), win[n + 1], win[n + 2], c, hb);
    }
    KeyBound(insH, win[n + 2], hb);
  }

  lemma KeyBound(h: nat, c: byte, hb: nat)
    ensures Update(h, c, hb) < Pow2(hb)
  {
    hide Xor, Trunc;
    TruncBound(Xor(h * 32, c), hb);
  }

  // ---------- Chains ----------

  /** No string after `m` and before `p` has key `h`. */
  ghost predicate NoneBetween(win: seq<byte>, m: nat, p: nat, h: nat, hb: nat) {
    forall q :: m < q < p && q + 2 < |win| ==> HashAt(win, q, hb) != h
  }

  /** `m` is the last string before `p` with key `h`, or 0 if none but the first has it. */
  ghost predicate Earlier(win: seq<byte>, m: nat, p: nat, h: nat, hb: nat) {
    (m == 0 || (m < p && m + 2 < |win| && HashAt(win, m, hb) == h)) && NoneBetween(win, m, p, h, hb)
  }

  lemma NoneMore(win: seq<byte>, m: nat, n: nat, h: nat, hb: nat)
    requires NoneBetween(win, m, n, h, hb) && n + 2 < |win| && HashAt(win, n, hb) != h
    ensures NoneBetween(win, m, n + 1, h, hb)
  {
    hide HashAt;
  }

  lemma NoneKept(win: seq<byte>, win': seq<byte>, m: nat, p: nat, h: nat, hb: nat)
    requires NoneBetween(win, m, p, h, hb) && p + 1 < |win| == |win'| && forall i :: 0 <= i <= p + 1 ==> win'[i] == win[i]
    ensures NoneBetween(win', m, p, h, hb)
  {
    hide Hash3;
    forall q | m < q < p && q + 2 < |win'|
      ensures HashAt(win', q, hb) != h
    {
      assert HashAt(win, q, hb) != h;
    }
  }

  lemma NoneSlid(win: seq<byte>, win': seq<byte>, m: nat, p: nat, h: nat, hb: nat)
    requires NoneBetween(win, m, p, h, hb) && WSIZE <= p <= 2 * WSIZE - 2 && |win'| == |win| >= 2 * WSIZE
    requires forall i :: 0 <= i < WSIZE ==> win'[i] == win[i + WSIZE]
    ensures NoneBetween(win', Slid(m), p - WSIZE, h, hb)
  {
    hide Hash3;
    forall q | Slid(m) < q < p - WSIZE && q + 2 < |win'|
      ensures HashAt(win', q, hb) != h
    {
      var q0 := q + WSIZE;
      assert win'[q] == win[q0] && win'[q + 1] == win[q0 + 1] && win'[q + 2] == win[q0 + 2];
      assert HashAt(win, q0, hb) != h;
    }
  }

  ghost predicate LinkOk(win: seq<byte>, prev: seq<nat>, p: nat, hb: nat)
    requires |prev| == WSIZE && p + 2 < |win|
  {
    Earlier(win, prev[p % WSIZE], p, HashAt(win, p, hb), hb)
  }

  /** The strings at 0 up to `n` are inserted: every head and every link of the last WSIZE strings leads to the
      last string before it with the same key. */
  ghost predicate Chains(win: seq<byte>, head: seq<nat>, prev: seq<nat>, n: nat, hb: nat) {
    && |head| == Pow2(hb) && |prev| == WSIZE && n + 1 < |win|
    && (forall h :: 0 <= h < |head| ==> Earlier(win, head[h], n, h, hb))
    && (forall p :: 0 <= p < n < p + 1 + WSIZE ==> LinkOk(win, prev, p, hb))
  }

  lemma InsertKeeps(win: seq<byte>, head: seq<nat>, prev: seq<nat>, n: nat, hb: nat)
    requires Chains(win, head, prev, n, hb) && n + 2 < |win| && HashAt(win, n, hb) < |head|
    ensures var h := HashAt(win, n, hb);
            Chains(win, head[h := n], prev[n % WSIZE := head[h]], n + 1, hb) && Earlier(win, head[h], n, h, hb)
  {
    hide HashAt, Pow2, NoneBetween;
    var h := HashAt(win, n, hb);
    var head', prev' := head[h := n], prev[n % WSIZE := head[h]];
    forall p | 0 <= p < n + 1 < p + 1 + WSIZE
      ensures LinkOk(win, prev', p, hb)
    {
      if p < n {
        SlotDistinct(p, n);
        assert LinkOk(win, prev, p, hb);
      }
    }
    forall k | 0 <= k < |head'|
      ensures Earlier(win, head'[k], n + 1, k, hb)
    {
      assert Earlier(win, head[k], n, k, hb);
      if k == h {
        NoneHere(win, n, h, hb);
      } else {
        NoneMore(win, head[k], n, k, hb);
      }
    }
  }

  lemma NoneHere(win: seq<byte>, n: nat, h: nat, hb: nat)
    ensures NoneBetween(win, n, n + 1, h, hb)
  {
  }

  lemma SlotDistinct(p: nat, n: nat)
    requires p < n < p + WSIZE
    ensures p % WSIZE != n % WSIZE
  {
  }

  /** Only the bytes of inserted strings matter. */
  lemma ChainsKept(win: seq<byte>, win': seq<byte>, head: seq<nat>, prev: seq<nat>, n: nat, hb: nat)
    requires Chains(win, head, prev, n, hb) && |win'| == |win| && forall i :: 0 <= i <= n + 1 ==> win'[i] == win[i]
    ensures Chains(win', head, prev, n, hb)
  {
    hide Hash3, Pow2, NoneBetween;
    forall h | 0 <= h < |head|
      ensures Earlier(win', head[h], n, h, hb)
    {
      assert Earlier(win, head[h], n, h, hb);
      NoneKept(win, win', head[h], n, h, hb);
    }
    forall p | 0 <= p < n < p + 1 + WSIZE
      ensures LinkOk(win', prev, p, hb)
    {
      assert LinkOk(win, prev, p, hb);
      NoneKept(win, win', prev[p % WSIZE], p, HashAt(win, p, hb), hb);
    }
  }

  // ---------- Sliding ----------

  function Slid(m: nat): nat { if m >= WSIZE then m - WSIZE else 0 }

  lemma EarlierSlid(win: seq<byte>, win': seq<byte>, m: nat, p: nat, h: nat, hb: nat)
    requires Earlier(win, m, p, h, hb) && WSIZE <= p <= 2 * WSIZE - 2 && |win'| == |win| >= 2 * WSIZE
    requires forall i :: 0 <= i < WSIZE ==> win'[i] == win[i + WSIZE]
    ensures Earlier(win', Slid(m), p - WSIZE, h, hb)
  {
    hide Hash3, NoneBetween;
    NoneSlid(win, win', m, p, h, hb);
    if m >= WSIZE {
      var k := m - WSIZE;
      assert win'[k] == win[m] && win'[k + 1] == win[m + 1] && win'[k + 2] == win[m + 2];
    }
  }

  /** Moving the upper half down moves every string of it with its chain. */
  lemma ChainsSlid(win: seq<byte>, win': seq<byte>, head: seq<nat>, head': seq<nat>, prev: seq<nat>, prev': seq<nat>, n: nat, hb: nat)
    requires Chains(win, head, prev, n, hb) && WSIZE <= n <= 2 * WSIZE - 2 && |win'| == |win| >= 2 * WSIZE
    requires forall i :: 0 <= i < WSIZE ==> win'[i] == win[i + WSIZE]
    requires |head'| == |head| && forall h :: 0 <= h < |head| ==> head'[h] == Slid(head[h])
    requires |prev'| == |prev| && forall i :: 0 <= i < |prev| ==> prev'[i] == Slid(prev[i])
    ensures Chains(win', head', prev', n - WSIZE, hb)
  {
    hide Hash3, Pow2, Slid, NoneBetween;
    forall h | 0 <= h < |head'|
      ensures Earlier(win', head'[h], n - WSIZE, h, hb)
    {
      EarlierSlid(win, win', head[h], n, h, hb);
    }
    forall p | 0 <= p < n - WSIZE < p + 1 + WSIZE
      ensures LinkOk(win', prev', p, hb)
    {
      var p0 := p + WSIZE;
      assert p0 % WSIZE == p % WSIZE;
      assert LinkOk(win, prev, p0, hb);
      EarlierSlid(win, win', prev[p0 % WSIZE], p0, HashAt(win, p0, hb), hb);
      assert win'[p] == win[p0] && win'[p + 1] == win[p0 + 1] && win'[p + 2] == win[p0 + 2];
    }
  }
}
