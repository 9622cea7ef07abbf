/** The wheel that factor takes its trial divisors from: its table, packed and unpacked, skips only multiples of 2, 3, 5, 7 and 11. */
module Wheels {

  const WHEEL_START := 5
  const WHEEL_SIZE := 485
  const ROWS := 23
  const TURN := 2310

  /** An increment that fits its three bits. */
  predicate Inc(g: nat) {
    g in {2, 4, 6, 8, 10, 12, 14}
  }

  ghost predicate Incs(row: seq<nat>) {
    forall k :: 0 <= k < |row| ==> Inc(row[k])
  }

  /** One row of the table. */
  function P(a: nat, b: nat, c: nat, d: nat, e: nat, f: nat, g: nat, h: nat, i: nat, j: nat, k: nat,
             l: nat, m: nat, n: nat, o: nat, p: nat, q: nat, r: nat, s: nat, t: nat, u: nat): (row: seq<nat>)
    requires Inc(a) && Inc(b) && Inc(c) && Inc(d) && Inc(e) && Inc(f) && Inc(g) && Inc(h) && Inc(i) && Inc(j) && Inc(k)
    requires Inc(l) && Inc(m) && Inc(n) && Inc(o) && Inc(p) && Inc(q) && Inc(r) && Inc(s) && Inc(t) && Inc(u)
    ensures |row| == 21 && Incs(row)
  {
    [a, b, c, d, e, f, g, h, i, j, k, l, m, n, o, p, q, r, s, t, u]
  }

  /** The rows of packed_wheel. */
  function Row(i: nat): (row: seq<nat>)
    requires i < ROWS
    ensures |row| == 21 && Incs(row)
  {
    match i
    case 0 => P(2, 4, 2, 4, 2, 4, 6, 2, 6, 4, 2, 4, 6, 6, 2, 6, 4, 2, 6, 4, 6)
    case 1 => P(8, 4, 2, 4, 2, 4, 14, 4, 6, 2, 10, 2, 6, 6, 4, 2, 4, 6, 2, 10, 2)
    case 2 => P(4, 2, 12, 10, 2, 4, 2, 4, 6, 2, 6, 4, 6, 6, 6, 2, 6, 4, 2, 6, 4)
    case 3 => P(6, 8, 4, 2, 4, 6, 8, 6, 10, 2, 4, 6, 2, 6, 6, 4, 2, 4, 6, 2, 6)
    case 4 => P(4, 2, 6, 10, 2, 10, 2, 4, 2, 4, 6, 8, 4, 2, 4, 12, 2, 6, 4, 2, 6)
    case 5 => P(4, 6, 12, 2, 4, 2, 4, 8, 6, 4, 6, 2, 4, 6, 2, 6, 10, 2, 4, 6, 2)
    case 6 => P(6, 4, 2, 4, 2, 10, 2, 10, 2, 4, 6, 6, 2, 6, 6, 4, 6, 6, 2, 6, 4)
    case 7 => P(2, 6, 4, 6, 8, 4, 2, 6, 4, 8, 6, 4, 6, 2, 4, 6, 8, 6, 4, 2, 10)
    case 8 => P(2, 6, 4, 2, 4, 2, 10, 2, 10, 2, 4, 2, 4, 8, 6, 4, 2, 4, 6, 6, 2)
    case 9 => P(6, 4, 8, 4, 6, 8, 4, 2, 4, 2, 4, 8, 6, 4, 6, 6, 6, 2, 6, 6, 4)
    case 10 => P(2, 4, 6, 2, 6, 4, 2, 4, 2, 10, 2, 10, 2, 6, 4, 6, 2, 6, 4, 2, 4)
    case 11 => P(6, 6, 8, 4, 2, 6, 10, 8, 4, 2, 4, 2, 4, 8, 10, 6, 2, 4, 8, 6, 6)
    case 12 => P(4, 2, 4, 6, 2, 6, 4, 6, 2, 10, 2, 10, 2, 4, 2, 4, 6, 2, 6, 4, 2)
    case 13 => P(4, 6, 6, 2, 6, 6, 6, 4, 6, 8, 4, 2, 4, 2, 4, 8, 6, 4, 8, 4, 6)
    case 14 => P(2, 6, 6, 4, 2, 4, 6, 8, 4, 2, 4, 2, 10, 2, 10, 2, 4, 2, 4, 6, 2)
    case 15 => P(10, 2, 4, 6, 8, 6, 4, 2, 6, 4, 6, 8, 4, 6, 2, 4, 8, 6, 4, 6, 2)
    case 16 => P(4, 6, 2, 6, 6, 4, 6, 6, 2, 6, 6, 4, 2, 10, 2, 10, 2, 4, 2, 4, 6)
    case 17 => P(2, 6, 4, 2, 10, 6, 2, 6, 4, 2, 6, 4, 6, 8, 4, 2, 4, 2, 12, 6, 4)
    case 18 => P(6, 2, 4, 6, 2, 12, 4, 2, 4, 8, 6, 4, 2, 4, 2, 10, 2, 10, 6, 2, 4)
    case 19 => P(6, 2, 6, 4, 2, 4, 6, 6, 2, 6, 4, 2, 10, 6, 8, 6, 4, 2, 4, 8, 6)
    case 20 => P(4, 6, 2, 4, 6, 2, 6, 6, 6, 4, 6, 2, 6, 4, 2, 4, 2, 10, 12, 2, 4)
    case 21 => P(2, 10, 2, 6, 4, 2, 4, 6, 6, 2, 10, 2, 6, 4, 14, 4, 2, 4, 2, 4, 8)
    case _ => P(6, 4, 6, 2, 4, 6, 2, 6, 6, 4, 2, 4, 6, 2, 6, 4, 2, 4, 12, 2, 12)
  }

  // ---------- What the wheel skips ----------

  /** Numbers a trial division may skip. */
  predicate Skippable(d: nat) {
    d % 2 == 0 || d % 3 == 0 || d % 5 == 0 || d % 7 == 0 || d % 11 == 0
  }

  ghost predicate GapOk(a: nat, b: nat) {
    a < b && forall d :: a < d < b ==> Skippable(d)
  }

  /** From `pos` on, the increments from index `w` to the end pass over skippable numbers only, and the end is one turn after 13. */
  ghost predicate From(tab: seq<nat>, w: nat, pos: nat)
    decreases |tab| - w
  {
    if w >= |tab| then w == WHEEL_SIZE && pos == 13 + TURN
    else 1 <= tab[w] <= 14 && GapOk(pos, pos + tab[w]) && From(tab, w + 1, pos + tab[w])
  }

  /** The odd numbers between an odd `r` and `r + g` are skippable. */
  predicate OddsSkip(r: nat, g: nat) {
    && (g > 2 ==> Skippable(r + 2)) && (g > 4 ==> Skippable(r + 4)) && (g > 6 ==> Skippable(r + 6))
    && (g > 8 ==> Skippable(r + 8)) && (g > 10 ==> Skippable(r + 10)) && (g > 12 ==> Skippable(r + 12))
  }

  lemma Even(r: nat, k: nat)
    requires r % 2 == 1 && k % 2 == 1
    ensures Skippable(r + k)
  {
    assert (r + k) % 2 == 0;
  }

  lemma OddGap(r: nat, g: nat)
    requires r % 2 == 1 && g in {2, 4, 6, 8, 10, 12, 14} && OddsSkip(r, g)
    ensures GapOk(r, r + g)
  {
    hide Skippable;
    Even(r, 1);
    Even(r, 3);
    Even(r, 5);
    Even(r, 7);
    Even(r, 9);
    Even(r, 11);
    Even(r, 13);
  }

  /** One increment. */
  lemma Go(tab: seq<nat>, w: nat, r: nat, g: nat)
    requires w < |tab| && tab[w] == g && r % 2 == 1 && g in {2, 4, 6, 8, 10, 12, 14} && OddsSkip(r, g) && From(tab, w + 1, r + g)
    ensures From(tab, w, r)
  {
    hide Skippable, GapOk, OddsSkip;
    OddGap(r, g);
  }

  lemma Entries(tab: seq<nat>, w: nat, a: nat, b: nat, c: nat, d: nat, e: nat, f: nat, g: nat, h: nat, i: nat, j: nat, k: nat,
                l: nat, m: nat, n: nat, o: nat, p: nat, q: nat, r: nat, s: nat, t: nat, u: nat)
    requires w + 21 <= |tab| && tab[w..w + 21] == [a, b, c, d, e, f, g, h, i, j, k, l, m, n, o, p, q, r, s, t, u]
    ensures tab[w] == a && tab[w + 1] == b && tab[w + 2] == c && tab[w + 3] == d && tab[w + 4] == e && tab[w + 5] == f && tab[w + 6] == g
    ensures tab[w + 7] == h && tab[w + 8] == i && tab[w + 9] == j && tab[w + 10] == k && tab[w + 11] == l && tab[w + 12] == m && tab[w + 13] == n
    ensures tab[w + 14] == o && tab[w + 15] == p && tab[w + 16] == q && tab[w + 17] == r && tab[w + 18] == s && tab[w + 19] == t && tab[w + 20] == u
  {
    var row := tab[w..w + 21];
    forall k | 0 <= k < 21
      ensures tab[w + k] == row[k]
    {
    }
  }

  ghost predicate RowAt(tab: seq<nat>, w: nat, i: nat)
    requires i < ROWS
  {
    w + 21 <= |tab| && tab[w..w + 21] == Row(i)
  }

  lemma Row0Ok(tab: seq<nat>)
    requires RowAt(tab, 2, 0) && From(tab, 23, 89)
    ensures From(tab, 2, 5)
  {
    hide From;
    Entries(tab, 2, 2, 4, 2, 4, 2, 4, 6, 2, 6, 4, 2, 4, 6, 6, 2, 6, 4, 2, 6, 4, 6);
    Go(tab, 22, 83, 6); Go(tab, 21, 79, 4); Go(tab, 20, 73, 6); Go(tab, 19, 71, 2); Go(tab, 18, 67, 4); Go(tab, 17, 61, 6);
    Go(tab, 16, 59, 2); Go(tab, 15, 53, 6); Go(tab, 14, 47, 6); Go(tab, 13, 43, 4); Go(tab, 12, 41, 2); Go(tab, 11, 37, 4);
    Go(tab, 10, 31, 6); Go(tab, 9, 29, 2); Go(tab, 8, 23, 6); Go(tab, 7, 19, 4); Go(tab, 6, 17, 2); Go(tab, 5, 13, 4);
    Go(tab, 4, 11, 2); Go(tab, 3, 7, 4); Go(tab, 2, 5, 2);
  }

  lemma Row1Ok(tab: seq<nat>)
    requires RowAt(tab, 23, 1) && From(tab, 44, 193)
    ensures From(tab, 23, 89)
  {
    hide From;
    Entries(tab, 23, 8, 4, 2, 4, 2, 4, 14, 4, 6, 2, 10, 2, 6, 6, 4, 2, 4, 6, 2, 10, 2);
    Go(tab, 43, 191, 2); Go(tab, 42, 181, 10); Go(tab, 41, 179, 2); Go(tab, 40, 173, 6); Go(tab, 39, 169, 4);
    Go(tab, 38, 167, 2); Go(tab, 37, 163, 4); Go(tab, 36, 157, 6); Go(tab, 35, 151, 6); Go(tab, 34, 149, 2);
    Go(tab, 33, 139, 10); Go(tab, 32, 137, 2); Go(tab, 31, 131, 6); Go(tab, 30, 127, 4); Go(tab, 29, 113, 14);
    Go(tab, 28, 109, 4); Go(tab, 27, 107, 2); Go(tab, 26, 103, 4); Go(tab, 25, 101, 2); Go(tab, 24, 97, 4);
    Go(tab, 23, 89, 8);
  }

  lemma Row2Ok(tab: seq<nat>)
    requires RowAt(tab, 44, 2) && From(tab, 65, 293)
    ensures From(tab, 44, 193)
  {
    hide From;
    Entries(tab, 44, 4, 2, 12, 10, 2, 4, 2, 4, 6, 2, 6, 4, 6, 6, 6, 2, 6, 4, 2, 6, 4);
    Go(tab, 64, 289, 4); Go(tab, 63, 283, 6); Go(tab, 62, 281, 2); Go(tab, 61, 277, 4); Go(tab, 60, 271, 6);
    Go(tab, 59, 269, 2); Go(tab, 58, 263, 6); Go(tab, 57, 257, 6); Go(tab, 56, 251, 6); Go(tab, 55, 247, 4);
    Go(tab, 54, 241, 6); Go(tab, 53, 239, 2); Go(tab, 52, 233, 6); Go(tab, 51, 229, 4); Go(tab, 50, 227, 2);
    Go(tab, 49, 223, 4); Go(tab, 48, 221, 2); Go(tab, 47, 211, 10); Go(tab, 46, 199, 12); Go(tab, 45, 197, 2);
    Go(tab, 44, 193, 4);
  }

  lemma Row3Ok(tab: seq<nat>)
    requires RowAt(tab, 65, 3) && From(tab, 86, 397)
    ensures From(tab, 65, 293)
  {
    hide From;
    Entries(tab, 65, 6, 8, 4, 2, 4, 6, 8, 6, 10, 2, 4, 6, 2, 6, 6, 4, 2, 4, 6, 2, 6);
    Go(tab, 85, 391, 6); Go(tab, 84, 389, 2); Go(tab, 83, 383, 6); Go(tab, 82, 379, 4); Go(tab, 81, 377, 2);
    Go(tab, 80, 373, 4); Go(tab, 79, 367, 6); Go(tab, 78, 361, 6); Go(tab, 77, 359, 2); Go(tab, 76, 353, 6);
    Go(tab, 75, 349, 4); Go(tab, 74, 347, 2); Go(tab, 73, 337, 10); Go(tab, 72, 331, 6); Go(tab, 71, 323, 8);
    Go(tab, 70, 317, 6); Go(tab, 69, 313, 4); Go(tab, 68, 311, 2); Go(tab, 67, 307, 4); Go(tab, 66, 299, 8);
    Go(tab, 65, 293, 6);
  }

  lemma Row4Ok(tab: seq<nat>)
    requires RowAt(tab, 86, 4) && From(tab, 107, 499)
    ensures From(tab, 86, 397)
  {
    hide From;
    Entries(tab, 86, 4, 2, 6, 10, 2, 10, 2, 4, 2, 4, 6, 8, 4, 2, 4, 12, 2, 6, 4, 2, 6);
    Go(tab, 106, 493, 6); Go(tab, 105, 491, 2); Go(tab, 104, 487, 4); Go(tab, 103, 481, 6); Go(tab, 102, 479, 2);
    Go(tab, 101, 467, 12); Go(tab, 100, 463, 4); Go(tab, 99, 461, 2); Go(tab, 98, 457, 4); Go(tab, 97, 449, 8);
    Go(tab, 96, 443, 6); Go(tab, 95, 439, 4); Go(tab, 94, 437, 2); Go(tab, 93, 433, 4); Go(tab, 92, 431, 2);
    Go(tab, 91, 421, 10); Go(tab, 90, 419, 2); Go(tab, 89, 409, 10); Go(tab, 88, 403, 6); Go(tab, 87, 401, 2);
    Go(tab, 86, 397, 4);
  }

  lemma Row5Ok(tab: seq<nat>)
    requires RowAt(tab, 107, 5) && From(tab, 128, 601)
    ensures From(tab, 107, 499)
  {
    hide From;
    Entries(tab, 107, 4, 6, 12, 2, 4, 2, 4, 8, 6, 4, 6, 2, 4, 6, 2, 6, 10, 2, 4, 6, 2);
    Go(tab, 127, 599, 2); Go(tab, 126, 593, 6); Go(tab, 125, 589, 4); Go(tab, 124, 587, 2); Go(tab, 123, 577, 10);
    Go(tab, 122, 571, 6); Go(tab, 121, 569, 2); Go(tab, 120, 563, 6); Go(tab, 119, 559, 4); Go(tab, 118, 557, 2);
    Go(tab, 117, 551, 6); Go(tab, 116, 547, 4); Go(tab, 115, 541, 6); Go(tab, 114, 533, 8); Go(tab, 113, 529, 4);
    Go(tab, 112, 527, 2); Go(tab, 111, 523, 4); Go(tab, 110, 521, 2); Go(tab, 109, 509, 12); Go(tab, 108, 503, 6);
    Go(tab, 107, 499, 4);
  }

  lemma Row6Ok(tab: seq<nat>)
    requires RowAt(tab, 128, 6) && From(tab, 149, 701)
    ensures From(tab, 128, 601)
  {
    hide From;
    Entries(tab, 128, 6, 4, 2, 4, 2, 10, 2, 10, 2, 4, 6, 6, 2, 6, 6, 4, 6, 6, 2, 6, 4);
    Go(tab, 148, 697, 4); Go(tab, 147, 691, 6); Go(tab, 146, 689, 2); Go(tab, 145, 683, 6); Go(tab, 144, 677, 6);
    Go(tab, 143, 673, 4); Go(tab, 142, 667, 6); Go(tab, 141, 661, 6); Go(tab, 140, 659, 2); Go(tab, 139, 653, 6);
    Go(tab, 138, 647, 6); Go(tab, 137, 643, 4); Go(tab, 136, 641, 2); Go(tab, 135, 631, 10); Go(tab, 134, 629, 2);
    Go(tab, 133, 619, 10); Go(tab, 132, 617, 2); Go(tab, 131, 613, 4); Go(tab, 130, 611, 2); Go(tab, 129, 607, 4);
    Go(tab, 128, 601, 6);
  }

  lemma Row7Ok(tab: seq<nat>)
    requires RowAt(tab, 149, 7) && From(tab, 170, 809)
    ensures From(tab, 149, 701)
  {
    hide From;
    Entries(tab, 149, 2, 6, 4, 6, 8, 4, 2, 6, 4, 8, 6, 4, 6, 2, 4, 6, 8, 6, 4, 2, 10);
    Go(tab, 169, 799, 10); Go(tab, 168, 797, 2); Go(tab, 167, 793, 4); Go(tab, 166, 787, 6); Go(tab, 165, 779, 8);
    Go(tab, 164, 773, 6); Go(tab, 163, 769, 4); Go(tab, 162, 767, 2); Go(tab, 161, 761, 6); Go(tab, 160, 757, 4);
    Go(tab, 159, 751, 6); Go(tab, 158, 743, 8); Go(tab, 157, 739, 4); Go(tab, 156, 733, 6); Go(tab, 155, 731, 2);
    Go(tab, 154, 727, 4); Go(tab, 153, 719, 8); Go(tab, 152, 713, 6); Go(tab, 151, 709, 4); Go(tab, 150, 703, 6);
    Go(tab, 149, 701, 2);
  }

  lemma Row8Ok(tab: seq<nat>)
    requires RowAt(tab, 170, 8) && From(tab, 191, 901)
    ensures From(tab, 170, 809)
  {
    hide From;
    Entries(tab, 170, 2, 6, 4, 2, 4, 2, 10, 2, 10, 2, 4, 2, 4, 8, 6, 4, 2, 4, 6, 6, 2);
    Go(tab, 190, 899, 2); Go(tab, 189, 893, 6); Go(tab, 188, 887, 6); Go(tab, 187, 883, 4); Go(tab, 186, 881, 2);
    Go(tab, 185, 877, 4); Go(tab, 184, 871, 6); Go(tab, 183, 863, 8); Go(tab, 182, 859, 4); Go(tab, 181, 857, 2);
    Go(tab, 180, 853, 4); Go(tab, 179, 851, 2); Go(tab, 178, 841, 10); Go(tab, 177, 839, 2); Go(tab, 176, 829, 10);
    Go(tab, 175, 827, 2); Go(tab, 174, 823, 4); Go(tab, 173, 821, 2); Go(tab, 172, 817, 4); Go(tab, 171, 811, 6);
    Go(tab, 170, 809, 2);
  }

  lemma Row9Ok(tab: seq<nat>)
    requires RowAt(tab, 191, 9) && From(tab, 212, 1007)
    ensures From(tab, 191, 901)
  {
    hide From;
    Entries(tab, 191, 6, 4, 8, 4, 6, 8, 4, 2, 4, 2, 4, 8, 6, 4, 6, 6, 6, 2, 6, 6, 4);
    Go(tab, 211, 1003, 4); Go(tab, 210, 997, 6); Go(tab, 209, 991, 6); Go(tab, 208, 989, 2); Go(tab, 207, 983, 6);
    Go(tab, 206, 977, 6); Go(tab, 205, 971, 6); Go(tab, 204, 967, 4); Go(tab, 203, 961, 6); Go(tab, 202, 953, 8);
    Go(tab, 201, 949, 4); Go(tab, 200, 947, 2); Go(tab, 199, 943, 4); Go(tab, 198, 941, 2); Go(tab, 197, 937, 4);
    Go(tab, 196, 929, 8); Go(tab, 195, 923, 6); Go(tab, 194, 919, 4); Go(tab, 193, 911, 8); Go(tab, 192, 907, 4);
    Go(tab, 191, 901, 6);
  }

  lemma Row10Ok(tab: seq<nat>)
    requires RowAt(tab, 212, 10) && From(tab, 233, 1097)
    ensures From(tab, 212, 1007)
  {
    hide From;
    Entries(tab, 212, 2, 4, 6, 2, 6, 4, 2, 4, 2, 10, 2, 10, 2, 6, 4, 6, 2, 6, 4, 2, 4);
    Go(tab, 232, 1093, 4); Go(tab, 231, 1091, 2); Go(tab, 230, 1087, 4); Go(tab, 229, 1081, 6); Go(tab, 228, 1079, 2);
    Go(tab, 227, 1073, 6); Go(tab, 226, 1069, 4); Go(tab, 225, 1063, 6); Go(tab, 224, 1061, 2); Go(tab, 223, 1051, 10);
    Go(tab, 222, 1049, 2); Go(tab, 221, 1039, 10); Go(tab, 220, 1037, 2); Go(tab, 219, 1033, 4); Go(tab, 218, 1031, 2);
    Go(tab, 217, 1027, 4); Go(tab, 216, 1021, 6); Go(tab, 215, 1019, 2); Go(tab, 214, 1013, 6); Go(tab, 213, 1009, 4);
    Go(tab, 212, 1007, 2);
  }

  lemma Row11Ok(tab: seq<nat>)
    requires RowAt(tab, 233, 11) && From(tab, 254, 1213)
    ensures From(tab, 233, 1097)
  {
    hide From;
    Entries(tab, 233, 6, 6, 8, 4, 2, 6, 10, 8, 4, 2, 4, 2, 4, 8, 10, 6, 2, 4, 8, 6, 6);
    Go(tab, 253, 1207, 6); Go(tab, 252, 1201, 6); Go(tab, 251, 1193, 8); Go(tab, 250, 1189, 4); Go(tab, 249, 1187, 2);
    Go(tab, 248, 1181, 6); Go(tab, 247, 1171, 10); Go(tab, 246, 1163, 8); Go(tab, 245, 1159, 4); Go(tab, 244, 1157, 2);
    Go(tab, 243, 1153, 4); Go(tab, 242, 1151, 2); Go(tab, 241, 1147, 4); Go(tab, 240, 1139, 8); Go(tab, 239, 1129, 10);
    Go(tab, 238, 1123, 6); Go(tab, 237, 1121, 2); Go(tab, 236, 1117, 4); Go(tab, 235, 1109, 8); Go(tab, 234, 1103, 6);
    Go(tab, 233, 1097, 6);
  }

  lemma Row12Ok(tab: seq<nat>)
    requires RowAt(tab, 254, 12) && From(tab, 275, 1303)
    ensures From(tab, 254, 1213)
  {
    hide From;
    Entries(tab, 254, 4, 2, 4, 6, 2, 6, 4, 6, 2, 10, 2, 10, 2, 4, 2, 4, 6, 2, 6, 4, 2);
    Go(tab, 274, 1301, 2); Go(tab, 273, 1297, 4); Go(tab, 272, 1291, 6); Go(tab, 271, 1289, 2); Go(tab, 270, 1283, 6);
    Go(tab, 269, 1279, 4); Go(tab, 268, 1277, 2); Go(tab, 267, 1273, 4); Go(tab, 266, 1271, 2); Go(tab, 265, 1261, 10);
    Go(tab, 264, 1259, 2); Go(tab, 263, 1249, 10); Go(tab, 262, 1247, 2); Go(tab, 261, 1241, 6); Go(tab, 260, 1237, 4);
    Go(tab, 259, 1231, 6); Go(tab, 258, 1229, 2); Go(tab, 257, 1223, 6); Go(tab, 256, 1219, 4); Go(tab, 255, 1217, 2);
    Go(tab, 254, 1213, 4);
  }

  lemma Row13Ok(tab: seq<nat>)
    requires RowAt(tab, 275, 13) && From(tab, 296, 1409)
    ensures From(tab, 275, 1303)
  {
    hide From;
    Entries(tab, 275, 4, 6, 6, 2, 6, 6, 6, 4, 6, 8, 4, 2, 4, 2, 4, 8, 6, 4, 8, 4, 6);
    Go(tab, 295, 1403, 6); Go(tab, 294, 1399, 4); Go(tab, 293, 1391, 8); Go(tab, 292, 1387, 4); Go(tab, 291, 1381, 6);
    Go(tab, 290, 1373, 8); Go(tab, 289, 1369, 4); Go(tab, 288, 1367, 2); Go(tab, 287, 1363, 4); Go(tab, 286, 1361, 2);
    Go(tab, 285, 1357, 4); Go(tab, 284, 1349, 8); Go(tab, 283, 1343, 6); Go(tab, 282, 1339, 4); Go(tab, 281, 1333, 6);
    Go(tab, 280, 1327, 6); Go(tab, 279, 1321, 6); Go(tab, 278, 1319, 2); Go(tab, 277, 1313, 6); Go(tab, 276, 1307, 6);
    Go(tab, 275, 1303, 4);
  }

  lemma Row14Ok(tab: seq<nat>)
    requires RowAt(tab, 296, 14) && From(tab, 317, 1501)
    ensures From(tab, 296, 1409)
  {
    hide From;
    Entries(tab, 296, 2, 6, 6, 4, 2, 4, 6, 8, 4, 2, 4, 2, 10, 2, 10, 2, 4, 2, 4, 6, 2);
    Go(tab, 316, 1499, 2); Go(tab, 315, 1493, 6); Go(tab, 314, 1489, 4); Go(tab, 313, 1487, 2); Go(tab, 312, 1483, 4);
    Go(tab, 311, 1481, 2); Go(tab, 310, 1471, 10); Go(tab, 309, 1469, 2); Go(tab, 308, 1459, 10); Go(tab, 307, 1457, 2);
    Go(tab, 306, 1453, 4); Go(tab, 305, 1451, 2); Go(tab, 304, 1447, 4); Go(tab, 303, 1439, 8); Go(tab, 302, 1433, 6);
    Go(tab, 301, 1429, 4); Go(tab, 300, 1427, 2); Go(tab, 299, 1423, 4); Go(tab, 298, 1417, 6); Go(tab, 297, 1411, 6);
    Go(tab, 296, 1409, 2);
  }

  lemma Row15Ok(tab: seq<nat>)
    requires RowAt(tab, 317, 15) && From(tab, 338, 1609)
    ensures From(tab, 317, 1501)
  {
    hide From;
    Entries(tab, 317, 10, 2, 4, 6, 8, 6, 4, 2, 6, 4, 6, 8, 4, 6, 2, 4, 8, 6, 4, 6, 2);
    Go(tab, 337, 1607, 2); Go(tab, 336, 1601, 6); Go(tab, 335, 1597, 4); Go(tab, 334, 1591, 6); Go(tab, 333, 1583, 8);
    Go(tab, 332, 1579, 4); Go(tab, 331, 1577, 2); Go(tab, 330, 1571, 6); Go(tab, 329, 1567, 4); Go(tab, 328, 1559, 8);
    Go(tab, 327, 1553, 6); Go(tab, 326, 1549, 4); Go(tab, 325, 1543, 6); Go(tab, 324, 1541, 2); Go(tab, 323, 1537, 4);
    Go(tab, 322, 1531, 6); Go(tab, 321, 1523, 8); Go(tab, 320, 1517, 6); Go(tab, 319, 1513, 4); Go(tab, 318, 1511, 2);
    Go(tab, 317, 1501, 10);
  }

  lemma Row16Ok(tab: seq<nat>)
    requires RowAt(tab, 338, 16) && From(tab, 359, 1709)
    ensures From(tab, 338, 1609)
  {
    hide From;
    Entries(tab, 338, 4, 6, 2, 6, 6, 4, 6, 6, 2, 6, 6, 4, 2, 10, 2, 10, 2, 4, 2, 4, 6);
    Go(tab, 358, 1703, 6); Go(tab, 357, 1699, 4); Go(tab, 356, 1697, 2); Go(tab, 355, 1693, 4); Go(tab, 354, 1691, 2);
    Go(tab, 353, 1681, 10); Go(tab, 352, 1679, 2); Go(tab, 351, 1669, 10); Go(tab, 350, 1667, 2); Go(tab, 349, 1663, 4);
    Go(tab, 348, 1657, 6); Go(tab, 347, 1651, 6); Go(tab, 346, 1649, 2); Go(tab, 345, 1643, 6); Go(tab, 344, 1637, 6);
    Go(tab, 343, 1633, 4); Go(tab, 342, 1627, 6); Go(tab, 341, 1621, 6); Go(tab, 340, 1619, 2); Go(tab, 339, 1613, 6);
    Go(tab, 338, 1609, 4);
  }

  lemma Row17Ok(tab: seq<nat>)
    requires RowAt(tab, 359, 17) && From(tab, 380, 1811)
    ensures From(tab, 359, 1709)
  {
    hide From;
    Entries(tab, 359, 2, 6, 4, 2, 10, 6, 2, 6, 4, 2, 6, 4, 6, 8, 4, 2, 4, 2, 12, 6, 4);
    Go(tab, 379, 1807, 4); Go(tab, 378, 1801, 6); Go(tab, 377, 1789, 12); Go(tab, 376, 1787, 2); Go(tab, 375, 1783, 4);
    Go(tab, 374, 1781, 2); Go(tab, 373, 1777, 4); Go(tab, 372, 1769, 8); Go(tab, 371, 1763, 6); Go(tab, 370, 1759, 4);
    Go(tab, 369, 1753, 6); Go(tab, 368, 1751, 2); Go(tab, 367, 1747, 4); Go(tab, 366, 1741, 6); Go(tab, 365, 1739, 2);
    Go(tab, 364, 1733, 6); Go(tab, 363, 1723, 10); Go(tab, 362, 1721, 2); Go(tab, 361, 1717, 4); Go(tab, 360, 1711, 6);
    Go(tab, 359, 1709, 2);
  }

  lemma Row18Ok(tab: seq<nat>)
    requires RowAt(tab, 380, 18) && From(tab, 401, 1913)
    ensures From(tab, 380, 1811)
  {
    hide From;
    Entries(tab, 380, 6, 2, 4, 6, 2, 12, 4, 2, 4, 8, 6, 4, 2, 4, 2, 10, 2, 10, 6, 2, 4);
    Go(tab, 400, 1909, 4); Go(tab, 399, 1907, 2); Go(tab, 398, 1901, 6); Go(tab, 397, 1891, 10); Go(tab, 396, 1889, 2);
    Go(tab, 395, 1879, 10); Go(tab, 394, 1877, 2); Go(tab, 393, 1873, 4); Go(tab, 392, 1871, 2); Go(tab, 391, 1867, 4);
    Go(tab, 390, 1861, 6); Go(tab, 389, 1853, 8); Go(tab, 388, 1849, 4); Go(tab, 387, 1847, 2); Go(tab, 386, 1843, 4);
    Go(tab, 385, 1831, 12); Go(tab, 384, 1829, 2); Go(tab, 383, 1823, 6); Go(tab, 382, 1819, 4); Go(tab, 381, 1817, 2);
    Go(tab, 380, 1811, 6);
  }

  lemma Row19Ok(tab: seq<nat>)
    requires RowAt(tab, 401, 19) && From(tab, 422, 2017)
    ensures From(tab, 401, 1913)
  {
    hide From;
    Entries(tab, 401, 6, 2, 6, 4, 2, 4, 6, 6, 2, 6, 4, 2, 10, 6, 8, 6, 4, 2, 4, 8, 6);
    Go(tab, 421, 2011, 6); Go(tab, 420, 2003, 8); Go(tab, 419, 1999, 4); Go(tab, 418, 1997, 2); Go(tab, 417, 1993, 4);
    Go(tab, 416, 1987, 6); Go(tab, 415, 1979, 8); Go(tab, 414, 1973, 6); Go(tab, 413, 1963, 10); Go(tab, 412, 1961, 2);
    Go(tab, 411, 1957, 4); Go(tab, 410, 1951, 6); Go(tab, 409, 1949, 2); Go(tab, 408, 1943, 6); Go(tab, 407, 1937, 6);
    Go(tab, 406, 1933, 4); Go(tab, 405, 1931, 2); Go(tab, 404, 1927, 4); Go(tab, 403, 1921, 6); Go(tab, 402, 1919, 2);
    Go(tab, 401, 1913, 6);
  }

  lemma Row20Ok(tab: seq<nat>)
    requires RowAt(tab, 422, 20) && From(tab, 443, 2117)
    ensures From(tab, 422, 2017)
  {
    hide From;
    Entries(tab, 422, 4, 6, 2, 4, 6, 2, 6, 6, 6, 4, 6, 2, 6, 4, 2, 4, 2, 10, 12, 2, 4);
    Go(tab, 442, 2113, 4); Go(tab, 441, 2111, 2); Go(tab, 440, 2099, 12); Go(tab, 439, 2089, 10); Go(tab, 438, 2087, 2);
    Go(tab, 437, 2083, 4); Go(tab, 436, 2081, 2); Go(tab, 435, 2077, 4); Go(tab, 434, 2071, 6); Go(tab, 433, 2069, 2);
    Go(tab, 432, 2063, 6); Go(tab, 431, 2059, 4); Go(tab, 430, 2053, 6); Go(tab, 429, 2047, 6); Go(tab, 428, 2041, 6);
    Go(tab, 427, 2039, 2); Go(tab, 426, 2033, 6); Go(tab, 425, 2029, 4); Go(tab, 424, 2027, 2); Go(tab, 423, 2021, 6);
    Go(tab, 422, 2017, 4);
  }

  lemma Row21Ok(tab: seq<nat>)
    requires RowAt(tab, 443, 21) && From(tab, 464, 2221)
    ensures From(tab, 443, 2117)
  {
    hide From;
    Entries(tab, 443, 2, 10, 2, 6, 4, 2, 4, 6, 6, 2, 10, 2, 6, 4, 14, 4, 2, 4, 2, 4, 8);
    Go(tab, 463, 2213, 8); Go(tab, 462, 2209, 4); Go(tab, 461, 2207, 2); Go(tab, 460, 2203, 4); Go(tab, 459, 2201, 2);
    Go(tab, 458, 2197, 4); Go(tab, 457, 2183, 14); Go(tab, 456, 2179, 4); Go(tab, 455, 2173, 6); Go(tab, 454, 2171, 2);
    Go(tab, 453, 2161, 10); Go(tab, 452, 2159, 2); Go(tab, 451, 2153, 6); Go(tab, 450, 2147, 6); Go(tab, 449, 2143, 4);
    Go(tab, 448, 2141, 2); Go(tab, 447, 2137, 4); Go(tab, 446, 2131, 6); Go(tab, 445, 2129, 2); Go(tab, 444, 2119, 10);
    Go(tab, 443, 2117, 2);
  }

  lemma Row22Ok(tab: seq<nat>)
    requires RowAt(tab, 464, 22) && From(tab, 485, 2323)
    ensures From(tab, 464, 2221)
  {
    hide From;
    Entries(tab, 464, 6, 4, 6, 2, 4, 6, 2, 6, 6, 4, 2, 4, 6, 2, 6, 4, 2, 4, 12, 2, 12);
    Go(tab, 484, 2311, 12); Go(tab, 483, 2309, 2); Go(tab, 482, 2297, 12); Go(tab, 481, 2293, 4); Go(tab, 480, 2291, 2);
    Go(tab, 479, 2287, 4); Go(tab, 478, 2281, 6); Go(tab, 477, 2279, 2); Go(tab, 476, 2273, 6); Go(tab, 475, 2269, 4);
    Go(tab, 474, 2267, 2); Go(tab, 473, 2263, 4); Go(tab, 472, 2257, 6); Go(tab, 471, 2251, 6); Go(tab, 470, 2249, 2);
    Go(tab, 469, 2243, 6); Go(tab, 468, 2239, 4); Go(tab, 467, 2237, 2); Go(tab, 466, 2231, 6); Go(tab, 465, 2227, 4);
    Go(tab, 464, 2221, 6);
  }

  // ---------- unpack_wheel ----------

  /** Three bits per increment, the first in the lowest. */
  function Digits(row: seq<nat>): nat {
    if row == [] then 0 else row[0] / 2 + 8 * Digits(row[1..])
  }

  /** packed_wheel[i], without its lowest bit. */
  function Packed(i: nat): nat
    requires i < ROWS
  {
    2 * Digits(Row(i))
  }

  lemma NextDigit(row: seq<nat>, v: nat)
    requires Incs(row) && v / 2 == Digits(row)
    ensures row == [] ==> v / 2 % 8 == 0
    ensures row != [] ==> v / 2 % 8 * 2 == row[0] && v / 8 / 2 == Digits(row[1..]) && Incs(row[1..])
  {
    if row != [] {
      assert Inc(row[0]);
      SplitDigit(v, row[0] / 2, Digits(row[1..]));
      forall k | 0 <= k < |row[1..]|
        ensures Inc(row[1..][k])
      {
        assert row[1..][k] == row[k + 1];
      }
    }
  }

  lemma SplitDigit(v: nat, d: nat, rest: nat)
    requires v / 2 == d + 8 * rest && 1 <= d <= 7
    ensures v / 2 % 8 == d && v / 8 / 2 == rest
  {
  }

  function Rows(n: nat): seq<nat>
    requires n <= ROWS
  {
    if n == 0 then [1, 2] else Rows(n - 1) + Row(n - 1)
  }

  /** wheel_tab */
  method UnpackWheel() returns (tab: seq<nat>)
    ensures tab == Rows(ROWS)
  {
    hide Row, Digits;
    tab := [1, 2];
    for i := 0 to ROWS
      invariant tab == Rows(i)
    {
      var v := Packed(i);
      ghost var row, k := Row(i), 0;
      assert row[0..] == row && row[..0] == [];
      NextDigit(row, v);
      while v / 2 % 8 != 0
        invariant 0 <= k <= |row| && v / 2 == Digits(row[k..]) && Incs(row[k..]) && tab == Rows(i) + row[..k]
        invariant v / 2 % 8 == 0 ==> k == |row|
        decreases v
      {
        NextDigit(row[k..], v);
        tab := tab + [v / 2 % 8 * 2];
        v := v / 8;
        assert row[k..][1..] == row[k + 1..];
        k := k + 1;
        NextDigit(row[k..], v);
      }
      assert row[..|row|] == row;
    }
  }

  lemma {:induction false} RowsLength(n: nat)
    requires n <= ROWS
    ensures |Rows(n)| == 2 + 21 * n
  {
    hide Row;
    if n > 0 { RowsLength(n - 1); }
  }

  lemma {:induction false} RowsAt(n: nat, i: nat)
    requires i < n <= ROWS
    ensures RowAt(Rows(n), 2 + 21 * i, i)
  {
    hide Row;
    RowsLength(n);
    RowsLength(n - 1);
    if i < n - 1 {
      RowsAt(n - 1, i);
      assert Rows(n)[2 + 21 * i..2 + 21 * i + 21] == Rows(n - 1)[2 + 21 * i..2 + 21 * i + 21];
    }
  }

  /** The whole table passes over skippable numbers only. */
  lemma TableOk()
    ensures |Rows(ROWS)| == WHEEL_SIZE && From(Rows(ROWS), 2, 5)
  {
    hide Row, RowAt, Rows, From;
    var tab := Rows(ROWS);
    RowsLength(ROWS);
    AtEnd(tab);
    RowsAt(ROWS, 22);
    Row22Ok(tab);
    RowsAt(ROWS, 21);
    Row21Ok(tab);
    RowsAt(ROWS, 20);
    Row20Ok(tab);
    RowsAt(ROWS, 19);
    Row19Ok(tab);
    RowsAt(ROWS, 18);
    Row18Ok(tab);
    RowsAt(ROWS, 17);
    Row17Ok(tab);
    RowsAt(ROWS, 16);
    Row16Ok(tab);
    RowsAt(ROWS, 15);
    Row15Ok(tab);
    RowsAt(ROWS, 14);
    Row14Ok(tab);
    RowsAt(ROWS, 13);
    Row13Ok(tab);
    RowsAt(ROWS, 12);
    Row12Ok(tab);
    RowsAt(ROWS, 11);
    Row11Ok(tab);
    RowsAt(ROWS, 10);
    Row10Ok(tab);
    RowsAt(ROWS, 9);
    Row9Ok(tab);
    RowsAt(ROWS, 8);
    Row8Ok(tab);
    RowsAt(ROWS, 7);
    Row7Ok(tab);
    RowsAt(ROWS, 6);
    Row6Ok(tab);
    RowsAt(ROWS, 5);
    Row5Ok(tab);
    RowsAt(ROWS, 4);
    Row4Ok(tab);
    RowsAt(ROWS, 3);
    Row3Ok(tab);
    RowsAt(ROWS, 2);
    Row2Ok(tab);
    RowsAt(ROWS, 1);
    Row1Ok(tab);
    RowsAt(ROWS, 0);
    Row0Ok(tab);
  }

  lemma AtEnd(tab: seq<nat>)
    requires |tab| == WHEEL_SIZE
    ensures From(tab, 485, 2323)
  {
  }

  lemma {:induction false} FirstTwo(n: nat)
    requires n <= ROWS
    ensures |Rows(n)| >= 2 && Rows(n)[0] == 1 && Rows(n)[1] == 2
  {
    hide Row;
    if n > 0 { FirstTwo(n - 1); }
  }

  /** The wheel from its start, and from where each turn begins. */
  lemma WheelStarts()
    ensures HeadOk(Rows(ROWS)) && From(Rows(ROWS), 0, 2) && From(Rows(ROWS), WHEEL_START, 13)
  {
    hide Row, Rows;
    var tab := Rows(ROWS);
    TableOk();
    FirstTwo(ROWS);
    RowsAt(ROWS, 0);
    FirstRow(tab);
    assert GapOk(3, 5) && From(tab, 1, 3);
    assert GapOk(2, 3) && From(tab, 0, 2);
    assert From(tab, 3, 7);
    assert From(tab, 4, 11);
  }

  lemma FirstRow(tab: seq<nat>)
    requires RowAt(tab, 2, 0)
    ensures tab[2] == 2 && tab[3] == 4 && tab[4] == 2
  {
    Entries(tab, 2, 2, 4, 2, 4, 2, 4, 6, 2, 6, 4, 2, 4, 6, 6, 2, 6, 4, 2, 6, 4, 6);
  }

  // ---------- Walking ----------

  /** Dividing by `factor`, with increment `w` next; `pos` is the place of `factor` on the first turn. */
  ghost predicate OnWheel(tab: seq<nat>, w: nat, factor: nat, pos: nat) {
    && HeadOk(tab) && w < WHEEL_SIZE && From(tab, w, pos) && pos <= factor && (factor - pos) % TURN == 0
    && (w < WHEEL_START ==> factor == pos == Head(w)) && (w >= WHEEL_START ==> factor >= 13)
  }

  /** The primes before the wheel turns. */
  function Head(w: nat): nat
    requires w < WHEEL_START
  {
    if w == 0 then 2 else if w == 1 then 3 else if w == 2 then 5 else if w == 3 then 7 else 11
  }

  ghost predicate HeadOk(tab: seq<nat>) {
    |tab| == WHEEL_SIZE && tab[0] == 1 && tab[1] == 2 && tab[2] == 2 && tab[3] == 4 && tab[4] == 2
  }

  lemma SkipShift(d: nat, k: nat)
    requires Skippable(d)
    ensures Skippable(d + TURN * k)
  {
    Mod2(d, 1155 * k);
    Mod3(d, 770 * k);
    Mod5(d, 462 * k);
    Mod7(d, 330 * k);
    Mod11(d, 210 * k);
  }

  lemma Mod2(d: nat, m: nat)
    ensures (d + 2 * m) % 2 == d % 2
  {
  }

  lemma Mod3(d: nat, m: nat)
    ensures (d + 3 * m) % 3 == d % 3
  {
  }

  lemma Mod5(d: nat, m: nat)
    ensures (d + 5 * m) % 5 == d % 5
  {
  }

  lemma Mod7(d: nat, m: nat)
    ensures (d + 7 * m) % 7 == d % 7
  {
  }

  lemma Mod11(d: nat, m: nat)
    ensures (d + 11 * m) % 11 == d % 11
  {
  }

  /** The next divisor is passed to over skippable numbers only. */
  lemma WheelStep(tab: seq<nat>, w: nat, factor: nat, pos: nat)
    requires OnWheel(tab, w, factor, pos)
    ensures GapOk(factor, factor + tab[w]) && 1 <= tab[w] <= 14
    ensures factor >= 11 || (factor, factor + tab[w]) in {(2, 3), (3, 5), (5, 7), (7, 11)}
    ensures w + 1 < WHEEL_SIZE ==> OnWheel(tab, w + 1, factor + tab[w], pos + tab[w])
    ensures w + 1 == WHEEL_SIZE ==> factor + tab[w] >= 13 && (factor + tab[w] - 13) % TURN == 0
  {
    hide Skippable;
    var k := (factor - pos) / TURN;
    assert factor == pos + TURN * k;
    forall d | factor < d < factor + tab[w]
      ensures Skippable(d)
    {
      assert pos < d - TURN * k < pos + tab[w];
      SkipShift(d - TURN * k, k);
    }
    if w + 1 == WHEEL_SIZE {
      assert From(tab, w + 1, pos + tab[w]);
    }
  }

  /** The divisor after `k` steps from 2, and the increment that comes next. */
  function Walk(tab: seq<nat>, k: nat): (nat, nat)
    requires |tab| == WHEEL_SIZE
    ensures Walk(tab, k).1 < WHEEL_SIZE
  {
    if k == 0 then (2, 0)
    else
      var (f, w) := Walk(tab, k - 1);
      (f + tab[w], if w + 1 < WHEEL_SIZE then w + 1 else WHEEL_START)
  }

  lemma {:induction false} WalkOn(tab: seq<nat>, k: nat) returns (pos: nat)
    requires HeadOk(tab) && From(tab, 0, 2) && From(tab, WHEEL_START, 13)
    ensures OnWheel(tab, Walk(tab, k).1, Walk(tab, k).0, pos)
  {
    hide From, GapOk;
    if k == 0 {
      pos := 2;
    } else {
      var p := WalkOn(tab, k - 1);
      var (f, w) := Walk(tab, k - 1);
      WheelStep(tab, w, f, p);
      pos := if w + 1 < WHEEL_SIZE then p + tab[w] else 13;
    }
  }

  /** Every number that is not skippable, from the one reached on, is reached later. */
  lemma {:induction false} WalkReaches(tab: seq<nat>, k: nat, n: nat) returns (j: nat)
    requires HeadOk(tab) && From(tab, 0, 2) && From(tab, WHEEL_START, 13) && Walk(tab, k).0 <= n && !Skippable(n)
    ensures Walk(tab, j).0 == n
    decreases n - Walk(tab, k).0
  {
    hide From, Skippable;
    var (f, w) := Walk(tab, k);
    if f == n {
      j := k;
    } else {
      var pos := WalkOn(tab, k);
      WheelStep(tab, w, f, pos);
      assert Walk(tab, k + 1).0 == f + tab[w];
      j := WalkReaches(tab, k + 1, n);
    }
  }

  /** The unpacked wheel visits every number above 11 that is coprime to 2310. */
  lemma WheelVisits(n: nat) returns (k: nat)
    requires n > 11 && !Skippable(n)
    ensures |Rows(ROWS)| == WHEEL_SIZE && Walk(Rows(ROWS), k).0 == n
  {
    hide From, Skippable, Rows;
    WheelStarts();
    assert Walk(Rows(ROWS), 0).0 == 2;
    k := WalkReaches(Rows(ROWS), 0, n);
  }
}
