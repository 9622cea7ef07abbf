/** expand and unexpand: tabs to spaces and back, with the layout kept. */
module Expands {

  predicate Blank(c: char) { c == ' ' || c == '\t' }

  ghost predicate AllBlank(s: seq<char>) { forall i :: 0 <= i < |s| ==> Blank(s[i]) }

  ghost predicate NoBlank(s: seq<char>) { forall i :: 0 <= i < |s| ==> !Blank(s[i]) }

  function Repeat(c: char, n: nat): (r: seq<char>)
    ensures |r| == n && forall i :: 0 <= i < n ==> r[i] == c
  {
    seq(n, _ => c)
  }

  /** How many blanks, or how many other characters, `s` begins with. */
  function Lead(s: seq<char>, blank: bool): (n: nat)
    ensures n <= |s| && (forall i :: 0 <= i < n ==> Blank(s[i]) == blank)
    ensures n < |s| ==> Blank(s[n]) != blank
  {
    if s == [] || Blank(s[0]) != blank then 0 else 1 + Lead(s[1..], blank)
  }

  lemma {:induction false} LeadIs(s: seq<char>, rest: seq<char>, blank: bool)
    requires forall i :: 0 <= i < |s| ==> Blank(s[i]) == blank
    requires rest == [] || Blank(rest[0]) != blank
    ensures Lead(s + rest, blank) == |s|
  {
    if s == [] {
      assert s + rest == rest;
    } else {
      assert (s + rest)[1..] == s[1..] + rest;
      LeadIs(s[1..], rest, blank);
    }
  }

  // ---------- What expand does ----------

  function Step(tab: nat, col: nat, c: char): nat
    requires tab > 0
  {
    if c == '\t' then col + tab - col % tab else col + 1
  }

  /** The layout of `line` written from column `col` on. */
  function Expanded(tab: nat, line: seq<char>, col: nat): seq<char>
    requires tab > 0
  {
    if line == [] then []
    else if line[0] == '\t' then Repeat(' ', tab - col % tab) + Expanded(tab, line[1..], Step(tab, col, '\t'))
    else [line[0]] + Expanded(tab, line[1..], col + 1)
  }

  /** With -i, only blanks before any other character are expanded. */
  function Shown(tab: nat, initial: bool, line: seq<char>, col: nat): seq<char>
    requires tab > 0
  {
    var n := if initial then Lead(line, true) else |line|;
    Expanded(tab, line[..n], col) + line[n..]
  }

  lemma ShownTab(tab: nat, initial: bool, line: seq<char>, col: nat)
    requires tab > 0 && line != [] && line[0] == '\t'
    ensures Shown(tab, initial, line, col) == Repeat(' ', tab - col % tab) + Shown(tab, initial, line[1..], Step(tab, col, '\t'))
  {
    var n := if initial then Lead(line, true) else |line|;
    assert line[..n][1..] == line[1..][..n - 1] && line[n..] == line[1..][n - 1..];
  }

  lemma ShownChar(tab: nat, initial: bool, line: seq<char>, col: nat)
    requires tab > 0 && line != [] && line[0] != '\t' && (initial ==> line[0] == ' ')
    ensures Shown(tab, initial, line, col) == [line[0]] + Shown(tab, initial, line[1..], col + 1)
  {
    var n := if initial then Lead(line, true) else |line|;
    assert line[..n][1..] == line[1..][..n - 1] && line[n..] == line[1..][n - 1..];
  }

  lemma ModSum(tab: nat, a: nat, b: nat)
    requires tab > 0 && a % tab == 0
    ensures (a + b) % tab == b % tab
  {
    var q, r := b / tab, b % tab;
    assert a + b == (a / tab + q) * tab + r;
    ModIs(tab, a / tab + q, r);
  }

  lemma NoMultiple(tab: int, d: int, m: int)
    requires d * tab == m && -tab < m < tab
    ensures d == 0 && m == 0
  {
  }

  lemma ModIs(tab: nat, q: nat, r: nat)
    requires r < tab
    ensures (q * tab + r) % tab == r && (q * tab + r) / tab == q
  {
    var x := q * tab + r;
    assert (x / tab - q) * tab == r - x % tab;
    NoMultiple(tab, x / tab - q, r - x % tab);
  }

  lemma TabStop(tab: nat, col: nat)
    requires tab > 0
    ensures Step(tab, col, '\t') == (col / tab + 1) * tab && Step(tab, col, '\t') % tab == 0
  {
    assert col == col / tab * tab + col % tab;
    ModIs(tab, col / tab + 1, 0);
  }

  /** What expand has written, the stretch it holds back, and what is still to come make up the whole. */
  ghost predicate Written(tab: nat, initial: bool, line: seq<char>, out: seq<char>, beg: nat, ptr: nat) {
    && tab > 0 && beg <= ptr <= |line| && |out| % tab == 0
    && out + (line[beg..ptr] + Shown(tab, initial, line[ptr..], |out| + ptr - beg)) == Shown(tab, initial, line, 0)
  }

  lemma TabWritten(tab: nat, initial: bool, line: seq<char>, out: seq<char>, beg: nat, ptr: nat)
    requires Written(tab, initial, line, out, beg, ptr) && ptr < |line| && line[ptr] == '\t'
    ensures Written(tab, initial, line, out + (line[beg..ptr] + Repeat(' ', tab - (ptr - beg) % tab)), ptr + 1, ptr + 1)
  {
    hide Shown, Repeat, Step;
    var len, rest := ptr - beg, line[ptr..];
    var col := |out| + len;
    assert rest[1..] == line[ptr + 1..];
    ModSum(tab, |out|, len);
    TabStop(tab, col);
    StepIs(tab, col);
    ShownTab(tab, initial, rest, col);
    assert line[ptr + 1..ptr + 1] + Shown(tab, initial, rest[1..], Step(tab, col, '\t')) == Shown(tab, initial, rest[1..], Step(tab, col, '\t'));
    Regroup(out, line[beg..ptr], Repeat(' ', tab - len % tab), Shown(tab, initial, rest[1..], Step(tab, col, '\t')));
  }

  lemma StepIs(tab: nat, col: nat)
    requires tab > 0
    ensures Step(tab, col, '\t') == col + (tab - col % tab)
  {
  }

  lemma CharHeld(tab: nat, initial: bool, line: seq<char>, out: seq<char>, beg: nat, ptr: nat)
    requires Written(tab, initial, line, out, beg, ptr) && ptr < |line| && line[ptr] != '\t' && (initial ==> line[ptr] == ' ')
    ensures Written(tab, initial, line, out, beg, ptr + 1)
  {
    hide Shown, Step;
    var rest, col := line[ptr..], |out| + ptr - beg;
    assert rest[1..] == line[ptr + 1..];
    ShownChar(tab, initial, rest, col);
    assert line[beg..ptr + 1] == line[beg..ptr] + [line[ptr]];
  }

  lemma AllWritten(tab: nat, initial: bool, line: seq<char>, out: seq<char>, beg: nat, ptr: nat)
    requires Written(tab, initial, line, out, beg, ptr) && (ptr == |line| || (initial && !Blank(line[ptr])))
    ensures beg <= |line| && out + line[beg..] == Shown(tab, initial, line, 0)
  {
    hide Shown;
    ShownEnd(tab, initial, line[ptr..], |out| + ptr - beg);
    assert line[beg..] == line[beg..ptr] + line[ptr..];
  }

  lemma NoneWritten(tab: nat, initial: bool, line: seq<char>)
    requires tab > 0
    ensures Written(tab, initial, line, [], 0, 0)
  {
    hide Shown;
    assert line[0..] == line && line[0..0] == [];
  }

  /** expand, one line at a time; only the stretch after the last tab is measured. */
  method Expand(tab: nat, initial: bool, line: seq<char>) returns (out: seq<char>)
    requires tab > 0
    ensures out == Shown(tab, initial, line, 0)
  {
    hide Shown, Written;
    out := [];
    var ptr: nat, beg: nat := 0, 0;
    NoneWritten(tab, initial, line);
    while true
      invariant beg <= ptr <= |line| && Written(tab, initial, line, out, beg, ptr)
      decreases |line| - ptr
    {
      if ptr == |line| || (initial && !Blank(line[ptr])) {
        AllWritten(tab, initial, line, out, beg, ptr);
        break;
      }
      if line[ptr] == '\t' {
        TabWritten(tab, initial, line, out, beg, ptr);
        var len := ptr - beg;
        len := tab - len % tab;
        out := out + (line[beg..ptr] + Repeat(' ', len));
        beg := ptr + 1;
      } else {
        CharHeld(tab, initial, line, out, beg, ptr);
      }
      ptr := ptr + 1;
    }
    out := out + line[beg..];
  }

  lemma ShownEnd(tab: nat, initial: bool, line: seq<char>, col: nat)
    requires tab > 0 && (line == [] || (initial && !Blank(line[0])))
    ensures Shown(tab, initial, line, col) == line
  {
  }

  /** Whatever came before, an expanded tab ends on a multiple of the tab size. */
  lemma TabsAlign(tab: nat, line: seq<char>, i: nat)
    requires tab > 0 && i < |line| && line[i] == '\t'
    ensures Expanded(tab, line[..i + 1], 0) <= Expanded(tab, line, 0) && |Expanded(tab, line[..i + 1], 0)| % tab == 0
  {
    var a := line[..i];
    ExpandedAppend(tab, a, ['\t'], 0);
    ExpandedAppend(tab, line[..i + 1], line[i + 1..], 0);
    assert line[..i + 1] == a + ['\t'] && line == line[..i + 1] + line[i + 1..];
    TabStop(tab, |Expanded(tab, a, 0)|);
  }

  lemma {:induction false} ExpandedAppend(tab: nat, a: seq<char>, b: seq<char>, col: nat)
    requires tab > 0
    ensures Expanded(tab, a + b, col) == Expanded(tab, a, col) + Expanded(tab, b, col + |Expanded(tab, a, col)|)
  {
    if a == [] {
      assert a + b == b;
    } else {
      assert (a + b)[1..] == a[1..] + b;
      ExpandedAppend(tab, a[1..], b, Step(tab, col, a[0]));
    }
  }

  /** Only the column's place between two tab stops matters. */
  lemma {:induction false} SameLayout(tab: nat, line: seq<char>, a: nat, b: nat)
    requires tab > 0 && a % tab == b % tab
    ensures Expanded(tab, line, a) == Expanded(tab, line, b)
    decreases |line|
  {
    if line != [] {
      if line[0] == '\t' {
        TabStop(tab, a);
        TabStop(tab, b);
        SameLayout(tab, line[1..], Step(tab, a, '\t'), Step(tab, b, '\t'));
      } else {
        ModNext(tab, a);
        ModNext(tab, b);
        SameLayout(tab, line[1..], a + 1, b + 1);
      }
    }
  }

  lemma ModNext(tab: nat, a: nat)
    requires tab > 0
    ensures (a + 1) % tab == if a % tab + 1 == tab then 0 else a % tab + 1
    ensures (a + 1) / tab == if a % tab + 1 == tab then a / tab + 1 else a / tab
  {
    assert a == a / tab * tab + a % tab;
    if a % tab + 1 == tab {
      assert a + 1 == (a / tab + 1) * tab;
      ModIs(tab, a / tab + 1, 0);
    } else {
      ModIs(tab, a / tab, a % tab + 1);
    }
  }

  // ---------- What unexpand does ----------

  /** The column a run of blanks ends at. */
  function Reach(tab: nat, col: nat, s: seq<char>): (r: nat)
    requires tab > 0
    ensures r >= col + |s|
  {
    if s == [] then col else Step(tab, Reach(tab, col, s[..|s| - 1]), s[|s| - 1])
  }

  /** The tabs and spaces that take a run from column `col`, before the first stop, to `end`. */
  function Run(tab: nat, col: nat, end: nat): seq<char>
    requires col < tab && col <= end
  {
    if end >= tab then Repeat('\t', end / tab) + Repeat(' ', end % tab) else Repeat(' ', end - col)
  }

  /** The column, counted from a tab stop, after a word of `w` characters from `col` on. */
  function After(tab: nat, col: nat, w: nat): (r: nat)
    requires tab > 0
    ensures r < tab
  {
    (col % tab + w) % tab
  }

  /** The rest of a line, from column `col` on; `first` at its beginning. */
  function Unexpanded(tab: nat, all: bool, first: bool, line: seq<char>, col: nat): seq<char>
    requires col < tab
    decreases |line|
  {
    var n := Lead(line, true);
    var end := Reach(tab, col, line[..n]);
    if n == |line| && (n == 0 || line[n - 1] == '\t') then []
    else if !all && !(first && n == 0) then Run(tab, col, end) + line[n..]
    else
      var w := Lead(line[n..], false);
      Run(tab, col, end) + (line[n..n + w] + Unexpanded(tab, all, false, line[n + w..], After(tab, end, w)))
  }

  /** Blanks up to the end of a line are dropped when the last of them is a tab,
      and without -a only if at most one word comes before them. */
  predicate Dropped(all: bool, line: seq<char>) {
    && line != [] && line[|line| - 1] == '\t'
    && (all || var w := Lead(line, false); w + Lead(line[w..], true) == |line|)
  }

  // ---------- Unexpanding keeps the layout ----------

  predicate TabEnds(line: seq<char>) { line != [] && Lead(line, true) == |line| && line[|line| - 1] == '\t' }

  lemma {:induction false} BlanksLayout(tab: nat, s: seq<char>, rest: seq<char>, col: nat)
    requires tab > 0 && AllBlank(s)
    ensures Expanded(tab, s + rest, col) == Repeat(' ', Reach(tab, col, s) - col) + Expanded(tab, rest, Reach(tab, col, s))
    decreases |s|
  {
    if s == [] {
      assert s + rest == rest;
    } else {
      var t, x := s[..|s| - 1], s[|s| - 1];
      assert s + rest == t + ([x] + rest) && ([x] + rest)[1..] == rest;
      BlanksLayout(tab, t, [x] + rest, col);
    }
  }

  lemma {:induction false} WordLayout(tab: nat, s: seq<char>, rest: seq<char>, col: nat)
    requires tab > 0 && NoBlank(s)
    ensures Expanded(tab, s + rest, col) == s + Expanded(tab, rest, col + |s|)
    decreases |s|
  {
    if s == [] {
      assert s + rest == rest;
    } else {
      assert (s + rest)[1..] == s[1..] + rest;
      WordLayout(tab, s[1..], rest, col + 1);
    }
  }

  lemma {:induction false} TabsReach(tab: nat, col: nat, n: nat)
    requires col < tab && n > 0
    ensures Reach(tab, col, Repeat('\t', n)) == n * tab
  {
    var s := Repeat('\t', n);
    assert s[..n - 1] == Repeat('\t', n - 1);
    if n == 1 {
      TabStop(tab, col);
      ModIs(tab, 0, col);
      assert Reach(tab, col, []) == col;
    } else {
      TabsReach(tab, col, n - 1);
      TabStop(tab, (n - 1) * tab);
      ModIs(tab, n - 1, 0);
    }
  }

  lemma {:induction false} SpacesReach(tab: nat, col: nat, s: seq<char>, n: nat)
    requires tab > 0
    ensures Reach(tab, col, s + Repeat(' ', n)) == Reach(tab, col, s) + n
  {
    var t := s + Repeat(' ', n);
    if n == 0 {
      assert t == s;
    } else {
      assert t[..|t| - 1] == s + Repeat(' ', n - 1);
      SpacesReach(tab, col, s, n - 1);
    }
  }

  lemma ReachNothing(tab: nat, col: nat)
    requires tab > 0
    ensures Reach(tab, col, []) == col
  {
  }

  lemma Quotient(tab: nat, end: nat)
    requires 0 < tab <= end
    ensures end / tab >= 1 && end == end / tab * tab + end % tab
  {
  }

  lemma RunReach(tab: nat, col: nat, end: nat)
    requires col < tab && col <= end
    ensures AllBlank(Run(tab, col, end)) && Reach(tab, col, Run(tab, col, end)) == end
  {
    hide Reach;
    if end >= tab {
      var q, r := end / tab, end % tab;
      Quotient(tab, end);
      TabsReach(tab, col, q);
      SpacesReach(tab, col, Repeat('\t', q), r);
    } else {
      ReachNothing(tab, col);
      assert [] + Repeat(' ', end - col) == Repeat(' ', end - col);
      SpacesReach(tab, col, [], end - col);
    }
  }

  /** A run of blanks and its replacement lay out the same. */
  lemma RunLayout(tab: nat, col: nat, s: seq<char>, rest: seq<char>)
    requires col < tab && AllBlank(s)
    ensures Expanded(tab, s + rest, col) == Expanded(tab, Run(tab, col, Reach(tab, col, s)) + rest, col)
  {
    hide Run, Reach;
    var end := Reach(tab, col, s);
    RunReach(tab, col, end);
    BlanksLayout(tab, s, rest, col);
    BlanksLayout(tab, Run(tab, col, end), rest, col);
  }

  /** The parts `line` is cut into: blanks, a word, the rest; and where the rest starts. */
  lemma Cut(tab: nat, line: seq<char>, col: nat) returns (n: nat, end: nat, w: nat, next: nat)
    requires col < tab
    ensures n == Lead(line, true) && w == Lead(line[n..], false) && AllBlank(line[..n]) && NoBlank(line[n..n + w])
    ensures line == line[..n] + (line[n..n + w] + line[n + w..])
    ensures end == Reach(tab, col, line[..n]) && next == After(tab, end, w)
    ensures line != [] ==> n + w > 0
    ensures n < |line| ==> w > 0
  {
    hide Reach, Lead;
    n := Lead(line, true);
    end := Reach(tab, col, line[..n]);
    w := Lead(line[n..], false);
    next := After(tab, end, w);
  }

  lemma ModReduced(tab: nat, end: nat, w: nat)
    requires tab > 0
    ensures (end + w) % tab == After(tab, end, w) % tab
  {
    assert end + w == end / tab * tab + (end % tab + w);
    ModIs(tab, end / tab, 0);
    ModSum(tab, end / tab * tab, end % tab + w);
    ModIs(tab, 0, After(tab, end, w));
  }

  lemma WordStep(tab: nat, all: bool, first: bool, line: seq<char>, col: nat, n: nat, w: nat)
    requires col < tab && n == Lead(line, true) && w == Lead(line[n..], false)
    requires !(n == |line| && (n == 0 || line[n - 1] == '\t')) && (all || (first && n == 0))
    ensures var end := Reach(tab, col, line[..n]);
            Unexpanded(tab, all, first, line, col)
            == Run(tab, col, end) + (line[n..n + w] + Unexpanded(tab, all, false, line[n + w..], After(tab, end, w)))
  {
    hide Reach, Lead, Run, After;
  }

  /** Everything but the rest lays out the same on both sides. */
  lemma SideLayout(tab: nat, b: seq<char>, word: seq<char>, rest: seq<char>, col: nat, end: nat, next: nat)
    requires col < tab && AllBlank(b) && NoBlank(word) && end == Reach(tab, col, b) && next == After(tab, end, |word|)
    ensures Expanded(tab, b + (word + rest), col) == Repeat(' ', end - col) + (word + Expanded(tab, rest, next))
  {
    hide Reach, Expanded, After;
    BlanksLayout(tab, b, word + rest, col);
    WordLayout(tab, word, rest, end);
    ModReduced(tab, end, |word|);
    SameLayout(tab, rest, end + |word|, next);
  }

  lemma NothingLeft(tab: nat, all: bool, first: bool, line: seq<char>, col: nat)
    requires col < tab && Lead(line, true) == |line| && (line == [] || line[|line| - 1] == '\t')
    ensures Unexpanded(tab, all, first, line, col) == [] && AllBlank(line)
  {
  }

  lemma DroppedTab(line: seq<char>)
    requires line == [] || line[|line| - 1] == '\t'
    ensures Dropped(true, line) <==> line != []
  {
  }

  /** With -a: the layout is kept exactly when nothing is dropped. */
  lemma {:induction false} AllKept(tab: nat, line: seq<char>, first: bool, col: nat)
    requires col < tab
    ensures Expanded(tab, Unexpanded(tab, true, first, line, col), col) == Expanded(tab, line, col) <==> !Dropped(true, line)
    decreases |line|
  {
    hide Run, Expanded, Unexpanded, Reach, Lead, Repeat, Dropped;
    var n, end, w, next := Cut(tab, line, col);
    var b, word, rest := line[..n], line[n..n + w], line[n + w..];
    if n == |line| && (n == 0 || line[n - 1] == '\t') {
      NothingLeft(tab, true, first, line, col);
      Nothing(tab, line, col);
      assert Dropped(true, line) <==> line != [] by { DroppedTab(line); }
    } else {
      var out := Unexpanded(tab, true, false, rest, next);
      var run := Run(tab, col, end);
      RunReach(tab, col, end);
      WordStep(tab, true, first, line, col, n, w);
      SideLayout(tab, b, word, rest, col, end, next);
      SideLayout(tab, run, word, out, col, end, next);
      AllKept(tab, rest, false, next);
      SamePrefixes(Repeat(' ', end - col), word, Expanded(tab, rest, next), Expanded(tab, out, next));
      DroppedRest(line, n, w);
    }
  }

  lemma DroppedRest(line: seq<char>, n: nat, w: nat)
    requires n == Lead(line, true) && w == Lead(line[n..], false)
    requires !(n == |line| && (n == 0 || line[n - 1] == '\t'))
    ensures Dropped(true, line) <==> Dropped(true, line[n + w..])
  {
    hide Lead;
    var rest := line[n + w..];
    if rest == [] {
      if w > 0 {
        assert line[n..][w - 1] == line[|line| - 1];
      }
    } else {
      assert rest[|rest| - 1] == line[|line| - 1];
    }
  }

  lemma SamePrefixes(p: seq<char>, q: seq<char>, a: seq<char>, b: seq<char>)
    ensures p + (q + a) == p + (q + b) <==> a == b
  {
    SamePrefix(q, a, b);
    SamePrefix(p, q + a, q + b);
  }

  lemma SamePrefix(p: seq<char>, a: seq<char>, b: seq<char>)
    ensures p + a == p + b <==> a == b
  {
    if p + a == p + b {
      assert a == (p + a)[|p|..] && b == (p + b)[|p|..];
    }
  }

  /** A dropped run is missed. */
  lemma Nothing(tab: nat, line: seq<char>, col: nat)
    requires tab > 0 && AllBlank(line)
    ensures Expanded(tab, line, col) == Expanded(tab, [], col) <==> line == []
  {
    assert line + [] == line;
    BlanksLayout(tab, line, [], col);
  }

  /** expand cannot tell a line from its unexpanded form, unless trailing blanks were dropped. */
  lemma UnexpandKeepsLayout(tab: nat, all: bool, line: seq<char>)
    requires tab > 0
    ensures Expanded(tab, Unexpanded(tab, all, true, line, 0), 0) == Expanded(tab, line, 0) <==> !Dropped(all, line)
  {
    if all {
      AllKept(tab, line, true, 0);
    } else {
      FirstKept(tab, line);
    }
  }

  /** A line as it is read, up to and including a newline, is always kept. */
  lemma NewlineKept(tab: nat, all: bool, line: seq<char>)
    requires tab > 0 && line != [] && line[|line| - 1] == '\n'
    ensures Expanded(tab, Unexpanded(tab, all, true, line, 0), 0) == Expanded(tab, line, 0)
  {
    UnexpandKeepsLayout(tab, all, line);
  }

  /** A last line that has no newline and ends in a tab loses it. */
  lemma TrailingTabLost()
    ensures Expanded(8, Unexpanded(8, true, true, "a\t", 0), 0) != Expanded(8, "a\t", 0)
  {
    hide Expanded, Unexpanded;
    UnexpandKeepsLayout(8, true, "a\t");
  }

  /** Without -a and past the first word, at most one run is replaced. */
  lemma OneRunKept(tab: nat, line: seq<char>, first: bool, col: nat)
    requires col < tab && !(first && Lead(line, true) == 0)
    ensures Expanded(tab, Unexpanded(tab, false, first, line, col), col) == Expanded(tab, line, col)
            <==> !TabEnds(line)
  {
    hide Run, Expanded;
    var n, end, w, next := Cut(tab, line, col);
    if n == |line| && (n == 0 || line[n - 1] == '\t') {
      Nothing(tab, line, col);
    } else {
      RunLayout(tab, col, line[..n], line[n..]);
      assert line[..n] + line[n..] == line;
    }
  }

  lemma FirstKept(tab: nat, line: seq<char>)
    requires tab > 0
    ensures Expanded(tab, Unexpanded(tab, false, true, line, 0), 0) == Expanded(tab, line, 0) <==> !Dropped(false, line)
  {
    hide Run, Expanded, Unexpanded, Reach, Repeat, Dropped, TabEnds, Lead;
    var n, end, w, next := Cut(tab, line, 0);
    if line == [] {
      NothingLeft(tab, false, true, line, 0);
      DroppedEmpty();
    } else if n > 0 {
      OneRunKept(tab, line, true, 0);
      DroppedBlanks(line);
    } else {
      WordKept(tab, line);
    }
  }

  lemma WordKept(tab: nat, line: seq<char>)
    requires tab > 0 && line != [] && Lead(line, true) == 0
    ensures Expanded(tab, Unexpanded(tab, false, true, line, 0), 0) == Expanded(tab, line, 0) <==> !Dropped(false, line)
  {
    hide Run, Expanded, Unexpanded, Reach, Repeat, Dropped, TabEnds, Lead, AllBlank, NoBlank, After, Blank;
    var n, end, w, next := Cut(tab, line, 0);
    var b, word, rest := line[..n], line[n..n + w], line[n + w..];
    var run, out := Run(tab, 0, end), Unexpanded(tab, false, false, rest, next);
    RunReach(tab, 0, end);
    WordStep(tab, false, true, line, 0, n, w);
    SideLayout(tab, b, word, rest, 0, end, next);
    SideLayout(tab, run, word, out, 0, end, next);
    OneRunKept(tab, rest, false, next);
    SamePrefixes(Repeat(' ', end), word, Expanded(tab, rest, next), Expanded(tab, out, next));
    DroppedWord(line, n, w);
  }

  lemma DroppedEmpty()
    ensures !Dropped(false, [])
  {
  }

  lemma DroppedBlanks(line: seq<char>)
    requires line != [] && Lead(line, true) > 0
    ensures Dropped(false, line) <==> TabEnds(line)
  {
    assert line[0..] == line;
  }

  lemma DroppedWord(line: seq<char>, n: nat, w: nat)
    requires line != [] && n == Lead(line, true) == 0 && w == Lead(line[n..], false)
    ensures Dropped(false, line) <==> TabEnds(line[n + w..])
  {
    hide Lead;
    assert line[n..] == line;
    var rest := line[w..];
    if rest != [] {
      assert rest[|rest| - 1] == line[|line| - 1];
    }
  }

  // ---------- No shorter line has the same layout ----------

  /** No blanks that end at the same column are fewer. */
  lemma {:induction false} RunShortest(tab: nat, col: nat, s: seq<char>)
    requires col < tab && AllBlank(s)
    ensures |Run(tab, col, Reach(tab, col, s))| <= |s|
    decreases |s|
  {
    hide Repeat;
    if s != [] {
      var t := s[..|s| - 1];
      RunShortest(tab, col, t);
      OneMore(tab, col, Reach(tab, col, t), s[|s| - 1]);
    }
  }

  lemma RunLength(tab: nat, col: nat, end: nat)
    requires col < tab && col <= end
    ensures |Run(tab, col, end)| == if end >= tab then end / tab + end % tab else end - col
  {
  }

  lemma OneMore(tab: nat, col: nat, end: nat, c: char)
    requires col < tab && col <= end
    ensures col <= Step(tab, end, c) && |Run(tab, col, Step(tab, end, c))| <= |Run(tab, col, end)| + 1
  {
    hide Run;
    RunLength(tab, col, end);
    RunLength(tab, col, Step(tab, end, c));
    if c == '\t' {
      StopIs(tab, end);
    } else {
      ModNext(tab, end);
    }
    if end < tab {
      ModIs(tab, 0, end);
    }
  }

  lemma StopIs(tab: nat, end: nat)
    requires tab > 0
    ensures var n := Step(tab, end, '\t'); n >= tab && n % tab == 0 && n / tab == end / tab + 1
  {
    TabStop(tab, end);
    ModIs(tab, end / tab + 1, 0);
  }

  /** Blanks, then a word, then something that does not carry it on. */
  lemma SameParts(m: nat, n: nat, u: seq<char>, v: seq<char>, a: seq<char>, b: seq<char>)
    requires Repeat(' ', m) + (u + a) == Repeat(' ', n) + (v + b) && NoBlank(u) && NoBlank(v)
    requires (u == [] ==> a == []) && (v == [] ==> b == []) && (a == [] || a[0] == ' ') && (b == [] || b[0] == ' ')
    ensures m == n && u == v && a == b
  {
    LeadIs(Repeat(' ', m), u + a, true);
    LeadIs(Repeat(' ', n), v + b, true);
    SamePrefix(Repeat(' ', m), u + a, v + b);
    LeadIs(u, a, false);
    LeadIs(v, b, false);
    assert u == (u + a)[..|u|] && v == (v + b)[..|v|];
    SamePrefix(u, a, b);
  }

  lemma StartsBlank(tab: nat, line: seq<char>, col: nat)
    requires tab > 0 && (line == [] || Blank(line[0]))
    ensures var e := Expanded(tab, line, col); e == [] || e[0] == ' '
    ensures Expanded(tab, line, col) == [] <==> line == []
  {
  }

  /** Two lines with the same layout begin with the same word at the same column, and go on alike. */
  lemma SameCut(tab: nat, line: seq<char>, other: seq<char>, col: nat) returns (n: nat, w: nat, k: nat, next: nat)
    requires col < tab && Expanded(tab, other, col) == Expanded(tab, line, col)
    ensures n == Lead(line, true) && w == Lead(line[n..], false) && k + w <= |other| && AllBlank(other[..k])
    ensures var end := Reach(tab, col, line[..n]);
            && Reach(tab, col, other[..k]) == end && next == After(tab, end, w)
            && Expanded(tab, other[k + w..], next) == Expanded(tab, line[n + w..], next)
    ensures line != [] ==> n + w > 0
  {
    hide Expanded, Reach, Repeat, Lead, AllBlank, NoBlank, After, Blank;
    var end, end', w', next';
    n, end, w, next := LineLayout(tab, line, col);
    k, end', w', next' := LineLayout(tab, other, col);
    SameParts(end - col, end' - col, line[n..n + w], other[k..k + w'],
              Expanded(tab, line[n + w..], next), Expanded(tab, other[k + w'..], next'));
  }

  lemma LineLayout(tab: nat, line: seq<char>, col: nat) returns (n: nat, end: nat, w: nat, next: nat)
    requires col < tab
    ensures n == Lead(line, true) && w == Lead(line[n..], false) && AllBlank(line[..n]) && NoBlank(line[n..n + w])
    ensures end == Reach(tab, col, line[..n]) && next == After(tab, end, w)
    ensures Expanded(tab, line, col) == Repeat(' ', end - col) + (line[n..n + w] + Expanded(tab, line[n + w..], next))
    ensures var e := Expanded(tab, line[n + w..], next); (e == [] || e[0] == ' ') && (w == 0 ==> e == [])
    ensures line != [] ==> n + w > 0
  {
    hide Expanded, Reach, Repeat, Lead, AllBlank, NoBlank, After;
    n, end, w, next := Cut(tab, line, col);
    CutRest(line, n, w);
    SideLayout(tab, line[..n], line[n..n + w], line[n + w..], col, end, next);
    StartsBlank(tab, line[n + w..], next);
  }

  lemma CutRest(line: seq<char>, n: nat, w: nat)
    requires n == Lead(line, true) && w == Lead(line[n..], false)
    ensures var rest := line[n + w..]; (rest == [] || Blank(rest[0])) && (w == 0 ==> rest == [])
  {
    hide Lead;
    var rest := line[n..];
    assert w < |rest| ==> rest[w] == line[n + w];
    assert line[n + w..] == rest[w..];
  }

  /** With -a, no line with the same layout is shorter. */
  lemma {:induction false} UnexpandedShortest(tab: nat, first: bool, line: seq<char>, other: seq<char>, col: nat)
    requires col < tab && Expanded(tab, other, col) == Expanded(tab, line, col)
    ensures |Unexpanded(tab, true, first, line, col)| <= |other|
    decreases |line|
  {
    hide Run, Expanded, Unexpanded, Reach, Repeat, Lead, AllBlank, NoBlank, After, Blank;
    var n, w, k, next := SameCut(tab, line, other, col);
    if n == |line| && (n == 0 || line[n - 1] == '\t') {
      NothingLeft(tab, true, first, line, col);
    } else {
      RunShortest(tab, col, other[..k]);
      WordStep(tab, true, first, line, col, n, w);
      UnexpandedShortest(tab, false, line[n + w..], other[k + w..], next);
    }
  }

  // ---------- unexpand ----------

  lemma ReachTab(tab: nat, col: nat, s: seq<char>, t: seq<char>)
    requires tab > 0 && t == s + ['\t']
    ensures Reach(tab, col, t) == Step(tab, Reach(tab, col, s), '\t')
  {
    assert t[..|t| - 1] == s;
  }

  lemma RestStep(tab: nat, first: bool, line: seq<char>, col: nat, n: nat)
    requires col < tab && n == Lead(line, true)
    requires !(n == |line| && (n == 0 || line[n - 1] == '\t')) && !(first && n == 0)
    ensures Unexpanded(tab, false, first, line, col) == Run(tab, col, Reach(tab, col, line[..n])) + line[n..]
  {
  }

  /** The tabs and spaces for a run that ends at `end`, after `len` spaces; and the column within a stop. */
  method PutRun(tab: nat, ghost col: nat, end: nat, len: nat) returns (text: seq<char>, column: nat)
    requires col < tab && col <= end && (end < tab ==> len == end - col)
    ensures text == Run(tab, col, end) && column == end % tab
  {
    hide Repeat;
    text := [];
    column := end;
    var pad := len;
    var n := column / tab;
    if n > 0 {
      column := column % tab;
      pad := column;
      text := Repeat('\t', n);
    }
    text := text + Repeat(' ', pad);
    if end < tab {
      ModIs(tab, 0, end);
    } else {
      Quotient(tab, end);
    }
  }

  /** The spaces from `ptr` on. */
  method SkipSpaces(line: seq<char>, ptr: nat) returns (next: nat)
    requires ptr <= |line|
    ensures ptr <= next <= |line| && line[ptr..next] == Repeat(' ', next - ptr) && (next < |line| ==> line[next] != ' ')
    ensures ptr < next ==> line[next - 1] == ' '
  {
    next := ptr;
    while next < |line| && line[next] == ' '
      invariant ptr <= next <= |line|
      invariant forall i :: ptr <= i < next ==> line[i] == ' '
    {
      next := next + 1;
    }
  }

  /** Where unexpand stands: a run began at `start`, in column `col`, and goes on up to `ptr`, in `column`. */
  ghost predicate InRun(tab: nat, line: seq<char>, start: nat, ptr: nat, col: nat, column: nat) {
    && start <= ptr <= |line| && col < tab && AllBlank(line[start..ptr]) && column == Reach(tab, col, line[start..ptr])
    && if start < ptr then line[ptr - 1] == '\t' && column >= tab else column == col
  }

  lemma RunStarts(tab: nat, line: seq<char>, ptr: nat, col: nat)
    requires ptr <= |line| && col < tab
    ensures InRun(tab, line, ptr, ptr, col, col)
  {
  }

  lemma SpacesSkipped(tab: nat, line: seq<char>, start: nat, from: nat, ptr: nat, col: nat, column: nat)
    requires InRun(tab, line, start, from, col, column) && from <= ptr <= |line| && line[from..ptr] == Repeat(' ', ptr - from)
    ensures AllBlank(line[start..ptr]) && column + (ptr - from) == Reach(tab, col, line[start..ptr])
    ensures column + (ptr - from) < tab ==> start == from && column == col
  {
    hide Reach;
    SpacesReach(tab, col, line[start..from], ptr - from);
    assert line[start..ptr] == line[start..from] + line[from..ptr];
  }

  lemma TabSkipped(tab: nat, line: seq<char>, start: nat, ptr: nat, col: nat, column: nat)
    requires col < tab && start <= ptr < |line| && AllBlank(line[start..ptr]) && column == Reach(tab, col, line[start..ptr])
    requires line[ptr] == '\t'
    ensures InRun(tab, line, start, ptr + 1, col, Step(tab, column, '\t'))
  {
    hide Reach;
    var s := line[start..ptr];
    assert line[start..ptr + 1] == s + ['\t'];
    ReachTab(tab, col, s, line[start..ptr + 1]);
    NextStop(tab, column);
  }

  lemma NextStop(tab: nat, column: nat)
    requires tab > 0
    ensures Step(tab, column, '\t') >= tab
  {
    TabStop(tab, column);
  }

  /** A run of blanks ended in front of something other than a tab. */
  ghost predicate RunEnded(line: seq<char>, start: nat, ptr: nat) {
    && start <= ptr <= |line| && start < |line| && AllBlank(line[start..ptr])
    && if ptr < |line| then !Blank(line[ptr]) else line[ptr - 1] == ' '
  }

  lemma RunOver(line: seq<char>, start: nat, ptr: nat)
    requires start <= ptr <= |line| && start < |line| && AllBlank(line[start..ptr])
    requires if ptr < |line| then line[ptr] != ' ' && line[ptr] != '\t' else line[ptr - 1] == ' '
    ensures RunEnded(line, start, ptr)
  {
  }

  lemma RunSplits(line: seq<char>, start: nat, ptr: nat)
    requires start <= ptr <= |line| && RunEnded(line, start, ptr)
    ensures var part, n := line[start..], ptr - start;
            && part[..n] == line[start..ptr] && part[n..] == line[ptr..] && Lead(part, true) == n
            && !(n == |part| && (n == 0 || part[n - 1] == '\t'))
  {
    hide Lead;
    var part, n := line[start..], ptr - start;
    assert part == line[start..ptr] + line[ptr..];
    LeadIs(line[start..ptr], line[ptr..], true);
  }

  lemma RestLeft(tab: nat, line: seq<char>, start: nat, ptr: nat, col: nat)
    requires col < tab && start <= ptr <= |line| && RunEnded(line, start, ptr) && ptr != 0
    ensures Unexpanded(tab, false, start == 0, line[start..], col) == Run(tab, col, Reach(tab, col, line[start..ptr])) + line[ptr..]
  {
    hide Unexpanded, Reach, Lead, Run, RunEnded;
    RunSplits(line, start, ptr);
    RestStep(tab, start == 0, line[start..], col, ptr - start);
  }

  lemma WordLeft(tab: nat, all: bool, line: seq<char>, start: nat, ptr: nat, col: nat, w: nat)
    requires col < tab && start <= ptr <= |line| && RunEnded(line, start, ptr) && (all || ptr == 0) && w == Lead(line[ptr..], false)
    ensures var end := Reach(tab, col, line[start..ptr]);
            Unexpanded(tab, all, start == 0, line[start..], col)
            == Run(tab, col, end) + (line[ptr..ptr + w] + Unexpanded(tab, all, false, line[ptr + w..], After(tab, end, w)))
  {
    hide Unexpanded, Reach, Lead, Run, After, RunEnded;
    RunSplits(line, start, ptr);
    var part, n := line[start..], ptr - start;
    WordStep(tab, all, start == 0, part, col, n, w);
    assert part[n..n + w] == line[ptr..ptr + w] && part[n + w..] == line[ptr + w..];
  }

  method Unexpand(tab: nat, all: bool, line: seq<char>) returns (out: seq<char>)
    requires tab > 0
    ensures out == Unexpanded(tab, all, true, line, 0)
  {
    hide Unexpanded, Reach, Lead, Run, Expanded, Repeat, After, InRun, AllBlank, RunEnded;
    out := [];
    var ptr: nat, column: nat := 0, 0;
    ghost var start: nat, col: nat := 0, 0;
    assert line[0..] == line;
    RunStarts(tab, line, 0, 0);
    while ptr < |line|
      invariant start <= ptr <= |line| && col < tab && InRun(tab, line, start, ptr, col, column)
      invariant out + Unexpanded(tab, all, start == 0, line[start..], col) == Unexpanded(tab, all, true, line, 0)
      decreases |line| - ptr
    {
      var from := ptr;
      ptr := SkipSpaces(line, from);
      var len := ptr - from;
      SpacesSkipped(tab, line, start, from, ptr, col, column);
      column := column + len;
      if ptr < |line| && line[ptr] == '\t' {
        TabSkipped(tab, line, start, ptr, col, column);
        column := column + (tab - column % tab);
        ptr := ptr + 1;
        continue;
      }
      RunOver(line, start, ptr);
      ghost var end := column;
      var run;
      run, column := PutRun(tab, col, column, len);
      if !all && ptr != 0 {
        RestLeft(tab, line, start, ptr, col);
        return out + (run + line[ptr..]);
      }
      var w := Lead(line[ptr..], false);
      WordLeft(tab, all, line, start, ptr, col, w);
      Regroup(out, run, line[ptr..ptr + w], Unexpanded(tab, all, false, line[ptr + w..], After(tab, end, w)));
      out := out + (run + line[ptr..ptr + w]);
      ptr := ptr + w;
      column := (column + w) % tab;
      AfterIs(tab, end, w);
      col, start := column, ptr;
      RunStarts(tab, line, ptr, col);
    }
    RunDropped(tab, all, line, start, col, column);
  }

  lemma Regroup(a: seq<char>, b: seq<char>, c: seq<char>, d: seq<char>)
    ensures a + (b + (c + d)) == a + (b + c) + d
  {
  }

  lemma AfterIs(tab: nat, end: nat, w: nat)
    requires tab > 0
    ensures (end % tab + w) % tab == After(tab, end, w)
  {
  }

  lemma RunDropped(tab: nat, all: bool, line: seq<char>, start: nat, col: nat, column: nat)
    requires start <= |line| && col < tab && InRun(tab, line, start, |line|, col, column)
    ensures Unexpanded(tab, all, start == 0, line[start..], col) == []
  {
    hide Reach, Unexpanded;
    var part := line[start..];
    assert part == line[start..|line|] && part + [] == part;
    LeadIs(part, [], true);
    NothingLeft(tab, all, start == 0, part, col);
  }
}
