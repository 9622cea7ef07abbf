/** dpkg's dependency lines: how they are cut into alternatives, and the edge lists they are flattened to. */
module DpkgEdges {
  import opened Bits
  import opened Versions

  const EDGE_PRE_DEPENDS := 1
  const EDGE_OR_PRE_DEPENDS := 2
  const EDGE_DEPENDS := 3
  const EDGE_OR_DEPENDS := 4

  datatype Edge = Edge(kind: nat, name: nat, version: nat, op: Operator)

  predicate IsDependency(kind: nat) { kind == EDGE_PRE_DEPENDS || kind == EDGE_DEPENDS }

  predicate IsOr(kind: nat) { kind == EDGE_OR_PRE_DEPENDS || kind == EDGE_OR_DEPENDS }

  // ---------- Groups ----------

  /** How many edges the group at `i` has after its OR edge. */
  function Alternatives(edges: seq<Edge>, i: nat): nat
    requires i < |edges|
  {
    if IsOr(edges[i].kind) then edges[i].version else 0
  }

  /** The group at `i` is one edge, or an OR edge with as many alternatives of its type after it as it says. */
  ghost predicate GroupOk(edges: seq<Edge>, i: nat)
    requires i < |edges|
  {
    IsOr(edges[i].kind) ==>
      && edges[i].version >= 1 && i + edges[i].version < |edges|
      && forall j :: i < j <= i + edges[i].version ==> edges[j].kind == edges[i].kind - 1
  }

  /** From `i` on the edges are groups. */
  ghost predicate Grouped(edges: seq<Edge>, i: nat)
    decreases |edges| - i
  {
    i >= |edges| || (GroupOk(edges, i) && Grouped(edges, i + 1 + Alternatives(edges, i)))
  }

  lemma {:induction false} GroupedAppend(a: seq<Edge>, b: seq<Edge>, i: nat)
    requires i <= |a| && Grouped(a, i) && Grouped(b, 0)
    ensures Grouped(a + b, i)
    decreases |a| - i
  {
    if i == |a| {
      GroupedShift(a, b, 0);
    } else {
      assert GroupOk(a, i);
      var e := a + b;
      assert e[i] == a[i];
      GroupedInside(a, i);
      GroupedAppend(a, b, i + 1 + Alternatives(a, i));
    }
  }

  lemma GroupedInside(a: seq<Edge>, i: nat)
    requires i < |a| && GroupOk(a, i)
    ensures i + 1 + Alternatives(a, i) <= |a|
  {
  }

  lemma {:induction false} GroupedShift(a: seq<Edge>, b: seq<Edge>, i: nat)
    requires Grouped(b, i)
    ensures Grouped(a + b, |a| + i)
    decreases |b| - i
  {
    if i < |b| {
      var e := a + b;
      assert e[|a| + i] == b[i];
      forall j | |a| + i < j <= |a| + i + Alternatives(b, i)
        ensures j < |e| && e[j] == b[j - |a|]
      {
        assert GroupOk(b, i);
      }
      GroupedShift(a, b, i + 1 + Alternatives(b, i));
    }
  }

  // ---------- Cutting a line ----------

  const SPACE: byte := ' ' as int
  const OPEN: byte := '(' as int
  const CLOSE: byte := ')' as int
  const COMMA: byte := ',' as int
  const BAR: byte := '|' as int

  /** strspn */
  function Span(s: Str, chars: seq<byte>): (k: nat)
    ensures k <= |s|
  {
    if s == [] || s[0] !in chars then 0 else 1 + Span(s[1..], chars)
  }

  /** strcspn */
  function SpanNot(s: Str, chars: seq<byte>): (k: nat)
    ensures k <= |s|
  {
    if s == [] || s[0] in chars then 0 else 1 + SpanNot(s[1..], chars)
  }

  /** strtok_r until it gives no more: the non-empty pieces between delimiters. */
  function Tokens(s: Str, delim: byte): (r: seq<Str>)
    ensures forall i :: 0 <= i < |r| ==> r[i] != []
    decreases |s|
  {
    var t := s[Span(s, [delim])..];
    if t == [] then []
    else
      var k := SpanNot(t, [delim]);
      StartsToken(s, delim);
      [t[..k]] + Tokens(t[k..], delim)
  }

  lemma StartsToken(s: Str, delim: byte)
    ensures var t := s[Span(s, [delim])..]; t != [] ==> SpanNot(t, [delim]) >= 1
  {
    if s != [] && s[0] == delim {
      StartsToken(s[1..], delim);
      assert s[1..][Span(s[1..], [delim])..] == s[Span(s, [delim])..];
    }
  }

  function SkipSpaces(s: Str): Str { Suffix(s, Span(s, [SPACE])) }

  const LT: byte := '<' as int
  const EQ: byte := '=' as int
  const GT: byte := '>' as int

  /** What the first comparison characters of a version restriction mean; nothing if they are no operator. */
  function OperatorOf(s: Str): Option<Operator> {
    var k := Span(s, [LT, EQ, GT]);
    var o := Take(s, k);
    if o == [] then Some(Unknown)
    else if o == [EQ] then Some(Equal)
    else if o == [LT] || o == [LT, LT] then Some(Less)
    else if o == [LT, EQ] then Some(LessEqual)
    else if o == [GT] || o == [GT, GT] then Some(More)
    else if o == [GT, EQ] then Some(MoreEqual)
    else None
  }

  datatype Alternative = Alternative(name: Str, op: Operator, version: Str)

  const ANY: Str := ['A' as int, 'N' as int, 'Y' as int]

  /** One alternative: a name and perhaps a version restriction in parentheses. */
  function ParseAlternative(field: Str): Option<Alternative> {
    var f := SkipSpaces(field);
    var k := SpanNot(f, [OPEN]);
    var name := Take(f, SpanNot(f, [SPACE, OPEN]));
    if k == |f| then Some(Alternative(name, Any, ANY))
    else
      match Restriction(Suffix(f, k))
      case None => None
      case Some((op, version)) => Some(Alternative(name, op, version))
  }

  /** An operator and a version, from the opening parenthesis on. */
  function Restriction(s: Str): Option<(Operator, Str)> {
    var v := Suffix(s, Span(s, [SPACE, OPEN]));
    match OperatorOf(v)
    case None => None
    case Some(op) =>
      var w := SkipSpaces(Suffix(v, Span(v, [LT, EQ, GT])));
      Some((op, Take(w, SpanNot(w, [SPACE, CLOSE]))))
  }

  // ---------- What a line stands for ----------

  /** An edge before its names are interned: an OR edge with its text and count, or an alternative. */
  datatype Item = OrItem(kind: nat, text: Str, count: nat) | AltItem(kind: nat, alt: Alternative)

  /** The items of a text; or an operator that is none; or a missing token, which the code takes for a string. */
  datatype Parsed = Items(items: seq<Item>) | IllegalOperator | NullToken

  /** One after the other, up to the first illegal operator. */
  function AltItems(kind: nat, alts: seq<Str>): (r: Parsed)
    ensures r.Items? ==> |r.items| == |alts| && forall i :: 0 <= i < |alts| ==> r.items[i].AltItem? && r.items[i].kind == kind
    ensures r != NullToken
  {
    if alts == [] then Items([])
    else
      var r := AltItems(kind, alts[..|alts| - 1]);
      if !r.Items? then r
      else
        match ParseAlternative(alts[|alts| - 1])
        case None => IllegalOperator
        case Some(a) => Items(r.items + [AltItem(kind, a)])
  }

  /** The alternatives of a field between commas. */
  function Alts(field: Str): seq<Str> { Tokens(SkipSpaces(field), BAR) }

  /** Whether a field gets an OR edge. */
  predicate HasOr(kind: nat, field: Str) {
    IsDependency(kind) && Alts(field) != [] && SkipSpaces(field) != Alts(field)[0]
  }

  function FieldItems(kind: nat, field: Str): Parsed {
    if Alts(field) == [] then NullToken
    else
      var r := AltItems(kind, Alts(field));
      if !r.Items? then r
      else Items((if HasOr(kind, field) then [OrItem(kind + 1, SkipSpaces(field), |Alts(field)|)] else []) + r.items)
  }

  function FieldsItems(kind: nat, fields: seq<Str>): Parsed {
    if fields == [] then Items([])
    else
      var r, s := FieldsItems(kind, fields[..|fields| - 1]), FieldItems(kind, fields[|fields| - 1]);
      if !r.Items? then r else if !s.Items? then s else Items(r.items + s.items)
  }

  function LineItems(kind: nat, line: Str): Parsed {
    if Tokens(line, COMMA) == [] then NullToken else FieldsItems(kind, Tokens(line, COMMA))
  }

  // ---------- When a line is not taken ----------

  predicate Illegal(field: Str) {
    exists k :: 0 <= k < |Alts(field)| && ParseAlternative(Alts(field)[k]) == None
  }

  lemma {:induction false} AltItemsIllegal(kind: nat, alts: seq<Str>)
    ensures AltItems(kind, alts) == IllegalOperator <==> exists k :: 0 <= k < |alts| && ParseAlternative(alts[k]) == None
    decreases |alts|
  {
    hide ParseAlternative;
    if alts != [] {
      var n := |alts| - 1;
      var init := alts[..n];
      AltItemsIllegal(kind, init);
      assert forall k :: 0 <= k < n ==> init[k] == alts[k];
      if ParseAlternative(alts[n]) == None {
      } else if exists k :: 0 <= k < |alts| && ParseAlternative(alts[k]) == None {
        var k :| 0 <= k < |alts| && ParseAlternative(alts[k]) == None;
        assert ParseAlternative(init[k]) == None;
      }
    }
  }

  /** A field fails by a missing token, by an illegal operator, or not at all. */
  lemma FieldFails(kind: nat, field: Str)
    ensures FieldItems(kind, field) == NullToken <==> Alts(field) == []
    ensures FieldItems(kind, field) == IllegalOperator <==> Illegal(field)
  {
    hide ParseAlternative, Alts;
    AltItemsIllegal(kind, Alts(field));
  }

  /** The first field that fails decides. */
  ghost predicate FirstFails(kind: nat, fields: seq<Str>, i: nat, how: Parsed) {
    i < |fields| && FieldItems(kind, fields[i]) == how && forall j :: 0 <= j < i ==> FieldItems(kind, fields[j]).Items?
  }

  lemma {:induction false} FieldsFail(kind: nat, fields: seq<Str>, how: Parsed)
    requires how == NullToken || how == IllegalOperator
    ensures FieldsItems(kind, fields) == how <==> exists i: nat :: FirstFails(kind, fields, i, how)
    ensures FieldsItems(kind, fields).Items? <==> forall j :: 0 <= j < |fields| ==> FieldItems(kind, fields[j]).Items?
    decreases |fields|
  {
    hide FieldItems;
    if fields != [] {
      var n := |fields| - 1;
      var init := fields[..n];
      FieldsFail(kind, init, how);
      assert forall k :: 0 <= k < n ==> init[k] == fields[k];
      if FieldsItems(kind, fields) == how {
        if FieldsItems(kind, init) == how {
          var i: nat :| FirstFails(kind, init, i, how);
          assert FirstFails(kind, fields, i, how);
        } else {
          assert FirstFails(kind, fields, n, how);
        }
      }
      if exists i: nat :: FirstFails(kind, fields, i, how) {
        var i: nat :| FirstFails(kind, fields, i, how);
        if i < n {
          assert FirstFails(kind, init, i, how);
        }
      }
    }
  }

  /** A field without alternatives, and no illegal operator before it. */
  predicate NullAt(fields: seq<Str>, i: nat) {
    i < |fields| && Alts(fields[i]) == [] && forall j :: 0 <= j < i ==> !Illegal(fields[j])
  }

  /** A field with an illegal operator, and an alternative in every field before it. */
  predicate IllegalAt(fields: seq<Str>, i: nat) {
    i < |fields| && Illegal(fields[i]) && forall j :: 0 <= j < i ==> Alts(fields[j]) != []
  }

  /** add_split_dependencies takes a missing token for a string exactly if the line has no field, or
      some field has no alternative and no field before it has an illegal operator. */
  lemma NullTokenWhen(kind: nat, line: Str)
    ensures LineItems(kind, line) == NullToken
            <==> (Tokens(line, COMMA) == [] || exists i: nat :: NullAt(Tokens(line, COMMA), i))
  {
    hide FieldItems, Alts, Illegal, Tokens;
    var fields := Tokens(line, COMMA);
    FieldsFail(kind, fields, NullToken);
    forall i | 0 <= i < |fields|
      ensures FieldItems(kind, fields[i]) == NullToken <==> Alts(fields[i]) == []
      ensures FieldItems(kind, fields[i]) == IllegalOperator <==> Illegal(fields[i])
    {
      FieldFails(kind, fields[i]);
    }
    if fields != [] && FieldsItems(kind, fields) == NullToken {
      var i: nat :| FirstFails(kind, fields, i, NullToken);
      assert NullAt(fields, i);
    }
    if exists i: nat :: NullAt(fields, i) {
      var i: nat :| NullAt(fields, i);
      var k := FirstNull(kind, fields, i);
      assert FirstFails(kind, fields, k, NullToken);
    }
  }

  lemma {:induction false} FirstNull(kind: nat, fields: seq<Str>, i: nat) returns (k: nat)
    requires i < |fields| && FieldItems(kind, fields[i]) == NullToken
    requires forall j :: 0 <= j < i ==> FieldItems(kind, fields[j]) != IllegalOperator
    ensures FirstFails(kind, fields, k, NullToken)
    decreases i
  {
    hide FieldItems;
    if j :| 0 <= j < i && FieldItems(kind, fields[j]) == NullToken {
      k := FirstNull(kind, fields, j);
    } else {
      k := i;
    }
  }

  /** An illegal operator is reported exactly if some field has one and every field before it has an alternative. */
  lemma IllegalWhen(kind: nat, line: Str)
    ensures LineItems(kind, line) == IllegalOperator <==> exists i: nat :: IllegalAt(Tokens(line, COMMA), i)
  {
    hide FieldItems, Alts, Illegal, Tokens;
    var fields := Tokens(line, COMMA);
    FieldsFail(kind, fields, IllegalOperator);
    forall i | 0 <= i < |fields|
      ensures FieldItems(kind, fields[i]) == NullToken <==> Alts(fields[i]) == []
      ensures FieldItems(kind, fields[i]) == IllegalOperator <==> Illegal(fields[i])
    {
      FieldFails(kind, fields[i]);
    }
    if LineItems(kind, line) == IllegalOperator {
      var i: nat :| FirstFails(kind, fields, i, IllegalOperator);
      assert IllegalAt(Tokens(line, COMMA), i);
    } else if exists i: nat :: IllegalAt(fields, i) {
      var i: nat :| IllegalAt(fields, i);
      var k := FirstIllegal(kind, fields, i);
    }
  }

  lemma {:induction false} FirstIllegal(kind: nat, fields: seq<Str>, i: nat) returns (k: nat)
    requires i < |fields| && FieldItems(kind, fields[i]) == IllegalOperator
    requires forall j :: 0 <= j < i ==> FieldItems(kind, fields[j]) != NullToken
    ensures FirstFails(kind, fields, k, IllegalOperator)
    decreases i
  {
    hide FieldItems;
    if j :| 0 <= j < i && FieldItems(kind, fields[j]) == IllegalOperator {
      k := FirstIllegal(kind, fields, j);
    } else {
      k := i;
    }
  }

  // ---------- Missing tokens in real lines ----------

  ghost predicate Only(s: Str, d: byte) { forall i :: 0 <= i < |s| ==> s[i] == d }

  /** There is no token exactly if there is nothing but delimiters. */
  lemma {:induction false} NoTokens(s: Str, d: byte)
    ensures Tokens(s, d) == [] <==> Only(s, d)
    decreases |s|
  {
    SpanOnly(s, d);
  }

  lemma {:induction false} SpanOnly(s: Str, d: byte)
    ensures Span(s, [d]) == |s| <==> Only(s, d)
    decreases |s|
  {
    if s != [] {
      SpanOnly(s[1..], d);
      if s[0] == d && Only(s[1..], d) {
        forall i | 0 <= i < |s| ensures s[i] == d {
          if i > 0 { assert s[1..][i - 1] == d; }
        }
      }
    }
  }

  /** A field has no alternative exactly if it is bars only, after any spaces. */
  lemma NoAlternatives(field: Str)
    ensures Alts(field) == [] <==> Only(SkipSpaces(field), BAR)
  {
    hide Tokens, SkipSpaces;
    NoTokens(SkipSpaces(field), BAR);
  }

  lemma {:induction false} SpanAppend(a: Str, b: Str, chars: seq<byte>)
    ensures Span(a, chars) < |a| ==> Span(a + b, chars) == Span(a, chars)
    ensures Span(a, chars) == |a| ==> Span(a + b, chars) == |a| + Span(b, chars)
    decreases |a|
  {
    if a == [] {
      assert a + b == b;
    } else {
      assert (a + b)[1..] == a[1..] + b;
      SpanAppend(a[1..], b, chars);
    }
  }

  lemma {:induction false} SpanNotAppend(a: Str, b: Str, chars: seq<byte>)
    ensures SpanNot(a, chars) < |a| ==> SpanNot(a + b, chars) == SpanNot(a, chars)
    ensures SpanNot(a, chars) == |a| ==> SpanNot(a + b, chars) == |a| + SpanNot(b, chars)
    decreases |a|
  {
    if a == [] {
      assert a + b == b;
    } else {
      assert (a + b)[1..] == a[1..] + b;
      SpanNotAppend(a[1..], b, chars);
    }
  }

  lemma SpanDelim(d: byte, b: Str)
    requires d != 0
    ensures Span([d] + b, [d]) == 1 + Span(b, [d]) && SpanNot([d] + b, [d]) == 0
    ensures Tokens([d] + b, d) == Tokens(b, d)
  {
    assert ([d] + b)[1..] == b;
    assert ([d] + b)[1 + Span(b, [d])..] == b[Span(b, [d])..];
  }

  /** A delimiter separates. */
  lemma {:induction false} TokensJoin(a: Str, d: byte, b: Str)
    requires d != 0
    ensures Tokens(a + [d] + b, d) == Tokens(a, d) + Tokens(b, d)
    decreases |a|
  {
    hide Span, SpanNot, Tokens;
    var s: Str := [d] + b;
    var k := Span(a, [d]);
    assert a + [d] + b == a + s;
    SpanAppend(a, s, [d]);
    SpanDelim(d, b);
    if k == |a| {
      assert (a + s)[|a| + 1 + Span(b, [d])..] == b[Span(b, [d])..];
      TokensFrom(a + s, d, b);
      NoneIn(a, d);
    } else {
      var n := SpanNot(Suffix(a, k), [d]);
      FirstToken(a, d, s);
      var rest := Suffix(Suffix(a, k), n);
      TokensJoin(rest, d, b);
      assert rest + [d] + b == rest + s;
      assert [Take(Suffix(a, k), n)] + (Tokens(rest, d) + Tokens(b, d)) == [Take(Suffix(a, k), n)] + Tokens(rest, d) + Tokens(b, d);
    }
  }

  /** What follows a delimiter does not matter to the first token in front of it. */
  lemma FirstToken(a: Str, d: byte, s: Str)
    requires s != [] && s[0] == d && Span(a, [d]) < |a|
    ensures var t := Suffix(a, Span(a, [d]));
            var n := SpanNot(t, [d]);
            && n >= 1 && Tokens(a, d) == [Take(t, n)] + Tokens(Suffix(t, n), d)
            && Tokens(a + s, d) == [Take(t, n)] + Tokens(Suffix(t, n) + s, d)
  {
    hide Span, Tokens;
    var k := Span(a, [d]);
    var t := Suffix(a, k);
    SpanAppend(a, s, [d]);
    TokensNext(a, d);
    TokensNext(a + s, d);
    CutJoin(a, s, k);
    SpanNotAppend(t, s, [d]);
    CutJoin(t, s, SpanNot(t, [d]));
  }

  lemma CutJoin(a: seq<byte>, s: seq<byte>, k: nat)
    requires k <= |a|
    ensures (a + s)[..k] == a[..k] && (a + s)[k..] == a[k..] + s
  {
  }

  lemma NoneIn(a: Str, d: byte)
    requires Span(a, [d]) == |a|
    ensures Tokens(a, d) == []
  {
  }

  lemma TokensFrom(s: Str, d: byte, b: Str)
    requires s[Span(s, [d])..] == b[Span(b, [d])..]
    ensures Tokens(s, d) == Tokens(b, d)
  {
  }

  lemma TokensNext(s: Str, d: byte)
    requires Span(s, [d]) < |s|
    ensures var t := s[Span(s, [d])..]; var k := SpanNot(t, [d]); k >= 1 && Tokens(s, d) == [t[..k]] + Tokens(t[k..], d)
  {
    StartsToken(s, d);
  }

  /** A comma and a space at the end of any line are a field without alternatives: the line is never taken. */
  lemma TrailingComma(kind: nat, line: Str)
    ensures !LineItems(kind, line + [COMMA, SPACE]).Items?
  {
    hide Tokens, FieldItems;
    assert line + [COMMA, SPACE] == line + [COMMA] + [SPACE];
    TokensJoin(line, COMMA, [SPACE]);
    LoneSpace();
    var fields := Tokens(line, COMMA) + [[SPACE]];
    FieldFails(kind, [SPACE]);
    assert fields[|fields| - 1] == [SPACE];
  }

  lemma LoneSpace()
    ensures Tokens([SPACE], COMMA) == [[SPACE]] && Alts([SPACE]) == []
  {
    assert [SPACE][1..] == [] && [SPACE][..1] == [SPACE];
    assert Span([SPACE], [COMMA]) == 0 && SpanNot([SPACE], [COMMA]) == 1;
    assert [SPACE][0..] == [SPACE];
    assert Tokens([], COMMA) == [];
    assert Span([SPACE], [SPACE]) == 1;
    assert SkipSpaces([SPACE]) == [];
  }

  lemma {:induction false} SpanNotWhole(s: Str, c: byte)
    requires c !in s
    ensures SpanNot(s, [c]) == |s| && (s != [] ==> Span(s, [c]) == 0)
    decreases |s|
  {
    if s != [] {
      SpanNotWhole(s[1..], c);
    }
  }

  lemma WholeToken(s: Str, d: byte)
    requires s != [] && d !in s
    ensures Tokens(s, d) == [s]
  {
    SpanNotWhole(s, d);
    assert s[0..] == s && s[..|s|] == s && s[|s|..] == [];
    assert Tokens([], d) == [];
  }

  /** A name alone is one legal alternative. */
  lemma PlainName(field: Str)
    requires field != [] && SPACE !in field && BAR !in field && OPEN !in field
    ensures Alts(field) == [field] && !Illegal(field)
  {
    hide Tokens, Restriction;
    SpanNotWhole(field, SPACE);
    SpanNotWhole(field, OPEN);
    assert field[0..] == field;
    WholeToken(field, BAR);
  }

  const LIBC6: Str := ['l' as int, 'i' as int, 'b' as int, 'c' as int, '6' as int]

  /** The dependency line "libc6, " has a field without alternatives. */
  lemma LibcCommaFails(kind: nat)
    ensures LineItems(kind, LIBC6 + [COMMA, SPACE]) == NullToken
  {
    hide Tokens, FieldItems, Alts, Illegal;
    var line := LIBC6 + [COMMA, SPACE];
    assert line == LIBC6 + [COMMA] + [SPACE];
    TokensJoin(LIBC6, COMMA, [SPACE]);
    WholeToken(LIBC6, COMMA);
    PlainName(LIBC6);
    LoneSpace();
    NullTokenWhen(kind, line);
    assert NullAt(Tokens(line, COMMA), 1);
  }

  // ---------- Groups come from lines ----------

  /** Edges of the kinds and counts that the items ask for. */
  ghost predicate Shaped(edges: seq<Edge>, items: seq<Item>) {
    && |edges| == |items|
    && forall i :: 0 <= i < |edges| ==> edges[i].kind == items[i].kind && (items[i].OrItem? ==> edges[i].version == items[i].count)
  }

  lemma {:induction false} SinglesGrouped(edges: seq<Edge>, i: nat, kind: nat)
    requires kind % 2 == 1 && forall k :: 0 <= k < |edges| ==> edges[k].kind == kind
    ensures Grouped(edges, i)
    decreases |edges| - i
  {
    if i < |edges| { SinglesGrouped(edges, i + 1, kind); }
  }

  /** The edges of a field are one group, or single edges. */
  lemma FieldGrouped(kind: nat, field: Str, edges: seq<Edge>)
    requires kind % 2 == 1 && FieldItems(kind, field).Items? && Shaped(edges, FieldItems(kind, field).items)
    ensures Grouped(edges, 0)
  {
    hide Alts, ParseAlternative, SkipSpaces;
    if HasOr(kind, field) {
      var plain := edges[1..];
      SinglesGrouped(plain, 0, kind);
      assert GroupOk(edges, 0);
      assert Grouped(edges, |edges|);
    } else {
      SinglesGrouped(edges, 0, kind);
    }
  }

  /** What a line is flattened to are groups, so the pass over them never misaligns. */
  lemma {:induction false} FieldsGrouped(kind: nat, fields: seq<Str>, edges: seq<Edge>)
    requires kind % 2 == 1 && FieldsItems(kind, fields).Items? && Shaped(edges, FieldsItems(kind, fields).items)
    ensures Grouped(edges, 0)
    decreases |fields|
  {
    hide Grouped, FieldItems, Shaped;
    if fields == [] {
      ShapedLength(edges, []);
      NothingGrouped(edges);
    } else {
      var rest, f := fields[..|fields| - 1], fields[|fields| - 1];
      var xs, ys := FieldsItems(kind, rest).items, FieldItems(kind, f).items;
      ShapedParts(edges, xs, ys);
      var a, b := edges[..|xs|], edges[|xs|..];
      FieldsGrouped(kind, rest, a);
      FieldGrouped(kind, f, b);
      GroupedAppend(a, b, 0);
      assert edges == a + b;
    }
  }

  lemma ShapedLength(edges: seq<Edge>, items: seq<Item>)
    requires Shaped(edges, items)
    ensures |edges| == |items|
  {
  }

  lemma ShapedParts(edges: seq<Edge>, xs: seq<Item>, ys: seq<Item>)
    requires Shaped(edges, xs + ys)
    ensures |edges| == |xs| + |ys| && Shaped(edges[..|xs|], xs) && Shaped(edges[|xs|..], ys)
  {
    assert forall i :: 0 <= i < |xs| ==> (xs + ys)[i] == xs[i];
    assert forall i :: 0 <= i < |ys| ==> (xs + ys)[|xs| + i] == ys[i];
  }

  lemma NothingGrouped(edges: seq<Edge>)
    requires edges == []
    ensures Grouped(edges, 0)
  {
  }
}
