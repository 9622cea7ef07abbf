/** expr: a parser that evaluates while it parses, and the trees it agrees with. */
module Exprs {
  import opened ExprValues

  /** A value and the first argument after what was parsed, or an error. */
  datatype Parsed = Done(v: Value, pos: nat) | Failed(e: Error)

  const KEYWORDS := ["quote", "length", "match", "index", "substr"]

  // ---------- What the eight levels compute ----------

  /** Level `k` of the grammar, from `pos` on: 0 is eval, 1 to 7 are eval1 to eval7. */
  function EvalAt(m: Matcher, args: seq<string>, k: nat, pos: nat): (r: Parsed)
    requires k <= 7 && pos <= |args|
    ensures r.Done? ==> pos < r.pos <= |args|
    decreases |args| - pos, 3 * (8 - k)
  {
    if k == 7 then Operand(m, args, pos)
    else if k == 6 then Keyword(m, args, pos)
    else
      match EvalAt(m, args, k + 1, pos)
      case Failed(e) => Failed(e)
      case Done(l, p) => More(m, args, k, l, p)
  }

  /** Further operators of level `k`, applied from left to right. */
  function More(m: Matcher, args: seq<string>, k: nat, l: Value, pos: nat): (r: Parsed)
    requires k <= 5 && pos <= |args|
    ensures r.Done? ==> pos <= r.pos <= |args|
    decreases |args| - pos, 30
  {
    if pos == |args| || Binding(args[pos]) != k then Done(l, pos)
    else
      match EvalAt(m, args, k + 1, pos + 1)
      case Failed(e) => Failed(e)
      case Done(r, p) =>
        match Apply(m, args[pos], l, r)
        case Err(e) => Failed(e)
        case Ok(v) => More(m, args, k, v, p)
  }

  function Operand(m: Matcher, args: seq<string>, pos: nat): (r: Parsed)
    requires pos <= |args|
    ensures r.Done? ==> pos < r.pos <= |args|
    decreases |args| - pos, 0
  {
    if pos == |args| then Failed(SyntaxError)
    else if args[pos] == "(" then
      match EvalAt(m, args, 0, pos + 1)
      case Failed(e) => Failed(e)
      case Done(v, p) => if p < |args| && args[p] == ")" then Done(v, p + 1) else Failed(SyntaxError)
    else if args[pos] == ")" then Failed(SyntaxError)
    else Done(String(args[pos]), pos + 1)
  }

  function Keyword(m: Matcher, args: seq<string>, pos: nat): (r: Parsed)
    requires pos <= |args|
    ensures r.Done? ==> pos < r.pos <= |args|
    decreases |args| - pos, 4
  {
    if pos == |args| || args[pos] !in KEYWORDS then EvalAt(m, args, 7, pos)
    else if args[pos] == "quote" then
      if pos + 1 == |args| then Failed(SyntaxError) else Done(String(args[pos + 1]), pos + 2)
    else
      match EvalAt(m, args, 6, pos + 1)
      case Failed(e) => Failed(e)
      case Done(l, p) =>
        if args[pos] == "length" then Done(Length(l), p)
        else
          match EvalAt(m, args, 6, p)
          case Failed(e) => Failed(e)
          case Done(r, p2) =>
            if args[pos] == "match" then
              match m(ToString(l), ToString(r))
              case Err(e) => Failed(e)
              case Ok(v) => Done(v, p2)
            else if args[pos] == "index" then Done(Index(l, r), p2)
            else
              match EvalAt(m, args, 6, p2)
              case Failed(e) => Failed(e)
              case Done(n, p3) => Done(Substr(l, r, n), p3)
  }

  // ---------- Expression trees ----------

  datatype Tree =
    | Leaf(s: string)
    | Quote(s: string)
    | Len(t: Tree)
    | Match(s0: Tree, p: Tree)
    | Idx(s1: Tree, chars: Tree)
    | Sub(s2: Tree, from: Tree, len: Tree)
    | Binary(op: string, l: Tree, r: Tree)
    | Paren(x: Tree)

  /** A bare operand must not look like a keyword or a parenthesis; operators are the known ones. */
  predicate Writable(t: Tree) {
    match t
    case Leaf(s) => s !in KEYWORDS && s != "(" && s != ")"
    case Quote(_) => true
    case Len(x) => Writable(x)
    case Match(a, b) => Writable(a) && Writable(b)
    case Idx(a, b) => Writable(a) && Writable(b)
    case Sub(a, b, c) => Writable(a) && Writable(b) && Writable(c)
    case Binary(op, a, b) => Binding(op) != NONE && Writable(a) && Writable(b)
    case Paren(x) => Writable(x)
  }

  function LevelOf(t: Tree): nat {
    match t
    case Leaf(_) => 7
    case Paren(_) => 7
    case Binary(op, _, _) => Binding(op)
    case _ => 6
  }

  /** The tree as arguments for level `k`, with its own parentheses and those that precedence and left association demand. */
  function Print(t: Tree, k: nat): seq<string>
    decreases t, 1
  {
    if LevelOf(t) < k then ["("] + PrintPlain(t) + [")"] else PrintPlain(t)
  }

  function PrintPlain(t: Tree): seq<string>
    decreases t, 0
  {
    match t
    case Leaf(s) => [s]
    case Quote(s) => ["quote", s]
    case Len(x) => ["length"] + Print(x, 6)
    case Match(a, b) => ["match"] + Print(a, 6) + Print(b, 6)
    case Idx(a, b) => ["index"] + Print(a, 6) + Print(b, 6)
    case Sub(a, b, c) => ["substr"] + Print(a, 6) + Print(b, 6) + Print(c, 6)
    case Binary(op, a, b) => Print(a, Binding(op)) + [op] + Print(b, Binding(op) + 1)
    case Paren(x) => ["("] + Print(x, 0) + [")"]
  }

  /** The meaning of a tree: operands from left to right, the first error wins. */
  function ValueOf(m: Matcher, t: Tree): Result {
    match t
    case Leaf(s) => Ok(String(s))
    case Quote(s) => Ok(String(s))
    case Len(x) =>
      (match ValueOf(m, x)
       case Err(e) => Err(e)
       case Ok(v) => Ok(Length(v)))
    case Match(a, b) => Both(ValueOf(m, a), ValueOf(m, b), (l, r) => m(ToString(l), ToString(r)))
    case Idx(a, b) => Both(ValueOf(m, a), ValueOf(m, b), (l, r) => Ok(Index(l, r)))
    case Sub(a, b, c) =>
      (match ValueOf(m, a)
       case Err(e) => Err(e)
       case Ok(l) => Both(ValueOf(m, b), ValueOf(m, c), (p, n) => Ok(Substr(l, p, n))))
    case Binary(op, a, b) => Both(ValueOf(m, a), ValueOf(m, b), (l, r) => Apply(m, op, l, r))
    case Paren(x) => ValueOf(m, x)
  }

  function Both(a: Result, b: Result, f: (Value, Value) -> Result): Result {
    if a.Err? then a else if b.Err? then b else f(a.v, b.v)
  }

  // ---------- Printing and evaluating agree ----------

  ghost predicate Stands(args: seq<string>, pos: nat, x: seq<string>) {
    pos + |x| <= |args| && args[pos..pos + |x|] == x
  }

  lemma StandsSplit(args: seq<string>, pos: nat, x: seq<string>, y: seq<string>)
    requires Stands(args, pos, x + y)
    ensures Stands(args, pos, x) && Stands(args, pos + |x|, y)
  {
    var t := args[pos..pos + |x + y|];
    assert args[pos..pos + |x|] == t[..|x|] == x;
    assert args[pos + |x|..pos + |x| + |y|] == t[|x|..] == y;
  }

  lemma StandsOne(args: seq<string>, pos: nat, s: string)
    requires Stands(args, pos, [s])
    ensures pos < |args| && args[pos] == s
  {
    assert args[pos] == args[pos..pos + 1][0];
  }

  /** No operator that binds tighter than level `k` follows. */
  ghost predicate NoTighter(args: seq<string>, pos: nat, k: nat) {
    pos < |args| ==> Binding(args[pos]) <= k || Binding(args[pos]) == NONE
  }

  /** What level `k` makes of a printed tree: its value, then whatever operators of the level follow. */
  ghost predicate Reads(m: Matcher, args: seq<string>, k: nat, pos: nat, t: Tree) {
    var end := pos + |Print(t, k)|;
    && k <= 7 && end <= |args|
    && EvalAt(m, args, k, pos) ==
       match ValueOf(m, t)
       case Err(e) => Failed(e)
       case Ok(v) => if k <= 5 then More(m, args, k, v, end) else Done(v, end)
  }

  lemma NoMore(m: Matcher, args: seq<string>, k: nat, v: Value, pos: nat)
    requires k <= 5 && pos <= |args| && (pos < |args| ==> Binding(args[pos]) != k)
    ensures More(m, args, k, v, pos) == Done(v, pos)
  {
  }

  /** If level `k + 1` reads a tree that needs no operator of level `k`, so does level `k`. */
  lemma ReadsLower(m: Matcher, args: seq<string>, k: nat, pos: nat, t: Tree)
    requires k <= 5 && LevelOf(t) != k && Reads(m, args, k + 1, pos, t) && NoTighter(args, pos + |Print(t, k)|, k)
    ensures Print(t, k) == Print(t, k + 1) && Reads(m, args, k, pos, t)
  {
    hide ValueOf, PrintPlain, EvalAt, More, Binding;
    assert Print(t, k) == Print(t, k + 1);
    var v := ValueOf(m, t);
    if v.Ok? && k + 1 <= 5 {
      NoMore(m, args, k + 1, v.v, pos + |Print(t, k)|);
    }
    EvalLower(m, args, k, pos);
  }

  /** Level `k` first reads an operand of the next level. */
  lemma EvalLower(m: Matcher, args: seq<string>, k: nat, pos: nat)
    requires k <= 5 && pos <= |args|
    ensures EvalAt(m, args, k, pos) ==
            match EvalAt(m, args, k + 1, pos)
            case Failed(e) => Failed(e)
            case Done(l, p) => More(m, args, k, l, p)
  {
    hide More;
  }

  /** An operator after its left operand. */
  lemma ReadsBinary(m: Matcher, args: seq<string>, k: nat, pos: nat, t: Tree)
    requires t.Binary? && k == Binding(t.op) <= 5 && Reads(m, args, k, pos, t.l)
    requires var p := pos + |Print(t.l, k)|;
             p < |args| && args[p] == t.op && Reads(m, args, k + 1, p + 1, t.r) && NoTighter(args, p + 1 + |Print(t.r, k + 1)|, k)
    ensures pos + |Print(t, k)| <= |args| && Reads(m, args, k, pos, t)
  {
    hide Apply, EvalAt;
    var p := pos + |Print(t.l, k)|;
    var q := p + 1 + |Print(t.r, k + 1)|;
    assert Print(t, k) == Print(t.l, k) + [t.op] + Print(t.r, k + 1);
    var l, r := ValueOf(m, t.l), ValueOf(m, t.r);
    if l.Ok? && r.Ok? && k + 1 <= 5 {
      NoMore(m, args, k + 1, r.v, q);
    }
  }

  lemma ReadsParenthesized(m: Matcher, args: seq<string>, pos: nat, t: Tree)
    requires LevelOf(t) < 7 && Stands(args, pos, ["("] + PrintPlain(t) + [")"]) && Reads(m, args, 0, pos + 1, t)
    ensures Reads(m, args, 7, pos, t)
  {
    hide EvalAt, ValueOf, PrintPlain, Binding, More;
    var end := pos + 1 + |PrintPlain(t)|;
    StandsSplit(args, pos, ["("] + PrintPlain(t), [")"]);
    StandsSplit(args, pos, ["("], PrintPlain(t));
    StandsOne(args, pos, "(");
    StandsOne(args, end, ")");
    assert Print(t, 0) == PrintPlain(t);
    NotOperator();
    if ValueOf(m, t).Ok? {
      NoMore(m, args, 0, ValueOf(m, t).v, end);
    }
    EvalOperand(m, args, pos);
  }

  lemma ReadsParen(m: Matcher, args: seq<string>, pos: nat, t: Tree)
    requires t.Paren? && pos < |args| && args[pos] == "(" && Reads(m, args, 0, pos + 1, t.x)
    requires var end := pos + 1 + |Print(t.x, 0)|; end < |args| && args[end] == ")"
    ensures Reads(m, args, 7, pos, t)
  {
    hide EvalAt, Print, Binding, More;
    var end := pos + 1 + |Print(t.x, 0)|;
    ParenMeans(m, t);
    NotOperator();
    if ValueOf(m, t.x).Ok? {
      NoMore(m, args, 0, ValueOf(m, t.x).v, end);
    }
    EvalOperand(m, args, pos);
  }

  lemma ParenMeans(m: Matcher, t: Tree)
    requires t.Paren?
    ensures Print(t, 7) == ["("] + Print(t.x, 0) + [")"] && ValueOf(m, t) == ValueOf(m, t.x)
  {
  }

  lemma ParenTree(args: seq<string>, pos: nat, t: Tree)
    requires t.Paren? && Stands(args, pos, Print(t, 7))
    ensures pos < |args| && args[pos] == "(" && Stands(args, pos + 1, Print(t.x, 0))
    ensures var end := pos + 1 + |Print(t.x, 0)|; end < |args| && args[end] == ")" && NoTighter(args, end, 0)
  {
    var x := Print(t.x, 0);
    assert Print(t, 7) == ["("] + x + [")"];
    hide Print;
    StandsSplit(args, pos, ["("] + x, [")"]);
    StandsSplit(args, pos, ["("], x);
    StandsOne(args, pos, "(");
    StandsOne(args, pos + 1 + |x|, ")");
  }

  lemma NotOperator()
    ensures Binding(")") == NONE
  {
  }

  lemma EvalOperand(m: Matcher, args: seq<string>, pos: nat)
    requires pos <= |args|
    ensures EvalAt(m, args, 7, pos) == Operand(m, args, pos) && EvalAt(m, args, 6, pos) == Keyword(m, args, pos)
  {
    hide Operand, Keyword;
  }

  lemma ReadsLeaf(m: Matcher, args: seq<string>, pos: nat, t: Tree)
    requires t.Leaf? && Writable(t) && Stands(args, pos, [t.s])
    ensures Reads(m, args, 7, pos, t)
  {
    hide EvalAt;
    StandsOne(args, pos, t.s);
    EvalOperand(m, args, pos);
    assert ValueOf(m, t) == Ok(String(t.s));
    assert Print(t, 7) == [t.s];
    assert Operand(m, args, pos) == Done(String(t.s), pos + 1);
  }

  /** What level 7 reads, level 6 reads too. */
  lemma ReadsNoKeyword(m: Matcher, args: seq<string>, pos: nat, t: Tree)
    requires LevelOf(t) != 6 && Reads(m, args, 7, pos, t) && pos < |args| && args[pos] !in KEYWORDS
    ensures Reads(m, args, 6, pos, t) && Print(t, 6) == Print(t, 7)
  {
    hide EvalAt, ValueOf, PrintPlain;
    EvalOperand(m, args, pos);
  }

  lemma ReadsQuote(m: Matcher, args: seq<string>, pos: nat, t: Tree)
    requires t.Quote? && Stands(args, pos, ["quote", t.s])
    ensures Reads(m, args, 6, pos, t)
  {
    hide EvalAt;
    assert args[pos] == args[pos..pos + 2][0] && args[pos + 1] == args[pos..pos + 2][1];
    EvalOperand(m, args, pos);
    assert ValueOf(m, t) == Ok(String(t.s));
    assert Print(t, 6) == ["quote", t.s];
    assert Keyword(m, args, pos) == Done(String(t.s), pos + 2);
  }

  lemma ReadsLen(m: Matcher, args: seq<string>, pos: nat, t: Tree)
    requires t.Len? && pos < |args| && args[pos] == "length" && Reads(m, args, 6, pos + 1, t.t)
    ensures Reads(m, args, 6, pos, t)
  {
    hide EvalAt, Length, ValueOf, Print, PrintPlain;
    EvalOperand(m, args, pos);
    LenMeans(m, t);
  }

  lemma LenMeans(m: Matcher, t: Tree)
    requires t.Len?
    ensures |Print(t, 6)| == 1 + |Print(t.t, 6)|
    ensures ValueOf(m, t)
         == (match ValueOf(m, t.t)
             case Err(e) => Err(e)
             case Ok(v) => Ok(Length(v)))
  {
    hide Length;
  }

  /** The two operands of match and index, and the first two of substr. */
  lemma ReadsPair(m: Matcher, args: seq<string>, pos: nat, t: Tree, a: Tree, b: Tree)
    requires (t.Match? && a == t.s0 && b == t.p) || (t.Idx? && a == t.s1 && b == t.chars)
    requires pos < |args| && args[pos] == (if t.Match? then "match" else "index")
    requires Reads(m, args, 6, pos + 1, a) && Reads(m, args, 6, pos + 1 + |Print(a, 6)|, b)
    ensures Reads(m, args, 6, pos, t)
  {
    hide EvalAt, Index, ToString, ValueOf, Print, PrintPlain;
    EvalOperand(m, args, pos);
    PairMeans(m, t, a, b);
  }

  lemma PairMeans(m: Matcher, t: Tree, a: Tree, b: Tree)
    requires (t.Match? && a == t.s0 && b == t.p) || (t.Idx? && a == t.s1 && b == t.chars)
    ensures |Print(t, 6)| == 1 + |Print(a, 6)| + |Print(b, 6)|
    ensures ValueOf(m, t)
         == (match ValueOf(m, a)
             case Err(e) => Err(e)
             case Ok(l) =>
               match ValueOf(m, b)
               case Err(e) => Err(e)
               case Ok(r) => if t.Match? then m(ToString(l), ToString(r)) else Ok(Index(l, r)))
  {
    hide Index, ToString;
  }

  lemma ReadsSub(m: Matcher, args: seq<string>, pos: nat, t: Tree)
    requires t.Sub? && pos < |args| && args[pos] == "substr" && Reads(m, args, 6, pos + 1, t.s2)
    requires Reads(m, args, 6, pos + 1 + |Print(t.s2, 6)|, t.from)
    requires Reads(m, args, 6, pos + 1 + |Print(t.s2, 6)| + |Print(t.from, 6)|, t.len)
    ensures Reads(m, args, 6, pos, t)
  {
    hide EvalAt, Substr, ValueOf, Print, PrintPlain;
    EvalOperand(m, args, pos);
    SubMeans(m, t);
  }

  lemma SubMeans(m: Matcher, t: Tree)
    requires t.Sub?
    ensures |Print(t, 6)| == 1 + |Print(t.s2, 6)| + |Print(t.from, 6)| + |Print(t.len, 6)|
    ensures ValueOf(m, t)
         == (match ValueOf(m, t.s2)
             case Err(e) => Err(e)
             case Ok(l) =>
               match ValueOf(m, t.from)
               case Err(e) => Err(e)
               case Ok(p) =>
                 match ValueOf(m, t.len)
                 case Err(e) => Err(e)
                 case Ok(n) => Ok(Substr(l, p, n)))
  {
    hide Substr;
  }

  /** Every level reads a printed tree as its value, wherever it stands. */
  lemma {:induction false} PrintedReads(m: Matcher, args: seq<string>, k: nat, pos: nat, t: Tree)
    requires k <= 7 && Writable(t) && Stands(args, pos, Print(t, k)) && NoTighter(args, pos + |Print(t, k)|, k)
    ensures Reads(m, args, k, pos, t)
    decreases t, 1, if LevelOf(t) < k then 1 else 0, 8 - k
  {
    hide Reads, Stands, PrintPlain;
    if LevelOf(t) < k && k == 7 {
      ParenInside(args, pos, t);
      PrintedReads(m, args, 0, pos + 1, t);
      ReadsParenthesized(m, args, pos, t);
    } else if k == 7 && t.Paren? {
      ParenTree(args, pos, t);
      PrintedReads(m, args, 0, pos + 1, t.x);
      ReadsParen(m, args, pos, t);
    } else if k == 7 {
      OnlyLeaf(t);
      ReadsLeaf(m, args, pos, t);
    } else if LevelOf(t) != k {
      PrintedLower(args, k, pos, t);
      PrintedReads(m, args, k + 1, pos, t);
      if k == 6 {
        NotKeyword(args, pos, t);
        ReadsNoKeyword(m, args, pos, t);
      } else {
        ReadsLower(m, args, k, pos, t);
      }
    } else if k == 6 {
      KeywordReads(m, args, pos, t);
    } else {
      BinaryInside(args, k, pos, t);
      var p := pos + |Print(t.l, k)|;
      PrintedReads(m, args, k, pos, t.l);
      PrintedReads(m, args, k + 1, p + 1, t.r);
      ReadsBinary(m, args, k, pos, t);
    }
  }

  lemma {:induction false} KeywordReads(m: Matcher, args: seq<string>, pos: nat, t: Tree)
    requires LevelOf(t) == 6 && Writable(t) && Stands(args, pos, Print(t, 6))
    ensures Reads(m, args, 6, pos, t)
    decreases t, 0
  {
    hide Reads, Stands, NoTighter, Print, PrintPlain;
    AnyFollows(args);
    match t
    case Quote(s) =>
      QuoteInside(args, pos, t);
      ReadsQuote(m, args, pos, t);
    case Len(x) =>
      LenInside(args, pos, t);
      PrintedReads(m, args, 6, pos + 1, x);
      ReadsLen(m, args, pos, t);
    case Match(a, b) =>
      PairInside(args, pos, t, a, b);
      PrintedReads(m, args, 6, pos + 1, a);
      PrintedReads(m, args, 6, pos + 1 + |Print(a, 6)|, b);
      ReadsPair(m, args, pos, t, a, b);
    case Idx(a, b) =>
      PairInside(args, pos, t, a, b);
      PrintedReads(m, args, 6, pos + 1, a);
      PrintedReads(m, args, 6, pos + 1 + |Print(a, 6)|, b);
      ReadsPair(m, args, pos, t, a, b);
    case Sub(a, b, c) =>
      SubInside(args, pos, t);
      PrintedReads(m, args, 6, pos + 1, a);
      PrintedReads(m, args, 6, pos + 1 + |Print(a, 6)|, b);
      PrintedReads(m, args, 6, pos + 1 + |Print(a, 6)| + |Print(b, 6)|, c);
      ReadsSub(m, args, pos, t);
  }

  lemma QuoteInside(args: seq<string>, pos: nat, t: Tree)
    requires t.Quote? && Stands(args, pos, Print(t, 6))
    ensures Stands(args, pos, ["quote", t.s])
  {
    assert PrintPlain(t) == ["quote", t.s];
  }

  lemma LenInside(args: seq<string>, pos: nat, t: Tree)
    requires t.Len? && Stands(args, pos, Print(t, 6))
    ensures pos < |args| && args[pos] == "length" && Stands(args, pos + 1, Print(t.t, 6))
  {
    assert PrintPlain(t) == ["length"] + Print(t.t, 6);
    FirstStands(args, pos, "length", Print(t.t, 6));
  }

  lemma PairInside(args: seq<string>, pos: nat, t: Tree, a: Tree, b: Tree)
    requires (t.Match? && a == t.s0 && b == t.p) || (t.Idx? && a == t.s1 && b == t.chars)
    requires Stands(args, pos, Print(t, 6))
    ensures pos < |args| && args[pos] == (if t.Match? then "match" else "index")
    ensures Stands(args, pos + 1, Print(a, 6)) && Stands(args, pos + 1 + |Print(a, 6)|, Print(b, 6))
  {
    hide Stands;
    var s := if t.Match? then "match" else "index";
    StandsSplit(args, pos, [s] + Print(a, 6), Print(b, 6));
    FirstStands(args, pos, s, Print(a, 6));
  }

  lemma SubInside(args: seq<string>, pos: nat, t: Tree)
    requires t.Sub? && Stands(args, pos, Print(t, 6))
    ensures pos < |args| && args[pos] == "substr" && Stands(args, pos + 1, Print(t.s2, 6))
    ensures Stands(args, pos + 1 + |Print(t.s2, 6)|, Print(t.from, 6))
    ensures Stands(args, pos + 1 + |Print(t.s2, 6)| + |Print(t.from, 6)|, Print(t.len, 6))
  {
    hide Stands;
    var a, b, c := Print(t.s2, 6), Print(t.from, 6), Print(t.len, 6);
    StandsSplit(args, pos, ["substr"] + a + b, c);
    StandsSplit(args, pos, ["substr"] + a, b);
    FirstStands(args, pos, "substr", a);
  }

  lemma OnlyLeaf(t: Tree)
    requires Writable(t) && LevelOf(t) >= 7 && !t.Paren?
    ensures t.Leaf? && Print(t, 7) == [t.s]
  {
  }

  lemma PrintsSomething(t: Tree, k: nat)
    ensures Print(t, k) != []
  {
  }

  lemma AnyFollows(args: seq<string>)
    ensures forall p: nat :: NoTighter(args, p, 6)
  {
  }

  lemma FirstStands(args: seq<string>, pos: nat, s: string, x: seq<string>)
    requires Stands(args, pos, [s] + x)
    ensures pos < |args| && args[pos] == s && Stands(args, pos + 1, x)
  {
    StandsSplit(args, pos, [s], x);
    StandsOne(args, pos, s);
  }

  lemma ParenInside(args: seq<string>, pos: nat, t: Tree)
    requires LevelOf(t) < 7 && Stands(args, pos, Print(t, 7))
    ensures Stands(args, pos, ["("] + PrintPlain(t) + [")"]) && Stands(args, pos + 1, Print(t, 0))
    ensures NoTighter(args, pos + 1 + |Print(t, 0)|, 0)
  {
    hide PrintPlain;
    StandsSplit(args, pos, ["("] + PrintPlain(t), [")"]);
    StandsSplit(args, pos, ["("], PrintPlain(t));
    StandsOne(args, pos + 1 + |PrintPlain(t)|, ")");
  }

  lemma PrintedLower(args: seq<string>, k: nat, pos: nat, t: Tree)
    requires k < 7 && LevelOf(t) != k && Stands(args, pos, Print(t, k)) && NoTighter(args, pos + |Print(t, k)|, k)
    ensures Stands(args, pos, Print(t, k + 1)) && NoTighter(args, pos + |Print(t, k + 1)|, k + 1)
  {
    hide PrintPlain, Stands;
  }

  lemma NotKeyword(args: seq<string>, pos: nat, t: Tree)
    requires LevelOf(t) != 6 && Writable(t) && Stands(args, pos, Print(t, 7))
    ensures pos < |args| && args[pos] !in KEYWORDS
  {
    if t.Leaf? {
      StandsOne(args, pos, t.s);
    } else if t.Paren? {
      ParenTree(args, pos, t);
    } else {
      StandsSplit(args, pos, ["("] + PrintPlain(t), [")"]);
      StandsSplit(args, pos, ["("], PrintPlain(t));
      StandsOne(args, pos, "(");
    }
  }

  lemma BinaryInside(args: seq<string>, k: nat, pos: nat, t: Tree)
    requires t.Binary? && Binding(t.op) == k <= 5 && Stands(args, pos, Print(t, k)) && NoTighter(args, pos + |Print(t, k)|, k)
    ensures Stands(args, pos, Print(t.l, k)) && NoTighter(args, pos + |Print(t.l, k)|, k)
    ensures var p := pos + |Print(t.l, k)|;
            p < |args| && args[p] == t.op && Stands(args, p + 1, Print(t.r, k + 1)) && NoTighter(args, p + 1 + |Print(t.r, k + 1)|, k)
  {
    var a, b := Print(t.l, k), Print(t.r, k + 1);
    assert Print(t, k) == a + [t.op] + b;
    hide Print;
    StandsSplit(args, pos, a + [t.op], b);
    StandsSplit(args, pos, a, [t.op]);
    StandsOne(args, pos + |a|, t.op);
  }

  /** Evaluating a printed expression gives its value, or its error, and uses up all arguments. */
  lemma PrintedEvaluates(m: Matcher, t: Tree)
    requires Writable(t)
    ensures EvalAt(m, Print(t, 0), 0, 0) ==
            match ValueOf(m, t)
            case Err(e) => Failed(e)
            case Ok(v) => Done(v, |Print(t, 0)|)
  {
    hide Print, EvalAt, ValueOf;
    var args := Print(t, 0);
    assert args[0..|args|] == args;
    PrintedReads(m, args, 0, 0, t);
    if ValueOf(m, t).Ok? {
      NoMore(m, args, 0, ValueOf(m, t).v, |args|);
    }
  }

  // ---------- Whatever is evaluated is a tree ----------

  /** The arguments from `pos` to `end` are a tree for level `k`, and its value is `v`. */
  ghost predicate Spells(m: Matcher, args: seq<string>, k: nat, pos: nat, end: nat, t: Tree, v: Value) {
    && pos <= end <= |args| && Writable(t) && LevelOf(t) >= k
    && Print(t, k) == args[pos..end] && ValueOf(m, t) == Ok(v)
  }

  lemma SpellsLower(m: Matcher, args: seq<string>, k: nat, pos: nat, end: nat, t: Tree, v: Value)
    requires Spells(m, args, k + 1, pos, end, t, v)
    ensures Spells(m, args, k, pos, end, t, v)
  {
    hide PrintPlain, ValueOf, Writable;
  }

  lemma SpellsBinary(m: Matcher, args: seq<string>, k: nat, pos: nat, p: nat, q: nat, l: Tree, a: Value, r: Tree, b: Value, v: Value)
    requires Spells(m, args, k, pos, p, l, a) && p < |args| && Binding(args[p]) == k <= 5
    requires Spells(m, args, k + 1, p + 1, q, r, b) && Apply(m, args[p], a, b) == Ok(v)
    ensures Spells(m, args, k, pos, q, Binary(args[p], l, r), v)
  {
    hide Apply;
    var t := Binary(args[p], l, r);
    assert PrintPlain(t) == Print(l, k) + [args[p]] + Print(r, k + 1);
    assert args[pos..q] == args[pos..p] + [args[p]] + args[p + 1..q];
  }

  /** A level that succeeds has read a tree. */
  lemma {:induction false} EvalSpells(m: Matcher, args: seq<string>, k: nat, pos: nat) returns (t: Tree)
    requires k <= 7 && pos <= |args| && EvalAt(m, args, k, pos).Done? && (k == 7 && pos < |args| ==> args[pos] !in KEYWORDS)
    ensures Spells(m, args, k, pos, EvalAt(m, args, k, pos).pos, t, EvalAt(m, args, k, pos).v)
    decreases |args| - pos, 3 * (8 - k)
  {
    hide Spells, Writable, Print, ValueOf;
    if k == 7 {
      t := OperandSpells(m, args, pos);
    } else if k == 6 {
      t := KeywordSpells(m, args, pos);
    } else {
      var r := EvalAt(m, args, k + 1, pos);
      var l := EvalSpells(m, args, k + 1, pos);
      SpellsLower(m, args, k, pos, r.pos, l, r.v);
      t := MoreSpells(m, args, k, pos, l, r.v, r.pos);
    }
  }

  lemma {:induction false} MoreSpells(m: Matcher, args: seq<string>, k: nat, start: nat, l: Tree, a: Value, pos: nat) returns (t: Tree)
    requires k <= 5 && start < pos <= |args| && Spells(m, args, k, start, pos, l, a) && More(m, args, k, a, pos).Done?
    ensures Spells(m, args, k, start, More(m, args, k, a, pos).pos, t, More(m, args, k, a, pos).v)
    decreases |args| - pos, 30
  {
    hide Spells, EvalAt, Apply;
    if pos == |args| || Binding(args[pos]) != k {
      t := l;
    } else {
      var r := EvalAt(m, args, k + 1, pos + 1);
      var right := EvalSpells(m, args, k + 1, pos + 1);
      var v := Apply(m, args[pos], a, r.v).v;
      SpellsBinary(m, args, k, start, pos, r.pos, l, a, right, r.v, v);
      t := MoreSpells(m, args, k, start, Binary(args[pos], l, right), v, r.pos);
    }
  }

  lemma {:induction false} OperandSpells(m: Matcher, args: seq<string>, pos: nat) returns (t: Tree)
    requires pos <= |args| && Operand(m, args, pos).Done? && (pos < |args| ==> args[pos] !in KEYWORDS)
    ensures Spells(m, args, 7, pos, Operand(m, args, pos).pos, t, Operand(m, args, pos).v)
    decreases |args| - pos, 0
  {
    hide EvalAt, Spells;
    if args[pos] == "(" {
      var r := EvalAt(m, args, 0, pos + 1);
      var x := EvalSpells(m, args, 0, pos + 1);
      t := Paren(x);
      SpellsParen(m, args, pos, r.pos, x, r.v);
    } else {
      t := Leaf(args[pos]);
      SpellsLeaf(m, args, pos);
    }
  }

  lemma SpellsParen(m: Matcher, args: seq<string>, pos: nat, p: nat, x: Tree, v: Value)
    requires pos < p < |args| && args[pos] == "(" && args[p] == ")" && Spells(m, args, 0, pos + 1, p, x, v)
    ensures Spells(m, args, 7, pos, p + 1, Paren(x), v)
  {
    ParenMeans(m, Paren(x));
    assert args[pos..p + 1] == ["("] + args[pos + 1..p] + [")"];
  }

  lemma SpellsLeaf(m: Matcher, args: seq<string>, pos: nat)
    requires pos < |args| && args[pos] !in KEYWORDS && args[pos] != "(" && args[pos] != ")"
    ensures Spells(m, args, 7, pos, pos + 1, Leaf(args[pos]), String(args[pos]))
  {
    assert args[pos..pos + 1] == [args[pos]];
  }

  lemma {:induction false} KeywordSpells(m: Matcher, args: seq<string>, pos: nat) returns (t: Tree)
    requires pos <= |args| && Keyword(m, args, pos).Done?
    ensures Spells(m, args, 6, pos, Keyword(m, args, pos).pos, t, Keyword(m, args, pos).v)
    decreases |args| - pos, 4
  {
    hide EvalAt, Spells, Index, Substr, Length, ToString;
    if pos == |args| || args[pos] !in KEYWORDS {
      t := EvalSpells(m, args, 7, pos);
      var r := EvalAt(m, args, 7, pos);
      SpellsLower(m, args, 6, pos, r.pos, t, r.v);
    } else if args[pos] == "quote" {
      t := Quote(args[pos + 1]);
      SpellsQuote(m, args, pos);
    } else {
      var r := EvalAt(m, args, 6, pos + 1);
      var a := EvalSpells(m, args, 6, pos + 1);
      if args[pos] == "length" {
        t := Len(a);
        SpellsLen(m, args, pos, r.pos, a, r.v);
      } else {
        var r2 := EvalAt(m, args, 6, r.pos);
        var b := EvalSpells(m, args, 6, r.pos);
        if args[pos] == "match" || args[pos] == "index" {
          t := if args[pos] == "match" then Match(a, b) else Idx(a, b);
          SpellsPair(m, args, pos, r.pos, r2.pos, a, r.v, b, r2.v, t);
        } else {
          var r3 := EvalAt(m, args, 6, r2.pos);
          var c := EvalSpells(m, args, 6, r2.pos);
          t := Sub(a, b, c);
          SpellsSub(m, args, pos, r.pos, r2.pos, r3.pos, t, r.v, r2.v, r3.v);
        }
      }
    }
  }

  lemma SpellsQuote(m: Matcher, args: seq<string>, pos: nat)
    requires pos + 1 < |args| && args[pos] == "quote"
    ensures Spells(m, args, 6, pos, pos + 2, Quote(args[pos + 1]), String(args[pos + 1]))
  {
    assert args[pos..pos + 2] == ["quote", args[pos + 1]];
  }

  lemma SpellsLen(m: Matcher, args: seq<string>, pos: nat, p: nat, x: Tree, v: Value)
    requires pos < p <= |args| && args[pos] == "length" && Spells(m, args, 6, pos + 1, p, x, v)
    ensures Spells(m, args, 6, pos, p, Len(x), Length(v))
  {
    hide Length;
    assert args[pos..p] == ["length"] + args[pos + 1..p];
    assert PrintPlain(Len(x)) == ["length"] + Print(x, 6);
  }

  lemma SpellsPair(m: Matcher, args: seq<string>, pos: nat, p: nat, q: nat, a: Tree, u: Value, b: Tree, v: Value, t: Tree)
    requires pos < p <= q <= |args| && (args[pos] == "match" || args[pos] == "index")
    requires t == if args[pos] == "match" then Match(a, b) else Idx(a, b)
    requires Spells(m, args, 6, pos + 1, p, a, u) && Spells(m, args, 6, p, q, b, v)
    requires args[pos] == "match" ==> m(ToString(u), ToString(v)).Ok?
    ensures Spells(m, args, 6, pos, q, t, if args[pos] == "match" then m(ToString(u), ToString(v)).v else Index(u, v))
  {
    hide ToString, Index;
    PairMeans(m, t, a, b);
    assert args[pos..q] == [args[pos]] + args[pos + 1..p] + args[p..q];
    assert PrintPlain(t) == [args[pos]] + Print(a, 6) + Print(b, 6);
  }

  lemma SpellsSub(m: Matcher, args: seq<string>, pos: nat, p: nat, q: nat, end: nat, t: Tree, u: Value, v: Value, w: Value)
    requires pos < p <= q <= end <= |args| && args[pos] == "substr" && t.Sub?
    requires Spells(m, args, 6, pos + 1, p, t.s2, u) && Spells(m, args, 6, p, q, t.from, v) && Spells(m, args, 6, q, end, t.len, w)
    ensures Spells(m, args, 6, pos, end, t, Substr(u, v, w))
  {
    hide Substr;
    SubMeans(m, t);
    var a, b, c := args[pos + 1..p], args[p..q], args[q..end];
    assert args[pos..end] == ["substr"] + a + b + c by {
      assert args[pos..q] == ["substr"] + a + b;
      assert args[pos..end] == args[pos..q] + c;
    }
    assert PrintPlain(t) == ["substr"] + Print(t.s2, 6) + Print(t.from, 6) + Print(t.len, 6);
  }

  /** The arguments are evaluated to `v`, with none left, exactly if they are some tree with that value. */
  lemma EvaluatesTrees(m: Matcher, args: seq<string>, v: Value)
    ensures EvalAt(m, args, 0, 0) == Done(v, |args|) <==> exists t :: Writable(t) && Print(t, 0) == args && ValueOf(m, t) == Ok(v)
  {
    hide EvalAt, Writable, Print, ValueOf;
    if EvalAt(m, args, 0, 0) == Done(v, |args|) {
      var t := EvalSpells(m, args, 0, 0);
      assert args[0..|args|] == args;
    }
    if exists t :: Writable(t) && Print(t, 0) == args && ValueOf(m, t) == Ok(v) {
      var t :| Writable(t) && Print(t, 0) == args && ValueOf(m, t) == Ok(v);
      PrintedEvaluates(m, t);
    }
  }
}
