/** eval and eval1 to eval7 of expr, over the global argument cursor. */
module ExprEvals {
  import opened ExprValues
  import opened Exprs

  /** An operator of level `k` once its right operand is read. */
  function AfterOperand(m: Matcher, args: seq<string>, k: nat, op: string, l: Value, right: Parsed): Parsed
    requires k <= 5 && (right.Done? ==> right.pos <= |args|)
  {
    match right
    case Failed(e) => Failed(e)
    case Done(r, p) =>
      match Apply(m, op, l, r)
      case Err(e) => Failed(e)
      case Ok(v) => More(m, args, k, v, p)
  }

  /** One more operator of level `k`, or none. */
  lemma MoreStep(m: Matcher, args: seq<string>, k: nat, l: Value, pos: nat)
    requires k <= 5 && pos <= |args|
    ensures pos == |args| || Binding(args[pos]) != k ==> More(m, args, k, l, pos) == Done(l, pos)
    ensures pos < |args| && Binding(args[pos]) == k ==>
              More(m, args, k, l, pos) == AfterOperand(m, args, k, args[pos], l, EvalAt(m, args, k + 1, pos + 1))
  {
    hide Apply, EvalAt;
  }

  lemma Operators(s: string)
    ensures Binding(s) == 0 <==> s == "|"
    ensures Binding(s) == 1 <==> s == "&"
    ensures Binding(s) == 2 <==> s == "<" || s == "<=" || s == "=" || s == "==" || s == "!=" || s == ">=" || s == ">"
    ensures Binding(s) == 3 <==> s == "+" || s == "-"
    ensures Binding(s) == 4 <==> s == "*" || s == "/" || s == "%"
    ensures Binding(s) == 5 <==> s == ":"
  {
  }

  lemma ApplyOr(m: Matcher, l: Value, r: Value)
    ensures Apply(m, "|", l, r) == Ok(if Null(l) then r else l)
  {
  }

  lemma ApplyAnd(m: Matcher, l: Value, r: Value)
    ensures Apply(m, "&", l, r) == Ok(if Null(l) || Null(r) then Integer(0) else l)
  {
  }

  lemma ApplyComparison(m: Matcher, op: string, l: Value, r: Value)
    requires Binding(op) == 2
    ensures Apply(m, op, l, r) == Ok(Comparison(op, ToArith(l), ToArith(r)))
  {
  }

  lemma ApplyArithmetic(m: Matcher, op: string, l: Value, r: Value)
    requires Binding(op) == 3 || Binding(op) == 4
    ensures Apply(m, op, l, r) == Arithmetic(op, l, r)
  {
    hide Arithmetic;
  }

  lemma ApplyColon(m: Matcher, l: Value, r: Value)
    ensures Apply(m, ":", l, r) == m(ToString(l), ToString(r))
  {
    hide ToString;
  }

  class Evaluator {
    const args: seq<string>
    const m: Matcher
    var pos: nat  // G.args

    constructor (args: seq<string>, m: Matcher)
      ensures this.args == args && this.m == m && pos == 0
    {
      this.args := args;
      this.m := m;
      pos := 0;
    }

    /** Level `k` from `pos0` on gave `r` and moved the cursor. */
    ghost predicate Gave(k: nat, pos0: nat, r: Result)
      requires k <= 7 && pos0 <= |args|
      reads this
    {
      EvalAt(m, args, k, pos0) == match r case Ok(v) => Done(v, pos) case Err(e) => Failed(e)
    }

    predicate NextArg(s: string)
      reads this
    {
      pos < |args| && args[pos] == s
    }

    /** Level 0: the left value, or the right one where the left is null or 0. */
    method Eval() returns (r: Result)
      requires pos <= |args|
      modifies this
      ensures pos <= |args| && Gave(0, old(pos), r)
      decreases |args| - pos, 24
    {
      hide EvalAt, More, Apply, Binding;
      EvalLower(m, args, 0, pos);
      r := Eval1();
      if r.Err? { return; }
      while true
        invariant r.Ok? && old(pos) < pos <= |args| && EvalAt(m, args, 0, old(pos)) == More(m, args, 0, r.v, pos)
        decreases |args| - pos
      {
        MoreStep(m, args, 0, r.v, pos);
        if pos < |args| { Operators(args[pos]); }
        var l := r.v;
        if !(NextArg("|")) { break; }
        pos := pos + 1;
        r := Eval1();
        if r.Err? { return; }
        ApplyOr(m, l, r.v);
        r := Ok(if Null(l) then r.v else l);
      }
    }

    /** Level 1: the left value, or 0 where either is null or 0. */
    method Eval1() returns (r: Result)
      requires pos <= |args|
      modifies this
      ensures pos <= |args| && Gave(1, old(pos), r)
      decreases |args| - pos, 21
    {
      hide EvalAt, More, Apply, Binding;
      EvalLower(m, args, 1, pos);
      r := Eval2();
      if r.Err? { return; }
      while true
        invariant r.Ok? && old(pos) < pos <= |args| && EvalAt(m, args, 1, old(pos)) == More(m, args, 1, r.v, pos)
        decreases |args| - pos
      {
        MoreStep(m, args, 1, r.v, pos);
        if pos < |args| { Operators(args[pos]); }
        var l := r.v;
        if !(NextArg("&")) { break; }
        pos := pos + 1;
        r := Eval2();
        if r.Err? { return; }
        ApplyAnd(m, l, r.v);
        r := Ok(if Null(l) || Null(r.v) then Integer(0) else l);
      }
    }

    /** Level 2: numbers in their order, anything else as strings. */
    method Eval2() returns (r: Result)
      requires pos <= |args|
      modifies this
      ensures pos <= |args| && Gave(2, old(pos), r)
      decreases |args| - pos, 18
    {
      hide EvalAt, More, Apply, Binding;
      EvalLower(m, args, 2, pos);
      r := Eval3();
      if r.Err? { return; }
      while true
        invariant r.Ok? && old(pos) < pos <= |args| && EvalAt(m, args, 2, old(pos)) == More(m, args, 2, r.v, pos)
        decreases |args| - pos
      {
        MoreStep(m, args, 2, r.v, pos);
        if pos < |args| { Operators(args[pos]); }
        var l := r.v;
        if !(NextArg("<") || NextArg("<=") || NextArg("=") || NextArg("==") || NextArg("!=") || NextArg(">=") || NextArg(">")) { break; }
        var op := args[pos];
        pos := pos + 1;
        r := Eval3();
        if r.Err? { return; }
        ApplyComparison(m, op, l, r.v);
        r := Ok(Comparison(op, ToArith(l), ToArith(r.v)));
      }
    }

    /** Level 3: sums and differences. */
    method Eval3() returns (r: Result)
      requires pos <= |args|
      modifies this
      ensures pos <= |args| && Gave(3, old(pos), r)
      decreases |args| - pos, 15
    {
      hide EvalAt, More, Apply, Binding;
      EvalLower(m, args, 3, pos);
      r := Eval4();
      if r.Err? { return; }
      while true
        invariant r.Ok? && old(pos) < pos <= |args| && EvalAt(m, args, 3, old(pos)) == More(m, args, 3, r.v, pos)
        decreases |args| - pos
      {
        MoreStep(m, args, 3, r.v, pos);
        if pos < |args| { Operators(args[pos]); }
        var l := r.v;
        if !(NextArg("+") || NextArg("-")) { break; }
        var op := args[pos];
        pos := pos + 1;
        r := Eval4();
        if r.Err? { return; }
        ApplyArithmetic(m, op, l, r.v);
        r := Arithmetic(op, l, r.v);
        if r.Err? { return; }
      }
    }

    /** Level 4: products, quotients and remainders; a zero divisor is an error. */
    method Eval4() returns (r: Result)
      requires pos <= |args|
      modifies this
      ensures pos <= |args| && Gave(4, old(pos), r)
      decreases |args| - pos, 12
    {
      hide EvalAt, More, Apply, Binding;
      EvalLower(m, args, 4, pos);
      r := Eval5();
      if r.Err? { return; }
      while true
        invariant r.Ok? && old(pos) < pos <= |args| && EvalAt(m, args, 4, old(pos)) == More(m, args, 4, r.v, pos)
        decreases |args| - pos
      {
        MoreStep(m, args, 4, r.v, pos);
        if pos < |args| { Operators(args[pos]); }
        var l := r.v;
        if !(NextArg("*") || NextArg("/") || NextArg("%")) { break; }
        var op := args[pos];
        pos := pos + 1;
        r := Eval5();
        if r.Err? { return; }
        ApplyArithmetic(m, op, l, r.v);
        r := Arithmetic(op, l, r.v);
        if r.Err? { return; }
      }
    }

    /** Level 5: a string against a pattern, by the given matcher. */
    method Eval5() returns (r: Result)
      requires pos <= |args|
      modifies this
      ensures pos <= |args| && Gave(5, old(pos), r)
      decreases |args| - pos, 9
    {
      hide EvalAt, More, Apply, Binding;
      EvalLower(m, args, 5, pos);
      r := Eval6();
      if r.Err? { return; }
      while true
        invariant r.Ok? && old(pos) < pos <= |args| && EvalAt(m, args, 5, old(pos)) == More(m, args, 5, r.v, pos)
        decreases |args| - pos
      {
        MoreStep(m, args, 5, r.v, pos);
        if pos < |args| { Operators(args[pos]); }
        var l := r.v;
        if !(NextArg(":")) { break; }
        pos := pos + 1;
        r := Eval6();
        if r.Err? { return; }
        ApplyColon(m, l, r.v);
        r := m(ToString(l), ToString(r.v));
        if r.Err? { return; }
      }
    }

    /** Level 6: what begins with one of the five words takes that many operands of this level, or one argument as it is. */
    method Eval6() returns (r: Result)
      requires pos <= |args|
      modifies this
      ensures pos <= |args| && Gave(6, old(pos), r)
      decreases |args| - pos, 6
    {
      hide EvalAt, ToString, Index, Substr, Length;
      EvalOperand(m, args, pos);
      if pos == |args| || args[pos] !in KEYWORDS {
        r := Eval7();
        return;
      }
      var key := args[pos];
      pos := pos + 1;
      if key == "quote" {
        if pos == |args| {
          return Err(SyntaxError);
        }
        pos := pos + 1;
        return Ok(String(args[pos - 1]));
      }
      r := Eval6();
      if r.Err? { return; }
      var l := r.v;
      if key == "length" {
        return Ok(Length(l));
      }
      r := Eval6();
      if r.Err? { return; }
      if key == "match" {
        return m(ToString(l), ToString(r.v));
      }
      if key == "index" {
        return Ok(Index(l, r.v));
      }
      var i1 := r.v;
      r := Eval6();
      if r.Err? { return; }
      return Ok(Substr(l, i1, r.v));
    }

    /** Level 7: one argument, or all of level 0 between parentheses. */
    method Eval7() returns (r: Result)
      requires pos <= |args|
      modifies this
      ensures pos <= |args| && Gave(7, old(pos), r)
      decreases |args| - pos, 3
    {
      hide EvalAt;
      EvalOperand(m, args, pos);
      if pos == |args| {
        return Err(SyntaxError);
      }
      if NextArg("(") {
        pos := pos + 1;
        r := Eval();
        if r.Err? { return; }
        if !NextArg(")") {
          return Err(SyntaxError);
        }
        pos := pos + 1;
        return;
      }
      if NextArg(")") {
        return Err(SyntaxError);
      }
      pos := pos + 1;
      return Ok(String(args[pos - 1]));
    }
  }

  /** The whole program: all arguments must be used up. */
  method ExprMain(argv: seq<string>, m: Matcher) returns (r: Result)
    ensures argv == [] ==> r == Err(TooFewArguments)
    ensures argv != [] ==> r == match EvalAt(m, argv, 0, 0)
                                case Failed(e) => Err(e)
                                case Done(v, p) => if p == |argv| then Ok(v) else Err(SyntaxError)
    ensures forall t :: Writable(t) && Print(t, 0) == argv ==> r == ValueOf(m, t)
    ensures r.Ok? ==> exists t :: Writable(t) && Print(t, 0) == argv && ValueOf(m, t) == r
  {
    hide EvalAt, Writable, Print, ValueOf;
    forall t | Writable(t) && Print(t, 0) == argv
      ensures argv != [] && EvalAt(m, argv, 0, 0) ==
                            match ValueOf(m, t)
                            case Err(e) => Failed(e)
                            case Ok(v) => Done(v, |argv|)
    {
      PrintedEvaluates(m, t);
      PrintsSomething(t, 0);
    }
    if argv == [] {
      return Err(TooFewArguments);
    }
    var e := new Evaluator(argv, m);
    r := e.Eval();
    if r.Ok? && e.pos < |argv| {
      return Err(SyntaxError);
    }
    if r.Ok? {
      EvaluatesTrees(m, argv, r.v);
    }
  }
}
