/** The values of expr and its operators. */
module ExprValues {

  const INT_MAX := 0x7fff_ffff_ffff_ffff
  const INT_MIN := -0x8000_0000_0000_0000

  datatype Value = Integer(i: int) | String(s: string)

  datatype Error = SyntaxError | TooFewArguments | NonNumeric | DivisionByZero | Overflow | BadPattern

  datatype Result = Ok(v: Value) | Err(e: Error)

  /** The : operator on two strings; regular expressions are not part of this model. */
  type Matcher = (string, string) -> Result

  // ---------- Coercions ----------

  predicate Digit(c: char) { '0' <= c <= '9' }

  function Blanks(s: string): (k: nat)
    ensures k <= |s|
  {
    if s == "" || !(s[0] == ' ' || '\t' <= s[0] <= '\r') then 0 else 1 + Blanks(s[1..])
  }

  predicate AllDigits(s: string) {
    forall i :: 0 <= i < |s| ==> Digit(s[i])
  }

  function Decimal(s: string): int {
    if s == "" then 0 else 10 * Decimal(s[..|s| - 1]) + (s[|s| - 1] as int - '0' as int)
  }

  function Saturate(i: int): (r: int)
    ensures INT_MIN <= r <= INT_MAX
  {
    if i > INT_MAX then INT_MAX else if i < INT_MIN then INT_MIN else i
  }

  /** The number a whole string stands for. */
  predicate Numeric(s: string) {
    var t := s[Blanks(s)..];
    var d := if t != "" && (t[0] == '-' || t[0] == '+') then t[1..] else t;
    d != "" && AllDigits(d)
  }

  function Number(s: string): (r: int)
    requires Numeric(s)
    ensures INT_MIN <= r <= INT_MAX
  {
    var t := s[Blanks(s)..];
    Saturate(if t[0] == '-' then -Decimal(t[1..]) else if t[0] == '+' then Decimal(t[1..]) else Decimal(t))
  }

  function Show(i: int): string
    decreases if i < 0 then 1 - i else i
  {
    if i < 0 then "-" + Show(-i)
    else if i < 10 then [('0' as int + i) as char]
    else Show(i / 10) + [('0' as int + i % 10) as char]
  }

  /** tostring */
  function ToString(v: Value): string {
    match v
    case Integer(i) => Show(i)
    case String(s) => s
  }

  /** toarith: a numeric string becomes a number, anything else stays. */
  function ToArith(v: Value): Value {
    if v.String? && Numeric(v.s) then Integer(Number(v.s)) else v
  }

  /** null */
  predicate Null(v: Value) {
    match v
    case Integer(i) => i == 0
    case String(s) => s == "" || s == "0"
  }

  // ---------- Operators ----------

  /** strcmp, its sign. */
  function StrCmp(a: string, b: string): int {
    if a == "" && b == "" then 0
    else if a == "" then -1
    else if b == "" then 1
    else if a[0] < b[0] then -1
    else if a[0] > b[0] then 1
    else StrCmp(a[1..], b[1..])
  }

  function Bool(b: bool): Value { Integer(if b then 1 else 0) }

  /** cmp_common, after both sides were coerced as far as they go. */
  function Comparison(op: string, l: Value, r: Value): Value {
    var strings := l.String? || r.String?;
    var ll := if strings then StrCmp(ToString(l), ToString(r)) else l.i;
    var rr := if strings then 0 else r.i;
    Bool(if op == "<" then ll < rr
         else if op == "<=" then ll <= rr
         else if op == "=" || op == "==" then ll == rr
         else if op == "!=" then ll != rr
         else if op == ">" then ll > rr
         else ll >= rr)
  }

  /** Division of C: the quotient is cut towards zero. */
  function Quotient(a: int, b: int): int
    requires b != 0
  {
    if a >= 0 then a / b else -(-a / b)
  }

  function Checked(i: int): Result {
    if INT_MIN <= i <= INT_MAX then Ok(Integer(i)) else Err(Overflow)
  }

  /** arithmetic_common */
  function Arithmetic(op: string, l: Value, r: Value): Result {
    var a, b := ToArith(l), ToArith(r);
    if a.String? || b.String? then Err(NonNumeric)
    else if op == "+" then Checked(a.i + b.i)
    else if op == "-" then Checked(a.i - b.i)
    else if op == "*" then Checked(a.i * b.i)
    else if b.i == 0 then Err(DivisionByZero)
    else if op == "/" then Checked(Quotient(a.i, b.i))
    else Checked(a.i - Quotient(a.i, b.i) * b.i)
  }

  /** How tightly an operator binds, from | to :, or NONE. */
  const NONE := 9

  function Binding(op: string): (k: nat)
    ensures k <= 5 || k == NONE
  {
    if op == "|" then 0
    else if op == "&" then 1
    else if op in ["<", "<=", "=", "==", "!=", ">=", ">"] then 2
    else if op == "+" || op == "-" then 3
    else if op == "*" || op == "/" || op == "%" then 4
    else if op == ":" then 5
    else NONE
  }

  function Apply(m: Matcher, op: string, l: Value, r: Value): Result {
    var k := Binding(op);
    if k == 0 then Ok(if Null(l) then r else l)
    else if k == 1 then Ok(if Null(l) || Null(r) then Integer(0) else l)
    else if k == 2 then Ok(Comparison(op, ToArith(l), ToArith(r)))
    else if k == 5 then m(ToString(l), ToString(r))
    else Arithmetic(op, l, r)
  }

  // ---------- Keywords ----------

  /** strcspn */
  function Span(s: string, chars: string): (k: nat)
    ensures k <= |s|
  {
    if s == "" || s[0] in chars then 0 else 1 + Span(s[1..], chars)
  }

  function Index(l: Value, r: Value): Value {
    var s := ToString(l);
    var k := Span(s, ToString(r));
    Integer(if k == |s| then 0 else k + 1)
  }

  function Substr(l: Value, pos: Value, len: Value): Value {
    var s, p, n := ToString(l), ToArith(pos), ToArith(len);
    if p.String? || n.String? || p.i > |s| || p.i <= 0 || n.i <= 0 then String("")
    else String(if p.i - 1 + n.i <= |s| then s[p.i - 1..p.i - 1 + n.i] else s[p.i - 1..])
  }

  function Length(v: Value): Value { Integer(|ToString(v)|) }
}
