/**
 The recursive-descent parser of inline expressions. Each level splits the text at its last
 top-level operator; the recursion always works on strictly shorter text.
 */
module DslParser {
  import opened Wrappers
  import opened Exprs
  import opened Scanner

  datatype ParseError = EmptyExpression | RawSqlRejected

  // ---------------------------------------------------------------- atoms

  predicate IsIdentifier(s: string) {
    s != [] && (forall c :: c in s ==> IsWord(c)) && !IsDigit(s[0])
  }

  /** Letters, digits and underscores, and no digit in front. */
  lemma IdentifiersExactly(s: string)
    ensures IsIdentifier(s) <==>
            && s != [] && (IsAlpha(s[0]) || s[0] == '_')
            && forall i :: 0 <= i < |s| ==> IsAlpha(s[i]) || IsDigit(s[i]) || s[i] == '_'
  {
    assert forall i :: 0 <= i < |s| ==> s[i] in s;
  }

  predicate AllDigits(s: string) {
    forall c :: c in s ==> IsDigit(c)
  }

  function DigitValue(c: char): nat
    requires IsDigit(c)
  {
    c as int - '0' as int
  }

  function DigitsValue(s: string): (n: nat)
    requires AllDigits(s)
  {
    if s == [] then 0 else DigitsValue(s[..|s| - 1]) * 10 + DigitValue(s[|s| - 1])
  }

  const I64_MAX: int := 0x7FFF_FFFF_FFFF_FFFF
  const I64_MIN: int := -0x8000_0000_0000_0000

  function DropSign(s: string): string {
    if s != [] && (s[0] == '+' || s[0] == '-') then s[1..] else s
  }

  predicate IsNegative(s: string) {
    s != [] && s[0] == '-'
  }

  /** A decimal integer that fits 64 bits. */
  function ParseI64(s: string): Option<int> {
    var body := DropSign(s);
    if body == [] || !AllDigits(body) then None
    else
      var n: int := DigitsValue(body);
      var v := if IsNegative(s) then -n else n;
      if I64_MIN <= v <= I64_MAX then Some(v) else None
  }

  function DigitPrefix(s: string): (n: nat)
    ensures n <= |s| && AllDigits(s[..n])
  {
    if s == [] || !IsDigit(s[0]) then 0
    else
      var n := DigitPrefix(s[1..]);
      assert s[..n + 1] == [s[0]] + s[1..][..n];
      n + 1
  }

  /** x times ten to the e: the point moves e places to the right, or back if e is negative. */
  function TimesTen(x: real, e: int): real
    decreases if e >= 0 then e else -e
  {
    if e == 0 then x else if e > 0 then TimesTen(x * 10.0, e - 1) else TimesTen(x / 10.0, e + 1)
  }

  /** The exponent part: nothing, or e with an optional sign and digits. */
  function ParseExponent(s: string): Option<int> {
    if s == [] then Some(0)
    else if s[0] != 'e' && s[0] != 'E' then None
    else
      var body := DropSign(s[1..]);
      if body == [] || !AllDigits(body) then None
      else
        var n: int := DigitsValue(body);
        Some(if IsNegative(s[1..]) then -n else n)
  }

  /** The digits before the point, those behind it, and what follows them. */
  datatype DecimalText = DecimalText(whole: string, decimals: string, tail: string)

  function SplitDecimal(s: string): (t: DecimalText)
    ensures AllDigits(t.whole) && AllDigits(t.decimals)
  {
    var n := DigitPrefix(s);
    var rest := s[n..];
    if rest != [] && rest[0] == '.' then
      var m := DigitPrefix(rest[1..]);
      DecimalText(s[..n], rest[1..][..m], rest[1..][m..])
    else DecimalText(s[..n], [], rest)
  }

  function DecimalValue(whole: string, decimals: string, exponent: int): real
    requires AllDigits(whole) && AllDigits(decimals)
  {
    TimesTen(DigitsValue(whole) as real + TimesTen(DigitsValue(decimals) as real, 0 - |decimals|), exponent)
  }

  /** Digits with an optional fraction and exponent; at least one digit. Rounding to 64 bits is
      not modelled. */
  function ParseDecimal(s: string): Option<real> {
    var t := SplitDecimal(s);
    if t.whole == [] && t.decimals == [] then None
    else
      match ParseExponent(t.tail)
      case None => None
      case Some(e) => Some(DecimalValue(t.whole, t.decimals, e))
  }

  function ParseF64(s: string): Option<Float64> {
    var body := DropSign(s);
    if SameText(body, "inf") || SameText(body, "infinity") then Some(Infinite(IsNegative(s)))
    else if SameText(body, "nan") then Some(NaN)
    else match ParseDecimal(body)
      case Some(r) => Some(Finite(if IsNegative(s) then -r else r))
      case None => None
  }

  // ---------------------------------------------------------------- aggregation calls

  function AggregateCall(s: string, prefix: string, f: Aggregation): Option<Expr> {
    if StartsWith(s, prefix) && |prefix| < |s| && s[|s| - 1] == ')' then
      var inner := Trim(s[|prefix|..|s| - 1]);
      Some(Aggregate(f, if IsIdentifier(inner) then Column(inner) else EntityRef(inner), f.CountDistinct?))
    else None
  }

  function OrElse<T>(a: Option<T>, b: Option<T>): Option<T> {
    if a.Some? then a else b
  }

  function TryAggregation(s: string): Option<Expr> {
    OrElse(AggregateCall(s, "SUM(", Sum),
    OrElse(AggregateCall(s, "COUNT_DISTINCT(", CountDistinct),
    OrElse(AggregateCall(s, "COUNT(", Count),
    OrElse(AggregateCall(s, "AVG(", Avg),
    OrElse(AggregateCall(s, "MIN(", Min),
           AggregateCall(s, "MAX(", Max))))))
  }

  // ---------------------------------------------------------------- arithmetic and operands

  function ArithmeticOp(c: char): BinaryOp {
    if c == '+' then Add else if c == '-' then Subtract else if c == '*' then Multiply else SafeDivide
  }

  predicate Parenthesised(s: string) {
    |s| >= 2 && s[0] == '(' && s[|s| - 1] == ')'
  }

  function Inside(s: string): (r: string)
    requires |s| >= 2
    ensures |r| == |s| - 2
  {
    s[1..|s| - 1]
  }

  function TryArithmetic(s: string): Option<Expr>
    decreases |s|, 0
  {
    match OrElse(LastAddSub(s), LastMulDiv(s))
    case None => None
    case Some(pos) =>
      var left, right := Trim(s[..pos]), Trim(s[pos + 1..]);
      if left == [] || right == [] then None
      else Some(Binary(ParseOperand(left), ArithmeticOp(s[pos]), ParseOperand(right)))
  }

  /** An arithmetic operand: parentheses are seen through only around a call or arithmetic. */
  function ParseOperand(s: string): Expr
    decreases |s|, 1
  {
    var t := Trim(s);
    var wrapped :=
      if Parenthesised(t) then OrElse(TryAggregation(Inside(t)), TryArithmetic(Inside(t))) else None;
    match OrElse(wrapped, TryAggregation(t))
    case Some(e) => e
    case None => ParseAtom(t)
  }

  function ParseAtom(t: string): Expr {
    if |t| >= 4 && t[..2] == "{{" && t[|t| - 2..] == "}}" then EntityRef(Trim(t[2..|t| - 2]))
    else if |t| >= 2 && t[0] == '\'' && t[|t| - 1] == '\'' then Lit(Str(Inside(t)))
    else if SameText(t, "TRUE") then TRUE
    else if SameText(t, "FALSE") then FALSE
    else if SameText(t, "NULL") then NULL
    else if ParseI64(t).Some? then Lit(Integer(ParseI64(t).value))
    else if ParseF64(t).Some? then Lit(Float(ParseF64(t).value))
    else EntityRef(t)
  }

  // ---------------------------------------------------------------- predicates

  /** Both sides of an operator; one without a side is no operator. */
  function SplitAt(s: string, pos: nat, len: nat, op: BinaryOp): Option<Expr>
    requires len > 0 && pos + len <= |s|
    decreases |s|, 0
  {
    var left, right := Trim(s[..pos]), Trim(s[pos + len..]);
    if left == [] || right == [] then None
    else Some(Binary(ParsePredicateOperand(left), op, ParsePredicateOperand(right)))
  }

  /** OR, AND: split at the last top-level keyword. */
  function TryKeyword(s: string, keyword: string, op: BinaryOp): Option<Expr>
    requires keyword != []
    decreases |s|, 1
  {
    match LastKeyword(s, keyword)
    case None => None
    case Some(pos) =>
      assert KeywordAt(s, keyword, pos);
      SplitAt(s, pos, |keyword|, op)
  }

  function TryComparison(s: string): Option<Expr>
    decreases |s|, 1
  {
    match LastComparison(s)
    case None => None
    case Some(pos) =>
      var (len, op) := ComparisonAt(s, pos).value;
      SplitAt(s, pos, len, op)
  }

  const IS_NULL := " IS NULL"
  const IS_NOT_NULL := " IS NOT NULL"
  const NOT_PREFIX := "NOT "

  function TryIsNull(s: string): Option<Expr>
    decreases |s|, 0
  {
    if EndsWith(s, IS_NOT_NULL) then
      var subject := Trim(s[..|s| - |IS_NOT_NULL|]);
      if subject != [] then Some(IsNotNull(ParsePredicateOperand(subject))) else None
    else if EndsWith(s, IS_NULL) then
      var subject := Trim(s[..|s| - |IS_NULL|]);
      if subject != [] then Some(IsNull(ParsePredicateOperand(subject))) else None
    else None
  }

  function TryNot(s: string): Option<Expr>
    decreases |s|, 0
  {
    if StartsWith(s, NOT_PREFIX) then
      var rest := Trim(s[|NOT_PREFIX|..]);
      if rest != [] then Some(Not(ParsePredicateOperand(rest))) else None
    else None
  }

  /** Every operator, from the loosest to the tightest. */
  function TryOperators(s: string): Option<Expr>
    decreases |s|, 2
  {
    OrElse(TryAggregation(s),
    OrElse(TryKeyword(s, "OR", Or),
    OrElse(TryKeyword(s, "AND", And),
    OrElse(TryComparison(s),
    OrElse(TryIsNull(s),
    OrElse(TryNot(s),
           TryArithmetic(s)))))))
  }

  /** Parentheses around the whole text, with balanced contents, are dropped. */
  function ParsePredicateOperand(s: string): Expr
    decreases |s|, 3
  {
    var t := Trim(s);
    if Parenthesised(t) && RawBalanced(Inside(t)) then ParsePredicateOperand(Inside(t))
    else match TryOperators(t)
      case Some(e) => e
      case None => ParseOperand(t)
  }

  // ---------------------------------------------------------------- whole expressions

  const SQL_KEYWORDS: seq<string> := [
    "SELECT", "FROM", "WHERE", "INSERT", "UPDATE", "DELETE", "JOIN", "UNION",
    "GROUP BY", "ORDER BY", "HAVING", "LIMIT", "CREATE", "ALTER", "DROP"]

  /** A keyword between word boundaries, nested and quoted text included. */
  predicate WordAt(s: string, keyword: string, i: nat) {
    && i + |keyword| <= |s|
    && SameText(s[i..i + |keyword|], keyword)
    && (i == 0 || Boundary(s, i - 1))
    && Boundary(s, i + |keyword|)
  }

  predicate LooksLikeRawSql(s: string) {
    exists k, i :: 0 <= k < |SQL_KEYWORDS| && 0 <= i <= |s| && WordAt(s, SQL_KEYWORDS[k], i)
  }

  /** The top level: no outer parentheses are dropped, and identifiers come before numbers. */
  function ParseExpr(s: string): Result<Expr, ParseError> {
    var t := Trim(s);
    if t == [] then Err(EmptyExpression)
    else if LooksLikeRawSql(t) then Err(RawSqlRejected)
    else match TryOperators(t)
      case Some(e) => Ok(e)
      case None => Ok(ParseTopAtom(t))
  }

  function ParseTopAtom(t: string): Expr {
    if |t| >= 4 && t[..2] == "{{" && t[|t| - 2..] == "}}" then EntityRef(Trim(t[2..|t| - 2]))
    else if |t| >= 2 && t[0] == '\'' && t[|t| - 1] == '\'' then Lit(Str(Inside(t)))
    else if SameText(t, "TRUE") then TRUE
    else if SameText(t, "FALSE") then FALSE
    else if SameText(t, "NULL") then NULL
    else if IsIdentifier(t) then EntityRef(t)
    else if ParseI64(t).Some? then Lit(Integer(ParseI64(t).value))
    else if ParseF64(t).Some? then Lit(Float(ParseF64(t).value))
    else EntityRef(t)
  }
}
