/**
 The concrete syntax of inline expressions, with the precedence that the splitters implement:
 OR, AND, comparison, IS NULL, NOT, arithmetic, atoms, from loosest to tightest; the binary
 levels associate to the left, and arithmetic takes atoms or parentheses only.

 A tree records its layout: the white space around every operator and the spelling of every
 word, so the trees cover all the texts that the parser takes apart in this way.
 */
module Grammar {
  import opened Wrappers
  import opened Exprs
  import opened Scanner
  import opened DslParser
  import opened Numerals

  datatype Cst =
    | Ident(name: string)
    | Ref(before: string, name: string, after: string)
    | Number(n: Written)
    | StrLit(s: string)
    | TruthLit(b: Option<bool>, word: string)
    | CallOf(f: Aggregation, word: string, before: string, name: string, after: string)
    | Paren(before: string, inner: Cst, after: string)
    | Arith(l: Cst, before: string, op: BinaryOp, after: string, r: Cst)
    | NotOf(word: string, after: string, x: Cst)
    | NullTest(x: Cst, before: string, words: string, negated: bool)
    | Compare(l: Cst, before: string, op: BinaryOp, after: string, r: Cst)
    | AndOf(l: Cst, before: string, word: string, after: string, r: Cst)
    | OrOf(l: Cst, before: string, word: string, after: string, r: Cst)

  function Level(c: Cst): nat {
    match c
    case OrOf(_, _, _, _, _) => 0
    case AndOf(_, _, _, _, _) => 1
    case Compare(_, _, _, _, _) => 2
    case NullTest(_, _, _, _) => 3
    case NotOf(_, _, _) => 4
    case Arith(_, _, _, _, _) => 5
    case _ => 6
  }

  /** The level whose facts hold of the text: a number may hold signs, which are not operators. */
  function Tight(c: Cst): nat {
    if c.Number? then 5 else Level(c)
  }

  /** A number with a sign. */
  predicate IsSigned(c: Cst) { c.Number? && c.n.sign != "" }

  /** Words that the parser reads as operators or literals when they stand alone. */
  predicate Reserved(name: string) {
    || SameText(name, "OR") || SameText(name, "AND") || SameText(name, "NOT")
    || SameText(name, "TRUE") || SameText(name, "FALSE") || SameText(name, "NULL")
    || SameText(name, "INF") || SameText(name, "INFINITY") || SameText(name, "NAN")
  }

  predicate IsArithmetic(op: BinaryOp) { op.Add? || op.Subtract? || op.Multiply? || op.SafeDivide? }

  predicate Blank(s: string) {
    forall c :: c in s ==> IsSpace(c)
  }

  /** The word for a truth value, which may be unknown. */
  function TruthWord(b: Option<bool>): string {
    match b
    case Some(true) => "TRUE"
    case Some(false) => "FALSE"
    case None => "NULL"
  }

  function NullWords(negated: bool): string {
    if negated then "IS NOT NULL" else "IS NULL"
  }

  predicate EndsInSpace(s: string) { s != [] && s[|s| - 1] == ' ' }

  /** + and - are operators only next to a space. */
  predicate SetOff(op: BinaryOp, before: string, after: string) {
    op.Add? || op.Subtract? ==> EndsInSpace(before) || (after != [] && after[0] == ' ')
  }

  /** No word runs across the place where the two texts meet. */
  predicate WordSeam(a: string, b: string) {
    a == [] || b == [] || !IsWord(a[|a| - 1]) || !IsWord(b[0])
  }

  /** Only white space around an operator, and enough of it to keep words apart. */
  predicate Seams(a: string, before: string, op: string, after: string, b: string) {
    Blank(before) && Blank(after) && WordSeam(a + before, op) && WordSeam(op, after + b)
  }

  /** Texts of the grammar. */
  predicate WellFormed(c: Cst) {
    match c
    case Ident(name) => IsIdentifier(name) && !Reserved(name)
    case Ref(before, name, after) =>
      Blank(before) && Blank(after) && IsIdentifier(name) && !SameText(name, "OR") && !SameText(name, "AND")
    case Number(_) => true
    case StrLit(s) => '\'' !in s && RawBalanced(s)
    case TruthLit(b, word) => SameText(word, TruthWord(b))
    case CallOf(f, word, before, name, after) =>
      SameText(word, FunctionName(f)) && Blank(before) && Blank(after) && IsIdentifier(name)
    case Paren(before, inner, after) => Blank(before) && Blank(after) && WellFormed(inner)
    case Arith(l, before, op, after, r) =>
      && IsArithmetic(op) && Blank(before) && Blank(after) && SetOff(op, before, after)
      && Level(l) == 6 && Level(r) == 6 && WellFormed(l) && WellFormed(r)
    case NotOf(word, after, x) =>
      SameText(word, "NOT") && Blank(after) && after != [] && after[0] == ' ' && Level(x) >= 4 && WellFormed(x)
    case NullTest(x, before, words, negated) =>
      && SameText(words, NullWords(negated)) && Blank(before) && before != [] && before[|before| - 1] == ' '
      && Level(x) >= 3 && WellFormed(x)
    case Compare(l, before, op, after, r) =>
      && IsComparison(op) && Blank(before) && Blank(after)
      && Level(l) >= 2 && Level(r) >= 3 && WellFormed(l) && WellFormed(r)
    case AndOf(l, before, word, after, r) =>
      && SameText(word, "AND") && Seams(Text(l), before, word, after, Text(r))
      && Level(l) >= 1 && Level(r) >= 2 && WellFormed(l) && WellFormed(r)
    case OrOf(l, before, word, after, r) =>
      && SameText(word, "OR") && Seams(Text(l), before, word, after, Text(r))
      && Level(r) >= 1 && WellFormed(l) && WellFormed(r)
  }

  /** Two operands and an operator between them. */
  predicate IsInfix(c: Cst) { c.Arith? || c.Compare? || c.AndOf? || c.OrOf? }

  function OpText(op: BinaryOp): string {
    match op
    case Add => "+"
    case Subtract => "-"
    case Multiply => "*"
    case SafeDivide => "/"
    case NotEq => "!="
    case Lt => "<"
    case LtEq => "<="
    case Gt => ">"
    case GtEq => ">="
    case _ => "="
  }

  function FunctionName(f: Aggregation): string {
    match f
    case Sum => "SUM"
    case CountDistinct => "COUNT_DISTINCT"
    case Count => "COUNT"
    case Avg => "AVG"
    case Min => "MIN"
    case Max => "MAX"
  }

  /** Both sides of an operator with their white space. */
  function Infix(a: string, before: string, op: string, after: string, b: string): string {
    (a + before) + (op + (after + b))
  }

  function Quoted(s: string): string { "'" + s + "'" }

  function InParens(s: string): string { "(" + s + ")" }

  function Padded(before: string, s: string, after: string): string { (before + s) + after }

  function Text(c: Cst): string {
    match c
    case Ident(name) => name
    case Ref(before, name, after) => "{{" + (Padded(before, name, after) + "}}")
    case Number(n) => NumeralText(n)
    case StrLit(s) => Quoted(s)
    case TruthLit(_, word) => word
    case CallOf(_, word, before, name, after) => word + InParens(Padded(before, name, after))
    case Paren(before, inner, after) => InParens(Padded(before, Text(inner), after))
    case Arith(l, before, op, after, r) => Infix(Text(l), before, OpText(op), after, Text(r))
    case NotOf(word, after, x) => word + (after + Text(x))
    case NullTest(x, before, words, _) => (Text(x) + before) + words
    case Compare(l, before, op, after, r) => Infix(Text(l), before, OpText(op), after, Text(r))
    case AndOf(l, before, word, after, r) => Infix(Text(l), before, word, after, Text(r))
    case OrOf(l, before, word, after, r) => Infix(Text(l), before, word, after, Text(r))
  }

  /** The operator of an infix text as it is written. */
  function InfixWord(c: Cst): string
    requires IsInfix(c)
  {
    if c.Arith? || c.Compare? then OpText(c.op) else c.word
  }

  lemma InfixText(c: Cst)
    requires IsInfix(c)
    ensures Text(c) == Infix(Text(c.l), c.before, InfixWord(c), c.after, Text(c.r))
  {
  }

  /** The expression that a text is meant to denote. */
  function Denotes(c: Cst): Expr {
    match c
    case Ident(name) => EntityRef(name)
    case Ref(_, name, _) => EntityRef(name)
    case Number(n) => Lit(NumeralLiteral(n))
    case StrLit(s) => Lit(Str(s))
    case TruthLit(b, _) => if b.Some? then Lit(Boolean(b.value)) else NULL
    case CallOf(f, _, _, name, _) => Aggregate(f, Column(name), f.CountDistinct?)
    case Paren(_, inner, _) => Denotes(inner)
    case Arith(l, _, op, _, r) => Binary(Denotes(l), op, Denotes(r))
    case NotOf(_, _, x) => Not(Denotes(x))
    case NullTest(x, _, _, negated) => if negated then IsNotNull(Denotes(x)) else IsNull(Denotes(x))
    case Compare(l, _, op, _, r) => Binary(Denotes(l), op, Denotes(r))
    case AndOf(l, _, _, _, r) => Binary(Denotes(l), And, Denotes(r))
    case OrOf(l, _, _, _, r) => Binary(Denotes(l), Or, Denotes(r))
  }

  // ---------------------------------------------------------------- closed texts

  predicate Plain(s: string) {
    forall c :: c in s ==> !IsNesting(c)
  }

  lemma {:induction false} PlainState(st: ScanState, s: string, i: nat)
    requires Plain(s) && i <= |s|
    ensures StateFrom(st, s, i) == st
    decreases i
  {
    if i > 0 {
      PlainState(st, s, i - 1);
      assert s[i - 1] in s;
    }
  }

  lemma PlainIsClosed(s: string)
    requires Plain(s)
    ensures Closed(s) && forall i :: 0 <= i < |s| ==> TopAt(s, i)
  {
    forall i | 0 <= i <= |s| ensures StateAt(s, i) == INITIAL { PlainState(INITIAL, s, i); }
    forall i | 0 <= i < |s| ensures TopAt(s, i) { assert s[i] in s; }
  }

  /** After a closed prefix the scan starts afresh. */
  lemma ClosedConcat(a: string, b: string)
    requires Closed(a)
    ensures forall i :: 0 <= i <= |a| ==> StateAt(a + b, i) == StateAt(a, i)
    ensures forall i :: 0 <= i <= |b| ==> StateAt(a + b, |a| + i) == StateAt(b, i)
    ensures Closed(b) ==> Closed(a + b)
  {
    forall i | 0 <= i <= |a| ensures StateAt(a + b, i) == StateAt(a, i) { StateConcat(INITIAL, a, b, i); }
    forall i | 0 <= i <= |b| ensures StateAt(a + b, |a| + i) == StateAt(b, i) {
      StateConcat(INITIAL, a, b, |a| + i);
    }
    if Closed(b) {
      forall i | 0 <= i <= |a + b| ensures StateAt(a + b, i).parenDepth >= 0 {
        if i > |a| { assert StateAt(a + b, |a| + (i - |a|)) == StateAt(b, i - |a|); }
      }
    }
  }

  lemma TopConcat(a: string, b: string, i: nat)
    requires Closed(a)
    ensures TopAt(a + b, i) <==> if i < |a| then TopAt(a, i) else TopAt(b, i - |a|)
  {
    ClosedConcat(a, b);
    if |a| <= i < |a + b| { assert StateAt(a + b, |a| + (i - |a|)) == StateAt(b, i - |a|); }
  }

  /** Parentheses around closed text: closed, and nothing inside is at the top level. */
  lemma InParensIsClosed(s: string)
    requires Closed(s)
    ensures Closed(InParens(s)) && forall i :: 0 <= i < |InParens(s)| ==> !TopAt(InParens(s), i)
  {
    var t := InParens(s);
    var one := ScanState(1, false);
    assert t == "(" + (s + ")");
    assert StateFrom(INITIAL, "(", 1) == one by { assert Update(INITIAL, '(').0 == one; }
    forall i | 1 <= i <= |s| + 1
      ensures StateAt(t, i) == ScanState(StateAt(s, i - 1).parenDepth + 1, StateAt(s, i - 1).inString)
    {
      StateConcat(INITIAL, "(", s + ")", i);
      StateConcat(one, s, ")", i - 1);
      StateShift(1, s, i - 1);
    }
    assert StateAt(t, |s| + 1) == one;
    assert StateAt(t, |s| + 2) == Update(one, t[|s| + 1]).0;
  }

  lemma {:induction false} QuotedState(s: string, i: nat)
    requires '\'' !in s && 1 <= i <= |s| + 1
    ensures StateAt(Quoted(s), i) == ScanState(0, true)
    decreases i
  {
    var t := Quoted(s);
    if i > 1 {
      QuotedState(s, i - 1);
      assert t[i - 1] == s[i - 2] && s[i - 2] in s;
    } else {
      assert StateAt(t, 1) == Update(StateAt(t, 0), t[0]).0;
    }
  }

  /** A string literal: closed, and nothing in it is at the top level. */
  lemma QuotedIsClosed(s: string)
    requires '\'' !in s
    ensures Closed(Quoted(s)) && forall i :: 0 <= i < |Quoted(s)| ==> !TopAt(Quoted(s), i)
  {
    var t := Quoted(s);
    forall i | 1 <= i <= |s| + 1 ensures StateAt(t, i) == ScanState(0, true) { QuotedState(s, i); }
    assert StateAt(t, |s| + 2) == Update(StateAt(t, |s| + 1), t[|s| + 1]).0;
  }

  // ---------------------------------------------------------------- seams

  predicate KeywordText(kw: string) {
    kw != [] && forall c :: c in kw ==> 'A' <= c <= 'Z'
  }

  /** No comparison operator runs across the place where the two texts meet. */
  predicate OperatorSeam(a: string, b: string) {
    a == [] || b == [] || b[0] != '=' || (a[|a| - 1] != '!' && a[|a| - 1] != '<' && a[|a| - 1] != '>')
  }

  lemma SliceLeft(a: string, b: string, i: nat, n: nat)
    requires i + n <= |a|
    ensures (a + b)[i..i + n] == a[i..i + n]
  {
  }

  lemma SliceRight(a: string, b: string, i: nat, n: nat)
    requires |a| <= i && i + n <= |a + b|
    ensures (a + b)[i..i + n] == b[i - |a|..i - |a| + n]
  {
  }

  lemma KeywordLeft(a: string, b: string, kw: string, i: nat)
    requires Closed(a) && WordSeam(a, b) && KeywordText(kw) && i < |a| && i + |kw| <= |a|
    ensures KeywordAt(a + b, kw, i) <==> KeywordAt(a, kw, i)
  {
    var t := a + b;
    TopConcat(a, b, i);
    assert t[i..i + |kw|] == a[i..i + |kw|];
    if i + |kw| == |a| && SameText(a[i..i + |kw|], kw) { LastIsWord(a, kw); }
  }

  lemma LastIsWord(a: string, kw: string)
    requires KeywordText(kw) && |kw| <= |a| && SameText(a[|a| - |kw|..|a|], kw)
    ensures IsWord(a[|a| - 1])
  {
    var word := a[|a| - |kw|..|a|];
    assert kw[|kw| - 1] in kw;
    assert word[|kw| - 1] == a[|a| - 1] && Upper(word[|kw| - 1]) == Upper(kw[|kw| - 1]);
  }

  lemma FirstIsWord(b: string, kw: string)
    requires KeywordText(kw) && |kw| <= |b| && SameText(b[..|kw|], kw)
    ensures IsWord(b[0])
  {
    assert kw[0] in kw;
    assert b[..|kw|][0] == b[0] && Upper(b[0]) == Upper(kw[0]);
  }

  lemma KeywordRight(a: string, b: string, kw: string, i: nat)
    requires Closed(a) && WordSeam(a, b) && KeywordText(kw) && i >= |a|
    ensures KeywordAt(a + b, kw, i) <==> KeywordAt(b, kw, i - |a|)
  {
    var t := a + b;
    TopConcat(a, b, i);
    if i + |kw| <= |t| {
      SliceRight(a, b, i, |kw|);
      if i == |a| && SameText(b[..|kw|], kw) { FirstIsWord(b, kw); }
    }
  }

  lemma KeywordAcross(a: string, b: string, kw: string, i: nat)
    requires KeywordText(kw) && i < |a| < i + |kw| && KeywordAt(a + b, kw, i)
    ensures !WordSeam(a, b)
  {
    var k := |a| - i;
    assert kw[k] in kw && kw[k - 1] in kw;
    var word := (a + b)[i..i + |kw|];
    assert word[k - 1] == a[|a| - 1] && word[k] == b[0];
    assert Upper(word[k - 1]) == Upper(kw[k - 1]) && Upper(word[k]) == Upper(kw[k]);
  }

  /** A keyword occurrence lies wholly on one side of a seam. */
  lemma KeywordSplit(a: string, b: string, kw: string, i: nat)
    requires Closed(a) && WordSeam(a, b) && KeywordText(kw)
    ensures KeywordAt(a + b, kw, i) <==> if i < |a| then KeywordAt(a, kw, i) else KeywordAt(b, kw, i - |a|)
  {
    if i >= |a| {
      KeywordRight(a, b, kw, i);
    } else if i + |kw| > |a| {
      if KeywordAt(a + b, kw, i) { KeywordAcross(a, b, kw, i); }
    } else {
      KeywordLeft(a, b, kw, i);
    }
  }

  lemma ComparisonSplit(a: string, b: string, i: nat)
    requires Closed(a) && OperatorSeam(a, b)
    ensures ComparisonAt(a + b, i) == if i < |a| then ComparisonAt(a, i) else ComparisonAt(b, i - |a|)
  {
    TopConcat(a, b, i);
  }

  /** An arithmetic operator character at the top level. */
  predicate ArithAt(s: string, i: nat) {
    TopAt(s, i) && IsArithChar(s[i])
  }

  lemma ArithSplit(a: string, b: string, i: nat)
    requires Closed(a)
    ensures ArithAt(a + b, i) <==> if i < |a| then ArithAt(a, i) else ArithAt(b, i - |a|)
  {
    TopConcat(a, b, i);
  }

  // ---------------------------------------------------------------- absence of hits

  ghost predicate NoKeyword(s: string, kw: string) {
    forall i: nat :: !KeywordAt(s, kw, i)
  }

  ghost predicate NoComparison(s: string) {
    forall i: nat :: ComparisonAt(s, i).None?
  }

  ghost predicate NoArith(s: string) {
    forall i: nat :: !ArithAt(s, i)
  }

  /** At the top level + and - only, and those next to no white space and not at the end. */
  ghost predicate SignsInside(s: string) {
    forall i: nat :: ArithAt(s, i) ==>
      IsSign(s[i]) && i + 1 < |s| && !IsSpace(s[i + 1]) && (i > 0 ==> !IsSpace(s[i - 1]))
  }

  lemma NoKeywordConcat(a: string, b: string, kw: string)
    requires Closed(a) && WordSeam(a, b) && KeywordText(kw) && NoKeyword(a, kw) && NoKeyword(b, kw)
    ensures NoKeyword(a + b, kw)
  {
    forall i: nat ensures !KeywordAt(a + b, kw, i) { KeywordSplit(a, b, kw, i); }
  }

  lemma NoComparisonConcat(a: string, b: string)
    requires Closed(a) && OperatorSeam(a, b) && NoComparison(a) && NoComparison(b)
    ensures NoComparison(a + b)
  {
    forall i: nat ensures ComparisonAt(a + b, i).None? { ComparisonSplit(a, b, i); }
  }

  lemma NoArithConcat(a: string, b: string)
    requires Closed(a) && NoArith(a) && NoArith(b)
    ensures NoArith(a + b)
  {
    forall i: nat ensures !ArithAt(a + b, i) { ArithSplit(a, b, i); }
  }

  /** A single word contains a keyword only by being it. */
  lemma WordHasNoKeyword(w: string, kw: string)
    requires (forall c :: c in w ==> IsWord(c)) && !SameText(w, kw) && KeywordText(kw)
    ensures NoKeyword(w, kw)
  {
    assert forall i :: 0 <= i < |w| ==> IsWord(w[i]);
    forall i: nat ensures !KeywordAt(w, kw, i) {
      if i == 0 && |kw| == |w| { assert w[i..i + |kw|] == w; }
    }
  }

  /** Text without one of its letters does not contain a keyword. */
  lemma LetterMissing(w: string, kw: string, k: nat)
    requires KeywordText(kw) && k < |kw| && forall c :: c in w ==> Upper(c) != kw[k]
    ensures NoKeyword(w, kw)
  {
    assert kw[k] in kw;
    forall i: nat ensures !KeywordAt(w, kw, i) {
      if i + |kw| <= |w| {
        var word := w[i..i + |kw|];
        assert word[k] == w[i + k] && w[i + k] in w;
        assert SameText(word, kw) ==> Upper(word[k]) == Upper(kw[k]);
      }
    }
  }

  predicate IsComparisonChar(c: char) { c == '!' || c == '<' || c == '>' || c == '=' }

  predicate IsArithChar(c: char) { c == '+' || c == '-' || c == '*' || c == '/' }

  lemma NoComparisonChars(w: string)
    requires forall c :: c in w ==> !IsComparisonChar(c)
    ensures NoComparison(w)
  {
    forall i: nat ensures ComparisonAt(w, i).None? {
      if i < |w| { assert w[i] in w; }
    }
  }

  lemma NoArithChars(w: string)
    requires forall c :: c in w ==> !IsArithChar(c)
    ensures NoArith(w)
  {
    forall i: nat ensures !ArithAt(w, i) {
      if i < |w| { assert w[i] in w; }
    }
  }
}
