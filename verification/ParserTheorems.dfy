/**
 The parser against the grammar: exactly which texts come back as the tree they denote.
 */
module ParserTheorems {
  import opened Wrappers
  import opened Exprs
  import opened Scanner
  import opened DslParser
  import opened Numerals
  import opened Grammar
  import opened RoundTrip
  import opened CallTexts
  import opened GrammarParsing
  import opened RawSql

  // ---------------------------------------------------------------- trimming first

  /** The parser sees only the trimmed text. */
  lemma PaddingIsIgnored(before: string, s: string, after: string)
    requires Blank(before) && Blank(after) && Trimmed(s)
    ensures ParsePredicateOperand(Padded(before, s, after)) == ParsePredicateOperand(s)
    ensures ParseExpr(Padded(before, s, after)) == ParseExpr(s)
  {
    TrimPadded(before, s, after);
    TrimTrimmed(s);
  }

  lemma Unpadded(s: string)
    ensures Padded([], s, []) == s
  {
  }

  lemma {:induction false} BlankConcat(s: string)
    ensures TrimStart(s) == [] ==> Blank(s)
    ensures TrimEnd(s) == [] ==> Blank(s)
    decreases |s|
  {
    if s != [] {
      BlankConcat(s[1..]);
      BlankConcat(s[..|s| - 1]);
      assert forall c :: c in s <==> c == s[0] || c in s[1..];
      assert forall c :: c in s <==> c == s[|s| - 1] || c in s[..|s| - 1];
    }
  }

  lemma {:induction false} TrimStartKeeps(s: string)
    ensures Blank(TrimStart(s)) ==> TrimStart(s) == []
    decreases |s|
  {
    if s != [] && IsSpace(s[0]) {
      TrimStartKeeps(s[1..]);
    } else if s != [] {
      assert s[0] in s;
    }
  }

  lemma TrimIsEmptyExactly(s: string)
    ensures Trim(s) == [] <==> Blank(s)
  {
    BlankConcat(TrimStart(s));
    TrimStartKeeps(s);
    BlankConcat(s);
    if Blank(s) {
      assert s + [] == s;
      TrimStartBlank(s, []);
    }
  }

  /** An expression is rejected if and only if it is blank, or it mentions SQL. */
  lemma ErrorsExactly(s: string)
    ensures ParseExpr(s) == Err(EmptyExpression) <==> Blank(s)
    ensures ParseExpr(s) == Err(RawSqlRejected) <==> !Blank(s) && MentionsSql(Trim(s))
  {
    TrimIsEmptyExactly(s);
    GuardExactly(Trim(s));
  }

  // ---------------------------------------------------------------- every text of the grammar

  /** The right operand is a signed number right behind a space: its sign is taken for the
      operator. */
  predicate SignTaken(c: Cst)
    requires c.Arith?
  {
    EndsInSpace(c.after) && IsSigned(c.r)
  }

  /** A product or quotient that begins with a signed number right behind a space: the sign is
      taken for an operator without a left operand. */
  predicate SignLost(before: string, c: Cst)
    requires c.Arith?
  {
    EndsInSpace(before) && IsSigned(c.l) && !IsAdditive(c.op) && !SignTaken(c)
  }

  /** Everything before the right operand, read as a name. */
  function Dangling(c: Cst): string
    requires c.Arith?
  {
    (Text(c.l) + c.before) + OpText(c.op)
  }

  /** What the parser makes of a text: the denoted tree, except that a compound text that it takes
      for one call is that call, that a sign behind a space is an operator after a name that ends
      in the real operator, and that a parenthesised arithmetic operand in which it finds neither
      arithmetic nor a call is left to the operand parser. */
  function Parsed(c: Cst): Expr
    decreases c, 1
  {
    if Level(c) < 6 && TryAggregation(Text(c)).Some? then TryAggregation(Text(c)).value else ParsedNode(c)
  }

  function ParsedNode(c: Cst): Expr
    decreases c, 0
  {
    match c
    case Paren(_, inner, _) => Parsed(inner)
    case Arith(l, _, op, _, r) =>
      if SignTaken(c) then
        Binary(EntityRef(Dangling(c)), if r.n.sign == "+" then Add else Subtract, Lit(NumeralLiteral(Unsigned(r.n))))
      else Binary(ParsedOperand(l), op, ParsedOperand(r))
    case NotOf(_, _, x) => Not(Parsed(x))
    case NullTest(x, _, _, negated) => if negated then IsNotNull(Parsed(x)) else IsNull(Parsed(x))
    case Compare(l, _, op, _, r) => Binary(Parsed(l), op, Parsed(r))
    case AndOf(l, _, _, _, r) => Binary(Parsed(l), And, Parsed(r))
    case OrOf(l, _, _, _, r) => Binary(Parsed(l), Or, Parsed(r))
    case _ => Denotes(c)
  }

  /** Parenthesised arithmetic that is found inside the parentheses. */
  predicate SeenThrough(c: Cst) {
    && c.Paren? && c.inner.Arith? && !SignLost(c.before, c.inner)
    && TryAggregation(Padded(c.before, Text(c.inner), c.after)).None?
  }

  function ParsedOperand(c: Cst): Expr
    decreases c, 1
  {
    if SeenThrough(c) then ParsedNode(c.inner)
    else if c.Paren? then ParseOperand(InParens(Padded(c.before, Text(c.inner), c.after)))
    else ParsedNode(c)
  }

  /** Operands see through parentheses only around a call or arithmetic. */
  lemma ParenOperand(s: string)
    ensures ParseOperand(InParens(s)) ==
            match OrElse(TryAggregation(s), TryArithmetic(s)) case Some(e) => e case None => EntityRef(InParens(s))
  {
    var t := InParens(s);
    InsideParens(s);
    TrimTrimmed(t);
    OutsideLead(t);
    NoAggregation(t);
    ParenIsNoAtom(t);
  }

  lemma InsideParens(s: string)
    ensures Parenthesised(InParens(s)) && Inside(InParens(s)) == s
  {
    assert InParens(s)[1..|s| + 1] == s;
  }

  predicate StartsParenthesised(t: string) {
    |t| >= 2 && t[0] == '('
  }

  lemma ParenIsNoNumber(t: string)
    requires StartsParenthesised(t)
    ensures ParseI64(t).None? && ParseF64(t).None? && !IsIdentifier(t)
  {
    assert DropSign(t) == t && t[0] in t && !IsDigit('(');
    assert DigitPrefix(t) == 0;
  }

  lemma ParenIsNoWord(t: string)
    requires StartsParenthesised(t)
    ensures !SameText(t, "TRUE") && !SameText(t, "FALSE") && !SameText(t, "NULL")
  {
    assert Upper(t[0]) == '(';
  }

  lemma ParenIsNoAtom(t: string)
    requires StartsParenthesised(t)
    ensures ParseAtom(t) == EntityRef(t) && ParseTopAtom(t) == EntityRef(t)
  {
    NotBraced(t);
    ParenIsNoNumber(t);
    ParenIsNoWord(t);
  }

  lemma {:induction false} OperandIsParsed(c: Cst)
    requires WellFormed(c) && Level(c) == 6
    ensures ParseOperand(Text(c)) == ParsedOperand(c)
    decreases c
  {
    if c.Paren? {
      if c.inner.Arith? {
        ArithmeticIsParsed(c.before, c.inner, c.after);
        ParenOperand(Padded(c.before, Text(c.inner), c.after));
      }
    } else if c.CallOf? {
      CallOperandIsRead(c);
    } else {
      AtomIsRead(c);
    }
  }

  lemma SignBehindExactly(u: string, c: Cst)
    requires WellFormed(c) && Level(c) == 6
    ensures SignBehind(u, Text(c)) <==> EndsInSpace(u) && IsSigned(c)
  {
    OperandSigns(c);
    var t := Text(c);
    assert t != [] && IsSign(t[0]) ==> TopAt(t, 0) && ArithAt(t, 0);
  }

  lemma ArithIsOperands(before: string, c: Cst, after: string)
    requires WellFormed(c) && c.Arith? && Blank(before) && Blank(after)
    ensures Operands(before, Text(c.l), c.before, c.op, c.after, Text(c.r), after)
    ensures SignBehind(c.after, Text(c.r)) <==> SignTaken(c)
    ensures SignBehind(before, Text(c.l)) <==> EndsInSpace(before) && IsSigned(c.l)
    ensures Padded(before, Text(c), after) ==
            ArithText(before, Text(c.l), c.before, c.op, c.after, Text(c.r), after)
  {
    TextFacts(c.l);
    TextFacts(c.r);
    OperandSigns(c.l);
    OperandSigns(c.r);
    SignBehindExactly(c.after, c.r);
    SignBehindExactly(before, c.l);
    PaddedInfix(before, Text(c.l), c.before, OpText(c.op), c.after, Text(c.r), after);
  }

  lemma UnsignedText(c: Cst)
    requires WellFormed(c) && IsSigned(c)
    ensures Text(c) != [] && ArithmeticOp(Text(c)[0]) == if c.n.sign == "+" then Add else Subtract
    ensures ParseOperand(Text(c)[1..]) == Lit(NumeralLiteral(Unsigned(c.n)))
  {
    UnsignedIsRead(Unsigned(c.n));
    SignedText(c.n);
  }

  lemma UnsignedIsRead(n: Written)
    ensures ParseOperand(NumeralText(n)) == Lit(NumeralLiteral(n))
  {
    AtomIsRead(Number(n));
  }

  lemma SignedText(n: Written)
    requires n.sign != ""
    ensures NumeralText(n) != [] && NumeralText(n)[0] == n.sign[0] && NumeralText(n)[1..] == NumeralText(Unsigned(n))
  {
    assert NumeralText(Unsigned(n)) == Body(n) && n.sign + Body(n) == [n.sign[0]] + Body(n);
  }

  lemma DanglingIsRead(c: Cst)
    requires WellFormed(c) && c.Arith?
    ensures ParseOperand(Dangling(c)) == EntityRef(Dangling(c)) && !IsIdentifier(Dangling(c))
  {
    TextFacts(c.l);
    DanglingOperator(Dangling(c));
  }

  lemma TakenSignIsParsed(before: string, c: Cst, after: string)
    requires WellFormed(c) && c.Arith? && Blank(before) && Blank(after) && SignTaken(c)
    ensures TryArithmetic(Padded(before, Text(c), after)) == Some(ParsedNode(c))
  {
    ArithIsOperands(before, c, after);
    SplitAtSign(before, Text(c.l), c.before, c.op, c.after, Text(c.r), after);
    UnsignedText(c.r);
    DanglingIsRead(c);
  }

  lemma {:induction false} ArithmeticIsParsed(before: string, c: Cst, after: string)
    requires WellFormed(c) && c.Arith? && Blank(before) && Blank(after)
    ensures TryArithmetic(Padded(before, Text(c), after)) == if SignLost(before, c) then None else Some(ParsedNode(c))
    decreases c
  {
    if SignTaken(c) {
      TakenSignIsParsed(before, c, after);
    } else {
      OperandIsParsed(c.l);
      OperandIsParsed(c.r);
      ArithIsOperands(before, c, after);
      if SignLost(before, c) {
        SplitAtStart(before, Text(c.l), c.before, c.op, c.after, Text(c.r), after);
      } else {
        SplitAtOperator(before, Text(c.l), c.before, c.op, c.after, Text(c.r), after);
      }
    }
  }

  lemma NullTestNotWrapped(a: string, before: string, words: string)
    requires a != [] && RawBalanced(a) && words != []
    ensures var t := (a + before) + words; Parenthesised(t) ==> !RawBalanced(Inside(t))
  {
    assert (a + before) + words == a + (before + words);
    if Parenthesised(a + (before + words)) { PrefixNotWrapped(a, before + words); }
  }

  lemma OperatorNotWrapped(c: Cst)
    requires WellFormed(c) && IsInfix(c)
    ensures Parenthesised(Text(c)) ==> !RawBalanced(Inside(Text(c)))
  {
    TextFacts(c.l);
    InfixWordFacts(c);
    InfixText(c);
    InfixNotWrapped(Text(c.l), c.before, InfixWord(c), c.after, Text(c.r));
  }

  /** Only a parenthesised tree has matching outer parentheses. */
  lemma NotWrapped(c: Cst)
    requires WellFormed(c) && !c.Paren?
    ensures Parenthesised(Text(c)) ==> !RawBalanced(Inside(Text(c)))
  {
    if Level(c) == 6 {
      if c.CallOf? { CallOperandIsRead(c); } else { AtomIsRead(c); }
    } else if c.NullTest? {
      TextFacts(c.x);
      NullTestNotWrapped(Text(c.x), c.before, c.words);
    } else if c.NotOf? {
      NotWordFacts(c.word);
    } else {
      OperatorNotWrapped(c);
    }
  }

  lemma AtomWithoutOperators(c: Cst)
    requires WellFormed(c) && Level(c) == 6 && !c.CallOf?
    ensures TryOperators(Text(c)).None?
  {
    TextFacts(c);
    TextLead(c);
    NoAggregation(Text(c));
    if c.Number? { NumberWithoutOperators(c); } else { LooserOperatorsAbsent(Text(c), 6); }
  }

  lemma NumberWithoutOperators(c: Cst)
    requires WellFormed(c) && c.Number? && TryAggregation(Text(c)) == None
    ensures TryOperators(Text(c)) == None
  {
    TextFacts(c);
    OperandSigns(c);
    OnlyArithmetic(Text(c));
    NumberIsNoArithmetic(Text(c));
  }

  /** No sign of a number is next to a space. */
  lemma NumberIsNoArithmetic(s: string)
    requires SignsInside(s)
    ensures TryArithmetic(s) == None
  {
    forall i: nat ensures !AddSubAt(s, i) && !MulDivAt(s, i) {
      assert ArithAt(s, i) || !(AddSubAt(s, i) || MulDivAt(s, i));
    }
    assert LastAddSub(s) == None && LastMulDiv(s) == None;
  }

  /** Precedence and associativity: the parser reads every text of the grammar as its tree. */
  lemma {:induction false} TextIsParsed(c: Cst)
    requires WellFormed(c)
    ensures ParsePredicateOperand(Text(c)) == Parsed(c)
    ensures Level(c) < 6 ==> TryOperators(Text(c)) == Some(Parsed(c))
    decreases c, 1
  {
    TextFacts(c);
    TrimTrimmed(Text(c));
    if c.Paren? {
      ParenIsParsed(c.before, c.inner, c.after);
    } else {
      NotWrapped(c);
      if c.CallOf? {
        CallOperandIsRead(c);
      } else if Level(c) == 6 {
        AtomIsRead(c);
        AtomWithoutOperators(c);
      } else {
        OperatorIsParsed(c);
      }
    }
  }

  lemma {:induction false} ParenIsParsed(before: string, inner: Cst, after: string)
    requires WellFormed(inner) && Blank(before) && Blank(after)
    ensures ParsePredicateOperand(InParens(Padded(before, Text(inner), after))) == Parsed(inner)
    decreases inner, 2
  {
    TextIsParsed(inner);
    TextFacts(inner);
    PaddingIsIgnored(before, Text(inner), after);
    PaddedIsQuiet(before, Text(inner), after, 0);
    InsideParens(Padded(before, Text(inner), after));
    TrimTrimmed(InParens(Padded(before, Text(inner), after)));
  }

  lemma {:induction false} OperatorIsParsed(c: Cst)
    requires WellFormed(c) && Level(c) < 6
    ensures TryOperators(Text(c)) == Some(Parsed(c))
    decreases c, 0
  {
    match c
    case Arith(_, _, _, _, _) => BareArithmeticIsParsed(c);
    case NotOf(_, _, x) => TextIsParsed(x); NotIsParsed(c);
    case NullTest(x, _, _, _) => TextIsParsed(x); NullTestIsParsed(c);
    case Compare(l, _, _, _, r) => TextIsParsed(l); TextIsParsed(r); CompareIsParsed(c);
    case AndOf(l, _, _, _, r) => TextIsParsed(l); TextIsParsed(r); AndIsParsed(c);
    case OrOf(l, _, _, _, r) => TextIsParsed(l); TextIsParsed(r); OrIsParsed(c);
  }

  lemma OnlyArithmetic(t: string)
    requires Facts(t, 5)
    ensures TryOperators(t) == OrElse(TryAggregation(t), TryArithmetic(t))
  {
    LooserOperatorsAbsent(t, 5);
  }

  lemma BareArithmetic(c: Cst)
    requires WellFormed(c) && c.Arith?
    ensures TryArithmetic(Text(c)) == Some(ParsedNode(c))
  {
    Unpadded(Text(c));
    ArithmeticIsParsed([], c, []);
  }

  lemma BareArithmeticIsParsed(c: Cst)
    requires WellFormed(c) && c.Arith?
    ensures TryOperators(Text(c)) == Some(Parsed(c))
  {
    TextFacts(c);
    OnlyArithmetic(Text(c));
    BareArithmetic(c);
  }

  /** The operand is read as its tree. */
  predicate IsRead(c: Cst) {
    ParsePredicateOperand(Text(c)) == Parsed(c)
  }

  lemma NotIsParsed(c: Cst)
    requires WellFormed(c) && c.NotOf? && IsRead(c.x)
    ensures TryOperators(Text(c)) == Some(Parsed(c))
  {
    TextFacts(c.x);
    ParseNot(c.word, c.after, Text(c.x));
  }

  lemma NullTestIsParsed(c: Cst)
    requires WellFormed(c) && c.NullTest? && IsRead(c.x)
    ensures TryOperators(Text(c)) == Some(Parsed(c))
  {
    TextFacts(c.x);
    ParseNullTest(Text(c.x), c.before, c.words, c.negated);
  }

  lemma CompareIsParsed(c: Cst)
    requires WellFormed(c) && c.Compare? && IsRead(c.l) && IsRead(c.r)
    ensures TryOperators(Text(c)) == Some(Parsed(c))
  {
    TextFacts(c.l);
    TextFacts(c.r);
    ParseComparison(Text(c.l), c.before, c.op, c.after, Text(c.r));
  }

  lemma AndIsParsed(c: Cst)
    requires WellFormed(c) && c.AndOf? && IsRead(c.l) && IsRead(c.r)
    ensures TryOperators(Text(c)) == Some(Parsed(c))
  {
    TextFacts(c.l);
    TextFacts(c.r);
    ParseConnective(Conjunction, Text(c.l), c.before, c.word, c.after, Text(c.r));
  }

  lemma OrIsParsed(c: Cst)
    requires WellFormed(c) && c.OrOf? && IsRead(c.l) && IsRead(c.r)
    ensures TryOperators(Text(c)) == Some(Parsed(c))
  {
    TextFacts(c.l);
    TextFacts(c.r);
    ParseConnective(Disjunction, Text(c.l), c.before, c.word, c.after, Text(c.r));
  }

  // ---------------------------------------------------------------- when it is the denoted tree

  /** A compound text that begins with a call and ends in a parenthesis. */
  predicate Swallowed(c: Cst) {
    Level(c) < 6 && StartsWithCall(c) && EndsWithParen(c)
  }

  /** No part is taken for one call, no signed number stands right behind a space on the right of
      an arithmetic operator, and every arithmetic operand is an atom, or parenthesised arithmetic
      that loses no sign, or a call right inside parentheses. */
  predicate Sound(c: Cst)
    decreases c, 1
  {
    !Swallowed(c) && SoundNode(c)
  }

  predicate SoundNode(c: Cst)
    decreases c, 0
  {
    match c
    case Paren(_, inner, _) => Sound(inner)
    case Arith(l, _, _, _, r) => !SignTaken(c) && SoundOperand(l) && SoundOperand(r)
    case NotOf(_, _, x) => Sound(x)
    case NullTest(x, _, _, _) => Sound(x)
    case Compare(l, _, _, _, r) => Sound(l) && Sound(r)
    case AndOf(l, _, _, _, r) => Sound(l) && Sound(r)
    case OrOf(l, _, _, _, r) => Sound(l) && Sound(r)
    case _ => true
  }

  predicate SoundOperand(c: Cst)
    decreases c, 1
  {
    match c
    case Paren(before, inner, after) =>
      var bare := before == [] && after == [];
      if inner.Arith? then SoundNode(inner) && !(bare && Swallowed(inner)) && !SignLost(before, inner)
      else inner.CallOf? && bare
    case _ => true
  }

  lemma {:induction false} DenotedNames(c: Cst)
    requires WellFormed(c)
    ensures Denotes(c).EntityRef? ==> IsIdentifier(Denotes(c).name)
    ensures Denotes(c).Binary? && IsArithmetic(Denotes(c).op) && !c.Arith? ==> c.Paren?
    ensures Denotes(c).Aggregate? ==> c.Paren? || c.CallOf?
  {
    if c.Paren? { DenotedNames(c.inner); }
  }

  lemma CallsAreAggregates(t: string)
    ensures TryAggregation(t).Some? ==> TryAggregation(t).value.Aggregate?
  {
  }

  lemma ArithmeticIsBinary(t: string)
    ensures TryArithmetic(t).Some? ==> TryArithmetic(t).value.Binary? && IsArithmetic(TryArithmetic(t).value.op)
  {
  }

  lemma ParenIsNoIdentifier(s: string)
    ensures !IsIdentifier(InParens(s))
  {
    assert InParens(s)[0] == '(' && InParens(s)[0] in InParens(s);
  }

  lemma ParenOperandDiffers(s: string, d: Expr)
    requires d.EntityRef? ==> IsIdentifier(d.name)
    requires d.Aggregate? ==> TryAggregation(s).None?
    requires d.Binary? && IsArithmetic(d.op) ==> TryArithmetic(s).None?
    ensures ParseOperand(InParens(s)) != d
  {
    ParenOperand(s);
    CallsAreAggregates(s);
    ArithmeticIsBinary(s);
    ParenIsNoIdentifier(s);
  }

  lemma PaddedParenIsNoArithmetic(before: string, c: Cst, after: string)
    requires WellFormed(c) && c.Paren? && Blank(before) && Blank(after)
    ensures TryArithmetic(Padded(before, Text(c), after)).None?
  {
    TextFacts(c);
    PaddedIsQuiet(before, Text(c), after, 6);
    NoArithmetic(Padded(before, Text(c), after));
  }

  /** Parentheses around anything but arithmetic or a bare call are never seen through in an
      operand. */
  lemma UnsoundOperand(before: string, inner: Cst, after: string)
    requires WellFormed(inner) && Blank(before) && Blank(after)
    requires !inner.Arith? && (inner.CallOf? ==> before != [] || after != [])
    ensures ParseOperand(InParens(Padded(before, Text(inner), after))) != Denotes(inner)
  {
    DenotedNames(inner);
    if inner.Paren? { PaddedParenIsNoArithmetic(before, inner, after); }
    TakenForCallExactly(before, inner, after);
    ParenOperandDiffers(Padded(before, Text(inner), after), Denotes(inner));
  }

  lemma ParenIsNotBinary(s: string)
    requires TryAggregation(s).Some? || TryArithmetic(s).None?
    ensures !ParseOperand(InParens(s)).Binary?
  {
    ParenOperand(s);
    CallsAreAggregates(s);
  }

  lemma LeftToOperand(c: Cst, s: string)
    requires c.Paren? && !SeenThrough(c) && s == Padded(c.before, Text(c.inner), c.after)
    ensures ParsedOperand(c) == ParseOperand(InParens(s))
  {
  }

  /** Nor is parenthesised arithmetic that is taken for one call or loses its first sign. */
  lemma UnseenOperand(c: Cst)
    requires WellFormed(c) && c.Paren? && c.inner.Arith? && !SeenThrough(c)
    ensures ParsedOperand(c) != Denotes(c)
  {
    var s := Padded(c.before, Text(c.inner), c.after);
    ArithmeticIsParsed(c.before, c.inner, c.after);
    LeftToOperand(c, s);
    ParenIsNotBinary(s);
    assert Denotes(c) == Denotes(c.inner) && Denotes(c.inner).Binary?;
  }

  /** A name that ends in an operator denotes nothing. */
  lemma SignTakenDiffers(c: Cst)
    requires WellFormed(c) && c.Arith? && SignTaken(c)
    ensures ParsedNode(c) != Denotes(c)
  {
    DanglingIsRead(c);
    DenotedNames(c.l);
  }

  lemma ParenCallIsRead(c: Cst)
    requires WellFormed(c) && c.Paren? && c.inner.CallOf? && c.before == [] && c.after == []
    ensures ParsedOperand(c) == Denotes(c)
  {
    Unpadded(Text(c.inner));
    ParenOperand(Text(c.inner));
    CallIsRead(c.inner);
  }

  /** The parser returns the denoted tree if and only if no part is taken for one call and every
      parenthesised arithmetic operand is arithmetic or a bare call. */
  lemma {:induction false} ParsedIsDenotedExactly(c: Cst)
    requires WellFormed(c)
    ensures Parsed(c) == Denotes(c) <==> Sound(c)
    decreases c, 1
  {
    Unpadded(Text(c));
    TakenForCallExactly([], c, []);
    CallsAreAggregates(Text(c));
    DenotedNames(c);
    NodeExactly(c);
  }

  lemma {:induction false} NodeExactly(c: Cst)
    requires WellFormed(c)
    ensures ParsedNode(c) == Denotes(c) <==> SoundNode(c)
    decreases c, 0
  {
    match c
    case Paren(_, inner, _) => ParsedIsDenotedExactly(inner);
    case Arith(l, _, _, _, r) =>
      if SignTaken(c) { SignTakenDiffers(c); } else { OperandExactly(l); OperandExactly(r); }
    case NotOf(_, _, x) => ParsedIsDenotedExactly(x);
    case NullTest(x, _, _, _) => ParsedIsDenotedExactly(x);
    case Compare(l, _, _, _, r) => ParsedIsDenotedExactly(l); ParsedIsDenotedExactly(r);
    case AndOf(l, _, _, _, r) => ParsedIsDenotedExactly(l); ParsedIsDenotedExactly(r);
    case OrOf(l, _, _, _, r) => ParsedIsDenotedExactly(l); ParsedIsDenotedExactly(r);
    case _ =>
  }

  lemma {:induction false} OperandExactly(c: Cst)
    requires WellFormed(c) && Level(c) == 6
    ensures ParsedOperand(c) == Denotes(c) <==> SoundOperand(c)
    decreases c, 1
  {
    if c.Paren? {
      TakenForCallExactly(c.before, c.inner, c.after);
      if c.inner.Arith? {
        NodeExactly(c.inner);
        if !SeenThrough(c) { UnseenOperand(c); }
      } else if c.inner.CallOf? && c.before == [] && c.after == [] {
        ParenCallIsRead(c);
      } else {
        UnsoundOperand(c.before, c.inner, c.after);
      }
    }
  }

  // ---------------------------------------------------------------- whole expressions

  lemma TopAtomIsRead(c: Cst)
    requires WellFormed(c) && Level(c) == 6 && !c.CallOf?
    ensures ParseTopAtom(Text(c)) == if c.Paren? then EntityRef(Text(c)) else Parsed(c)
  {
    if c.Paren? { ParenIsNoAtom(Text(c)); } else { AtomIsRead(c); }
  }

  /** What `parse_expr` returns for every text of the grammar, with white space around it:
      parentheses around the whole expression are not dropped at the top level. */
  lemma ParseExprOnGrammar(before: string, c: Cst, after: string)
    requires WellFormed(c) && Blank(before) && Blank(after)
    ensures ParseExpr(Padded(before, Text(c), after)) ==
            if LooksLikeRawSql(Text(c)) then Err(RawSqlRejected)
            else Ok(if c.Paren? then EntityRef(Text(c)) else Parsed(c))
  {
    TextFacts(c);
    PaddingIsIgnored(before, Text(c), after);
    TrimTrimmed(Text(c));
    if c.CallOf? {
      CallOperandIsRead(c);
    } else if Level(c) == 6 {
      AtomWithoutOperators(c);
      TopAtomIsRead(c);
    } else {
      TextIsParsed(c);
    }
  }

  /** A grammar text is parsed to exactly the tree it denotes if and only if none of its atoms is
      SQL, it is not parenthesised as a whole, no part of it begins with a call and ends in a
      parenthesis, and arithmetic in it is applied only to atoms, parenthesised arithmetic and
      calls. */
  lemma ParseExprExactly(before: string, c: Cst, after: string)
    requires WellFormed(c) && Blank(before) && Blank(after)
    ensures ParseExpr(Padded(before, Text(c), after)) == Ok(Denotes(c)) <==>
            !HasSqlAtom(c) && !c.Paren? && Sound(c)
  {
    RawSqlExactly(c);
    ParseExprOnGrammar(before, c, after);
    ParsedIsDenotedExactly(c);
    if c.Paren? {
      DenotedNames(c);
      ParenIsNoIdentifier(Padded(c.before, Text(c.inner), c.after));
    }
  }

  // ---------------------------------------------------------------- calls that swallow the rest

  function CallTo(f: Aggregation, name: string): Cst {
    CallOf(f, FunctionName(f), [], name, [])
  }

  /** f(a) / g(b). */
  function Quotient(f: Aggregation, a: string, g: Aggregation, b: string): Cst {
    Arith(CallTo(f, a), " ", SafeDivide, " ", CallTo(g, b))
  }

  /** Everything between the outermost parentheses of f(a) / g(b). */
  function Between(a: string, g: Aggregation, b: string): string {
    a + (") / " + (FunctionName(g) + ("(" + b)))
  }

  lemma CallText(f: Aggregation, name: string)
    ensures Text(CallTo(f, name)) == FunctionName(f) + ("(" + (name + ")"))
  {
    assert Padded([], name, []) == name;
    assert InParens(name) == "(" + (name + ")");
  }

  lemma Regroup(x: string, o: string, a: string, e: string, gap: string, op: string, y: string, b: string)
    ensures ((x + (o + (a + e))) + gap) + (op + (gap + (y + (o + (b + e))))) ==
            x + (o + ((a + ((e + (gap + (op + gap))) + (y + (o + b)))) + e))
  {
  }

  lemma QuotientText(f: Aggregation, a: string, g: Aggregation, b: string)
    ensures Text(Quotient(f, a, g, b)) == FunctionName(f) + ("(" + (Between(a, g, b) + ")"))
  {
    CallText(f, a);
    CallText(g, b);
    Regroup(FunctionName(f), "(", a, ")", " ", "/", FunctionName(g), b);
    assert ")" + (" " + ("/" + " ")) == ") / ";
  }

  lemma BetweenIsNoName(a: string, g: Aggregation, b: string)
    requires IsIdentifier(a) && IsIdentifier(b)
    ensures Trimmed(Between(a, g, b)) && !IsIdentifier(Between(a, g, b))
  {
    var t := Between(a, g, b);
    assert t[|a|] == ')' && t[|a|] in t;
    assert a[0] in a && b[|b| - 1] in b && t[0] == a[0] && t[|t| - 1] == b[|b| - 1];
  }

  lemma QuotientIsParsed(f: Aggregation, a: string, g: Aggregation, b: string)
    requires IsIdentifier(a) && IsIdentifier(b)
    ensures Parsed(Quotient(f, a, g, b)) == Aggregate(f, EntityRef(Between(a, g, b)), f.CountDistinct?)
  {
    QuotientText(f, a, g, b);
    BetweenIsNoName(a, g, b);
    TrimTrimmed(Between(a, g, b));
    CallArgument(f, FunctionName(f), Between(a, g, b));
  }

  lemma CallToIsGrammatical(f: Aggregation, name: string)
    requires IsIdentifier(name)
    ensures WellFormed(CallTo(f, name)) && (HasSqlAtom(CallTo(f, name)) <==> IsSqlWord(name))
  {
  }

  /** The quotient of two calls is read as one call whose argument is a name that spans both. */
  lemma QuotientOfCalls(f: Aggregation, a: string, g: Aggregation, b: string)
    requires IsIdentifier(a) && IsIdentifier(b) && !IsSqlWord(a) && !IsSqlWord(b)
    ensures WellFormed(Quotient(f, a, g, b))
    ensures ParseExpr(Text(Quotient(f, a, g, b))) == Ok(Aggregate(f, EntityRef(Between(a, g, b)), f.CountDistinct?))
  {
    var c := Quotient(f, a, g, b);
    CallToIsGrammatical(f, a);
    CallToIsGrammatical(g, b);
    assert HasSqlAtom(c) <==> HasSqlAtom(CallTo(f, a)) || HasSqlAtom(CallTo(g, b));
    QuotientIsParsed(f, a, g, b);
    RawSqlExactly(c);
    BareExprOnGrammar(c);
  }

  lemma BareExprOnGrammar(c: Cst)
    requires WellFormed(c) && !c.Paren? && !LooksLikeRawSql(Text(c))
    ensures ParseExpr(Text(c)) == Ok(Parsed(c))
  {
    Unpadded(Text(c));
    ParseExprOnGrammar([], c, []);
  }

  /** Arithmetic with a signed number right behind a space on its right is read as a sum or
      difference whose left side is a name that ends in the operator as written. */
  lemma SignBehindSpace(c: Cst)
    requires WellFormed(c) && c.Arith? && SignTaken(c) && !HasSqlAtom(c)
    ensures ParseExpr(Text(c)) ==
            Ok(Binary(EntityRef(Dangling(c)), if c.r.n.sign == "+" then Add else Subtract,
                      Lit(NumeralLiteral(Unsigned(c.r.n)))))
  {
    RawSqlExactly(c);
    BareExprOnGrammar(c);
    Unpadded(Text(c));
    TakenForCallExactly([], c, []);
  }

  // ---------------------------------------------------------------- printing trees

  predicate IsAtom(e: Expr) {
    e.EntityRef? || e.Lit?
  }

  /** Trees that can be written: operators of the language over identifiers, calls, 64-bit
      integers, booleans, NULL, and strings without quotes whose parentheses balance. */
  predicate Printable(e: Expr) {
    match e
    case EntityRef(name) => IsIdentifier(name) && !Reserved(name)
    case Lit(Integer(i)) => FitsI64(i)
    case Lit(Str(s)) => '\'' !in s && RawBalanced(s)
    case Lit(Boolean(_)) => true
    case Lit(Null) => true
    case Aggregate(f, Column(name), distinct) => IsIdentifier(name) && distinct == f.CountDistinct?
    case Not(a) => Printable(a)
    case IsNull(a) => Printable(a)
    case IsNotNull(a) => Printable(a)
    case Binary(l, op, r) => (IsLogical(op) || IsComparison(op) || IsArithmetic(op)) && Printable(l) && Printable(r)
    case _ => false
  }

  const SP := " "

  /** The tree with every compound operand and every call that is an operand in parentheses, the
      top level bare, and single spaces, but none between an arithmetic operator and a negative
      number. */
  function Print(e: Expr): Cst
    requires Printable(e)
    decreases e, 0
  {
    match e
    case EntityRef(name) => Ident(name)
    case Lit(Integer(i)) => Number(WholeNumeral(i))
    case Lit(Str(s)) => StrLit(s)
    case Lit(Boolean(b)) => TruthLit(Some(b), TruthWord(Some(b)))
    case Lit(Null) => TruthLit(None, TruthWord(None))
    case Aggregate(f, Column(name), _) => CallOf(f, FunctionName(f), [], name, [])
    case Not(a) => NotOf("NOT", SP, PrintOperand(a))
    case IsNull(a) => NullTest(PrintOperand(a), SP, NullWords(false), false)
    case IsNotNull(a) => NullTest(PrintOperand(a), SP, NullWords(true), true)
    case Binary(l, op, r) =>
      if op.Or? then OrOf(PrintOperand(l), SP, "OR", SP, PrintOperand(r))
      else if op.And? then AndOf(PrintOperand(l), SP, "AND", SP, PrintOperand(r))
      else if IsComparison(op) then Compare(PrintOperand(l), SP, op, SP, PrintOperand(r))
      else Arith(PrintOperand(l), SP, op, if IsNegativeNumber(r) then [] else SP, PrintOperand(r))
  }

  predicate IsNegativeNumber(e: Expr) {
    e.Lit? && e.lit.Integer? && e.lit.n < 0
  }

  function PrintOperand(e: Expr): Cst
    requires Printable(e)
    decreases e, 1
  {
    if IsAtom(e) then Print(e) else Paren([], Print(e), [])
  }

  predicate IsArithmeticTree(e: Expr) {
    e.Binary? && IsArithmetic(e.op)
  }

  /** What arithmetic can be applied to. */
  predicate IsNumber(e: Expr) {
    IsAtom(e) || e.Aggregate? || IsArithmeticTree(e)
  }

  /** Arithmetic is applied to atoms, calls and arithmetic only. */
  predicate ArithmeticOverNumbers(e: Expr)
    requires Printable(e)
  {
    match e
    case Not(a) => ArithmeticOverNumbers(a)
    case IsNull(a) => ArithmeticOverNumbers(a)
    case IsNotNull(a) => ArithmeticOverNumbers(a)
    case Binary(l, op, r) =>
      && ArithmeticOverNumbers(l) && ArithmeticOverNumbers(r)
      && (IsArithmetic(op) ==> IsNumber(l) && IsNumber(r))
    case _ => true
  }

  ghost predicate PrintedWell(e: Expr)
    requires Printable(e)
  {
    WellFormed(PrintOperand(e)) && Denotes(PrintOperand(e)) == e && Level(PrintOperand(e)) == 6
  }

  lemma SingleSpaces(a: string, w: string, b: string)
    ensures Seams(a, SP, w, SP, b)
  {
  }

  /** The tree of a text is the printed one. */
  ghost predicate PrintsAs(c: Cst, e: Expr) {
    WellFormed(c) && Denotes(c) == e && !c.Paren?
  }

  lemma PrintedAtom(e: Expr)
    requires Printable(e) && (IsAtom(e) || e.Aggregate?)
    ensures PrintsAs(Print(e), e) && Level(Print(e)) == 6
  {
  }

  lemma PrintedUnary(e: Expr)
    requires Printable(e) && (e.Not? || e.IsNull? || e.IsNotNull?) && PrintedWell(e.arg)
    ensures PrintsAs(Print(e), e)
  {
  }

  lemma PrintedBinary(l: Expr, op: BinaryOp, r: Expr)
    requires Printable(Binary(l, op, r)) && PrintedWell(l) && PrintedWell(r)
    ensures PrintsAs(Print(Binary(l, op, r)), Binary(l, op, r))
  {
    var a, b := Text(PrintOperand(l)), Text(PrintOperand(r));
    SingleSpaces(a, "OR", b);
    SingleSpaces(a, "AND", b);
  }

  lemma PrintedOperand(e: Expr)
    requires Printable(e) && PrintsAs(Print(e), e)
    ensures PrintedWell(e)
  {
    if IsAtom(e) { PrintedAtom(e); }
  }

  lemma {:induction false} PrintIsGrammatical(e: Expr)
    requires Printable(e)
    ensures PrintsAs(Print(e), e)
    decreases e
  {
    match e
    case Not(a) => PrintIsGrammatical(a); PrintedOperand(a); PrintedUnary(e);
    case IsNull(a) => PrintIsGrammatical(a); PrintedOperand(a); PrintedUnary(e);
    case IsNotNull(a) => PrintIsGrammatical(a); PrintedOperand(a); PrintedUnary(e);
    case Binary(l, op, r) =>
      PrintIsGrammatical(l);
      PrintIsGrammatical(r);
      PrintedOperand(l);
      PrintedOperand(r);
      PrintedBinary(l, op, r);
    case _ => PrintedAtom(e);
  }

  /** Operands begin with no call, so nothing that is printed is taken for one. */
  lemma NothingIsSwallowed(e: Expr)
    requires Printable(e)
    ensures !StartsWithCall(PrintOperand(e)) && (StartsWithCall(Print(e)) ==> e.Aggregate?) && !Swallowed(Print(e))
  {
  }

  lemma PrintedOperandSound(e: Expr)
    requires Printable(e) && (SoundNode(Print(e)) <==> ArithmeticOverNumbers(e))
    ensures Sound(PrintOperand(e)) <==> ArithmeticOverNumbers(e)
    ensures SoundOperand(PrintOperand(e)) <==> ArithmeticOverNumbers(e) && IsNumber(e)
  {
    NothingIsSwallowed(e);
    var c := Print(e);
    assert Sound(c) <==> SoundNode(c);
    assert !Swallowed(Paren([], c, [])) && (SoundNode(Paren([], c, [])) <==> Sound(c));
  }

  lemma PrintedBinarySound(l: Expr, op: BinaryOp, r: Expr)
    requires Printable(Binary(l, op, r))
    requires (SoundNode(Print(l)) <==> ArithmeticOverNumbers(l)) && (SoundNode(Print(r)) <==> ArithmeticOverNumbers(r))
    ensures SoundNode(Print(Binary(l, op, r))) <==> ArithmeticOverNumbers(Binary(l, op, r))
  {
    PrintedOperandSound(l);
    PrintedOperandSound(r);
  }

  lemma {:induction false} PrintIsSoundExactly(e: Expr)
    requires Printable(e)
    ensures SoundNode(Print(e)) <==> ArithmeticOverNumbers(e)
    decreases e
  {
    match e
    case Not(a) => PrintIsSoundExactly(a); PrintedOperandSound(a);
    case IsNull(a) => PrintIsSoundExactly(a); PrintedOperandSound(a);
    case IsNotNull(a) => PrintIsSoundExactly(a); PrintedOperandSound(a);
    case Binary(l, op, r) =>
      PrintIsSoundExactly(l);
      PrintIsSoundExactly(r);
      PrintedBinarySound(l, op, r);
    case _ =>
  }

  /** No name is a SQL keyword and no string holds one. */
  predicate SqlFree(e: Expr)
    requires Printable(e)
  {
    match e
    case EntityRef(name) => !IsSqlWord(name)
    case Lit(Str(s)) => !LooksLikeRawSql(s)
    case Aggregate(_, Column(name), _) => !IsSqlWord(name)
    case Not(a) => SqlFree(a)
    case IsNull(a) => SqlFree(a)
    case IsNotNull(a) => SqlFree(a)
    case Binary(l, _, r) => SqlFree(l) && SqlFree(r)
    case _ => true
  }

  lemma PrintedOperandSql(e: Expr)
    requires Printable(e)
    ensures HasSqlAtom(PrintOperand(e)) <==> HasSqlAtom(Print(e))
  {
  }

  lemma PrintedBinarySql(l: Expr, op: BinaryOp, r: Expr)
    requires Printable(Binary(l, op, r))
    ensures HasSqlAtom(Print(Binary(l, op, r))) <==> HasSqlAtom(Print(l)) || HasSqlAtom(Print(r))
  {
    PrintedOperandSql(l);
    PrintedOperandSql(r);
  }

  lemma {:induction false} PrintIsSqlFreeExactly(e: Expr)
    requires Printable(e)
    ensures HasSqlAtom(Print(e)) <==> !SqlFree(e)
    decreases e
  {
    match e
    case Not(a) => PrintIsSqlFreeExactly(a); PrintedOperandSql(a);
    case IsNull(a) => PrintIsSqlFreeExactly(a); PrintedOperandSql(a);
    case IsNotNull(a) => PrintIsSqlFreeExactly(a); PrintedOperandSql(a);
    case Binary(l, op, r) =>
      PrintIsSqlFreeExactly(l);
      PrintIsSqlFreeExactly(r);
      PrintedBinarySql(l, op, r);
    case _ =>
  }

  /** Round trip: a printed tree is parsed back to itself if and only if arithmetic in it is
      applied to atoms, calls and arithmetic only, and its names and strings are free of SQL. */
  lemma PrintThenParse(e: Expr)
    requires Printable(e)
    ensures ParseExpr(Text(Print(e))) == Ok(e) <==> ArithmeticOverNumbers(e) && SqlFree(e)
  {
    PrintIsGrammatical(e);
    PrintIsSoundExactly(e);
    NothingIsSwallowed(e);
    PrintIsSqlFreeExactly(e);
    ParseExprExactly([], Print(e), []);
    Unpadded(Text(Print(e)));
  }

  // ---------------------------------------------------------------- words that change meaning

  lemma IdentifierIsAtom(name: string)
    requires IsIdentifier(name)
    ensures ParseOperand(name) == ParseAtom(name)
  {
    IdentifierStart(name);
    assert name[|name| - 1] in name;
    TrimTrimmed(name);
    forall k | 1 <= k < |name| ensures name[k] != '(' { assert name[k] in name; }
    NoAggregation(name);
  }

  predicate LiteralWord(name: string) {
    SameText(name, "TRUE") || SameText(name, "FALSE") || SameText(name, "NULL")
  }

  lemma AtomsExactly(name: string)
    requires IsIdentifier(name) && ParseI64(name).None? && name[0] != '\'' && name[0] != '{'
    ensures ParseAtom(name) == ParseTopAtom(name) <==> LiteralWord(name) || ParseF64(name).None?
  {
    NotBraced(name);
  }

  /** An identifier is the same as an operand and alone, unless it spells a float. */
  lemma FloatWordsExactly(name: string)
    requires IsIdentifier(name)
    ensures ParseOperand(name) == ParseTopAtom(name) <==> !FloatWord(name)
  {
    IdentifierIsAtom(name);
    IdentifierNumbers(name);
    AtomsExactly(name);
  }
}
