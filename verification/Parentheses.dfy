/**
 Parentheses around any text: when the parser drops them, and what a parenthesis in quotes does.
 */
module Parentheses {
  import opened Wrappers
  import opened Exprs
  import opened Scanner
  import opened DslParser
  import opened Grammar
  import opened RoundTrip
  import opened CallTexts
  import opened GrammarParsing
  import opened ParserTheorems

  // ---------------------------------------------------------------- what the splitters look for

  /** Text remains on both sides of the characters at pos. */
  predicate HasSides(s: string, pos: nat, len: nat) {
    pos + len <= |s| && Trim(s[..pos]) != [] && Trim(s[pos + len..]) != []
  }

  predicate SplitsAtKeyword(s: string, kw: string) {
    LastKeyword(s, kw).Some? && HasSides(s, LastKeyword(s, kw).value, |kw|)
  }

  predicate SplitsAtComparison(s: string) {
    && LastComparison(s).Some?
    && HasSides(s, LastComparison(s).value, ComparisonAt(s, LastComparison(s).value).value.0)
  }

  predicate SplitsAtArithmetic(s: string) {
    var pos := OrElse(LastAddSub(s), LastMulDiv(s));
    pos.Some? && HasSides(s, pos.value, 1)
  }

  /** The text ends in IS NOT NULL or IS NULL after something. */
  predicate IsNullTest(s: string) {
    if EndsWith(s, IS_NOT_NULL) then Trim(s[..|s| - |IS_NOT_NULL|]) != []
    else EndsWith(s, IS_NULL) && Trim(s[..|s| - |IS_NULL|]) != []
  }

  predicate IsNegation(s: string) {
    StartsWith(s, NOT_PREFIX) && Trim(s[|NOT_PREFIX|..]) != []
  }

  /** The text begins with the call of a function and ends in a parenthesis. */
  ghost predicate IsCall(s: string) {
    CallHead(s) && Ends(s, true)
  }

  /** A call, or arithmetic without a looser operator. */
  ghost predicate CallOrArithmetic(s: string) {
    || IsCall(s)
    || (&& !SplitsAtKeyword(s, "OR") && !SplitsAtKeyword(s, "AND") && !SplitsAtComparison(s)
        && !IsNullTest(s) && !IsNegation(s) && SplitsAtArithmetic(s))
  }

  lemma CallsExactly(s: string)
    ensures TryAggregation(s).Some? <==> IsCall(s)
  {
    OnlyCalls(s);
    if IsCall(s) {
      var f :| CallBy(s, f);
      CallIsTaken(s, f);
    }
  }

  lemma KeywordsExactly(s: string)
    ensures TryKeyword(s, "OR", Or).Some? <==> SplitsAtKeyword(s, "OR")
    ensures TryKeyword(s, "AND", And).Some? <==> SplitsAtKeyword(s, "AND")
  {
    if LastKeyword(s, "OR").Some? { assert KeywordAt(s, "OR", LastKeyword(s, "OR").value); }
    if LastKeyword(s, "AND").Some? { assert KeywordAt(s, "AND", LastKeyword(s, "AND").value); }
  }

  lemma ComparisonsExactly(s: string)
    ensures TryComparison(s).Some? <==> SplitsAtComparison(s)
  {
  }

  lemma WordsExactly(s: string)
    ensures (TryIsNull(s).Some? <==> IsNullTest(s)) && (TryNot(s).Some? <==> IsNegation(s))
  {
  }

  lemma ArithmeticExactly(s: string)
    ensures TryArithmetic(s).Some? <==> SplitsAtArithmetic(s)
  {
  }

  // ---------------------------------------------------------------- parentheses around any text

  function OrDefault(r: Option<Expr>, otherwise: Expr): Expr {
    match r case Some(e) => e case None => otherwise
  }

  /** Parentheses whose contents seem unbalanced are left to the operand parser. */
  lemma UnbalancedParens(s: string)
    requires Closed(s) && !RawBalanced(s)
    ensures ParsePredicateOperand(InParens(s)) ==
            OrDefault(OrElse(TryAggregation(s), TryArithmetic(s)), EntityRef(InParens(s)))
  {
    var t := InParens(s);
    InsideParens(s);
    TrimTrimmed(t);
    EndsOutsideWords(t);
    OutsideLead(t);
    NoAggregation(t);
    InParensIsClosed(s);
    NestedIsOperatorFree(t);
    LooserOperatorsAbsent(t, 6);
    ParenOperand(s);
  }

  lemma OperandIsShort(s: string)
    ensures ParseOperand(s).EntityRef? ==> |ParseOperand(s).name| <= |s|
  {
  }

  /** What the splitters for predicates return. */
  predicate IsPredicate(r: Option<Expr>) {
    r.Some? ==> !r.value.EntityRef? && (r.value.Binary? ==> IsLogical(r.value.op) || IsComparison(r.value.op))
  }

  lemma SplitIsBinary(s: string, pos: nat, len: nat, op: BinaryOp)
    requires len > 0 && pos + len <= |s|
    ensures SplitAt(s, pos, len, op).Some? ==>
              SplitAt(s, pos, len, op).value.Binary? && SplitAt(s, pos, len, op).value.op == op
  {
  }

  lemma SplitsArePredicates(s: string)
    ensures IsPredicate(TryKeyword(s, "OR", Or)) && IsPredicate(TryKeyword(s, "AND", And))
    ensures IsPredicate(TryComparison(s))
  {
    if LastKeyword(s, "OR").Some? {
      assert KeywordAt(s, "OR", LastKeyword(s, "OR").value);
      SplitIsBinary(s, LastKeyword(s, "OR").value, 2, Or);
    }
    if LastKeyword(s, "AND").Some? {
      assert KeywordAt(s, "AND", LastKeyword(s, "AND").value);
      SplitIsBinary(s, LastKeyword(s, "AND").value, 3, And);
    }
    if LastComparison(s).Some? {
      var (len, op) := ComparisonAt(s, LastComparison(s).value).value;
      SplitIsBinary(s, LastComparison(s).value, len, op);
    }
  }

  lemma WordsArePredicates(s: string)
    ensures IsPredicate(TryIsNull(s)) && IsPredicate(TryNot(s))
  {
  }

  /** Whatever is found is a predicate, unless the text is a call or arithmetic. */
  lemma OperatorKinds(s: string)
    ensures CallOrArithmetic(s) ==>
              TryOperators(s).Some? && TryOperators(s) == OrElse(TryAggregation(s), TryArithmetic(s))
    ensures !CallOrArithmetic(s) ==> TryAggregation(s).None? && IsPredicate(TryOperators(s))
  {
    CallsExactly(s);
    KeywordsExactly(s);
    ComparisonsExactly(s);
    WordsExactly(s);
    ArithmeticExactly(s);
    SplitsArePredicates(s);
    WordsArePredicates(s);
  }

  lemma InsideUnbalanced(s: string)
    requires Parenthesised(s) && !RawBalanced(s)
    ensures !RawBalanced(Inside(s))
  {
    var inner := Inside(s);
    assert InParens(inner) == s;
    if RawBalanced(inner) { InParensRawBalanced(inner); }
  }

  lemma UnbalancedOperand(s: string)
    requires !RawBalanced(s) && Trim(s) == s
    ensures ParsePredicateOperand(s) == OrDefault(TryOperators(s), ParseOperand(s))
  {
    if Parenthesised(s) { InsideUnbalanced(s); }
  }

  lemma BalancedParens(s: string)
    requires RawBalanced(s)
    ensures ParsePredicateOperand(InParens(s)) == ParsePredicateOperand(s)
  {
    InsideParens(s);
    TrimTrimmed(InParens(s));
  }

  /** Without any operator there is no arithmetic. */
  lemma NothingFound(s: string)
    ensures TryOperators(s).None? ==> TryArithmetic(s).None?
  {
  }

  /** Whatever is found in the text is found in the parentheses. */
  lemma UnbalancedSame(s: string)
    requires Closed(s) && !RawBalanced(s) && Trim(s) == s && CallOrArithmetic(s)
    ensures ParsePredicateOperand(InParens(s)) == ParsePredicateOperand(s)
  {
    OperatorKinds(s);
    UnbalancedParens(s);
    UnbalancedOperand(s);
  }

  lemma ReadingsDiffer(arithmetic: Option<Expr>, t: string, found: Option<Expr>, operand: Expr)
    requires arithmetic.Some? ==> arithmetic.value.Binary? && IsArithmetic(arithmetic.value.op) && found.Some?
    requires IsPredicate(found) && (operand.EntityRef? ==> |operand.name| < |t|)
    ensures OrDefault(arithmetic, EntityRef(t)) != OrDefault(found, operand)
  {
  }

  /** A predicate is lost, and an atom is read with its parentheses. */
  lemma UnbalancedDiffers(s: string)
    requires Closed(s) && !RawBalanced(s) && Trim(s) == s && !CallOrArithmetic(s)
    ensures ParsePredicateOperand(InParens(s)) != ParsePredicateOperand(s)
  {
    OperatorKinds(s);
    ArithmeticIsBinary(s);
    OperandIsShort(s);
    NothingFound(s);
    UnbalancedParens(s);
    UnbalancedOperand(s);
    ReadingsDiffer(TryArithmetic(s), InParens(s), TryOperators(s), ParseOperand(s));
  }

  /** Parentheses around any closed text change nothing if and only if its parentheses balance
      when those in quotes are counted too, or the text is a call, or arithmetic without a looser
      operator. */
  lemma ParenthesesExactly(s: string)
    requires Closed(s) && Trim(s) == s
    ensures ParsePredicateOperand(InParens(s)) == ParsePredicateOperand(s) <==> RawBalanced(s) || CallOrArithmetic(s)
  {
    if RawBalanced(s) {
      BalancedParens(s);
    } else if CallOrArithmetic(s) {
      UnbalancedSame(s);
    } else {
      UnbalancedDiffers(s);
    }
  }

  const CLOSING := Quoted(")")

  lemma ClosingIsUnbalanced()
    ensures Closed("x = " + CLOSING) && !RawBalanced("x = " + CLOSING)
  {
    PlainIsBalanced("x = ");
    QuotedIsClosed(")");
    ClosedConcat("x = ", CLOSING);
    RawConcat("x = ", CLOSING, 6);
    assert RawDepth(CLOSING, 1) == 0 && RawDepth(CLOSING, 2) == -1;
  }

  lemma NoOperandFound(s: string)
    requires |s| > 1 && !IsWord(s[1]) && s[1] != '(' && forall c :: c in s ==> !IsArithChar(c)
    ensures OrElse(TryAggregation(s), TryArithmetic(s)) == None
  {
    NoArithChars(s);
    NoArithmetic(s);
    NoAggregation(s);
  }

  /** The comparison (x = ')') is taken for a name in parentheses. */
  lemma ParenInString()
    ensures var t := InParens("x = " + CLOSING); ParsePredicateOperand(t) == EntityRef(t)
  {
    ClosingIsUnbalanced();
    NoOperandFound("x = " + CLOSING);
    UnbalancedParens("x = " + CLOSING);
  }
}
