/**
 What the parser makes of every text of the grammar.
 */
module GrammarParsing {
  import opened Wrappers
  import opened Exprs
  import opened Scanner
  import opened DslParser
  import opened Numerals
  import opened Grammar
  import opened RoundTrip
  import opened CallTexts

  // ---------------------------------------------------------------- what is not there

  lemma NoArithmetic(t: string)
    requires NoArith(t)
    ensures TryArithmetic(t) == None
  {
    forall i: nat ensures !AddSubAt(t, i) && !MulDivAt(t, i) { assert !ArithAt(t, i); }
    assert LastAddSub(t) == None && LastMulDiv(t) == None;
  }

  lemma NoNullTest(t: string)
    requires TailFree(t)
    ensures TryIsNull(t) == None
  {
  }

  lemma NoKeywordSplit(t: string, kw: string, op: BinaryOp)
    requires NoKeyword(t, kw) && kw != []
    ensures TryKeyword(t, kw, op) == None
  {
    assert LastKeyword(t, kw) == None;
  }

  lemma NoComparisonSplit(t: string)
    requires NoComparison(t)
    ensures TryComparison(t) == None
  {
    assert LastComparison(t) == None;
  }

  /** Operators looser than the level of the text are not found in it. */
  lemma LooserOperatorsAbsent(t: string, level: nat)
    requires OperatorFree(t, level)
    requires (level >= 4 ==> TailFree(t)) && (level >= 5 ==> HeadFree(t))
    ensures level >= 1 ==> TryKeyword(t, "OR", Or) == None
    ensures level >= 2 ==> TryKeyword(t, "AND", And) == None
    ensures level >= 3 ==> TryComparison(t) == None
    ensures level >= 4 ==> TryIsNull(t) == None
    ensures level >= 5 ==> TryNot(t) == None
    ensures level >= 6 ==> TryArithmetic(t) == None && TryOperators(t) == TryAggregation(t)
  {
    if level >= 1 { NoKeywordSplit(t, "OR", Or); }
    if level >= 2 { NoKeywordSplit(t, "AND", And); }
    if level >= 3 { NoComparisonSplit(t); }
    if level >= 4 { NoNullTest(t); }
    if level >= 6 { NoArithmetic(t); }
  }

  // ---------------------------------------------------------------- where the split is

  lemma SpelledKeyword(w: string, kw: string, i: nat)
    requires KeywordText(kw) && SameText(w, kw)
    ensures KeywordAt(w, kw, i) <==> i == 0
  {
    SpelledIsQuiet(w, kw, 0);
    assert w[0] in w && w[0..|kw|] == w;
    assert TopAt(w, 0);
  }

  lemma KeywordFromSplit(a: string, w: string, b: string, kw: string, i: nat)
    requires Closed(a) && KeywordText(kw) && SameText(w, kw) && NoKeyword(b, kw)
    requires WordSeam(a, w) && WordSeam(w, b) && i >= |a|
    ensures KeywordAt(a + (w + b), kw, i) <==> i == |a|
  {
    SpelledIsQuiet(w, kw, 0);
    KeywordSplit(a, w + b, kw, i);
    KeywordSplit(w, b, kw, i - |a|);
    SpelledKeyword(w, kw, i - |a|);
  }

  lemma KeywordIsTheSplit(a: string, w: string, b: string, kw: string)
    requires Closed(a) && KeywordText(kw) && SameText(w, kw) && NoKeyword(b, kw)
    requires WordSeam(a, w) && WordSeam(w, b)
    ensures LastKeyword(a + (w + b), kw) == Some(|a|)
  {
    var t := a + (w + b);
    forall i: nat | i >= |a| ensures KeywordAt(t, kw, i) <==> i == |a| { KeywordFromSplit(a, w, b, kw, i); }
    assert KeywordHits(t, kw)(|a|);
  }

  lemma ComparisonIsTheSplit(a: string, op: BinaryOp, b: string)
    requires Closed(a) && IsComparison(op) && NoComparison(b)
    requires OperatorSeam(a, OpText(op)) && OperatorSeam(OpText(op), b)
    ensures var t := a + (OpText(op) + b);
            LastComparison(t) == Some(|a|) && ComparisonAt(t, |a|) == Some((|OpText(op)|, op))
  {
    var w := OpText(op);
    var t := a + (w + b);
    PlainIsClosed(w);
    assert ComparisonAt(w, 0) == Some((|w|, op));
    assert forall j: nat :: j >= 1 ==> ComparisonAt(w, j).None?;
    forall i: nat | i >= |a| ensures ComparisonAt(t, i) == if i == |a| then Some((|w|, op)) else None {
      ComparisonSplit(a, w + b, i);
      ComparisonSplit(w, b, i - |a|);
    }
    assert ComparisonHits(t)(|a|);
  }

  /** A sign at the start of a text that stands right behind a space. */
  predicate SignBehind(before: string, s: string) {
    EndsInSpace(before) && s != [] && IsSign(s[0])
  }

  predicate IsAdditive(op: BinaryOp) { op.Add? || op.Subtract? }

  /** Inside an operand only its first sign can be an operator, and only behind a space. */
  lemma OperandHits(u: string, a: string, v: string, k: nat)
    requires Closed(u) && Closed(a) && SignsInside(a) && k < |a|
    ensures AddSubAt(u + (a + v), |u| + k) <==> k == 0 && SignBehind(u, a)
    ensures !MulDivAt(u + (a + v), |u| + k)
  {
    Neighbours(u, a, v, k);
    ArithSplit(u, a + v, |u| + k);
    ArithSplit(a, v, k);
    assert k == 0 && IsSign(a[0]) ==> ArithAt(a, 0);
  }

  /** The characters at and beside a position of the middle text. */
  lemma Neighbours(u: string, a: string, v: string, k: nat)
    requires k < |a|
    ensures var (t, i) := (u + (a + v), |u| + k);
            && t[i] == a[k] && (k > 0 ==> t[i - 1] == a[k - 1]) && (k + 1 < |a| ==> t[i + 1] == a[k + 1])
            && (k == 0 && u != [] ==> t[i - 1] == u[|u| - 1])
  {
  }

  lemma SpaceIsNoHit(t: string, i: nat)
    requires i < |t| && IsSpace(t[i])
    ensures !AddSubAt(t, i) && !MulDivAt(t, i)
  {
  }

  lemma OperatorHit(left: string, op: BinaryOp, right: string)
    requires Closed(left) && left != [] && IsArithmetic(op) && SetOff(op, left, right)
    ensures var t := left + (OpText(op) + right);
            (AddSubAt(t, |left|) <==> IsAdditive(op)) && (MulDivAt(t, |left|) <==> !IsAdditive(op))
  {
    var w := OpText(op);
    var t := left + (w + right);
    PlainIsClosed(w);
    TopConcat(left, w + right, |left|);
    TopConcat(w, right, 0);
    assert |w| == 1 && t[|left|] == w[0] && t[|left| - 1] == left[|left| - 1];
    assert right != [] ==> t[|left| + 1] == right[0];
  }

  /** The two operands of an arithmetic operator, with white space around everything. */
  ghost predicate Operands(x: string, a: string, before: string, op: BinaryOp, after: string, b: string, y: string) {
    && Facts(a, 5) && SignsInside(a) && Facts(b, 5) && SignsInside(b) && IsArithmetic(op) && SetOff(op, before, after)
    && Blank(x) && Blank(before) && Blank(after) && Blank(y)
  }

  function ArithText(x: string, a: string, before: string, op: BinaryOp, after: string, b: string, y: string): string {
    Padded(x, a, before) + (OpText(op) + Padded(after, b, y))
  }

  lemma LeftHits(x: string, a: string, before: string, rest: string, i: nat)
    requires Closed(x) && Closed(a) && SignsInside(a) && Blank(x) && Blank(before) && i < |x| + |a| + |before|
    ensures var t := x + (a + (before + rest));
            (AddSubAt(t, i) <==> i == |x| && SignBehind(x, a)) && !MulDivAt(t, i)
  {
    if |x| <= i < |x| + |a| {
      OperandHits(x, a, before + rest, i - |x|);
    } else {
      assert i < |x| ==> x[i] in x;
      assert i >= |x| ==> before[i - |x| - |a|] in before;
      SpaceIsNoHit(x + (a + (before + rest)), i);
    }
  }

  lemma RightHits(left: string, after: string, b: string, y: string, i: nat)
    requires Closed(left + after) && Closed(b) && SignsInside(b) && Blank(after) && Blank(y)
    requires |left| <= i < |left| + |after| + |b| + |y|
    ensures var t := (left + after) + (b + y);
            && (AddSubAt(t, i) <==> i == |left| + |after| && SignBehind(left + after, b)) && !MulDivAt(t, i)
  {
    var n := |left| + |after|;
    if n <= i < n + |b| {
      OperandHits(left + after, b, y, i - n);
    } else {
      assert i < n ==> after[i - |left|] in after;
      assert i >= n ==> y[i - n - |b|] in y;
      SpaceIsNoHit((left + after) + (b + y), i);
    }
  }

  lemma MiddleHit(x: string, a: string, before: string, op: BinaryOp, after: string, b: string, y: string)
    requires Operands(x, a, before, op, after, b, y)
    ensures var t := ArithText(x, a, before, op, after, b, y);
            var n := |Padded(x, a, before)|;
            (AddSubAt(t, n) <==> IsAdditive(op)) && (MulDivAt(t, n) <==> !IsAdditive(op))
  {
    var left, right := Padded(x, a, before), Padded(after, b, y);
    PaddedIsQuiet(x, a, before, 5);
    assert before != [] ==> left[|left| - 1] == before[|before| - 1];
    assert after != [] ==> right[0] == after[0];
    OperatorHit(left, op, right);
  }

  lemma BehindOperator(left: string, w: string, after: string, b: string, y: string)
    requires Closed(left) && Plain(w) && w != [] && w[|w| - 1] != ' ' && Blank(after)
    ensures Closed((left + w) + after) && (EndsInSpace((left + w) + after) <==> EndsInSpace(after))
    ensures left + (w + Padded(after, b, y)) == ((left + w) + after) + (b + y)
  {
    PlainIsClosed(w);
    BlankIsQuiet(after);
    ClosedConcat(left, w);
    ClosedConcat(left + w, after);
  }

  lemma BeforeOperator(x: string, a: string, before: string, rest: string)
    ensures Padded(x, a, before) + rest == x + (a + (before + rest))
  {
  }

  /** Where the operators are: the written one, and a sign behind a space on either side. */
  lemma ArithmeticHits(x: string, a: string, before: string, op: BinaryOp, after: string, b: string, y: string, i: nat)
    requires Operands(x, a, before, op, after, b, y)
    ensures var t := ArithText(x, a, before, op, after, b, y);
            var n := |Padded(x, a, before)|;
            && (AddSubAt(t, i) <==>
                || (i == n && IsAdditive(op)) || (i == |x| && SignBehind(x, a))
                || (i == n + 1 + |after| && SignBehind(after, b)))
            && (MulDivAt(t, i) <==> i == n && !IsAdditive(op))
  {
    var left := Padded(x, a, before);
    if i < |left| {
      BlankIsQuiet(x);
      BeforeOperator(x, a, before, OpText(op) + Padded(after, b, y));
      LeftHits(x, a, before, OpText(op) + Padded(after, b, y), i);
    } else if i == |left| {
      MiddleHit(x, a, before, op, after, b, y);
    } else {
      PaddedIsQuiet(x, a, before, 5);
      BehindOperator(left, OpText(op), after, b, y);
      if i < |ArithText(x, a, before, op, after, b, y)| {
        RightHits(left + OpText(op), after, b, y, i);
      }
    }
  }

  // ---------------------------------------------------------------- parsing one node

  /** What stands on both sides of the split, and how it trims. */
  lemma InfixParts(a: string, before: string, w: string, after: string, b: string)
    requires Blank(before) && Blank(after) && Trimmed(a) && Trimmed(b)
    ensures var t := Infix(a, before, w, after, b);
            var n := |a + before|;
            Trim(t[..n]) == a && Trim(t[n + |w|..]) == b
  {
    var t := Infix(a, before, w, after, b);
    assert t[..|a + before|] == Padded([], a, before);
    assert t[|a + before| + |w|..] == Padded(after, b, []);
    TrimPadded([], a, before);
    TrimPadded(after, b, []);
  }

  lemma LeftSide(a: string, before: string, op: string, level: nat)
    requires Facts(a, level) && Blank(before)
    ensures Quiet(a + before, level) && OperatorSeam(a + before, op)
  {
    BlankIsQuiet(before);
    QuietConcat(a, before, level);
  }

  lemma RightSide(op: string, after: string, b: string, level: nat)
    requires Facts(b, level) && Blank(after)
    ensures Quiet(after + b, level) && OperatorSeam(op, after + b)
  {
    BlankIsQuiet(after);
    QuietConcat(after, b, level);
  }

  lemma InfixSplit(a: string, before: string, w: string, after: string, b: string, op: BinaryOp)
    requires Blank(before) && Blank(after) && Trimmed(a) && Trimmed(b) && w != []
    ensures SplitAt(Infix(a, before, w, after, b), |a + before|, |w|, op) ==
            Some(Binary(ParsePredicateOperand(a), op, ParsePredicateOperand(b)))
  {
    InfixParts(a, before, w, after, b);
  }

  lemma KeywordIsTaken(s: string, pos: nat, conn: Connective)
    requires LastKeyword(s, conn.Word()) == Some(pos) && pos + |conn.Word()| <= |s|
    ensures TryKeyword(s, conn.Word(), conn.Op()) == SplitAt(s, pos, |conn.Word()|, conn.Op())
  {
  }

  lemma ComparisonIsTaken(s: string, pos: nat, len: nat, op: BinaryOp)
    requires LastComparison(s) == Some(pos) && ComparisonAt(s, pos) == Some((len, op)) && len > 0 && pos + len <= |s|
    ensures TryComparison(s) == SplitAt(s, pos, len, op)
  {
  }

  lemma ParseConnective(conn: Connective, a: string, before: string, word: string, after: string, b: string)
    requires Facts(a, conn.MinLevel() - 1) && Facts(b, conn.MinLevel())
    requires SameText(word, conn.Word()) && Seams(a, before, word, after, b)
    ensures var t := Infix(a, before, word, after, b);
            TryOperators(t) ==
            OrElse(TryAggregation(t), Some(Binary(ParsePredicateOperand(a), conn.Op(), ParsePredicateOperand(b))))
  {
    var t := Infix(a, before, word, after, b);
    ConnectiveIsFound(conn, a, before, word, after, b);
    InfixSplit(a, before, word, after, b, conn.Op());
    KeywordIsTaken(t, |a + before|, conn);
    ConnectiveFacts(conn, a, before, word, after, b);
    LooserOperatorsAbsent(t, conn.MinLevel() - 1);
  }

  lemma ConnectiveIsFound(conn: Connective, a: string, before: string, word: string, after: string, b: string)
    requires Facts(a, conn.MinLevel() - 1) && Facts(b, conn.MinLevel())
    requires SameText(word, conn.Word()) && Seams(a, before, word, after, b)
    ensures LastKeyword(Infix(a, before, word, after, b), conn.Word()) == Some(|a + before|)
  {
    LeftSide(a, before, word, conn.MinLevel() - 1);
    RightSide(word, after, b, conn.MinLevel());
    KeywordIsTheSplit(a + before, word, after + b, conn.Word());
  }

  lemma ParseComparison(a: string, before: string, op: BinaryOp, after: string, b: string)
    requires Facts(a, 2) && Facts(b, 3) && IsComparison(op) && Blank(before) && Blank(after)
    ensures var t := Infix(a, before, OpText(op), after, b);
            TryOperators(t) ==
            OrElse(TryAggregation(t), Some(Binary(ParsePredicateOperand(a), op, ParsePredicateOperand(b))))
  {
    var t := Infix(a, before, OpText(op), after, b);
    ComparisonIsFound(a, before, op, after, b);
    InfixSplit(a, before, OpText(op), after, b, op);
    ComparisonIsTaken(t, |a + before|, |OpText(op)|, op);
    SymbolFacts(a, 2, before, op, after, b, 3, 2);
    LooserOperatorsAbsent(t, 2);
  }

  lemma ComparisonIsFound(a: string, before: string, op: BinaryOp, after: string, b: string)
    requires Facts(a, 2) && Facts(b, 3) && IsComparison(op) && Blank(before) && Blank(after)
    ensures var t := Infix(a, before, OpText(op), after, b);
            LastComparison(t) == Some(|a + before|) && ComparisonAt(t, |a + before|) == Some((|OpText(op)|, op))
  {
    LeftSide(a, before, OpText(op), 2);
    RightSide(OpText(op), after, b, 3);
    ComparisonIsTheSplit(a + before, op, after + b);
  }

  lemma EndsWithSpelled(t: string, words: string, upper: string)
    requires SameText(words, upper) && |t| > |words| && t[|t| - |words|..] == words && t[|t| - |words| - 1] == ' '
    ensures EndsWith(t, " " + upper)
  {
    var n := |t| - |words| - 1;
    assert t[n..] == [' '] + words;
  }

  /** The letter that tells IS NOT NULL from IS NULL. */
  lemma TellingLetter(t: string, words: string, negated: bool)
    requires SameText(words, NullWords(negated)) && |t| > |words| && t[|t| - |words|..] == words
    ensures Upper(t[|t| - 6]) == if negated then 'T' else 'S'
  {
    var n := |words|;
    assert words[n - 6] == t[|t| - 6] && Upper(words[n - 6]) == Upper(NullWords(negated)[n - 6]);
  }

  /** The suffix test finds exactly the spelled words with the space in front of them. */
  lemma NullSuffix(t: string, words: string, negated: bool)
    requires SameText(words, NullWords(negated)) && |t| > |words| && t[|t| - |words|..] == words
    requires t[|t| - |words| - 1] == ' '
    ensures EndsWith(t, IS_NOT_NULL) <==> negated
    ensures EndsWith(t, IS_NULL) <==> !negated
  {
    assert IS_NULL == " " + NullWords(false) && IS_NOT_NULL == " " + NullWords(true);
    EndsWithSpelled(t, words, NullWords(negated));
    TellingLetter(t, words, negated);
    if EndsWith(t, IS_NULL) { SuffixChar(t, IS_NULL, 2); }
    if EndsWith(t, IS_NOT_NULL) { SuffixChar(t, IS_NOT_NULL, 6); }
  }

  lemma TakeNotNull(t: string, a: string)
    requires EndsWith(t, IS_NOT_NULL) && Trim(t[..|t| - |IS_NOT_NULL|]) == a != []
    ensures TryIsNull(t) == Some(IsNotNull(ParsePredicateOperand(a)))
  {
  }

  lemma TakeNull(t: string, a: string)
    requires !EndsWith(t, IS_NOT_NULL) && EndsWith(t, IS_NULL) && Trim(t[..|t| - |IS_NULL|]) == a != []
    ensures TryIsNull(t) == Some(IsNull(ParsePredicateOperand(a)))
  {
  }

  lemma SplitAtNull(t: string, words: string, negated: bool, a: string)
    requires SameText(words, NullWords(negated)) && |t| > |words| && t[|t| - |words|..] == words
    requires t[|t| - |words| - 1] == ' ' && Trim(t[..|t| - |words| - 1]) == a != []
    ensures TryIsNull(t) ==
            Some(if negated then IsNotNull(ParsePredicateOperand(a)) else IsNull(ParsePredicateOperand(a)))
  {
    NullSuffix(t, words, negated);
    if negated { TakeNotNull(t, a); } else { TakeNull(t, a); }
  }

  lemma NullIsFound(a: string, before: string, words: string, negated: bool)
    requires Trimmed(a) && SameText(words, NullWords(negated))
    requires Blank(before) && before != [] && before[|before| - 1] == ' '
    ensures TryIsNull((a + before) + words) ==
            Some(if negated then IsNotNull(ParsePredicateOperand(a)) else IsNull(ParsePredicateOperand(a)))
  {
    var t := (a + before) + words;
    var gap := before[..|before| - 1];
    assert t[..|t| - |words| - 1] == Padded([], a, gap);
    TrimPadded([], a, gap);
    SplitAtNull(t, words, negated, a);
  }

  lemma ParseNullTest(a: string, before: string, words: string, negated: bool)
    requires Facts(a, 3) && SameText(words, NullWords(negated))
    requires Blank(before) && before != [] && before[|before| - 1] == ' '
    ensures var t := (a + before) + words;
            var e := ParsePredicateOperand(a);
            TryOperators(t) == OrElse(TryAggregation(t), Some(if negated then IsNotNull(e) else IsNull(e)))
  {
    var t := (a + before) + words;
    NullTestFacts(a, 3, before, words, negated);
    LooserOperatorsAbsent(t, 3);
    NullIsFound(a, before, words, negated);
  }

  lemma SplitAtNot(t: string, a: string)
    requires StartsWith(t, NOT_PREFIX) && Trim(t[4..]) == a != []
    ensures TryNot(t) == Some(Not(ParsePredicateOperand(a)))
  {
  }

  lemma ParseNot(word: string, after: string, a: string)
    requires Facts(a, 4) && SameText(word, "NOT") && Blank(after) && after != [] && after[0] == ' '
    ensures TryOperators(word + (after + a)) ==
            OrElse(TryAggregation(word + (after + a)), Some(Not(ParsePredicateOperand(a))))
  {
    var t := word + (after + a);
    assert NOT_PREFIX == "NOT" + " " && t[..4] == word + [' '];
    assert t[4..] == Padded(after[1..], a, []);
    TrimPadded(after[1..], a, []);
    SplitAtNot(t, a);
    NotFacts(word, after, a, 4);
    LooserOperatorsAbsent(t, 4);
  }

  /** White space outside an operator joins the white space inside. */
  lemma PaddedInfix(x: string, a: string, before: string, w: string, after: string, b: string, y: string)
    ensures Padded(x, Infix(a, before, w, after, b), y) == Padded(x, a, before) + (w + Padded(after, b, y))
  {
  }

  lemma SplitAtArithmetic(s: string, pos: nat, left: string, right: string)
    requires OrElse(LastAddSub(s), LastMulDiv(s)) == Some(pos) && pos < |s|
    requires Trim(s[..pos]) == left != [] && Trim(s[pos + 1..]) == right != []
    ensures TryArithmetic(s) == Some(Binary(ParseOperand(left), ArithmeticOp(s[pos]), ParseOperand(right)))
  {
  }

  /** The position that arithmetic is split at. */
  lemma ArithmeticSplit(x: string, a: string, before: string, op: BinaryOp, after: string, b: string, y: string)
    requires Operands(x, a, before, op, after, b, y)
    ensures var t := ArithText(x, a, before, op, after, b, y);
            var n := |Padded(x, a, before)|;
            OrElse(LastAddSub(t), LastMulDiv(t)) ==
            Some(if SignBehind(after, b) then n + 1 + |after|
                 else if IsAdditive(op) || !SignBehind(x, a) then n else |x|)
  {
    var t := ArithText(x, a, before, op, after, b, y);
    var n := |Padded(x, a, before)|;
    forall i: nat
      ensures AddSubAt(t, i) <==> (i == n && IsAdditive(op)) || (i == |x| && SignBehind(x, a))
                                  || (i == n + 1 + |after| && SignBehind(after, b))
      ensures MulDivAt(t, i) <==> i == n && !IsAdditive(op)
    {
      ArithmeticHits(x, a, before, op, after, b, y, i);
    }
    assert AddSubHits(t)(n + 1 + |after|) <==> AddSubAt(t, n + 1 + |after|);
    assert AddSubHits(t)(n) <==> AddSubAt(t, n);
    assert AddSubHits(t)(|x|) <==> AddSubAt(t, |x|);
    assert MulDivHits(t)(n) <==> MulDivAt(t, n);
  }

  lemma OperatorParts(x: string, a: string, before: string, op: BinaryOp, after: string, b: string, y: string)
    requires Trimmed(a) && Trimmed(b) && IsArithmetic(op) && Blank(x) && Blank(before) && Blank(after) && Blank(y)
    ensures var t := ArithText(x, a, before, op, after, b, y);
            var n := |Padded(x, a, before)|;
            n < |t| && ArithmeticOp(t[n]) == op && Trim(t[..n]) == a && Trim(t[n + 1..]) == b
  {
    TrimPadded(x, a, before);
    TrimPadded(after, b, y);
    CutAtOperator(Padded(x, a, before), op, Padded(after, b, y));
  }

  lemma CutAtOperator(left: string, op: BinaryOp, right: string)
    requires IsArithmetic(op)
    ensures var t := left + (OpText(op) + right);
            |left| < |t| && t[..|left|] == left && t[|left| + 1..] == right && ArithmeticOp(t[|left|]) == op
  {
    assert |OpText(op)| == 1 && (left + (OpText(op) + right))[|left|] == OpText(op)[0];
  }

  /** The text is split at its operator. */
  lemma SplitAtOperator(x: string, a: string, before: string, op: BinaryOp, after: string, b: string, y: string)
    requires Operands(x, a, before, op, after, b, y)
    requires !SignBehind(after, b) && (IsAdditive(op) || !SignBehind(x, a))
    ensures TryArithmetic(ArithText(x, a, before, op, after, b, y)) ==
            Some(Binary(ParseOperand(a), op, ParseOperand(b)))
  {
    ArithmeticSplit(x, a, before, op, after, b, y);
    OperatorParts(x, a, before, op, after, b, y);
    SplitAtArithmetic(ArithText(x, a, before, op, after, b, y), |Padded(x, a, before)|, a, b);
  }

  /** Everything before a sign behind a space, and everything after it. */
  lemma SignParts(x: string, a: string, before: string, op: BinaryOp, after: string, b: string, y: string)
    requires Trimmed(a) && Trimmed(b) && |b| > 1 && !IsSpace(b[1]) && IsArithmetic(op)
    requires Blank(x) && Blank(after) && Blank(y)
    ensures var t := ArithText(x, a, before, op, after, b, y);
            var m := |Padded(x, a, before)| + 1 + |after|;
            m < |t| && t[m] == b[0] && Trim(t[..m]) == (a + before) + OpText(op) && Trim(t[m + 1..]) == b[1..] != []
  {
    var head := (a + before) + OpText(op);
    CutAtSign(x, a, before, OpText(op), after, b, y);
    TrimPadded(x, head, after);
    TrimPadded([], b[1..], y);
  }

  lemma CutAtSign(x: string, a: string, before: string, w: string, after: string, b: string, y: string)
    requires b != []
    ensures var t := Padded(x, a, before) + (w + Padded(after, b, y));
            var m := |Padded(x, a, before)| + |w| + |after|;
            && m < |t| && t[m] == b[0]
            && t[..m] == Padded(x, (a + before) + w, after) && t[m + 1..] == Padded([], b[1..], y)
  {
    var head := Padded(x, (a + before) + w, after);
    var t := Padded(x, a, before) + (w + Padded(after, b, y));
    assert t == head + (b + y);
    assert b + y == [b[0]] + (b[1..] + y) && [] + b[1..] == b[1..];
  }

  /** A sign behind a space after the operator is taken for the operator. */
  lemma SplitAtSign(x: string, a: string, before: string, op: BinaryOp, after: string, b: string, y: string)
    requires Operands(x, a, before, op, after, b, y) && SignBehind(after, b)
    ensures TryArithmetic(ArithText(x, a, before, op, after, b, y)) ==
            Some(Binary(ParseOperand((a + before) + OpText(op)), ArithmeticOp(b[0]), ParseOperand(b[1..])))
  {
    var t, m := SignPosition(x, a, before, op, after, b, y);
    SplitAtArithmetic(t, m, (a + before) + OpText(op), b[1..]);
  }

  lemma SignPosition(x: string, a: string, before: string, op: BinaryOp, after: string, b: string, y: string)
    returns (t: string, m: nat)
    requires Operands(x, a, before, op, after, b, y) && SignBehind(after, b)
    ensures t == ArithText(x, a, before, op, after, b, y) && OrElse(LastAddSub(t), LastMulDiv(t)) == Some(m)
    ensures m < |t| && t[m] == b[0]
    ensures Trim(t[..m]) == (a + before) + OpText(op) != [] && Trim(t[m + 1..]) == b[1..] != []
  {
    t := ArithText(x, a, before, op, after, b, y);
    m := |Padded(x, a, before)| + 1 + |after|;
    ArithmeticSplit(x, a, before, op, after, b, y);
    assert ArithAt(b, 0);
    SignParts(x, a, before, op, after, b, y);
  }

  /** A sign behind a space at the start of a product leaves nothing to its left. */
  lemma SplitAtStart(x: string, a: string, before: string, op: BinaryOp, after: string, b: string, y: string)
    requires Operands(x, a, before, op, after, b, y)
    requires !SignBehind(after, b) && !IsAdditive(op) && SignBehind(x, a)
    ensures TryArithmetic(ArithText(x, a, before, op, after, b, y)) == None
  {
    var t := ArithText(x, a, before, op, after, b, y);
    ArithmeticSplit(x, a, before, op, after, b, y);
    assert t[..|x|] == x + [] == x;
    TrimStartBlank(x, []);
  }

  /** A text that ends in an operator is left as it is. */
  lemma DanglingOperator(s: string)
    requires Trimmed(s) && IsArithChar(s[|s| - 1])
    ensures ParseOperand(s) == EntityRef(s) && !IsIdentifier(s)
  {
    TrimTrimmed(s);
    NoAggregation(s);
    BareOperand(s);
    DanglingIsNoNumber(s);
    DanglingIsNoWord(s);
    LeftAsName(s);
  }

  lemma BareOperand(s: string)
    requires Trim(s) == s && TryAggregation(s) == None && !Parenthesised(s)
    ensures ParseOperand(s) == ParseAtom(s)
  {
  }

  lemma LeftAsName(t: string)
    requires t != [] && t[|t| - 1] != '\'' && t[|t| - 1] != '}'
    requires !SameText(t, "TRUE") && !SameText(t, "FALSE") && !SameText(t, "NULL")
    requires ParseI64(t) == None && ParseF64(t) == None
    ensures ParseAtom(t) == EntityRef(t)
  {
    if |t| >= 2 { assert t[|t| - 2..][1] == t[|t| - 1]; }
  }

  lemma DanglingIsNoNumber(s: string)
    requires s != [] && IsArithChar(s[|s| - 1])
    ensures ParseI64(s).None? && ParseF64(s).None?
  {
    if ParseI64(s).Some? { IntegerEnd(s); }
    if ParseF64(s).Some? { FloatEnd(s); }
  }

  lemma DanglingIsNoWord(s: string)
    requires s != [] && IsArithChar(s[|s| - 1])
    ensures !SameText(s, "TRUE") && !SameText(s, "FALSE") && !SameText(s, "NULL") && !IsIdentifier(s)
  {
    assert Upper(s[|s| - 1]) == s[|s| - 1] && s[|s| - 1] in s;
  }

  // ---------------------------------------------------------------- parsing an atom

  lemma IdentifierStart(name: string)
    requires IsIdentifier(name)
    ensures IsWord(name[0]) && !IsDigit(name[0]) && DropSign(name) == name
    ensures name[0] != '\'' && name[0] != '{' && name[0] != '('
  {
    assert name[0] in name;
  }

  lemma IdentifierIsNoInteger(name: string)
    requires IsIdentifier(name)
    ensures ParseI64(name) == None
  {
    IdentifierStart(name);
    assert name[0] in name;
  }

  lemma IdentifierIsNoDecimal(name: string)
    requires IsIdentifier(name)
    ensures ParseDecimal(name) == None
  {
    IdentifierStart(name);
    assert DigitPrefix(name) == 0 && name[0..] == name;
  }

  /** The words that the standard library reads as floats. */
  predicate FloatWord(name: string) {
    SameText(name, "inf") || SameText(name, "infinity") || SameText(name, "nan")
  }

  lemma FloatWordsAreReserved(name: string)
    ensures FloatWord(name) <==> SameText(name, "INF") || SameText(name, "INFINITY") || SameText(name, "NAN")
  {
    assert SameText("inf", "INF") && SameText("infinity", "INFINITY") && SameText("nan", "NAN");
    SameTextAs(name, "inf", "INF");
    SameTextAs(name, "infinity", "INFINITY");
    SameTextAs(name, "nan", "NAN");
  }

  lemma SameTextAs(name: string, a: string, b: string)
    requires SameText(a, b)
    ensures SameText(name, a) <==> SameText(name, b)
  {
  }

  lemma IdentifierNumbers(name: string)
    requires IsIdentifier(name)
    ensures ParseI64(name) == None && (ParseF64(name).Some? <==> FloatWord(name))
    ensures name[0] != '\'' && name[0] != '{' && name[0] != '('
  {
    IdentifierStart(name);
    IdentifierIsNoInteger(name);
    IdentifierIsNoDecimal(name);
  }

  lemma ParseIdent(name: string)
    requires WellFormed(Ident(name))
    ensures ParseAtom(name) == EntityRef(name) && ParseTopAtom(name) == EntityRef(name) && !Parenthesised(name)
  {
    IdentifierNumbers(name);
    FloatWordsAreReserved(name);
    NotBraced(name);
  }

  lemma NotBraced(t: string)
    requires t != [] && t[0] != '{'
    ensures |t| >= 2 ==> t[..2] != "{{"
  {
    assert |t| >= 2 ==> t[..2][0] == t[0];
  }

  lemma ParseRef(before: string, name: string, after: string)
    requires WellFormed(Ref(before, name, after))
    ensures var t := Text(Ref(before, name, after));
            ParseAtom(t) == EntityRef(name) && ParseTopAtom(t) == EntityRef(name) && !Parenthesised(t)
  {
    var t := Text(Ref(before, name, after));
    assert name[0] in name && name[|name| - 1] in name;
    assert t[..2] == "{{" && t[|t| - 2..] == "}}";
    assert t[2..|t| - 2] == Padded(before, name, after);
    TrimPadded(before, name, after);
  }

  lemma ParseNumber(n: Written)
    ensures var t := NumeralText(n);
            ParseAtom(t) == Lit(NumeralLiteral(n)) && ParseTopAtom(t) == Lit(NumeralLiteral(n)) && !Parenthesised(t)
  {
    NumeralIsRead(n);
    NumeralIsNoWord(n);
  }

  lemma ParseStr(s: string)
    ensures var t := Quoted(s);
            ParseAtom(t) == Lit(Str(s)) && ParseTopAtom(t) == Lit(Str(s)) && !Parenthesised(t)
  {
    assert Inside(Quoted(s)) == s;
    QuotedIsRead(Quoted(s));
  }

  lemma QuotedIsRead(t: string)
    requires |t| >= 2 && t[0] == '\'' && t[|t| - 1] == '\''
    ensures ParseAtom(t) == Lit(Str(Inside(t))) && ParseTopAtom(t) == Lit(Str(Inside(t))) && !Parenthesised(t)
  {
    NotBraced(t);
  }

  lemma ParseTruth(b: Option<bool>, word: string)
    requires SameText(word, TruthWord(b))
    ensures ParseAtom(word) == ParseTopAtom(word) == if b.Some? then Lit(Boolean(b.value)) else NULL
    ensures !Parenthesised(word)
  {
    assert Upper(word[0]) == TruthWord(b)[0] && Upper(word[1]) == TruthWord(b)[1];
    NotBraced(word);
  }

  lemma AtomIsRead(c: Cst)
    requires WellFormed(c) && Level(c) == 6 && !c.Paren? && !c.CallOf?
    ensures ParseOperand(Text(c)) == Denotes(c) && ParseTopAtom(Text(c)) == Denotes(c) && !Parenthesised(Text(c))
  {
    var t := Text(c);
    TextFacts(c);
    TrimTrimmed(t);
    TextLead(c);
    NoAggregation(t);
    match c
    case Ident(name) => ParseIdent(name);
    case Ref(before, name, after) => ParseRef(before, name, after);
    case Number(n) => ParseNumber(n);
    case StrLit(s) => ParseStr(s);
    case TruthLit(b, word) => ParseTruth(b, word);
  }

  lemma CallOperandIsRead(c: Cst)
    requires WellFormed(c) && c.CallOf?
    ensures ParseOperand(Text(c)) == Denotes(c) && TryOperators(Text(c)) == Some(Denotes(c)) && !Parenthesised(Text(c))
  {
    TextFacts(c);
    TrimTrimmed(Text(c));
    CallIsRead(c);
    FunctionWord(c.word, c.f);
    assert c.word[0] in c.word;
  }
}
