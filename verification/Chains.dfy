/**
 Bare chains of OR and AND over any texts: the parser groups them to the left and AND before OR.
 The operands need not be texts of the grammar; what is asked of them is only that they hide no
 looser operator, and that the whole is not taken for a call.
 */
module Chains {
  import opened Wrappers
  import opened Exprs
  import opened Scanner
  import opened DslParser
  import opened Grammar
  import opened RoundTrip
  import opened CallTexts
  import opened GrammarParsing
  import opened ParserTheorems

  /** A connective as it is written: its spelling and the white space around it. */
  datatype Joint = Joint(before: string, word: string, after: string)

  datatype Chain = Chain(texts: seq<string>, joints: seq<Joint>)

  predicate Shaped(chain: Chain) {
    |chain.texts| == |chain.joints| + 1
  }

  /** The chain without its last operand. */
  function Init(chain: Chain): (r: Chain)
    requires Shaped(chain) && chain.joints != []
    ensures Shaped(r)
  {
    var n := |chain.joints| - 1;
    Chain(chain.texts[..n + 1], chain.joints[..n])
  }

  function Joined(chain: Chain): string
    requires Shaped(chain)
    decreases |chain.joints|
  {
    if chain.joints == [] then chain.texts[0]
    else
      var n := |chain.joints| - 1;
      var joint := chain.joints[n];
      Infix(Joined(Init(chain)), joint.before, joint.word, joint.after, chain.texts[n + 1])
  }

  /** The joint spells the connective and keeps it apart from both texts. */
  predicate Joins(conn: Connective, l: string, joint: Joint, r: string) {
    SameText(joint.word, conn.Word()) && Seams(l, joint.before, joint.word, joint.after, r)
  }

  predicate Linked(conn: Connective, chain: Chain) {
    && Shaped(chain)
    && forall i :: 0 <= i < |chain.joints| ==> Joins(conn, chain.texts[i], chain.joints[i], chain.texts[i + 1])
  }

  /** The chain does not begin with a call, or no later operand ends in a parenthesis. */
  ghost predicate NoCall(chain: Chain)
    requires Shaped(chain)
  {
    LeadFree(chain.texts[0]) || forall i :: 1 <= i < |chain.texts| ==> Ends(chain.texts[i], false)
  }

  /** Operands at least as tight as the connective asks, properly joined. */
  ghost predicate IsChain(conn: Connective, chain: Chain) {
    && Linked(conn, chain) && NoCall(chain)
    && forall i :: 0 <= i < |chain.texts| ==> Facts(chain.texts[i], conn.MinLevel())
  }

  /** ((e1 op e2) op e3) op ... */
  function LeftNested(op: BinaryOp, es: seq<Expr>): Expr
    requires es != []
  {
    if |es| == 1 then es[0] else Binary(LeftNested(op, es[..|es| - 1]), op, es[|es| - 1])
  }

  ghost predicate ReadAs(texts: seq<string>, trees: seq<Expr>) {
    |texts| == |trees| && forall i :: 0 <= i < |texts| ==> ParsePredicateOperand(texts[i]) == trees[i]
  }

  /** What a connective sees of the text before it is only the end. */
  lemma {:induction false} JoinedEnd(chain: Chain)
    requires Shaped(chain) && forall i :: 0 <= i < |chain.texts| ==> chain.texts[i] != []
    ensures var t, last := Joined(chain), chain.texts[|chain.joints|];
            t != [] && t[|t| - 1] == last[|last| - 1]
  {
  }

  lemma SeamsAtEnd(conn: Connective, l: string, l': string, joint: Joint, r: string)
    requires l != [] && l' != [] && l[|l| - 1] == l'[|l'| - 1] && Joins(conn, l, joint, r)
    ensures Joins(conn, l', joint, r)
  {
    assert (l' + joint.before)[|l' + joint.before| - 1] == (l + joint.before)[|l + joint.before| - 1];
  }

  lemma BareTextIsRead(t: string, e: Expr)
    requires Trimmed(t) && TryOperators(t) == Some(e) && (Parenthesised(t) ==> !RawBalanced(Inside(t)))
    ensures ParsePredicateOperand(t) == e
  {
    TrimTrimmed(t);
  }

  /** One connective between texts: found, and no parentheses are dropped around it. */
  lemma PairIsRead(conn: Connective, a: string, l: Expr, joint: Joint, b: string, r: Expr)
    requires Facts(a, conn.MinLevel() - 1) && Facts(b, conn.MinLevel()) && Joins(conn, a, joint, b)
    requires ParsePredicateOperand(a) == l && ParsePredicateOperand(b) == r
    requires TryAggregation(Infix(a, joint.before, joint.word, joint.after, b)) == None
    ensures var t := Infix(a, joint.before, joint.word, joint.after, b);
            var e := Binary(l, conn.Op(), r);
            Facts(t, conn.MinLevel() - 1) && TryOperators(t) == Some(e) && ParsePredicateOperand(t) == e
  {
    ConnectiveFacts(conn, a, joint.before, joint.word, joint.after, b);
    ParseConnective(conn, a, joint.before, joint.word, joint.after, b);
    InfixNotWrapped(a, joint.before, joint.word, joint.after, b);
    BareTextIsRead(Infix(a, joint.before, joint.word, joint.after, b), Binary(l, conn.Op(), r));
  }

  lemma {:induction false} JoinedLead(conn: Connective, chain: Chain)
    requires IsChain(conn, chain) && LeadFree(chain.texts[0])
    ensures LeadFree(Joined(chain))
    decreases |chain.joints|
  {
    if chain.joints != [] {
      var n := |chain.joints| - 1;
      var joint := chain.joints[n];
      InitIsChain(conn, chain);
      JoinedLead(conn, Init(chain));
      LastJoins(conn, chain);
      JoinedEnd(Init(chain));
      ConnectiveLead(conn, Joined(Init(chain)), joint.before, joint.word, joint.after, chain.texts[n + 1]);
    }
  }

  /** So the whole is not taken for a call. */
  lemma JoinedIsNoCall(conn: Connective, chain: Chain)
    requires IsChain(conn, chain) && chain.joints != []
    ensures TryAggregation(Joined(chain)) == None
  {
    var n := |chain.joints| - 1;
    var joint := chain.joints[n];
    if LeadFree(chain.texts[0]) {
      JoinedLead(conn, chain);
    } else {
      InfixEnd(Joined(Init(chain)), joint.before, joint.word, joint.after, chain.texts[n + 1], false);
    }
    NoAggregation(Joined(chain));
  }

  lemma InitIsChain(conn: Connective, chain: Chain)
    requires IsChain(conn, chain) && chain.joints != []
    ensures IsChain(conn, Init(chain))
  {
  }

  lemma InitIsReadAs(chain: Chain, trees: seq<Expr>)
    requires Shaped(chain) && chain.joints != [] && ReadAs(chain.texts, trees)
    ensures ReadAs(Init(chain).texts, trees[..|chain.joints|])
    ensures ParsePredicateOperand(chain.texts[|chain.joints|]) == trees[|chain.joints|]
  {
  }

  lemma LeftNestedSnoc(op: BinaryOp, es: seq<Expr>, n: nat)
    requires |es| == n + 1 && n > 0
    ensures LeftNested(op, es) == Binary(LeftNested(op, es[..n]), op, es[n])
  {
  }

  lemma LastJoins(conn: Connective, chain: Chain)
    requires IsChain(conn, chain) && chain.joints != []
    ensures var n := |chain.joints| - 1; Joins(conn, Joined(Init(chain)), chain.joints[n], chain.texts[n + 1])
  {
    var n := |chain.joints| - 1;
    InitIsChain(conn, chain);
    JoinedEnd(Init(chain));
    SeamsAtEnd(conn, chain.texts[n], Joined(Init(chain)), chain.joints[n], chain.texts[n + 1]);
  }

  /** The last step, from the chain before the last operand. */
  lemma LastIsRead(conn: Connective, chain: Chain, init: Expr, last: Expr)
    requires IsChain(conn, chain) && chain.joints != []
    requires Facts(Joined(Init(chain)), conn.MinLevel() - 1) && ParsePredicateOperand(Joined(Init(chain))) == init
    requires ParsePredicateOperand(chain.texts[|chain.joints|]) == last
    ensures Facts(Joined(chain), conn.MinLevel() - 1)
    ensures TryOperators(Joined(chain)) == Some(Binary(init, conn.Op(), last))
    ensures ParsePredicateOperand(Joined(chain)) == Binary(init, conn.Op(), last)
  {
    var n := |chain.joints| - 1;
    LastJoins(conn, chain);
    JoinedIsNoCall(conn, chain);
    PairIsRead(conn, Joined(Init(chain)), init, chain.joints[n], chain.texts[n + 1], last);
  }

  /** A bare chain of one connective, of any length and in any layout, is read from the left. */
  lemma {:induction false} ChainIsRead(conn: Connective, chain: Chain, trees: seq<Expr>)
    requires IsChain(conn, chain) && ReadAs(chain.texts, trees)
    ensures Facts(Joined(chain), conn.MinLevel() - 1)
    ensures ParsePredicateOperand(Joined(chain)) == LeftNested(conn.Op(), trees)
    ensures chain.joints != [] ==> TryOperators(Joined(chain)) == Some(LeftNested(conn.Op(), trees))
    decreases |chain.joints|
  {
    if chain.joints != [] {
      var n := |chain.joints|;
      InitIsChain(conn, chain);
      InitIsReadAs(chain, trees);
      ChainIsRead(conn, Init(chain), trees[..n]);
      LastIsRead(conn, chain, LeftNested(conn.Op(), trees[..n]), trees[n]);
      LeftNestedSnoc(conn.Op(), trees, n);
    }
  }

  /** Rows of AND, joined by OR. */
  ghost predicate IsOrOfAnds(rows: seq<Chain>, ors: Chain) {
    && Linked(Disjunction, ors) && NoCall(ors) && |ors.texts| == |rows|
    && forall i :: 0 <= i < |rows| ==> IsChain(Conjunction, rows[i]) && ors.texts[i] == Joined(rows[i])
  }

  /** The trees of the rows, each left-nested. */
  ghost predicate RowsReadAs(rows: seq<Chain>, leaves: seq<seq<Expr>>, trees: seq<Expr>) {
    && |rows| == |leaves| == |trees|
    && forall i :: 0 <= i < |rows| ==>
         leaves[i] != [] && ReadAs(rows[i].texts, leaves[i]) && trees[i] == LeftNested(And, leaves[i])
  }

  lemma RowsAreRead(rows: seq<Chain>, ors: Chain, leaves: seq<seq<Expr>>, trees: seq<Expr>)
    requires IsOrOfAnds(rows, ors) && RowsReadAs(rows, leaves, trees)
    ensures IsChain(Disjunction, ors) && ReadAs(ors.texts, trees)
    ensures |rows| == 1 && rows[0].joints != [] ==> TryOperators(Joined(ors)) == Some(trees[0])
  {
    forall i | 0 <= i < |rows|
      ensures Facts(ors.texts[i], 1) && ParsePredicateOperand(ors.texts[i]) == trees[i]
      ensures rows[i].joints != [] ==> TryOperators(ors.texts[i]) == Some(trees[i])
    {
      ChainIsRead(Conjunction, rows[i], leaves[i]);
    }
  }

  /** An unparenthesised OR of ANDs is read as a left-nested OR of left-nested ANDs, whatever the
      operands are and however the words are spelled and spaced. */
  lemma OrOfAndsIsRead(rows: seq<Chain>, ors: Chain, leaves: seq<seq<Expr>>, trees: seq<Expr>)
    requires IsOrOfAnds(rows, ors) && RowsReadAs(rows, leaves, trees)
    ensures ParsePredicateOperand(Joined(ors)) == LeftNested(Or, trees)
    ensures (|rows| > 1 || rows[0].joints != []) && !LooksLikeRawSql(Joined(ors)) ==>
              ParseExpr(Joined(ors)) == Ok(LeftNested(Or, trees))
  {
    RowsAreRead(rows, ors, leaves, trees);
    ChainIsRead(Disjunction, ors, trees);
    TrimTrimmed(Joined(ors));
  }

  /** Texts of the grammar, tight enough for a connective, and their trees. */
  predicate GrammarTexts(level: nat, texts: seq<string>, cs: seq<Cst>, trees: seq<Expr>) {
    && |texts| == |cs| == |trees|
    && forall i :: 0 <= i < |cs| ==>
         WellFormed(cs[i]) && Level(cs[i]) >= level && texts[i] == Text(cs[i]) && trees[i] == Parsed(cs[i])
  }

  /** They are operands of chains, read as their trees. */
  lemma GrammarTextsAreRead(level: nat, texts: seq<string>, cs: seq<Cst>, trees: seq<Expr>)
    requires GrammarTexts(level, texts, cs, trees) && level <= 5
    ensures ReadAs(texts, trees) && forall i :: 0 <= i < |texts| ==> Facts(texts[i], level)
  {
    forall i | 0 <= i < |texts| ensures Facts(texts[i], level) && ParsePredicateOperand(texts[i]) == trees[i] {
      TextFacts(cs[i]);
      TextIsParsed(cs[i]);
    }
  }

  /** The same for texts of the grammar: comparisons or tighter, in any layout. */
  lemma OrOfAndsIsParsed(rows: seq<Chain>, ors: Chain, cs: seq<seq<Cst>>, leaves: seq<seq<Expr>>, trees: seq<Expr>)
    requires |rows| == |cs| == |leaves| == |trees| == |ors.texts| && Linked(Disjunction, ors) && NoCall(ors)
    requires forall i :: 0 <= i < |rows| ==>
               Linked(Conjunction, rows[i]) && NoCall(rows[i]) && ors.texts[i] == Joined(rows[i])
    requires forall i :: 0 <= i < |rows| ==> GrammarTexts(2, rows[i].texts, cs[i], leaves[i])
    requires forall i :: 0 <= i < |rows| ==> leaves[i] != [] && trees[i] == LeftNested(And, leaves[i])
    ensures ParsePredicateOperand(Joined(ors)) == LeftNested(Or, trees)
    ensures (|rows| > 1 || rows[0].joints != []) && !LooksLikeRawSql(Joined(ors)) ==>
              ParseExpr(Joined(ors)) == Ok(LeftNested(Or, trees))
  {
    forall i | 0 <= i < |rows| ensures IsChain(Conjunction, rows[i]) && ReadAs(rows[i].texts, leaves[i]) {
      GrammarTextsAreRead(2, rows[i].texts, cs[i], leaves[i]);
    }
    OrOfAndsIsRead(rows, ors, leaves, trees);
  }
}
