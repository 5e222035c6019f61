/**
 Folding preserves meaning. When no NULL literal decides a fold, substituting known values and
 simplifying changes the SQL value of no row. Where one does, the fold is wrong: the folded
 comparison of two literals is two-valued.
 */
module SimplifyMeaning {
  import opened Wrappers
  import opened Exprs
  import opened Simplify

  // ---------------------------------------------------------------- one fold of literals

  predicate IsSpecial(l: Literal) { l.Float? && !l.f.Finite? }

  /** Folding `l = r` on two literals is right exactly when neither is NULL and they are not one
      number written as an integer and as a float. Of the special floats, NaN equals nothing and
      an infinity itself. */
  lemma EqualityFoldExact(l: Literal, r: Literal)
    ensures IsSpecial(l) || IsSpecial(r) ==> (LiteralsEqual(l, r) <==> l == r && l.f.Infinite?)
    ensures !IsSpecial(l) && !IsSpecial(r) ==>
              (Eq3(LiteralValue(l), LiteralValue(r)) == VBool(LiteralsEqual(l, r)) <==>
               !l.Null? && !r.Null? && (LiteralValue(l) == LiteralValue(r) ==> l.Integer? == r.Integer?))
    ensures !IsSpecial(l) && !IsSpecial(r) ==>
              (Not3(Eq3(LiteralValue(l), LiteralValue(r))) == VBool(!LiteralsEqual(l, r)) <==>
               !l.Null? && !r.Null? && (LiteralValue(l) == LiteralValue(r) ==> l.Integer? == r.Integer?))
  {
  }

  /** So on two literals of one type only NULL matters. */
  lemma TypedEqualityFold(l: Literal, r: Literal, t: SqlType)
    requires LiteralHasType(l, t) && LiteralHasType(r, t)
    ensures Eq3(LiteralValue(l), LiteralValue(r)) == VBool(LiteralsEqual(l, r)) <==> !l.Null? && !r.Null?
    ensures Not3(Eq3(LiteralValue(l), LiteralValue(r))) == VBool(!LiteralsEqual(l, r)) <==> !l.Null? && !r.Null?
  {
    EqualityFoldExact(l, r);
  }

  /** Folding IN over literals of one type is right exactly when the list is empty, or the
      tested literal is not NULL and either it is found or no list item is NULL. */
  lemma {:induction false} InFoldExact(en: Engine, row: Row, sg: Signature, needle: Literal, es: seq<Expr>, t: SqlType)
    requires LiteralHasType(needle, t) && AllHaveType(sg, es, t) && forall e :: e in es ==> e.Lit?
    ensures In3(LiteralValue(needle), EvalAll(en, es, row)) == VBool(ContainsLiteral(es, needle)) <==>
            (es == [] || (!needle.Null? && (ContainsLiteral(es, needle) || NULL !in es)))
    ensures !needle.Null? && ContainsLiteral(es, needle) ==>
            In3(LiteralValue(needle), EvalAll(en, es, row)) == VBool(true)
    ensures In3(LiteralValue(needle), EvalAll(en, es, row)) == VBool(true) ==> ContainsLiteral(es, needle)
  {
    if es != [] {
      InFoldExact(en, row, sg, needle, es[1..], t);
      TypedEqualityFold(es[0].lit, needle, t);
      assert EvalAll(en, es, row)[1..] == EvalAll(en, es[1..], row);
      assert NULL in es <==> es[0] == NULL || NULL in es[1..];
    }
  }

  // ---------------------------------------------------------------- CASE

  lemma {:induction false} EvalWhensSplit(en: Engine, ws: seq<WhenClause>, row: Row, n: nat)
    requires n <= |ws|
    ensures EvalWhens(en, ws, row) ==
            match EvalWhens(en, ws[..n], row) case Some(v) => Some(v) case None => EvalWhens(en, ws[n..], row)
  {
    if n == 0 {
      assert ws[..0] == [] && ws[0..] == ws;
    } else {
      EvalWhensSplit(en, ws[1..], row, n - 1);
      assert ws[..n][0] == ws[0] && ws[..n][1..] == ws[1..][..n - 1];
      assert ws[n..] == ws[1..][n - 1..];
    }
  }

  lemma {:induction false} LiveBranchesMeaning(en: Engine, ws: seq<WhenClause>, row: Row)
    ensures EvalWhens(en, LiveBranches(ws), row) == EvalWhens(en, ws, row)
  {
    if ws != [] {
      LiveBranchesMeaning(en, ws[1..], row);
      if ws[0].condition != FALSE {
        var live := [ws[0]] + LiveBranches(ws[1..]);
        assert live[0] == ws[0] && live[1..] == LiveBranches(ws[1..]);
        assert EvalWhens(en, live, row) ==
               match EvalWhen(en, ws[0], row) case Some(v) => Some(v) case None => EvalWhens(en, live[1..], row);
      } else {
        assert EvalWhen(en, ws[0], row) == None;
      }
    }
  }

  /** CASE folding keeps the priority of the branches, for any conditions and results. */
  lemma CaseFoldMeaning(en: Engine, ws: seq<WhenClause>, els: Option<Expr>, row: Row)
    requires CaseFold(ws, els).Some?
    ensures Eval(en, CaseFold(ws, els).value, row) == Eval(en, Case(ws, els), row)
  {
    var n := FirstTrue(ws);
    EvalWhensSplit(en, ws, row, n);
    LiveBranchesMeaning(en, ws[..n], row);
    if n < |ws| {
      assert ws[n..][0] == ws[n];
      assert EvalWhen(en, ws[n], row) == Some(Eval(en, ws[n].result, row));
    } else {
      assert ws[..n] == ws && ws[n..] == [];
    }
  }

  lemma {:induction false} LiveBranchesKeepType(sg: Signature, ws: seq<WhenClause>, t: SqlType, n: nat)
    requires n <= |ws| && WhensHaveType(sg, ws, t)
    ensures WhensHaveType(sg, LiveBranches(ws[..n]), t)
    ensures n < |ws| ==> WhenHasType(sg, ws[n], t)
  {
    if ws != [] && n > 0 {
      LiveBranchesKeepType(sg, ws[1..], t, n - 1);
      assert ws[..n][0] == ws[0] && ws[..n][1..] == ws[1..][..n - 1];
      if ws[0].condition != FALSE {
        var live := [ws[0]] + LiveBranches(ws[1..][..n - 1]);
        assert live[0] == ws[0] && live[1..] == LiveBranches(ws[1..][..n - 1]);
        assert WhensHaveType(sg, live, t);
      }
    }
  }

  // ---------------------------------------------------------------- one node

  /** No NULL literal decides the fold of this node. */
  predicate NullFreeFold(e: Expr) {
    match e
    case Binary(l, op, r) => op.Eq? || op.NotEq? ==> l != NULL && r != NULL
    case InList(a, es, _) =>
      (forall x :: x in es ==> x.Lit?) && a.Lit? ==>
        es == [] || (a != NULL && (ContainsLiteral(es, a.lit) || NULL !in es))
    case _ => true
  }

  /** AND and OR with a literal operand. */
  lemma LogicalFoldMeaning(sg: Signature, en: Engine, row: Row, l: Expr, op: BinaryOp, r: Expr)
    requires TypedRow(sg, row) && TypedEngine(sg, en) && IsLogical(op)
    requires HasType(sg, l, TBool) && HasType(sg, r, TBool) && SimplifyBinary(l, op, r).Some?
    ensures Eval(en, SimplifyBinary(l, op, r).value, row) == Eval(en, Binary(l, op, r), row)
  {
    TypeSoundness(sg, en, row, l, TBool);
    TypeSoundness(sg, en, row, r, TBool);
    assert Eval(en, Binary(l, op, r), row) == BinaryValue(en, op, Eval(en, l, row), Eval(en, r, row));
  }

  lemma BinaryFoldExact(sg: Signature, en: Engine, row: Row, l: Expr, op: BinaryOp, r: Expr, t: SqlType)
    requires TypedRow(sg, row) && TypedEngine(sg, en)
    requires HasType(sg, Binary(l, op, r), t) && SimplifyBinary(l, op, r).Some?
    ensures Eval(en, SimplifyBinary(l, op, r).value, row) == Eval(en, Binary(l, op, r), row) <==>
            NullFreeFold(Binary(l, op, r))
  {
    if IsLogical(op) {
      LogicalFoldMeaning(sg, en, row, l, op, r);
    } else {
      ComparisonFoldExact(sg, en, row, l.lit, op, r.lit, t);
    }
  }

  lemma ComparisonFoldExact(sg: Signature, en: Engine, row: Row, l: Literal, op: BinaryOp, r: Literal, t: SqlType)
    requires HasType(sg, Binary(Lit(l), op, Lit(r)), t) && (op.Eq? || op.NotEq?)
    ensures Eval(en, SimplifyBinary(Lit(l), op, Lit(r)).value, row) == Eval(en, Binary(Lit(l), op, Lit(r)), row)
            <==> !l.Null? && !r.Null?
  {
    var u :| HasType(sg, Lit(l), u) && HasType(sg, Lit(r), u);
    TypedEqualityFold(l, r, u);
    assert Eval(en, Binary(Lit(l), op, Lit(r)), row) == BinaryValue(en, op, LiteralValue(l), LiteralValue(r));
  }

  lemma InListFoldExact(sg: Signature, en: Engine, row: Row, a: Expr, es: seq<Expr>, negated: bool, t: SqlType)
    requires HasType(sg, InList(a, es, negated), t) && SimplifyInList(a, es, negated).Some?
    ensures Eval(en, SimplifyInList(a, es, negated).value, row) == Eval(en, InList(a, es, negated), row)
            <==> NullFreeFold(InList(a, es, negated))
  {
    var u :| HasType(sg, a, u) && AllHaveType(sg, es, u);
    InFoldExact(en, row, sg, a.lit, es, u);
  }

  /** One folding step of a well-typed node keeps its value in a row if and only if no NULL
      literal decides it. */
  lemma NodeFoldExact(sg: Signature, en: Engine, row: Row, e: Expr, t: SqlType)
    requires TypedRow(sg, row) && TypedEngine(sg, en) && HasType(sg, e, t) && SimplifyNode(e).Some?
    ensures Eval(en, SimplifyNode(e).value, row) == Eval(en, e, row) <==> NullFreeFold(e)
  {
    match e
    case Binary(l, op, r) => BinaryFoldExact(sg, en, row, l, op, r, t);
    case InList(a, es, negated) => InListFoldExact(sg, en, row, a, es, negated, t);
    case Case(ws, els) => CaseFoldMeaning(en, ws, els, row);
    case Not(a) =>
  }

  lemma FoldKeepsType(sg: Signature, e: Expr, t: SqlType)
    requires HasType(sg, e, t) && SimplifyNode(e).Some?
    ensures HasType(sg, SimplifyNode(e).value, t)
  {
    match e
    case Binary(l, op, r) =>
      var f := SimplifyBinary(l, op, r).value;
      assert f.Lit? || (IsLogical(op) && (f == l || f == r));
    case Case(ws, els) => LiveBranchesKeepType(sg, ws, t, FirstTrue(ws));
    case _ =>
  }

  // ---------------------------------------------------------------- the whole tree

  /** The rewritten expression has the value and the type of the original. */
  ghost predicate Refines(sg: Signature, en: Engine, row: Row, e: Expr, r: Expr, t: SqlType) {
    Eval(en, r, row) == Eval(en, e, row) && HasType(sg, r, t)
  }

  /** Every node that `f` rewrites in a bottom-up pass over `e` is good when it is reached, that
      is, with its children rewritten already. */
  predicate StepsAre(e: Expr, f: Expr -> Option<Expr>, good: Expr -> bool)
    decreases e, 2
  {
    && StepsBelowAre(e, f, good)
    && (f(TransformChildren(e, f)).Some? ==> good(TransformChildren(e, f)))
  }

  predicate StepsBelowAre(e: Expr, f: Expr -> Option<Expr>, good: Expr -> bool)
    decreases e, 1
  {
    match e
    case Column(_) => true
    case EntityRef(_) => true
    case Lit(_) => true
    case Binary(l, _, r) => StepsAre(l, f, good) && StepsAre(r, f, good)
    case Not(a) => StepsAre(a, f, good)
    case IsNull(a) => StepsAre(a, f, good)
    case IsNotNull(a) => StepsAre(a, f, good)
    case InList(a, es, _) => StepsAre(a, f, good) && AllStepsAre(es, f, good)
    case Case(ws, els) => WhensStepsAre(ws, f, good) && (els.Some? ==> StepsAre(els.value, f, good))
    case Guard(c, a) => StepsAre(c, f, good) && StepsAre(a, f, good)
    case Aggregate(_, a, _) => StepsAre(a, f, good)
    case Call(_, es) => AllStepsAre(es, f, good)
  }

  predicate AllStepsAre(es: seq<Expr>, f: Expr -> Option<Expr>, good: Expr -> bool)
    decreases es, 0
  {
    es == [] || (StepsAre(es[0], f, good) && AllStepsAre(es[1..], f, good))
  }

  predicate WhenStepsAre(w: WhenClause, f: Expr -> Option<Expr>, good: Expr -> bool)
    decreases w, 0
  {
    StepsAre(w.condition, f, good) && StepsAre(w.result, f, good)
  }

  predicate WhensStepsAre(ws: seq<WhenClause>, f: Expr -> Option<Expr>, good: Expr -> bool)
    decreases ws, 0
  {
    ws == [] || (WhenStepsAre(ws[0], f, good) && WhensStepsAre(ws[1..], f, good))
  }

  /** Rewriting a good node refines it. */
  ghost predicate GoodStepsRefine(sg: Signature, en: Engine, row: Row, f: Expr -> Option<Expr>, good: Expr -> bool) {
    forall e, t :: HasType(sg, e, t) && f(e).Some? && good(e) ==> Refines(sg, en, row, e, f(e).value, t)
  }

  /** A bottom-up rewrite refines the tree when each of its steps is good, and good steps refine
      their nodes. */
  lemma {:induction false} TransformRefines(sg: Signature, en: Engine, row: Row, f: Expr -> Option<Expr>,
                                            good: Expr -> bool,
                                            e: Expr, t: SqlType)
    requires GoodStepsRefine(sg, en, row, f, good) && StepsAre(e, f, good) && HasType(sg, e, t)
    ensures Refines(sg, en, row, e, Transform(e, f), t)
    decreases e, 2
  {
    ChildrenRefine(sg, en, row, f, good, e, t);
    var rebuilt := TransformChildren(e, f);
    assert f(rebuilt).Some? ==> Refines(sg, en, row, rebuilt, f(rebuilt).value, t);
  }

  lemma {:induction false} ChildrenRefine(sg: Signature, en: Engine, row: Row, f: Expr -> Option<Expr>,
                                          good: Expr -> bool,
                                          e: Expr, t: SqlType)
    requires GoodStepsRefine(sg, en, row, f, good) && StepsBelowAre(e, f, good) && HasType(sg, e, t)
    ensures Refines(sg, en, row, e, TransformChildren(e, f), t)
    decreases e, 1
  {
    match e {
      case Binary(l, op, r) => OperandsRefine(sg, en, row, f, good, l, op, r, t);
      case Not(a) => TransformRefines(sg, en, row, f, good, a, TBool);
      case IsNull(a) =>
        var u :| HasType(sg, a, u);
        TransformRefines(sg, en, row, f, good, a, u);
      case IsNotNull(a) =>
        var u :| HasType(sg, a, u);
        TransformRefines(sg, en, row, f, good, a, u);
      case InList(a, es, _) =>
        var u :| HasType(sg, a, u) && AllHaveType(sg, es, u);
        TransformRefines(sg, en, row, f, good, a, u);
        ListRefines(sg, en, row, f, good, es, u);
      case Case(ws, els) =>
        WhensRefine(sg, en, row, f, good, ws, t);
        if els.Some? { TransformRefines(sg, en, row, f, good, els.value, t); }
      case Guard(c, a) =>
        TransformRefines(sg, en, row, f, good, c, TBool);
        TransformRefines(sg, en, row, f, good, a, t);
      case Aggregate(_, a, _) =>
        var u :| HasType(sg, a, u);
        TransformRefines(sg, en, row, f, good, a, u);
      case Call(_, es) => ArgsRefine(sg, en, row, f, good, es);
      case _ =>
    }
  }

  lemma {:induction false} OperandsRefine(
      sg: Signature, en: Engine, row: Row, f: Expr -> Option<Expr>, good: Expr -> bool, l: Expr, op: BinaryOp, r: Expr,
        t: SqlType)
    requires GoodStepsRefine(sg, en, row, f, good) && StepsAre(l, f, good) && StepsAre(r, f, good)
    requires HasType(sg, Binary(l, op, r), t)
    ensures Refines(sg, en, row, Binary(l, op, r), Binary(Transform(l, f), op, Transform(r, f)), t)
    decreases Binary(l, op, r), 0
  {
    var u, v := OperandTypes(sg, l, op, r, t);
    TransformRefines(sg, en, row, f, good, l, u);
    TransformRefines(sg, en, row, f, good, r, v);
    BinaryOfRefined(sg, en, row, l, op, r, Transform(l, f), Transform(r, f), u, v, t);
  }

  /** The types u and v of the operands fit the operator. */
  predicate Fits(op: BinaryOp, u: SqlType, v: SqlType, t: SqlType) {
    if IsLogical(op) then t.TBool? && u.TBool? && v.TBool?
    else if IsComparison(op) then t.TBool? && u == v
    else t.TInt? || t.TFloat?
  }

  lemma OperandTypes(sg: Signature, l: Expr, op: BinaryOp, r: Expr, t: SqlType) returns (u: SqlType, v: SqlType)
    requires HasType(sg, Binary(l, op, r), t)
    ensures HasType(sg, l, u) && HasType(sg, r, v) && Fits(op, u, v, t)
  {
    u, v := TBool, TBool;
    if IsComparison(op) {
      u :| HasType(sg, l, u) && HasType(sg, r, u);
      v := u;
    } else if !IsLogical(op) {
      u :| HasType(sg, l, u);
      v :| HasType(sg, r, v);
    }
  }

  lemma BinaryOfRefined(sg: Signature, en: Engine, row: Row, l: Expr, op: BinaryOp, r: Expr, l': Expr, r': Expr,
                        u: SqlType, v: SqlType, t: SqlType)
    requires Fits(op, u, v, t) && Refines(sg, en, row, l, l', u) && Refines(sg, en, row, r, r', v)
    ensures Refines(sg, en, row, Binary(l, op, r), Binary(l', op, r'), t)
  {
  }

  lemma {:induction false} ListRefines(sg: Signature, en: Engine, row: Row, f: Expr -> Option<Expr>, good: Expr -> bool,
                                       es: seq<Expr>, t: SqlType)
    requires GoodStepsRefine(sg, en, row, f, good) && AllStepsAre(es, f, good) && AllHaveType(sg, es, t)
    ensures EvalAll(en, TransformAll(es, f), row) == EvalAll(en, es, row)
    ensures AllHaveType(sg, TransformAll(es, f), t)
    decreases es, 0
  {
    if es != [] {
      TransformRefines(sg, en, row, f, good, es[0], t);
      ListRefines(sg, en, row, f, good, es[1..], t);
    }
  }

  lemma {:induction false} ArgsRefine(sg: Signature, en: Engine, row: Row, f: Expr -> Option<Expr>, good: Expr -> bool,
                                      es: seq<Expr>)
    requires GoodStepsRefine(sg, en, row, f, good) && AllStepsAre(es, f, good) && AllTyped(sg, es)
    ensures EvalAll(en, TransformAll(es, f), row) == EvalAll(en, es, row)
    ensures AllTyped(sg, TransformAll(es, f))
    decreases es, 0
  {
    if es != [] {
      var u :| HasType(sg, es[0], u);
      TransformRefines(sg, en, row, f, good, es[0], u);
      ArgsRefine(sg, en, row, f, good, es[1..]);
    }
  }

  lemma {:induction false} WhenRefines(sg: Signature, en: Engine, row: Row, f: Expr -> Option<Expr>, good: Expr -> bool,
                                       w: WhenClause, t: SqlType)
    requires GoodStepsRefine(sg, en, row, f, good) && WhenStepsAre(w, f, good) && WhenHasType(sg, w, t)
    ensures EvalWhen(en, TransformWhen(w, f), row) == EvalWhen(en, w, row)
    ensures WhenHasType(sg, TransformWhen(w, f), t)
    decreases w, 0
  {
    TransformRefines(sg, en, row, f, good, w.condition, TBool);
    TransformRefines(sg, en, row, f, good, w.result, t);
  }

  lemma {:induction false} WhensRefine(sg: Signature, en: Engine, row: Row, f: Expr -> Option<Expr>, good: Expr -> bool,
                                       ws: seq<WhenClause>, t: SqlType)
    requires GoodStepsRefine(sg, en, row, f, good) && WhensStepsAre(ws, f, good) && WhensHaveType(sg, ws, t)
    ensures EvalWhens(en, TransformWhens(ws, f), row) == EvalWhens(en, ws, row)
    ensures WhensHaveType(sg, TransformWhens(ws, f), t)
    decreases ws, 0
  {
    if ws != [] {
      WhenRefines(sg, en, row, f, good, ws[0], t);
      WhensRefine(sg, en, row, f, good, ws[1..], t);
      var rest := TransformWhens(ws[1..], f);
      var all := [TransformWhen(ws[0], f)] + rest;
      assert all[0] == TransformWhen(ws[0], f) && all[1..] == rest;
    }
  }

  // ---------------------------------------------------------------- main results

  ghost predicate Agrees(sg: Signature, row: Row, known: map<string, string>) {
    forall n :: n in known ==> row(n) == VStr(known[n]) && sg.column(n) == TStr
  }

  /** No NULL literal decides any fold of the pass. */
  predicate FoldsAreNullFree(e: Expr) {
    StepsAre(e, SimplifyNode, NullFreeFold)
  }

  lemma FoldRefines(sg: Signature, en: Engine, row: Row)
    requires TypedRow(sg, row) && TypedEngine(sg, en)
    ensures GoodStepsRefine(sg, en, row, SimplifyNode, NullFreeFold)
  {
    forall e, t | HasType(sg, e, t) && SimplifyNode(e).Some? && NullFreeFold(e)
      ensures Refines(sg, en, row, e, SimplifyNode(e).value, t)
    {
      NodeFoldExact(sg, en, row, e, t);
      FoldKeepsType(sg, e, t);
    }
  }

  /** simplify keeps the SQL value of an expression in every row, unless a NULL literal decides
      one of its folds. */
  lemma SimplifyPreservesMeaning(sg: Signature, en: Engine, row: Row, e: Expr, t: SqlType)
    requires TypedRow(sg, row) && TypedEngine(sg, en) && HasType(sg, e, t) && FoldsAreNullFree(e)
    ensures Eval(en, SimplifyOnce(e), row) == Eval(en, e, row) && HasType(sg, SimplifyOnce(e), t)
  {
    FoldRefines(sg, en, row);
    TransformRefines(sg, en, row, SimplifyNode, NullFreeFold, e, t);
  }

  predicate IsKnownColumn(e: Expr) { e.Column? }

  /** In every row that agrees with the known values, substituting them keeps the value. */
  lemma SubstitutePreservesMeaning(sg: Signature, en: Engine, row: Row, e: Expr, known: map<string, string>, t: SqlType)
    requires Agrees(sg, row, known) && HasType(sg, e, t)
    ensures Eval(en, Substitute(e, known), row) == Eval(en, e, row) && HasType(sg, Substitute(e, known), t)
  {
    OnlyColumnsAreSubstituted(e, known);
    TransformRefines(sg, en, row, SubstituteNode(known), IsKnownColumn, e, t);
  }

  lemma {:induction false} OnlyColumnsAreSubstituted(e: Expr, known: map<string, string>)
    ensures StepsAre(e, SubstituteNode(known), IsKnownColumn)
    decreases e, 1
  {
    match e {
      case Binary(l, _, r) => OnlyColumnsAreSubstituted(l, known); OnlyColumnsAreSubstituted(r, known);
      case Not(a) => OnlyColumnsAreSubstituted(a, known);
      case IsNull(a) => OnlyColumnsAreSubstituted(a, known);
      case IsNotNull(a) => OnlyColumnsAreSubstituted(a, known);
      case InList(a, es, _) => OnlyColumnsAreSubstituted(a, known); OnlyColumnsInAll(es, known);
      case Case(ws, els) =>
        OnlyColumnsInWhens(ws, known);
        if els.Some? { OnlyColumnsAreSubstituted(els.value, known); }
      case Guard(c, a) => OnlyColumnsAreSubstituted(c, known); OnlyColumnsAreSubstituted(a, known);
      case Aggregate(_, a, _) => OnlyColumnsAreSubstituted(a, known);
      case Call(_, es) => OnlyColumnsInAll(es, known);
      case _ =>
    }
  }

  lemma {:induction false} OnlyColumnsInAll(es: seq<Expr>, known: map<string, string>)
    ensures AllStepsAre(es, SubstituteNode(known), IsKnownColumn)
    decreases es, 0
  {
    if es != [] {
      OnlyColumnsAreSubstituted(es[0], known);
      OnlyColumnsInAll(es[1..], known);
    }
  }

  lemma {:induction false} OnlyColumnsInWhen(w: WhenClause, known: map<string, string>)
    ensures WhenStepsAre(w, SubstituteNode(known), IsKnownColumn)
    decreases w, 0
  {
    OnlyColumnsAreSubstituted(w.condition, known);
    OnlyColumnsAreSubstituted(w.result, known);
  }

  lemma {:induction false} OnlyColumnsInWhens(ws: seq<WhenClause>, known: map<string, string>)
    ensures WhensStepsAre(ws, SubstituteNode(known), IsKnownColumn)
    decreases ws, 0
  {
    if ws != [] {
      OnlyColumnsInWhen(ws[0], known);
      OnlyColumnsInWhens(ws[1..], known);
    }
  }

  /** simplify(substitute(e, known)) has, in every row that agrees with the known values, the
      SQL value of e: TRUE, FALSE, NULL or any other. */
  lemma SubstituteThenSimplifyPreservesMeaning(
      sg: Signature, en: Engine, row: Row, e: Expr, known: map<string, string>, t: SqlType)
    requires TypedRow(sg, row) && TypedEngine(sg, en) && Agrees(sg, row, known)
    requires HasType(sg, e, t) && FoldsAreNullFree(Substitute(e, known))
    ensures Eval(en, SimplifyOnce(Substitute(e, known)), row) == Eval(en, e, row)
    ensures HasType(sg, SimplifyOnce(Substitute(e, known)), t)
  {
    SubstitutePreservesMeaning(sg, en, row, e, known, t);
    SimplifyPreservesMeaning(sg, en, row, Substitute(e, known), t);
  }

  const DEAD_BRANCH := [WhenClause(FALSE, Lit(Str("a")))]
  const NULL_CASE := Case(DEAD_BRANCH, None)
  const FOLDED_NULL := Not(Binary(NULL_CASE, Eq, Lit(Str("x"))))

  lemma DeadCaseHasType(sg: Signature)
    ensures HasType(sg, NULL_CASE, TStr) && HasType(sg, FOLDED_NULL, TBool)
  {
    assert WhenHasType(sg, DEAD_BRANCH[0], TStr);
    assert DEAD_BRANCH[1..] == [];
    assert WhensHaveType(sg, DEAD_BRANCH, TStr);
    assert HasType(sg, Lit(Str("x")), TStr);
  }

  lemma DeadCaseFolds()
    ensures SimplifyOnce(NULL_CASE) == NULL
  {
    OnceUnfolds(FALSE);
    OnceUnfolds(Lit(Str("a")));
    assert TransformWhen(DEAD_BRANCH[0], SimplifyNode) == DEAD_BRANCH[0];
    assert DEAD_BRANCH[1..] == [];
    assert TransformWhens(DEAD_BRANCH, SimplifyNode) == DEAD_BRANCH;
    assert DEAD_BRANCH[..1] == DEAD_BRANCH;
    assert FirstTrue(DEAD_BRANCH) == 1 && LiveBranches(DEAD_BRANCH) == [];
    OnceUnfolds(NULL_CASE);
  }

  lemma DeadCaseIsNull(en: Engine, row: Row)
    ensures Eval(en, NULL_CASE, row) == VNull
  {
    assert EvalWhen(en, DEAD_BRANCH[0], row) == None;
    assert DEAD_BRANCH[1..] == [];
    assert EvalWhens(en, DEAD_BRANCH, row) == None;
  }

  /** The condition is needed: NOT (CASE WHEN FALSE THEN 'a' END = 'x') is well typed and
      NULL in every row, and folds to TRUE. */
  lemma FoldedNullChangesMeaning(sg: Signature, en: Engine, row: Row)
    ensures HasType(sg, FOLDED_NULL, TBool)
    ensures SimplifyOnce(FOLDED_NULL) == TRUE && Eval(en, FOLDED_NULL, row) == VNull
  {
    DeadCaseHasType(sg);
    DeadCaseFolds();
    DeadCaseIsNull(en, row);
    OnceUnfolds(Lit(Str("x")));
    OnceUnfolds(Binary(NULL_CASE, Eq, Lit(Str("x"))));
    OnceUnfolds(FOLDED_NULL);
  }
}
