/**
 The folding pass as a whole, fold by fold: each fold of the pass keeps the value of the node it
 rewrites exactly when no NULL literal decides a fold.
 */
module FoldExactness {
  import opened Wrappers
  import opened Exprs
  import opened Simplify
  import opened SimplifyMeaning

  type Rule = Expr -> Option<Expr>

  type Test = Expr -> bool

  /** The two tests agree on every typed node that the rule rewrites to a node of the same type. */
  ghost predicate Agree(sg: Signature, f: Rule, p: Test, q: Test) {
    forall e, t :: HasType(sg, e, t) && f(e).Some? ==> HasType(sg, f(e).value, t) && (p(e) <==> q(e))
  }

  /** Then they agree on the whole pass over a typed tree, whose type is kept. */
  lemma {:induction false} StepsAgree(sg: Signature, f: Rule, p: Test, q: Test, e: Expr, t: SqlType)
    requires Agree(sg, f, p, q) && HasType(sg, e, t)
    ensures HasType(sg, Transform(e, f), t) && (StepsAre(e, f, p) <==> StepsAre(e, f, q))
    decreases e, 2
  {
    StepsBelowAgree(sg, f, p, q, e, t);
    var rebuilt := TransformChildren(e, f);
    assert f(rebuilt).Some? ==> HasType(sg, f(rebuilt).value, t) && (p(rebuilt) <==> q(rebuilt));
  }

  lemma {:induction false} StepsBelowAgree(sg: Signature, f: Rule, p: Test, q: Test, e: Expr, t: SqlType)
    requires Agree(sg, f, p, q) && HasType(sg, e, t)
    ensures HasType(sg, TransformChildren(e, f), t) && (StepsBelowAre(e, f, p) <==> StepsBelowAre(e, f, q))
    decreases e, 1
  {
    match e {
      case Binary(l, op, r) =>
        var u, v := OperandTypes(sg, l, op, r, t);
        StepsAgree(sg, f, p, q, l, u);
        StepsAgree(sg, f, p, q, r, v);
        FitsHasType(sg, Transform(l, f), op, Transform(r, f), u, v, t);
      case Not(a) => StepsAgree(sg, f, p, q, a, TBool);
      case IsNull(a) => TypedStepsAgree(sg, f, p, q, a);
      case IsNotNull(a) => TypedStepsAgree(sg, f, p, q, a);
      case InList(a, es, _) =>
        var u :| HasType(sg, a, u) && AllHaveType(sg, es, u);
        StepsAgree(sg, f, p, q, a, u);
        ListStepsAgree(sg, f, p, q, es, u);
      case Case(ws, els) =>
        WhensStepsAgree(sg, f, p, q, ws, t);
        if els.Some? { StepsAgree(sg, f, p, q, els.value, t); }
      case Guard(c, a) =>
        StepsAgree(sg, f, p, q, c, TBool);
        StepsAgree(sg, f, p, q, a, t);
      case Aggregate(_, a, _) => TypedStepsAgree(sg, f, p, q, a);
      case Call(_, es) => ArgsStepsAgree(sg, f, p, q, es);
      case _ =>
    }
  }

  lemma FitsHasType(sg: Signature, l: Expr, op: BinaryOp, r: Expr, u: SqlType, v: SqlType, t: SqlType)
    requires Fits(op, u, v, t) && HasType(sg, l, u) && HasType(sg, r, v)
    ensures HasType(sg, Binary(l, op, r), t)
  {
  }

  lemma {:induction false} TypedStepsAgree(sg: Signature, f: Rule, p: Test, q: Test, e: Expr)
    requires Agree(sg, f, p, q) && exists u :: HasType(sg, e, u)
    ensures (exists u :: HasType(sg, Transform(e, f), u)) && (StepsAre(e, f, p) <==> StepsAre(e, f, q))
    decreases e, 3
  {
    var u :| HasType(sg, e, u);
    StepsAgree(sg, f, p, q, e, u);
  }

  lemma {:induction false} ListStepsAgree(sg: Signature, f: Rule, p: Test, q: Test, es: seq<Expr>, t: SqlType)
    requires Agree(sg, f, p, q) && AllHaveType(sg, es, t)
    ensures AllHaveType(sg, TransformAll(es, f), t) && (AllStepsAre(es, f, p) <==> AllStepsAre(es, f, q))
    decreases es, 0
  {
    if es != [] {
      StepsAgree(sg, f, p, q, es[0], t);
      ListStepsAgree(sg, f, p, q, es[1..], t);
      var rest := TransformAll(es[1..], f);
      var all := [Transform(es[0], f)] + rest;
      assert all[0] == Transform(es[0], f) && all[1..] == rest;
    }
  }

  lemma {:induction false} ArgsStepsAgree(sg: Signature, f: Rule, p: Test, q: Test, es: seq<Expr>)
    requires Agree(sg, f, p, q) && AllTyped(sg, es)
    ensures AllTyped(sg, TransformAll(es, f)) && (AllStepsAre(es, f, p) <==> AllStepsAre(es, f, q))
    decreases es, 0
  {
    if es != [] {
      TypedStepsAgree(sg, f, p, q, es[0]);
      ArgsStepsAgree(sg, f, p, q, es[1..]);
      var rest := TransformAll(es[1..], f);
      var all := [Transform(es[0], f)] + rest;
      assert all[0] == Transform(es[0], f) && all[1..] == rest;
    }
  }

  lemma {:induction false} WhenStepsAgree(sg: Signature, f: Rule, p: Test, q: Test, w: WhenClause, t: SqlType)
    requires Agree(sg, f, p, q) && WhenHasType(sg, w, t)
    ensures WhenHasType(sg, TransformWhen(w, f), t) && (WhenStepsAre(w, f, p) <==> WhenStepsAre(w, f, q))
    decreases w, 0
  {
    StepsAgree(sg, f, p, q, w.condition, TBool);
    StepsAgree(sg, f, p, q, w.result, t);
  }

  lemma {:induction false} WhensStepsAgree(sg: Signature, f: Rule, p: Test, q: Test, ws: seq<WhenClause>, t: SqlType)
    requires Agree(sg, f, p, q) && WhensHaveType(sg, ws, t)
    ensures WhensHaveType(sg, TransformWhens(ws, f), t) && (WhensStepsAre(ws, f, p) <==> WhensStepsAre(ws, f, q))
    decreases ws, 0
  {
    if ws != [] {
      WhenStepsAgree(sg, f, p, q, ws[0], t);
      WhensStepsAgree(sg, f, p, q, ws[1..], t);
      var rest := TransformWhens(ws[1..], f);
      var all := [TransformWhen(ws[0], f)] + rest;
      assert all[0] == TransformWhen(ws[0], f) && all[1..] == rest;
    }
  }

  /** Folding the node keeps its value in the row. */
  function KeepsValue(en: Engine, row: Row): Test {
    (e: Expr) => SimplifyNode(e).Some? ==> Eval(en, SimplifyNode(e).value, row) == Eval(en, e, row)
  }

  /** Every fold of the pass keeps the value of its node in a row if and only if no NULL literal
      decides a fold; so it does in one row exactly when it does in all. */
  lemma FoldsKeepValueExactly(sg: Signature, en: Engine, row: Row, e: Expr, t: SqlType)
    requires TypedRow(sg, row) && TypedEngine(sg, en) && HasType(sg, e, t)
    ensures StepsAre(e, SimplifyNode, KeepsValue(en, row)) <==> FoldsAreNullFree(e)
  {
    forall x, u | HasType(sg, x, u) && SimplifyNode(x).Some?
      ensures HasType(sg, SimplifyNode(x).value, u) && (KeepsValue(en, row)(x) <==> NullFreeFold(x))
    {
      NodeFoldExact(sg, en, row, x, u);
      FoldKeepsType(sg, x, u);
    }
    StepsAgree(sg, SimplifyNode, KeepsValue(en, row), NullFreeFold, e, t);
  }
}
