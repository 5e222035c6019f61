/**
 A guarantee that can be read off an expression: when the operands of its comparisons can never
 fold to NULL, no NULL literal decides a fold of it.
 */
module NullSafety {
  import opened Wrappers
  import opened Exprs
  import opened Simplify
  import opened SimplifyMeaning

  /** No sequence of folds can turn `e` into the literal NULL. */
  predicate NeverNull(e: Expr)
    decreases e, 1
  {
    match e
    case Lit(l) => !l.Null?
    case Binary(l, op, r) => (op.And? || op.Or?) ==> NeverNull(l) && NeverNull(r)
    case Case(ws, els) => els.Some? && NeverNull(els.value) && WhensNeverNull(ws)
    case _ => true
  }

  predicate WhenNeverNull(w: WhenClause)
    decreases w, 0
  {
    NeverNull(w.result)
  }

  predicate WhensNeverNull(ws: seq<WhenClause>)
    decreases ws, 0
  {
    ws == [] || (WhenNeverNull(ws[0]) && WhensNeverNull(ws[1..]))
  }

  predicate AllNeverNull(es: seq<Expr>) {
    forall e :: e in es ==> NeverNull(e)
  }

  /** The operands of every `=`, `<>` and IN are never the NULL literal. */
  predicate NullSafe(e: Expr)
    decreases e, 1
  {
    match e
    case Binary(l, op, r) =>
      && NullSafe(l) && NullSafe(r)
      && (op.Eq? || op.NotEq? ==> NeverNull(l) && NeverNull(r))
    case Not(a) => NullSafe(a)
    case IsNull(a) => NullSafe(a)
    case IsNotNull(a) => NullSafe(a)
    case InList(a, es, _) => NullSafe(a) && AllNullSafe(es) && NeverNull(a) && AllNeverNull(es)
    case Case(ws, els) => WhensNullSafe(ws) && (els.Some? ==> NullSafe(els.value))
    case Guard(c, a) => NullSafe(c) && NullSafe(a)
    case Aggregate(_, a, _) => NullSafe(a)
    case Call(_, es) => AllNullSafe(es)
    case _ => true
  }

  predicate AllNullSafe(es: seq<Expr>)
    decreases es, 0
  {
    es == [] || (NullSafe(es[0]) && AllNullSafe(es[1..]))
  }

  predicate WhenNullSafe(w: WhenClause)
    decreases w, 0
  {
    NullSafe(w.condition) && NullSafe(w.result)
  }

  predicate WhensNullSafe(ws: seq<WhenClause>)
    decreases ws, 0
  {
    ws == [] || (WhenNullSafe(ws[0]) && WhensNullSafe(ws[1..]))
  }

  // ---------------------------------------------------------------- one node

  /** What a rewriting step must keep. */
  predicate Keeps(e: Expr, r: Expr) {
    NullSafe(r) && (NeverNull(e) ==> NeverNull(r))
  }

  lemma {:induction false} BranchesKeep(ws: seq<WhenClause>, n: nat)
    requires n <= |ws| && WhensNullSafe(ws)
    ensures WhensNullSafe(LiveBranches(ws[..n]))
    ensures WhensNeverNull(ws) ==> WhensNeverNull(LiveBranches(ws[..n]))
    ensures n < |ws| ==> WhenNullSafe(ws[n])
    ensures n < |ws| && WhensNeverNull(ws) ==> WhenNeverNull(ws[n])
  {
    if ws != [] && n > 0 {
      BranchesKeep(ws[1..], n - 1);
      assert ws[..n][0] == ws[0] && ws[..n][1..] == ws[1..][..n - 1];
      if ws[0].condition != FALSE {
        var live := [ws[0]] + LiveBranches(ws[1..][..n - 1]);
        assert live[0] == ws[0] && live[1..] == LiveBranches(ws[1..][..n - 1]);
        assert WhensNullSafe(live);
        assert WhensNeverNull(ws) ==> WhensNeverNull(live);
      }
    }
  }

  lemma NeverNullHasNoNull(es: seq<Expr>)
    requires AllNeverNull(es)
    ensures NULL !in es
  {
    assert !NeverNull(NULL);
  }

  lemma FoldKeeps(e: Expr)
    requires NullSafe(e) && SimplifyNode(e).Some?
    ensures Keeps(e, SimplifyNode(e).value) && NullFreeFold(e)
  {
    match e
    case Binary(l, op, r) =>
      var f := SimplifyBinary(l, op, r).value;
      assert f == l || f == r || (f.Lit? && !f.lit.Null?);
      assert !NeverNull(NULL);
    case InList(a, es, _) =>
      NeverNullHasNoNull(es);
      assert !NeverNull(NULL);
    case Case(ws, els) => BranchesKeep(ws, FirstTrue(ws));
    case Not(_) =>
  }

  // ---------------------------------------------------------------- the whole tree

  /** Rewriting a null-safe node keeps it so, and the node is good. */
  ghost predicate StepsKeep(f: Expr -> Option<Expr>, good: Expr -> bool) {
    forall e :: NullSafe(e) && f(e).Some? ==> Keeps(e, f(e).value) && good(e)
  }

  lemma {:induction false} TransformKeeps(f: Expr -> Option<Expr>, good: Expr -> bool, e: Expr)
    requires StepsKeep(f, good) && NullSafe(e)
    ensures Keeps(e, Transform(e, f)) && StepsAre(e, f, good)
    decreases e, 1
  {
    var rebuilt := TransformChildren(e, f);
    assert Keeps(e, rebuilt) && StepsBelowAre(e, f, good) by {
      match e {
        case Binary(l, _, r) => TransformKeeps(f, good, l); TransformKeeps(f, good, r);
        case Not(a) => TransformKeeps(f, good, a);
        case IsNull(a) => TransformKeeps(f, good, a);
        case IsNotNull(a) => TransformKeeps(f, good, a);
        case InList(a, es, _) => TransformKeeps(f, good, a); AllTransformKeep(f, good, es);
        case Case(ws, els) =>
          WhensTransformKeep(f, good, ws);
          if els.Some? { TransformKeeps(f, good, els.value); }
        case Guard(c, a) => TransformKeeps(f, good, c); TransformKeeps(f, good, a);
        case Aggregate(_, a, _) => TransformKeeps(f, good, a);
        case Call(_, es) => AllTransformKeep(f, good, es);
        case _ =>
      }
    }
  }

  lemma {:induction false} AllTransformKeep(f: Expr -> Option<Expr>, good: Expr -> bool, es: seq<Expr>)
    requires StepsKeep(f, good) && AllNullSafe(es)
    ensures AllNullSafe(TransformAll(es, f)) && AllStepsAre(es, f, good)
    ensures AllNeverNull(es) ==> AllNeverNull(TransformAll(es, f))
    decreases es, 0
  {
    if es != [] {
      TransformKeeps(f, good, es[0]);
      AllTransformKeep(f, good, es[1..]);
    }
  }

  lemma {:induction false} WhenTransformKeeps(f: Expr -> Option<Expr>, good: Expr -> bool, w: WhenClause)
    requires StepsKeep(f, good) && WhenNullSafe(w)
    ensures WhenNullSafe(TransformWhen(w, f)) && WhenStepsAre(w, f, good)
    ensures WhenNeverNull(w) ==> WhenNeverNull(TransformWhen(w, f))
    decreases w, 0
  {
    TransformKeeps(f, good, w.condition);
    TransformKeeps(f, good, w.result);
  }

  lemma {:induction false} WhensTransformKeep(f: Expr -> Option<Expr>, good: Expr -> bool, ws: seq<WhenClause>)
    requires StepsKeep(f, good) && WhensNullSafe(ws)
    ensures WhensNullSafe(TransformWhens(ws, f)) && WhensStepsAre(ws, f, good)
    ensures WhensNeverNull(ws) ==> WhensNeverNull(TransformWhens(ws, f))
    decreases ws, 0
  {
    if ws != [] {
      WhenTransformKeeps(f, good, ws[0]);
      WhensTransformKeep(f, good, ws[1..]);
      var rest := TransformWhens(ws[1..], f);
      var all := [TransformWhen(ws[0], f)] + rest;
      assert all[0] == TransformWhen(ws[0], f) && all[1..] == rest;
    }
  }

  /** Comparisons over columns and literals other than NULL, and over CASE with an ELSE, satisfy
      the condition under which substitution and folding keep the SQL value. */
  lemma NullSafeFoldsAreNullFree(e: Expr, known: map<string, string>)
    requires NullSafe(e)
    ensures FoldsAreNullFree(Substitute(e, known))
  {
    TransformKeeps(SubstituteNode(known), IsKnownColumn, e);
    forall x | NullSafe(x) && SimplifyNode(x).Some? ensures Keeps(x, SimplifyNode(x).value) && NullFreeFold(x) {
      FoldKeeps(x);
    }
    TransformKeeps(SimplifyNode, NullFreeFold, Substitute(e, known));
  }
}
