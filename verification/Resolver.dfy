/**
 Name resolution: semantic names become physical columns, and guards become CASE.
 */
module Resolver {
  import opened Wrappers
  import opened Exprs

  /** The pre-resolved mapping from semantic names to physical column names. */
  type Physical = map<string, string>

  function PhysicalName(physical: Physical, name: string): string {
    if name in physical then physical[name] else name
  }

  function ResolveColumn(physical: Physical, name: string): Expr {
    Column(PhysicalName(physical, name))
  }

  function ResolveNode(physical: Physical): Expr -> Option<Expr> {
    (e: Expr) =>
      match e
      case Column(n) => Some(ResolveColumn(physical, n))
      case EntityRef(n) => Some(ResolveColumn(physical, n))
      case Guard(c, a) => Some(Case([WhenClause(c, a)], Some(NULL)))
      case _ => None
  }

  function ResolveExpr(physical: Physical, e: Expr): Expr {
    Transform(e, ResolveNode(physical))
  }

  /** The semantic row that a physical row stands for: a mapped name is read from its physical
      column, any other name from the column of its own name. */
  function Renamed(physical: Physical, row: Row): Row {
    n => if n in physical then row(physical[n]) else row(n)
  }

  /** The physical columns that hold some semantic names. */
  function Image(physical: Physical, names: set<string>): set<string> {
    (set n | n in names && n in physical :: physical[n]) + (names - physical.Keys)
  }

  /** What a plan may contain: no unresolved reference and no guard. */
  predicate PlanReady(e: Expr)
    decreases e, 1
  {
    match e
    case Column(_) => true
    case EntityRef(_) => false
    case Lit(_) => true
    case Binary(l, _, r) => PlanReady(l) && PlanReady(r)
    case Not(a) => PlanReady(a)
    case IsNull(a) => PlanReady(a)
    case IsNotNull(a) => PlanReady(a)
    case InList(a, es, _) => PlanReady(a) && AllPlanReady(es)
    case Case(ws, els) => WhensPlanReady(ws) && (els.Some? ==> PlanReady(els.value))
    case Guard(_, _) => false
    case Aggregate(_, a, _) => PlanReady(a)
    case Call(_, es) => AllPlanReady(es)
  }

  predicate AllPlanReady(es: seq<Expr>)
    decreases es, 0
  {
    es == [] || (PlanReady(es[0]) && AllPlanReady(es[1..]))
  }

  predicate WhenPlanReady(w: WhenClause)
    decreases w, 0
  {
    PlanReady(w.condition) && PlanReady(w.result)
  }

  predicate WhensPlanReady(ws: seq<WhenClause>)
    decreases ws, 0
  {
    ws == [] || (WhenPlanReady(ws[0]) && WhensPlanReady(ws[1..]))
  }

  lemma ResolveUnfolds(physical: Physical, e: Expr)
    ensures ResolveExpr(physical, e) ==
            match TransformChildren(e, ResolveNode(physical))
            case Column(n) => ResolveColumn(physical, n)
            case EntityRef(n) => ResolveColumn(physical, n)
            case Guard(c, a) => Case([WhenClause(c, a)], Some(NULL))
            case rebuilt => rebuilt
  {
    var rebuilt := TransformChildren(e, ResolveNode(physical));
    assert ResolveNode(physical)(rebuilt) ==
           match rebuilt
           case Column(n) => Some(ResolveColumn(physical, n))
           case EntityRef(n) => Some(ResolveColumn(physical, n))
           case Guard(c, a) => Some(Case([WhenClause(c, a)], Some(NULL)))
           case _ => None;
  }

  /** Resolution is a simultaneous renaming: on a physical row the resolved expression has the
      value of the original on the renamed row. */
  lemma {:induction false} ResolveMeaning(en: Engine, physical: Physical, e: Expr, row: Row)
    ensures Eval(en, ResolveExpr(physical, e), row) == Eval(en, e, Renamed(physical, row))
    decreases e, 1
  {
    ResolveUnfolds(physical, e);
    match e {
      case Binary(l, _, r) => ResolveMeaning(en, physical, l, row); ResolveMeaning(en, physical, r, row);
      case Not(a) => ResolveMeaning(en, physical, a, row);
      case IsNull(a) => ResolveMeaning(en, physical, a, row);
      case IsNotNull(a) => ResolveMeaning(en, physical, a, row);
      case InList(a, es, _) => ResolveMeaning(en, physical, a, row); ResolveAllMeaning(en, physical, es, row);
      case Case(ws, els) =>
        ResolveWhensMeaning(en, physical, ws, row);
        if els.Some? { ResolveMeaning(en, physical, els.value, row); }
      case Guard(c, a) =>
        ResolveMeaning(en, physical, c, row);
        ResolveMeaning(en, physical, a, row);
        GuardAsCase(en, ResolveExpr(physical, c), ResolveExpr(physical, a), row);
      case Aggregate(_, a, _) => ResolveMeaning(en, physical, a, row);
      case Call(_, es) => ResolveAllMeaning(en, physical, es, row);
      case _ =>
    }
  }

  lemma GuardAsCase(en: Engine, c: Expr, a: Expr, row: Row)
    ensures Eval(en, Case([WhenClause(c, a)], Some(NULL)), row) == Eval(en, Guard(c, a), row)
  {
    var ws := [WhenClause(c, a)];
    assert ws[1..] == [];
    assert EvalWhens(en, ws, row) == EvalWhen(en, ws[0], row);
  }

  lemma {:induction false} ResolveAllMeaning(en: Engine, physical: Physical, es: seq<Expr>, row: Row)
    ensures EvalAll(en, TransformAll(es, ResolveNode(physical)), row) == EvalAll(en, es, Renamed(physical, row))
    decreases es, 0
  {
    if es != [] {
      ResolveMeaning(en, physical, es[0], row);
      ResolveAllMeaning(en, physical, es[1..], row);
    }
  }

  lemma {:induction false} ResolveWhenMeaning(en: Engine, physical: Physical, w: WhenClause, row: Row)
    ensures EvalWhen(en, TransformWhen(w, ResolveNode(physical)), row) == EvalWhen(en, w, Renamed(physical, row))
    decreases w, 0
  {
    ResolveMeaning(en, physical, w.condition, row);
    ResolveMeaning(en, physical, w.result, row);
  }

  lemma {:induction false} ResolveWhensMeaning(en: Engine, physical: Physical, ws: seq<WhenClause>, row: Row)
    ensures EvalWhens(en, TransformWhens(ws, ResolveNode(physical)), row) == EvalWhens(en, ws, Renamed(physical, row))
    decreases ws, 0
  {
    if ws != [] {
      ResolveWhenMeaning(en, physical, ws[0], row);
      ResolveWhensMeaning(en, physical, ws[1..], row);
      var rest := TransformWhens(ws[1..], ResolveNode(physical));
      var all := [TransformWhen(ws[0], ResolveNode(physical))] + rest;
      assert all[0] == TransformWhen(ws[0], ResolveNode(physical)) && all[1..] == rest;
    }
  }

  /** Nothing unresolved is left. */
  lemma {:induction false} ResolvedIsReady(physical: Physical, e: Expr)
    ensures PlanReady(ResolveExpr(physical, e))
    decreases e, 1
  {
    ResolveUnfolds(physical, e);
    match e {
      case Binary(l, _, r) => ResolvedIsReady(physical, l); ResolvedIsReady(physical, r);
      case Not(a) => ResolvedIsReady(physical, a);
      case IsNull(a) => ResolvedIsReady(physical, a);
      case IsNotNull(a) => ResolvedIsReady(physical, a);
      case InList(a, es, _) => ResolvedIsReady(physical, a); ResolvedAreReady(physical, es);
      case Case(ws, els) =>
        ResolvedWhensAreReady(physical, ws);
        if els.Some? { ResolvedIsReady(physical, els.value); }
      case Guard(c, a) =>
        ResolvedIsReady(physical, c);
        ResolvedIsReady(physical, a);
        var ws := [WhenClause(ResolveExpr(physical, c), ResolveExpr(physical, a))];
        assert ws[1..] == [] && WhensPlanReady(ws) == WhenPlanReady(ws[0]);
      case Aggregate(_, a, _) => ResolvedIsReady(physical, a);
      case Call(_, es) => ResolvedAreReady(physical, es);
      case _ =>
    }
  }

  lemma {:induction false} ResolvedAreReady(physical: Physical, es: seq<Expr>)
    ensures AllPlanReady(TransformAll(es, ResolveNode(physical)))
    decreases es, 0
  {
    if es != [] {
      ResolvedIsReady(physical, es[0]);
      ResolvedAreReady(physical, es[1..]);
    }
  }

  lemma {:induction false} ResolvedWhenIsReady(physical: Physical, w: WhenClause)
    ensures WhenPlanReady(TransformWhen(w, ResolveNode(physical)))
    decreases w, 0
  {
    ResolvedIsReady(physical, w.condition);
    ResolvedIsReady(physical, w.result);
  }

  lemma {:induction false} ResolvedWhensAreReady(physical: Physical, ws: seq<WhenClause>)
    ensures WhensPlanReady(TransformWhens(ws, ResolveNode(physical)))
    decreases ws, 0
  {
    if ws != [] {
      ResolvedWhenIsReady(physical, ws[0]);
      ResolvedWhensAreReady(physical, ws[1..]);
    }
  }

  /** The resolved expression reads the physical columns of the names in the original, and no
      others. */
  lemma {:induction false} ResolvedNames(physical: Physical, e: Expr)
    ensures Names(ResolveExpr(physical, e)) == Image(physical, Names(e))
    decreases e, 1
  {
    ResolveUnfolds(physical, e);
    match e {
      case Binary(l, _, r) =>
        ResolvedNames(physical, l);
        ResolvedNames(physical, r);
        ImageUnion(physical, Names(l), Names(r));
      case Not(a) => ResolvedNames(physical, a);
      case IsNull(a) => ResolvedNames(physical, a);
      case IsNotNull(a) => ResolvedNames(physical, a);
      case InList(a, es, _) =>
        ResolvedNames(physical, a);
        ResolvedNamesAll(physical, es);
        ImageUnion(physical, Names(a), NamesAll(es));
      case Case(ws, els) =>
        ResolvedNamesWhens(physical, ws);
        if els.Some? {
          ResolvedNames(physical, els.value);
          ImageUnion(physical, NamesWhens(ws), Names(els.value));
        }
      case Guard(c, a) =>
        ResolvedNames(physical, c);
        ResolvedNames(physical, a);
        ImageUnion(physical, Names(c), Names(a));
        GuardNames(ResolveExpr(physical, c), ResolveExpr(physical, a));
      case Aggregate(_, a, _) => ResolvedNames(physical, a);
      case Call(_, es) => ResolvedNamesAll(physical, es);
      case _ =>
    }
  }

  lemma ImageUnion(physical: Physical, a: set<string>, b: set<string>)
    ensures Image(physical, a + b) == Image(physical, a) + Image(physical, b)
  {
  }

  lemma GuardNames(c: Expr, a: Expr)
    ensures Names(Case([WhenClause(c, a)], Some(NULL))) == Names(c) + Names(a)
  {
    var ws := [WhenClause(c, a)];
    assert ws[1..] == [];
    assert NamesWhens(ws) == NamesWhen(ws[0]);
  }

  lemma {:induction false} ResolvedNamesAll(physical: Physical, es: seq<Expr>)
    ensures NamesAll(TransformAll(es, ResolveNode(physical))) == Image(physical, NamesAll(es))
    decreases es, 0
  {
    if es != [] {
      ResolvedNames(physical, es[0]);
      ResolvedNamesAll(physical, es[1..]);
      ImageUnion(physical, Names(es[0]), NamesAll(es[1..]));
    }
  }

  lemma {:induction false} ResolvedNamesWhen(physical: Physical, w: WhenClause)
    ensures NamesWhen(TransformWhen(w, ResolveNode(physical))) == Image(physical, NamesWhen(w))
    decreases w, 0
  {
    ResolvedNames(physical, w.condition);
    ResolvedNames(physical, w.result);
    ImageUnion(physical, Names(w.condition), Names(w.result));
  }

  lemma {:induction false} ResolvedNamesWhens(physical: Physical, ws: seq<WhenClause>)
    ensures NamesWhens(TransformWhens(ws, ResolveNode(physical))) == Image(physical, NamesWhens(ws))
    decreases ws, 0
  {
    if ws != [] {
      ResolvedNamesWhen(physical, ws[0]);
      ResolvedNamesWhens(physical, ws[1..]);
      ImageUnion(physical, NamesWhen(ws[0]), NamesWhens(ws[1..]));
      var rest := TransformWhens(ws[1..], ResolveNode(physical));
      var all := [TransformWhen(ws[0], ResolveNode(physical))] + rest;
      assert all[0] == TransformWhen(ws[0], ResolveNode(physical)) && all[1..] == rest;
    }
  }
}
