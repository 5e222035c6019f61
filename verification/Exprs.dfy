/**
 The expression tree that the compiler produces and the planner rewrites, with its
 meaning on one row under SQL's three-valued logic (ISO/IEC 9075:1992, sections 6.9,
 8.2, 8.4, 8.6 and 8.12).

 What SQL leaves to the engine (arithmetic, the order of values, function calls) is a
 parameter of the evaluation, so every theorem below holds for any engine.
 */
module Exprs {
  import opened Wrappers

  datatype BinaryOp =
    | Add | Subtract | Multiply | Divide | SafeDivide | Mod
    | Eq | NotEq | Lt | LtEq | Gt | GtEq
    | And | Or

  /** A 64-bit float: rounding is not modelled, the special values are. */
  datatype Float64 = Finite(value: real) | Infinite(negative: bool) | NaN

  datatype Literal =
    | Integer(n: int)
    | Float(f: Float64)
    | Str(s: string)
    | Boolean(value: bool)
    | Null

  datatype Aggregation = Sum | Count | CountDistinct | Avg | Min | Max

  datatype WhenClause = WhenClause(condition: Expr, result: Expr)

  /** `Call` stands for every node the modelled code never looks inside: function calls,
      LIKE, REGEXP, BETWEEN, COALESCE, CAST, and so on. */
  datatype Expr =
    | Column(name: string)
    | EntityRef(name: string)
    | Lit(lit: Literal)
    | Binary(left: Expr, op: BinaryOp, right: Expr)
    | Not(arg: Expr)
    | IsNull(arg: Expr)
    | IsNotNull(arg: Expr)
    | InList(arg: Expr, list: seq<Expr>, negated: bool)
    | Case(whens: seq<WhenClause>, els: Option<Expr>)
    | Guard(condition: Expr, arg: Expr)
    | Aggregate(agg: Aggregation, arg: Expr, distinct: bool)
    | Call(fn: string, args: seq<Expr>)

  const TRUE := Lit(Boolean(true))
  const FALSE := Lit(Boolean(false))
  const NULL := Lit(Null)

  // ---------------------------------------------------------------- bottom-up rewriting

  /** Rewrites the children first, then offers the rebuilt node to `f`; None keeps it. */
  function Transform(e: Expr, f: Expr -> Option<Expr>): Expr
    decreases e, 2
  {
    var rebuilt := TransformChildren(e, f);
    match f(rebuilt)
    case Some(r) => r
    case None => rebuilt
  }

  function TransformChildren(e: Expr, f: Expr -> Option<Expr>): Expr
    decreases e, 1
  {
    match e
    case Column(_) => e
    case EntityRef(_) => e
    case Lit(_) => e
    case Binary(l, op, r) => Binary(Transform(l, f), op, Transform(r, f))
    case Not(a) => Not(Transform(a, f))
    case IsNull(a) => IsNull(Transform(a, f))
    case IsNotNull(a) => IsNotNull(Transform(a, f))
    case InList(a, es, negated) => InList(Transform(a, f), TransformAll(es, f), negated)
    case Case(ws, els) => Case(TransformWhens(ws, f), if els.Some? then Some(Transform(els.value, f)) else None)
    case Guard(c, a) => Guard(Transform(c, f), Transform(a, f))
    case Aggregate(g, a, d) => Aggregate(g, Transform(a, f), d)
    case Call(g, es) => Call(g, TransformAll(es, f))
  }

  function TransformAll(es: seq<Expr>, f: Expr -> Option<Expr>): seq<Expr>
    decreases es, 0
  {
    if es == [] then [] else [Transform(es[0], f)] + TransformAll(es[1..], f)
  }

  function TransformWhen(w: WhenClause, f: Expr -> Option<Expr>): WhenClause
    decreases w, 0
  {
    WhenClause(Transform(w.condition, f), Transform(w.result, f))
  }

  function TransformWhens(ws: seq<WhenClause>, f: Expr -> Option<Expr>): seq<WhenClause>
    decreases ws, 0
  {
    if ws == [] then [] else [TransformWhen(ws[0], f)] + TransformWhens(ws[1..], f)
  }

  // ---------------------------------------------------------------- names

  /** Every column or entity name that occurs anywhere in the tree. */
  function Names(e: Expr): set<string>
    decreases e, 1
  {
    match e
    case Column(n) => {n}
    case EntityRef(n) => {n}
    case Lit(_) => {}
    case Binary(l, _, r) => Names(l) + Names(r)
    case Not(a) => Names(a)
    case IsNull(a) => Names(a)
    case IsNotNull(a) => Names(a)
    case InList(a, es, _) => Names(a) + NamesAll(es)
    case Case(ws, els) => NamesWhens(ws) + if els.Some? then Names(els.value) else {}
    case Guard(c, a) => Names(c) + Names(a)
    case Aggregate(_, a, _) => Names(a)
    case Call(_, es) => NamesAll(es)
  }

  function NamesAll(es: seq<Expr>): set<string>
    decreases es, 0
  {
    if es == [] then {} else Names(es[0]) + NamesAll(es[1..])
  }

  function NamesWhen(w: WhenClause): set<string>
    decreases w, 0
  {
    Names(w.condition) + Names(w.result)
  }

  function NamesWhens(ws: seq<WhenClause>): set<string>
    decreases ws, 0
  {
    if ws == [] then {} else NamesWhen(ws[0]) + NamesWhens(ws[1..])
  }

  // ---------------------------------------------------------------- values and rows

  datatype Value = VNull | VBool(b: bool) | VNum(r: real) | VStr(s: string)

  type Row = string -> Value

  datatype Engine = Engine(
    arith: (BinaryOp, Value, Value) -> Value,
    less: (Value, Value) -> bool,
    call: (string, seq<Value>) -> Value)

  function LiteralValue(l: Literal): Value {
    match l
    case Integer(n) => VNum(n as real)
    case Float(Finite(r)) => VNum(r)
    case Float(_) => VNull
    case Str(s) => VStr(s)
    case Boolean(b) => VBool(b)
    case Null => VNull
  }

  // ---------------------------------------------------------------- three-valued logic

  function And3(a: Value, b: Value): Value {
    if a == VBool(false) || b == VBool(false) then VBool(false)
    else if a == VBool(true) && b == VBool(true) then VBool(true)
    else VNull
  }

  function Or3(a: Value, b: Value): Value {
    if a == VBool(true) || b == VBool(true) then VBool(true)
    else if a == VBool(false) && b == VBool(false) then VBool(false)
    else VNull
  }

  function Not3(a: Value): Value {
    if a.VBool? then VBool(!a.b) else VNull
  }

  function Eq3(a: Value, b: Value): Value {
    if a.VNull? || b.VNull? then VNull else VBool(a == b)
  }

  function Less3(en: Engine, a: Value, b: Value): Value {
    if a.VNull? || b.VNull? then VNull else VBool(en.less(a, b))
  }

  /** IN as the disjunction of equalities (section 8.4). */
  function In3(v: Value, vs: seq<Value>): Value {
    if vs == [] then VBool(false) else Or3(Eq3(v, vs[0]), In3(v, vs[1..]))
  }

  function BinaryValue(en: Engine, op: BinaryOp, a: Value, b: Value): Value {
    match op
    case Eq => Eq3(a, b)
    case NotEq => Not3(Eq3(a, b))
    case Lt => Less3(en, a, b)
    case LtEq => Or3(Less3(en, a, b), Eq3(a, b))
    case Gt => Less3(en, b, a)
    case GtEq => Or3(Less3(en, b, a), Eq3(a, b))
    case And => And3(a, b)
    case Or => Or3(a, b)
    case _ => en.arith(op, a, b)
  }

  function AggregationName(f: Aggregation, distinct: bool): string {
    match f
    case Sum => if distinct then "SUM DISTINCT" else "SUM"
    case Count => if distinct then "COUNT DISTINCT" else "COUNT"
    case CountDistinct => "COUNT DISTINCT"
    case Avg => if distinct then "AVG DISTINCT" else "AVG"
    case Min => "MIN"
    case Max => "MAX"
  }

  // ---------------------------------------------------------------- evaluation

  function Eval(en: Engine, e: Expr, row: Row): Value
    decreases e, 1
  {
    match e
    case Column(n) => row(n)
    case EntityRef(n) => row(n)
    case Lit(l) => LiteralValue(l)
    case Binary(l, op, r) => BinaryValue(en, op, Eval(en, l, row), Eval(en, r, row))
    case Not(a) => Not3(Eval(en, a, row))
    case IsNull(a) => VBool(Eval(en, a, row).VNull?)
    case IsNotNull(a) => VBool(!Eval(en, a, row).VNull?)
    case InList(a, es, negated) =>
      var found := In3(Eval(en, a, row), EvalAll(en, es, row));
      if negated then Not3(found) else found
    case Case(ws, els) =>
      (match EvalWhens(en, ws, row)
       case Some(v) => v
       case None => if els.Some? then Eval(en, els.value, row) else VNull)
    case Guard(c, a) => if Eval(en, c, row) == VBool(true) then Eval(en, a, row) else VNull
    case Aggregate(f, a, d) => en.call(AggregationName(f, d), [Eval(en, a, row)])
    case Call(f, es) => en.call(f, EvalAll(en, es, row))
  }

  function EvalAll(en: Engine, es: seq<Expr>, row: Row): (vs: seq<Value>)
    ensures |vs| == |es|
    decreases es, 0
  {
    if es == [] then [] else [Eval(en, es[0], row)] + EvalAll(en, es[1..], row)
  }

  /** The result of the first branch whose condition is TRUE. */
  function EvalWhens(en: Engine, ws: seq<WhenClause>, row: Row): Option<Value>
    decreases ws, 0
  {
    if ws == [] then None
    else match EvalWhen(en, ws[0], row)
      case Some(v) => Some(v)
      case None => EvalWhens(en, ws[1..], row)
  }

  function EvalWhen(en: Engine, w: WhenClause, row: Row): Option<Value>
    decreases w, 0
  {
    if Eval(en, w.condition, row) == VBool(true) then Some(Eval(en, w.result, row)) else None
  }

  /** An expression reads a row only at its names. */
  lemma {:induction false} EvalReadsOnlyNames(en: Engine, e: Expr, row: Row, row': Row)
    requires forall n :: n in Names(e) ==> row(n) == row'(n)
    ensures Eval(en, e, row) == Eval(en, e, row')
    decreases e, 1
  {
    match e {
      case Binary(l, _, r) => EvalReadsOnlyNames(en, l, row, row'); EvalReadsOnlyNames(en, r, row, row');
      case Not(a) => EvalReadsOnlyNames(en, a, row, row');
      case IsNull(a) => EvalReadsOnlyNames(en, a, row, row');
      case IsNotNull(a) => EvalReadsOnlyNames(en, a, row, row');
      case InList(a, es, _) => EvalReadsOnlyNames(en, a, row, row'); EvalAllReadsOnlyNames(en, es, row, row');
      case Case(ws, els) =>
        EvalWhensReadsOnlyNames(en, ws, row, row');
        if els.Some? { EvalReadsOnlyNames(en, els.value, row, row'); }
      case Guard(c, a) => EvalReadsOnlyNames(en, c, row, row'); EvalReadsOnlyNames(en, a, row, row');
      case Aggregate(_, a, _) => EvalReadsOnlyNames(en, a, row, row');
      case Call(_, es) => EvalAllReadsOnlyNames(en, es, row, row');
      case _ =>
    }
  }

  lemma {:induction false} EvalAllReadsOnlyNames(en: Engine, es: seq<Expr>, row: Row, row': Row)
    requires forall n :: n in NamesAll(es) ==> row(n) == row'(n)
    ensures EvalAll(en, es, row) == EvalAll(en, es, row')
    decreases es, 0
  {
    if es != [] {
      EvalReadsOnlyNames(en, es[0], row, row');
      EvalAllReadsOnlyNames(en, es[1..], row, row');
    }
  }

  lemma {:induction false} EvalWhenReadsOnlyNames(en: Engine, w: WhenClause, row: Row, row': Row)
    requires forall n :: n in NamesWhen(w) ==> row(n) == row'(n)
    ensures EvalWhen(en, w, row) == EvalWhen(en, w, row')
    decreases w, 0
  {
    EvalReadsOnlyNames(en, w.condition, row, row');
    EvalReadsOnlyNames(en, w.result, row, row');
  }

  lemma {:induction false} EvalWhensReadsOnlyNames(en: Engine, ws: seq<WhenClause>, row: Row, row': Row)
    requires forall n :: n in NamesWhens(ws) ==> row(n) == row'(n)
    ensures EvalWhens(en, ws, row) == EvalWhens(en, ws, row')
    decreases ws, 0
  {
    if ws != [] {
      EvalWhenReadsOnlyNames(en, ws[0], row, row');
      EvalWhensReadsOnlyNames(en, ws[1..], row, row');
    }
  }

  // ---------------------------------------------------------------- types

  datatype SqlType = TBool | TInt | TFloat | TStr

  /** The type of every column, and of every function's result. */
  datatype Signature = Signature(column: string -> SqlType, result: string -> SqlType)

  /** A value of type t is NULL or of t's domain. */
  predicate Conforms(v: Value, t: SqlType) {
    match v
    case VNull => true
    case VBool(_) => t.TBool?
    case VNum(_) => t.TInt? || t.TFloat?
    case VStr(_) => t.TStr?
  }

  ghost predicate TypedRow(sg: Signature, row: Row) {
    forall n :: Conforms(row(n), sg.column(n))
  }

  ghost predicate TypedEngine(sg: Signature, en: Engine) {
    && (forall f, vs :: Conforms(en.call(f, vs), sg.result(f)))
    && (forall op, a, b :: Conforms(en.arith(op, a, b), TInt))
  }

  predicate LiteralHasType(l: Literal, t: SqlType) {
    match l
    case Integer(_) => t.TInt?
    case Float(f) => f.Finite? && t.TFloat?
    case Str(_) => t.TStr?
    case Boolean(_) => t.TBool?
    case Null => true
  }

  predicate IsLogical(op: BinaryOp) { op.And? || op.Or? }

  predicate IsComparison(op: BinaryOp) { op.Eq? || op.NotEq? || op.Lt? || op.LtEq? || op.Gt? || op.GtEq? }

  /** `e` can be read as an expression of type t: comparisons are between operands of one
      type, logical operators and conditions are boolean. */
  ghost predicate HasType(sg: Signature, e: Expr, t: SqlType)
    decreases e, 1
  {
    match e
    case Column(n) => sg.column(n) == t
    case EntityRef(n) => sg.column(n) == t
    case Lit(l) => LiteralHasType(l, t)
    case Binary(l, op, r) =>
      if IsLogical(op) then t.TBool? && HasType(sg, l, TBool) && HasType(sg, r, TBool)
      else if IsComparison(op) then t.TBool? && exists u :: HasType(sg, l, u) && HasType(sg, r, u)
      else (t.TInt? || t.TFloat?) && (exists u :: HasType(sg, l, u)) && (exists u :: HasType(sg, r, u))
    case Not(a) => t.TBool? && HasType(sg, a, TBool)
    case IsNull(a) => t.TBool? && exists u :: HasType(sg, a, u)
    case IsNotNull(a) => t.TBool? && exists u :: HasType(sg, a, u)
    case InList(a, es, _) => t.TBool? && exists u :: HasType(sg, a, u) && AllHaveType(sg, es, u)
    case Case(ws, els) => WhensHaveType(sg, ws, t) && (els.Some? ==> HasType(sg, els.value, t))
    case Guard(c, a) => HasType(sg, c, TBool) && HasType(sg, a, t)
    case Aggregate(f, a, d) => sg.result(AggregationName(f, d)) == t && exists u :: HasType(sg, a, u)
    case Call(f, es) => sg.result(f) == t && AllTyped(sg, es)
  }

  ghost predicate AllHaveType(sg: Signature, es: seq<Expr>, t: SqlType)
    decreases es, 0
  {
    es == [] || (HasType(sg, es[0], t) && AllHaveType(sg, es[1..], t))
  }

  ghost predicate AllTyped(sg: Signature, es: seq<Expr>)
    decreases es, 0
  {
    es == [] || ((exists u :: HasType(sg, es[0], u)) && AllTyped(sg, es[1..]))
  }

  ghost predicate WhensHaveType(sg: Signature, ws: seq<WhenClause>, t: SqlType)
    decreases ws, 0
  {
    ws == [] || (WhenHasType(sg, ws[0], t) && WhensHaveType(sg, ws[1..], t))
  }

  ghost predicate WhenHasType(sg: Signature, w: WhenClause, t: SqlType)
    decreases w, 0
  {
    HasType(sg, w.condition, TBool) && HasType(sg, w.result, t)
  }

  /** Evaluating an expression of type t yields NULL or a value of t. */
  lemma {:induction false} TypeSoundness(sg: Signature, en: Engine, row: Row, e: Expr, t: SqlType)
    requires TypedRow(sg, row) && TypedEngine(sg, en) && HasType(sg, e, t)
    ensures Conforms(Eval(en, e, row), t)
    decreases e, 1
  {
    match e {
      case Case(ws, els) =>
        WhensTypeSoundness(sg, en, row, ws, t);
        if els.Some? { TypeSoundness(sg, en, row, els.value, t); }
      case Guard(c, a) => TypeSoundness(sg, en, row, a, t);
      case _ =>
    }
  }

  lemma {:induction false} WhensTypeSoundness(sg: Signature, en: Engine, row: Row, ws: seq<WhenClause>, t: SqlType)
    requires TypedRow(sg, row) && TypedEngine(sg, en) && WhensHaveType(sg, ws, t)
    ensures EvalWhens(en, ws, row).Some? ==> Conforms(EvalWhens(en, ws, row).value, t)
    decreases ws, 0
  {
    if ws != [] {
      WhenTypeSoundness(sg, en, row, ws[0], t);
      WhensTypeSoundness(sg, en, row, ws[1..], t);
    }
  }

  lemma {:induction false} WhenTypeSoundness(sg: Signature, en: Engine, row: Row, w: WhenClause, t: SqlType)
    requires TypedRow(sg, row) && TypedEngine(sg, en) && WhenHasType(sg, w, t)
    ensures EvalWhen(en, w, row).Some? ==> Conforms(EvalWhen(en, w, row).value, t)
    decreases w, 0
  {
    TypeSoundness(sg, en, row, w.result, t);
  }
}
