/**
 SQL aggregation over rows (ISO/IEC 9075:1992, section 6.5), and the lowering of a filtered
 measure to conditional aggregation.
 */
module Aggregations {
  import opened Wrappers
  import opened Exprs
  import opened Resolver

  // ---------------------------------------------------------------- set functions

  function NonNull(vs: seq<Value>): seq<Value> {
    if vs == [] then []
    else (if vs[0].VNull? then [] else [vs[0]]) + NonNull(vs[1..])
  }

  /** The sum of a nonempty list, left to right. */
  function SumOf(en: Engine, vs: seq<Value>): Value
    requires vs != []
  {
    if |vs| == 1 then vs[0] else en.arith(Add, SumOf(en, vs[..|vs| - 1]), vs[|vs| - 1])
  }

  function MinOf(en: Engine, vs: seq<Value>): Value
    requires vs != []
  {
    if |vs| == 1 then vs[0]
    else var m := MinOf(en, vs[1..]); if en.less(m, vs[0]) then m else vs[0]
  }

  function MaxOf(en: Engine, vs: seq<Value>): Value
    requires vs != []
  {
    if |vs| == 1 then vs[0]
    else var m := MaxOf(en, vs[1..]); if en.less(vs[0], m) then m else vs[0]
  }

  /** A set function applied to a column of values: NULLs are eliminated first. */
  function AggregateColumn(en: Engine, f: Aggregation, column: seq<Value>): Value {
    var vs := NonNull(column);
    if f.Count? then VNum(|vs| as real)
    else if f.CountDistinct? then VNum(|set v | v in vs| as real)
    else if vs == [] then VNull
    else if f.Sum? then SumOf(en, vs)
    else if f.Avg? then en.arith(Divide, SumOf(en, vs), VNum(|vs| as real))
    else if f.Min? then MinOf(en, vs)
    else MaxOf(en, vs)
  }

  /** The engine's comparison orders values: never both ways, and not being below is transitive. */
  ghost predicate OrdersValues(en: Engine) {
    && (forall u, v :: en.less(u, v) ==> !en.less(v, u))
    && (forall u, v, w :: !en.less(u, v) && !en.less(v, w) ==> !en.less(u, w))
  }

  /** The minimum is a value of the column that none is below. */
  lemma {:induction false} MinIsLeast(en: Engine, vs: seq<Value>)
    requires vs != [] && OrdersValues(en)
    ensures MinOf(en, vs) in vs && forall v :: v in vs ==> !en.less(v, MinOf(en, vs))
  {
    if |vs| > 1 {
      MinIsLeast(en, vs[1..]);
      var m := MinOf(en, vs[1..]);
      forall v | v in vs[1..] ensures !en.less(v, MinOf(en, vs)) {
        assert !en.less(v, m) && (!en.less(m, vs[0]) ==> !en.less(v, vs[0]));
      }
      assert forall v :: v in vs <==> v == vs[0] || v in vs[1..];
    }
  }

  lemma {:induction false} MaxIsGreatest(en: Engine, vs: seq<Value>)
    requires vs != [] && OrdersValues(en)
    ensures MaxOf(en, vs) in vs && forall v :: v in vs ==> !en.less(MaxOf(en, vs), v)
  {
    if |vs| > 1 {
      MaxIsGreatest(en, vs[1..]);
      var m := MaxOf(en, vs[1..]);
      forall v | v in vs[1..] ensures !en.less(MaxOf(en, vs), v) {
        assert !en.less(m, v) && (!en.less(vs[0], m) ==> !en.less(vs[0], v));
      }
      assert forall v :: v in vs <==> v == vs[0] || v in vs[1..];
    }
  }

  function ColumnOf(en: Engine, e: Expr, rows: seq<Row>): (vs: seq<Value>)
    ensures |vs| == |rows|
  {
    if rows == [] then [] else [Eval(en, e, rows[0])] + ColumnOf(en, e, rows[1..])
  }

  function AggregateRows(en: Engine, f: Aggregation, e: Expr, rows: seq<Row>): Value {
    AggregateColumn(en, f, ColumnOf(en, e, rows))
  }

  // ---------------------------------------------------------------- filters

  predicate PassesAll(en: Engine, filters: seq<Expr>, row: Row) {
    forall f :: f in filters ==> Eval(en, f, row) == VBool(true)
  }

  /** The semantic rows behind `rows` on which every filter is TRUE. */
  function FilteredRows(en: Engine, physical: Physical, filters: seq<Expr>, rows: seq<Row>): seq<Row> {
    if rows == [] then []
    else
      var row := Renamed(physical, rows[0]);
      (if PassesAll(en, filters, row) then [row] else []) + FilteredRows(en, physical, filters, rows[1..])
  }

  /** f1 AND f2 AND ... AND fn, associated to the left. */
  function Conjunction(fs: seq<Expr>): Expr
    requires fs != []
  {
    if |fs| == 1 then fs[0] else Binary(Conjunction(fs[..|fs| - 1]), And, fs[|fs| - 1])
  }

  lemma {:induction false} ConjunctionIsTrue(en: Engine, fs: seq<Expr>, row: Row)
    requires fs != []
    ensures Eval(en, Conjunction(fs), row) == VBool(true) <==> PassesAll(en, fs, row)
  {
    if |fs| > 1 {
      ConjunctionIsTrue(en, fs[..|fs| - 1], row);
      PassesLast(en, fs, row);
    } else {
      assert fs == [fs[0]];
    }
  }

  lemma PassesLast(en: Engine, fs: seq<Expr>, row: Row)
    requires fs != []
    ensures PassesAll(en, fs, row) <==>
            PassesAll(en, fs[..|fs| - 1], row) && Eval(en, fs[|fs| - 1], row) == VBool(true)
  {
    var init, last := fs[..|fs| - 1], fs[|fs| - 1];
    assert fs == init + [last];
    assert forall f :: f in fs <==> f in init || f == last;
  }

  function ResolveAll(physical: Physical, fs: seq<Expr>): (rs: seq<Expr>)
    ensures |rs| == |fs|
    ensures forall i :: 0 <= i < |fs| ==> rs[i] == ResolveExpr(physical, fs[i])
  {
    if fs == [] then [] else [ResolveExpr(physical, fs[0])] + ResolveAll(physical, fs[1..])
  }

  function WithFilters(physical: Physical, e: Expr, filters: seq<Expr>): Expr {
    if filters == [] then e
    else Case([WhenClause(Conjunction(ResolveAll(physical, filters)), e)], Some(NULL))
  }

  lemma ResolvedSnoc(physical: Physical, fs: seq<Expr>, i: nat)
    requires i < |fs|
    ensures ResolveAll(physical, fs[..i + 1]) == ResolveAll(physical, fs[..i]) + [ResolveExpr(physical, fs[i])]
  {
    var longer, shorter := fs[..i + 1], fs[..i];
    var last := ResolveExpr(physical, fs[i]);
    var left, right := ResolveAll(physical, longer), ResolveAll(physical, shorter) + [last];
    forall k | 0 <= k < i + 1 ensures left[k] == right[k] {
      assert longer[k] == fs[k];
      if k < i { assert shorter[k] == fs[k]; }
    }
  }

  /** CASE WHEN (filters) THEN e ELSE NULL END, built one filter at a time. */
  method WrapWithFilters(physical: Physical, e: Expr, filters: seq<Expr>) returns (r: Expr)
    ensures r == WithFilters(physical, e, filters)
  {
    if filters == [] {
      return e;
    }
    var combined: Option<Expr> := None;
    for i := 0 to |filters|
      invariant i == 0 <==> combined.None?
      invariant i > 0 ==> combined == Some(Conjunction(ResolveAll(physical, filters[..i])))
    {
      var resolved := ResolveExpr(physical, filters[i]);
      ResolvedSnoc(physical, filters, i);
      combined := match combined
        case None => Some(resolved)
        case Some(prev) => Some(Binary(prev, And, resolved));
    }
    assert filters[..|filters|] == filters;
    r := Case([WhenClause(combined.value, e)], Some(NULL));
  }

  /** On one physical row the wrapped expression is the measure's value if every filter is
      TRUE on the renamed row, and NULL otherwise. */
  lemma WithFiltersMeaning(en: Engine, physical: Physical, e: Expr, filters: seq<Expr>, row: Row)
    ensures Eval(en, WithFilters(physical, ResolveExpr(physical, e), filters), row) ==
            if PassesAll(en, filters, Renamed(physical, row)) then Eval(en, e, Renamed(physical, row)) else VNull
  {
    ResolveMeaning(en, physical, e, row);
    if filters != [] {
      var resolved := ResolveAll(physical, filters);
      ResolvedFiltersPass(en, physical, filters, row);
      ConjunctionIsTrue(en, resolved, row);
      OneBranchCase(en, Conjunction(resolved), ResolveExpr(physical, e), row);
    }
  }

  lemma ResolvedFiltersPass(en: Engine, physical: Physical, filters: seq<Expr>, row: Row)
    ensures PassesAll(en, ResolveAll(physical, filters), row) <==> PassesAll(en, filters, Renamed(physical, row))
  {
    var resolved := ResolveAll(physical, filters);
    forall i | 0 <= i < |filters|
      ensures Eval(en, resolved[i], row) == Eval(en, filters[i], Renamed(physical, row))
    {
      ResolveMeaning(en, physical, filters[i], row);
    }
    if PassesAll(en, resolved, row) {
      forall f | f in filters ensures Eval(en, f, Renamed(physical, row)) == VBool(true) {
        var i :| 0 <= i < |filters| && filters[i] == f;
        assert resolved[i] in resolved;
      }
    }
  }

  lemma OneBranchCase(en: Engine, c: Expr, e: Expr, row: Row)
    ensures Eval(en, Case([WhenClause(c, e)], Some(NULL)), row) ==
            if Eval(en, c, row) == VBool(true) then Eval(en, e, row) else VNull
  {
    var ws := [WhenClause(c, e)];
    assert ws[1..] == [];
    assert EvalWhens(en, ws, row) == EvalWhen(en, ws[0], row);
  }

  lemma {:induction false} FilteredColumn(en: Engine, physical: Physical, e: Expr, filters: seq<Expr>, rows: seq<Row>)
    ensures NonNull(ColumnOf(en, WithFilters(physical, ResolveExpr(physical, e), filters), rows)) ==
            NonNull(ColumnOf(en, e, FilteredRows(en, physical, filters, rows)))
  {
    if rows != [] {
      FilteredColumn(en, physical, e, filters, rows[1..]);
      WithFiltersMeaning(en, physical, e, filters, rows[0]);
      var row := Renamed(physical, rows[0]);
      var rest := FilteredRows(en, physical, filters, rows[1..]);
      if PassesAll(en, filters, row) {
        assert FilteredRows(en, physical, filters, rows)[1..] == rest;
      } else {
        assert FilteredRows(en, physical, filters, rows) == rest;
      }
    }
  }

  // ---------------------------------------------------------------- measures

  /** The data types that aggregation tells apart. */
  datatype DataType = IntegerType | NumberType | OtherType(name: string)

  datatype Measure = Measure(agg: Aggregation, expr: Expr, filters: seq<Expr>, dataType: DataType)

  datatype AggregateMeasure = AggregateMeasure(aggregation: Aggregation, expr: Expr, distinct: bool, dataType: DataType)

  datatype DecomposedMeasure = DecomposedMeasure(aggregates: seq<AggregateMeasure>, postAgg: Expr)

  /** Counts are integers, averages are numbers, and the others have the type of their input. */
  function AggregateType(f: Aggregation, input: DataType): DataType {
    match f
    case Count => IntegerType
    case CountDistinct => IntegerType
    case Avg => NumberType
    case _ => input
  }

  function LoweredMeasure(physical: Physical, m: Measure): AggregateMeasure {
    AggregateMeasure(m.agg, WithFilters(physical, ResolveExpr(physical, m.expr), m.filters), m.agg.CountDistinct?,
                     AggregateType(m.agg, m.dataType))
  }

  /** The aggregate is distinct exactly for COUNT DISTINCT; counts are integers, averages numbers,
      and a sum, minimum or maximum has the type of the measure. */
  lemma LoweredKind(physical: Physical, m: Measure)
    ensures var a := LoweredMeasure(physical, m);
            && a.aggregation == m.agg && (a.distinct <==> m.agg == CountDistinct)
            && (m.agg in {Count, CountDistinct} ==> a.dataType == IntegerType)
            && (m.agg == Avg ==> a.dataType == NumberType)
            && (m.agg in {Sum, Min, Max} ==> a.dataType == m.dataType)
  {
  }

  method DecomposeMeasure(physical: Physical, name: string, m: Measure) returns (r: DecomposedMeasure)
    ensures r == DecomposedMeasure([LoweredMeasure(physical, m)], Column(name))
  {
    var inner := WrapWithFilters(physical, ResolveExpr(physical, m.expr), m.filters);
    var aggregate := AggregateMeasure(m.agg, inner, m.agg.CountDistinct?, AggregateType(m.agg, m.dataType));
    r := DecomposedMeasure([aggregate], Column(name));
  }

  /** The value a measure is meant to have: its set function over its expression, on exactly
      the rows where every one of its filters is TRUE. */
  function MeasureValue(en: Engine, physical: Physical, m: Measure, rows: seq<Row>): Value {
    AggregateRows(en, m.agg, m.expr, FilteredRows(en, physical, m.filters, rows))
  }

  /** DISTINCT of another function than COUNT DISTINCT is left to the engine. */
  function LoweredValue(en: Engine, a: AggregateMeasure, rows: seq<Row>): Value {
    if a.distinct && !a.aggregation.CountDistinct? then
      en.call(AggregationName(a.aggregation, true), ColumnOf(en, a.expr, rows))
    else AggregateRows(en, a.aggregation, a.expr, rows)
  }

  /** Conditional aggregation: SUM, COUNT, AVG, MIN, MAX or COUNT DISTINCT of the lowered CASE
      over the physical rows is the same set function of the measure's expression over the
      filtered rows. */
  lemma ConditionalAggregation(en: Engine, physical: Physical, m: Measure, rows: seq<Row>)
    ensures LoweredValue(en, LoweredMeasure(physical, m), rows) == MeasureValue(en, physical, m, rows)
  {
    FilteredColumn(en, physical, m.expr, m.filters, rows);
  }
}
