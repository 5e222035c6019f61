/**
 The filters of a query, lowered to predicates and stacked on a plan.
 */
module Filters {
  import opened Wrappers
  import opened Exprs

  datatype FilterOperator =
    | Equal | NotEqual | Less | LessOrEqual | Greater | GreaterOrEqual
    | OneOf | NoneOf | Between | Missing | Present

  datatype FilterValue = Text(s: string) | Number(n: Float64) | Flag(b: bool) | Nothing

  datatype QueryFilter = QueryFilter(field: string, operator: FilterOperator, values: seq<FilterValue>)

  datatype FilterError = NeedsOneValue | EmptyOneOf | EmptyNoneOf | NeedsTwoValues

  // ---------------------------------------------------------------- the SQL predicate

  function FilterLiteral(v: FilterValue): Literal {
    match v
    case Text(s) => Str(s)
    case Number(n) => Float(n)
    case Flag(b) => Boolean(b)
    case Nothing => Null
  }

  /** The SQL value that a filter value stands for. */
  function SqlValue(v: FilterValue): Value {
    match v
    case Text(s) => VStr(s)
    case Number(Finite(r)) => VNum(r)
    case Number(_) => VNull
    case Flag(b) => VBool(b)
    case Nothing => VNull
  }

  /** The literal of a filter value has its SQL value, keeps the special numbers, and is NULL
      for the missing value only. */
  lemma LiteralKeepsValue(v: FilterValue)
    ensures LiteralValue(FilterLiteral(v)) == SqlValue(v)
    ensures v.Number? ==> FilterLiteral(v) == Float(v.n)
    ensures FilterLiteral(v).Null? <==> v.Nothing?
  {
  }

  function SqlValues(vs: seq<FilterValue>): (r: seq<Value>)
    ensures |r| == |vs|
  {
    if vs == [] then [] else [SqlValue(vs[0])] + SqlValues(vs[1..])
  }

  predicate IsCompare(operator: FilterOperator) {
    operator.Equal? || operator.NotEqual? || operator.Less? || operator.LessOrEqual? || operator.Greater?
    || operator.GreaterOrEqual?
  }

  predicate WellFormed(filter: QueryFilter) {
    match filter.operator
    case Missing => true
    case Present => true
    case Between => |filter.values| == 2
    case _ => filter.values != []
  }

  /** What the filter says of a row, as SQL defines its predicate. A comparison reads its
      first value only. */
  function Truth(en: Engine, filter: QueryFilter, row: Row): Value
    requires WellFormed(filter)
  {
    var v, vs := row(filter.field), SqlValues(filter.values);
    match filter.operator
    case Missing => VBool(v.VNull?)
    case Present => VBool(!v.VNull?)
    case Between => And3(BinaryValue(en, GtEq, v, vs[0]), BinaryValue(en, LtEq, v, vs[1]))
    case OneOf => In3(v, vs)
    case NoneOf => Not3(In3(v, vs))
    case Equal => Eq3(v, vs[0])
    case NotEqual => Not3(Eq3(v, vs[0]))
    case Less => Less3(en, v, vs[0])
    case LessOrEqual => Or3(Less3(en, v, vs[0]), Eq3(v, vs[0]))
    case Greater => Less3(en, vs[0], v)
    case GreaterOrEqual => Or3(Less3(en, vs[0], v), Eq3(v, vs[0]))
  }

  // ---------------------------------------------------------------- lowering

  function CompareOp(operator: FilterOperator): BinaryOp
    requires IsCompare(operator)
  {
    match operator
    case Equal => Eq
    case NotEqual => NotEq
    case Less => Lt
    case LessOrEqual => LtEq
    case Greater => Gt
    case GreaterOrEqual => GtEq
  }

  /** (f op v1) join (f op v2) join ..., associated to the left. */
  function Chain(field: string, op: BinaryOp, join: BinaryOp, values: seq<FilterValue>): Expr
    requires values != []
    decreases |values|
  {
    var last := Binary(Column(field), op, Lit(FilterLiteral(values[|values| - 1])));
    if |values| == 1 then last else Binary(Chain(field, op, join, values[..|values| - 1]), join, last)
  }

  /** The chain built value by value; None when there is no value. */
  method BuildChain(field: string, op: BinaryOp, join: BinaryOp, values: seq<FilterValue>) returns (r: Option<Expr>)
    ensures r == if values == [] then None else Some(Chain(field, op, join, values))
  {
    r := None;
    for i := 0 to |values|
      invariant r == if i == 0 then None else Some(Chain(field, op, join, values[..i]))
    {
      var test := Binary(Column(field), op, Lit(FilterLiteral(values[i])));
      assert values[..i + 1][..i] == values[..i] && values[..i + 1][i] == values[i];
      r := Some(match r case None => test case Some(previous) => Binary(previous, join, test));
    }
    assert values[..|values|] == values;
  }

  function Lowered(filter: QueryFilter): Expr
    requires WellFormed(filter)
  {
    var column := Column(filter.field);
    match filter.operator
    case Missing => Exprs.IsNull(column)
    case Present => Exprs.IsNotNull(column)
    case Between => Binary(Binary(column, GtEq, Lit(FilterLiteral(filter.values[0]))), And,
                           Binary(column, LtEq, Lit(FilterLiteral(filter.values[1]))))
    case OneOf => Chain(filter.field, Eq, Or, filter.values)
    case NoneOf => Chain(filter.field, NotEq, And, filter.values)
    case _ => Binary(column, CompareOp(filter.operator), Lit(FilterLiteral(filter.values[0])))
  }

  function MissingValues(operator: FilterOperator): FilterError {
    if operator.OneOf? then EmptyOneOf
    else if operator.NoneOf? then EmptyNoneOf
    else if operator.Between? then NeedsTwoValues
    else NeedsOneValue
  }

  method QueryFilterToExpr(filter: QueryFilter) returns (r: Result<Expr, FilterError>)
    ensures r == if WellFormed(filter) then Ok(Lowered(filter)) else Err(MissingValues(filter.operator))
  {
    var column := Column(filter.field);
    match filter.operator
    case OneOf =>
      var chain := BuildChain(filter.field, Eq, Or, filter.values);
      r := if chain.Some? then Ok(chain.value) else Err(EmptyOneOf);
    case NoneOf =>
      var chain := BuildChain(filter.field, NotEq, And, filter.values);
      r := if chain.Some? then Ok(chain.value) else Err(EmptyNoneOf);
    case Between =>
      if |filter.values| != 2 {
        return Err(NeedsTwoValues);
      }
      var low, high := Lit(FilterLiteral(filter.values[0])), Lit(FilterLiteral(filter.values[1]));
      r := Ok(Binary(Binary(column, GtEq, low), And, Binary(column, LtEq, high)));
    case Missing => r := Ok(Exprs.IsNull(column));
    case Present => r := Ok(Exprs.IsNotNull(column));
    case _ =>
      if filter.values == [] {
        return Err(NeedsOneValue);
      }
      r := Ok(Binary(column, CompareOp(filter.operator), Lit(FilterLiteral(filter.values[0]))));
  }

  // ---------------------------------------------------------------- meaning

  lemma {:induction false} In3Snoc(v: Value, vs: seq<Value>, x: Value)
    ensures In3(v, vs + [x]) == Or3(In3(v, vs), Eq3(v, x))
    decreases |vs|
  {
    if vs != [] {
      In3Snoc(v, vs[1..], x);
      assert (vs + [x])[1..] == vs[1..] + [x];
    }
  }

  lemma {:induction false} SqlValuesSnoc(vs: seq<FilterValue>)
    requires vs != []
    ensures SqlValues(vs) == SqlValues(vs[..|vs| - 1]) + [SqlValue(vs[|vs| - 1])]
    decreases |vs|
  {
    if |vs| > 1 {
      SqlValuesSnoc(vs[1..]);
      assert vs[1..][..|vs| - 2] == vs[..|vs| - 1][1..];
    }
  }

  /** The OR chain is SQL's IN, also when the field or some of the values are NULL. */
  lemma {:induction false} OrChainIsIn(en: Engine, field: string, values: seq<FilterValue>, row: Row)
    requires values != []
    ensures Eval(en, Chain(field, Eq, Or, values), row) == In3(row(field), SqlValues(values))
    decreases |values|
  {
    var init, last := values[..|values| - 1], SqlValue(values[|values| - 1]);
    SqlValuesSnoc(values);
    In3Snoc(row(field), SqlValues(init), last);
    var test := Binary(Column(field), Eq, Lit(FilterLiteral(values[|values| - 1])));
    assert Eval(en, test, row) == Eq3(row(field), last);
    if |values| > 1 {
      OrChainIsIn(en, field, init, row);
      var chain := Chain(field, Eq, Or, init);
      assert Eval(en, Binary(chain, Or, test), row) == Or3(Eval(en, chain, row), Eval(en, test, row));
    }
  }

  /** The AND chain is the three-valued negation of IN. */
  lemma {:induction false} AndChainIsNotIn(en: Engine, field: string, values: seq<FilterValue>, row: Row)
    requires values != []
    ensures Eval(en, Chain(field, NotEq, And, values), row) == Not3(In3(row(field), SqlValues(values)))
    decreases |values|
  {
    var init, last := values[..|values| - 1], SqlValue(values[|values| - 1]);
    SqlValuesSnoc(values);
    In3Snoc(row(field), SqlValues(init), last);
    var test := Binary(Column(field), NotEq, Lit(FilterLiteral(values[|values| - 1])));
    assert Eval(en, test, row) == Not3(Eq3(row(field), last));
    if |values| > 1 {
      AndChainIsNotIn(en, field, init, row);
      var chain := Chain(field, NotEq, And, init);
      assert Eval(en, Binary(chain, And, test), row) == And3(Eval(en, chain, row), Eval(en, test, row));
    }
  }

  lemma BetweenKeepsMeaning(en: Engine, filter: QueryFilter, row: Row)
    requires WellFormed(filter) && filter.operator.Between?
    ensures Eval(en, Lowered(filter), row) == Truth(en, filter, row)
  {
    var vs := SqlValues(filter.values);
    assert filter.values[1..][0] == filter.values[1];
    assert vs[1] == SqlValues(filter.values[1..])[0];
    var low := Binary(Column(filter.field), GtEq, Lit(FilterLiteral(filter.values[0])));
    var high := Binary(Column(filter.field), LtEq, Lit(FilterLiteral(filter.values[1])));
    assert Eval(en, low, row) == BinaryValue(en, GtEq, row(filter.field), vs[0]);
    assert Eval(en, high, row) == BinaryValue(en, LtEq, row(filter.field), vs[1]);
    assert Eval(en, Binary(low, And, high), row) == And3(Eval(en, low, row), Eval(en, high, row));
  }

  /** The lowered predicate is TRUE, FALSE or NULL exactly where the SQL predicate is. */
  lemma LoweringKeepsMeaning(en: Engine, filter: QueryFilter, row: Row)
    requires WellFormed(filter)
    ensures Eval(en, Lowered(filter), row) == Truth(en, filter, row)
  {
    match filter.operator {
      case OneOf => OrChainIsIn(en, filter.field, filter.values, row);
      case NoneOf => AndChainIsNotIn(en, filter.field, filter.values, row);
      case Between => BetweenKeepsMeaning(en, filter, row);
      case _ =>
    }
  }

  lemma {:induction false} NullIsNeverIn(v: Value, vs: seq<Value>)
    requires VNull in vs
    ensures In3(v, vs) != VBool(false)
    decreases |vs|
  {
    if vs[0] != VNull { NullIsNeverIn(v, vs[1..]); }
  }

  lemma {:induction false} NothingIsNull(vs: seq<FilterValue>)
    requires Nothing in vs
    ensures VNull in SqlValues(vs)
    decreases |vs|
  {
    if vs[0] != Nothing { NothingIsNull(vs[1..]); }
  }

  /** A NOT IN list that holds NULL keeps no row at all. */
  lemma NullInNoneOfKeepsNothing(en: Engine, filter: QueryFilter, row: Row)
    requires filter.operator.NoneOf? && Nothing in filter.values
    ensures Eval(en, Lowered(filter), row) != VBool(true)
  {
    NothingIsNull(filter.values);
    NullIsNeverIn(row(filter.field), SqlValues(filter.values));
    LoweringKeepsMeaning(en, filter, row);
  }

  // ---------------------------------------------------------------- plans

  /** A plan the query planner made, under filter nodes that keep its schema. */
  datatype Plan =
    | Planned(schema: seq<string>, rows: seq<Row>)
    | FilterNode(schema: seq<string>, input: Plan, predicateExpr: Expr)

  function Select(en: Engine, condition: Expr, rows: seq<Row>): seq<Row> {
    if rows == [] then []
    else (if Eval(en, condition, rows[0]) == VBool(true) then [rows[0]] else []) + Select(en, condition, rows[1..])
  }

  function RowsOf(en: Engine, plan: Plan): seq<Row> {
    match plan
    case Planned(_, rows) => rows
    case FilterNode(_, input, condition) => Select(en, condition, RowsOf(en, input))
  }

  predicate Accepted(en: Engine, filters: seq<QueryFilter>, row: Row)
    requires forall f :: f in filters ==> WellFormed(f)
  {
    forall f :: f in filters ==> Truth(en, f, row) == VBool(true)
  }

  /** The rows on which every filter is TRUE, in their order. */
  function AcceptedRows(en: Engine, filters: seq<QueryFilter>, rows: seq<Row>): seq<Row>
    requires forall f :: f in filters ==> WellFormed(f)
  {
    if rows == [] then []
    else (if Accepted(en, filters, rows[0]) then [rows[0]] else []) + AcceptedRows(en, filters, rows[1..])
  }

  function Stacked(root: Plan, filters: seq<QueryFilter>): Plan
    requires forall f :: f in filters ==> WellFormed(f)
    decreases |filters|
  {
    if filters == [] then root
    else
      var below := Stacked(root, filters[..|filters| - 1]);
      FilterNode(below.schema, below, Lowered(filters[|filters| - 1]))
  }

  /** Wraps a plan in one filter node per filter, up to the first malformed one. */
  method InjectUserFilters(root: Plan, filters: seq<QueryFilter>) returns (r: Result<Plan, FilterError>)
    ensures r.Ok? <==> forall f :: f in filters ==> WellFormed(f)
    ensures r.Ok? ==> r.value == Stacked(root, filters)
    ensures r.Err? ==> exists k :: 0 <= k < |filters| && !WellFormed(filters[k])
                         && (forall j :: 0 <= j < k ==> WellFormed(filters[j]))
                         && r.error == MissingValues(filters[k].operator)
  {
    var plan := root;
    for i := 0 to |filters|
      invariant forall j :: 0 <= j < i ==> WellFormed(filters[j])
      invariant plan == Stacked(root, filters[..i])
    {
      var condition := QueryFilterToExpr(filters[i]);
      if condition.Err? {
        return Err(condition.error);
      }
      assert filters[..i + 1][..i] == filters[..i] && filters[..i + 1][i] == filters[i];
      plan := FilterNode(plan.schema, plan, condition.value);
    }
    assert filters[..|filters|] == filters;
    r := Ok(plan);
  }

  lemma {:induction false} SelectAccepted(en: Engine, filters: seq<QueryFilter>, last: QueryFilter, rows: seq<Row>)
    requires forall f :: f in filters + [last] ==> WellFormed(f)
    requires forall f :: f in filters ==> WellFormed(f)
    ensures Select(en, Lowered(last), AcceptedRows(en, filters, rows)) == AcceptedRows(en, filters + [last], rows)
    decreases |rows|
  {
    assert last in filters + [last];
    if rows != [] {
      var row := rows[0];
      SelectAccepted(en, filters, last, rows[1..]);
      LoweringKeepsMeaning(en, last, row);
      var (rest, condition) := (AcceptedRows(en, filters, rows[1..]), Lowered(last));
      assert Accepted(en, filters, row) ==> AcceptedRows(en, filters, rows) == [row] + rest;
      assert !Accepted(en, filters, row) ==> AcceptedRows(en, filters, rows) == [] + rest == rest;
    }
  }

  lemma {:induction false} NoFilterAcceptsAll(en: Engine, rows: seq<Row>)
    ensures AcceptedRows(en, [], rows) == rows
    decreases |rows|
  {
    if rows != [] {
      NoFilterAcceptsAll(en, rows[1..]);
      assert Accepted(en, [], rows[0]);
    }
  }

  /** The stacked filter nodes keep exactly the rows on which every filter is TRUE. */
  lemma {:induction false} StackKeepsAcceptedRows(en: Engine, root: Plan, filters: seq<QueryFilter>)
    requires forall f :: f in filters ==> WellFormed(f)
    ensures RowsOf(en, Stacked(root, filters)) == AcceptedRows(en, filters, RowsOf(en, root))
    ensures Stacked(root, filters).schema == root.schema
    decreases |filters|
  {
    if filters == [] {
      NoFilterAcceptsAll(en, RowsOf(en, root));
    } else {
      var init, last := filters[..|filters| - 1], filters[|filters| - 1];
      assert filters == init + [last];
      StackKeepsAcceptedRows(en, root, init);
      SelectAccepted(en, init, last, RowsOf(en, root));
    }
  }

  lemma {:induction false} SameFiltersSameRows(en: Engine, filters: seq<QueryFilter>, others: seq<QueryFilter>,
                                               rows: seq<Row>)
    requires forall f :: f in filters <==> f in others
    requires forall f :: f in filters ==> WellFormed(f)
    ensures AcceptedRows(en, filters, rows) == AcceptedRows(en, others, rows)
    decreases |rows|
  {
    if rows != [] {
      SameFiltersSameRows(en, filters, others, rows[1..]);
      assert Accepted(en, filters, rows[0]) == Accepted(en, others, rows[0]);
    }
  }

  /** Neither the order of the filters nor a repetition of one changes what is kept. */
  lemma FilterOrderIsIrrelevant(en: Engine, root: Plan, filters: seq<QueryFilter>, others: seq<QueryFilter>)
    requires forall f :: f in filters <==> f in others
    requires forall f :: f in filters ==> WellFormed(f)
    ensures RowsOf(en, Stacked(root, filters)) == RowsOf(en, Stacked(root, others))
  {
    StackKeepsAcceptedRows(en, root, filters);
    StackKeepsAcceptedRows(en, root, others);
    SameFiltersSameRows(en, filters, others, RowsOf(en, root));
  }
}
