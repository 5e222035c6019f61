/**
 The decomposition of a metric preserves its meaning: evaluating the post-aggregation
 expression over the aggregate results gives the value of the metric, every measure being
 its set function over the rows that pass its filters.
 */
module MetricMeaning {
  import opened Wrappers
  import opened Exprs
  import opened Resolver
  import opened Aggregations
  import opened Decomposer

  /** The resolver used after renaming: names stand for themselves. */
  const IDENTITY: Physical := map[]

  /** What each name of a metric expression stands for: a measure's value, the value of a
      nested metric (at most `levels` deep), or a column of the aggregated row. */
  ghost function MetricRow(en: Engine, iface: Interface, base: Row, measures: Row, levels: nat): Row
    decreases levels
  {
    n =>
      if n in iface.measures then measures(n)
      else if n in iface.metrics then
        if levels == 0 then VNull
        else Eval(en, iface.metrics[n], MetricRow(en, iface, base, measures, levels - 1))
      else base(n)
  }

  /** The names below nodes that the walk does not enter, in the metric and those it inlines. */
  function Hidden(iface: Interface, e: Expr, fuel: nat): set<string>
    decreases fuel, e, 1
  {
    if IsLeaf(e) then
      if e.name !in iface.measures && e.name in iface.metrics && fuel > 0 then
        Hidden(iface, iface.metrics[e.name], fuel - 1)
      else {}
    else if e.Binary? then Hidden(iface, e.left, fuel) + Hidden(iface, e.right, fuel)
    else if e.Case? then
      HiddenWhens(iface, e.whens, fuel) + if e.els.Some? then Hidden(iface, e.els.value, fuel) else {}
    else Names(e)
  }

  function HiddenWhen(iface: Interface, w: WhenClause, fuel: nat): set<string>
    decreases fuel, w, 0
  {
    Hidden(iface, w.condition, fuel) + Hidden(iface, w.result, fuel)
  }

  function HiddenWhens(iface: Interface, ws: seq<WhenClause>, fuel: nat): set<string>
    decreases fuel, ws, 0
  {
    if ws == [] then {} else HiddenWhen(iface, ws[0], fuel) + HiddenWhens(iface, ws[1..], fuel)
  }

  /** The plain columns that the walk meets and resolves. */
  function Plain(iface: Interface, e: Expr, fuel: nat): set<string>
    decreases fuel, e, 1
  {
    if IsLeaf(e) then
      if e.name in iface.measures then {}
      else if e.name in iface.metrics then
        if fuel > 0 then Plain(iface, iface.metrics[e.name], fuel - 1) else {}
      else {e.name}
    else if e.Binary? then Plain(iface, e.left, fuel) + Plain(iface, e.right, fuel)
    else if e.Case? then
      PlainWhens(iface, e.whens, fuel) + if e.els.Some? then Plain(iface, e.els.value, fuel) else {}
    else {}
  }

  function PlainWhen(iface: Interface, w: WhenClause, fuel: nat): set<string>
    decreases fuel, w, 0
  {
    Plain(iface, w.condition, fuel) + Plain(iface, w.result, fuel)
  }

  function PlainWhens(iface: Interface, ws: seq<WhenClause>, fuel: nat): set<string>
    decreases fuel, ws, 0
  {
    if ws == [] then {} else PlainWhen(iface, ws[0], fuel) + PlainWhens(iface, ws[1..], fuel)
  }

  /** A name the walk does not see is harmless: it is no metric, a measure only if reached
      elsewhere, and a plain column only if resolution leaves it alone. */
  predicate Harmless(iface: Interface, physical: Physical, reached: set<string>, n: string) {
    && (n in iface.metrics ==> n in iface.measures)
    && (n in iface.measures ==> n in reached)
    && (n !in iface.measures ==> PhysicalName(physical, n) == n)
  }

  /** All hidden names are harmless, and no plain column is stored under the name of an aggregate. */
  predicate Closed(iface: Interface, physical: Physical, e: Expr, fuel: nat) {
    && (forall n :: n in Hidden(iface, e, fuel) ==> Harmless(iface, physical, Reached(iface, e, fuel), n))
    && (forall n :: n in Plain(iface, e, fuel) ==> PhysicalName(physical, n) !in Reached(iface, e, fuel))
  }

  // ---------------------------------------------------------------- inlining keeps the meaning

  /** What the rows before and after inlining must agree on. */
  ghost predicate RowFits(iface: Interface, physical: Physical, base: Row, measures: Row, row: Row,
                          reached: set<string>, plain: set<string>, hidden: set<string>) {
    && (forall n :: n in reached ==> row(n) == measures(n))
    && (forall n :: n in plain ==> row(PhysicalName(physical, n)) == base(n))
    && (forall n :: n in hidden ==>
         && (n in iface.metrics ==> n in iface.measures)
         && row(n) == if n in iface.measures then measures(n) else base(n))
  }

  lemma {:induction false} InlinedMeaning(en: Engine, iface: Interface, physical: Physical, e: Expr, fuel: nat,
                                          levels: nat,
                                          base: Row, measures: Row, row: Row)
    requires fuel <= levels && Inlined(iface, physical, e, fuel).Some?
    requires RowFits(iface, physical, base, measures, row, Reached(iface, e, fuel), Plain(iface, e, fuel),
             Hidden(iface, e, fuel))
    ensures Eval(en, Inlined(iface, physical, e, fuel).value, row) ==
            Eval(en, e, MetricRow(en, iface, base, measures, levels))
    decreases fuel, e, 1
  {
    if IsLeaf(e) {
      InlinedLeafMeaning(en, iface, physical, e, fuel, levels, base, measures, row);
    } else if e.Binary? {
      InlinedMeaning(en, iface, physical, e.left, fuel, levels, base, measures, row);
      InlinedMeaning(en, iface, physical, e.right, fuel, levels, base, measures, row);
    } else if e.Case? {
      InlinedWhensMeaning(en, iface, physical, e.whens, fuel, levels, base, measures, row);
      if e.els.Some? { InlinedMeaning(en, iface, physical, e.els.value, fuel, levels, base, measures, row); }
    } else {
      assert Hidden(iface, e, fuel) == Names(e);
      EvalReadsOnlyNames(en, e, row, MetricRow(en, iface, base, measures, levels));
    }
  }

  lemma {:induction false} InlinedLeafMeaning(en: Engine, iface: Interface, physical: Physical, e: Expr, fuel: nat,
                                              levels: nat,
                                              base: Row, measures: Row, row: Row)
    requires fuel <= levels && IsLeaf(e) && Inlined(iface, physical, e, fuel).Some?
    requires RowFits(iface, physical, base, measures, row, Reached(iface, e, fuel), Plain(iface, e, fuel),
             Hidden(iface, e, fuel))
    ensures Eval(en, Inlined(iface, physical, e, fuel).value, row) ==
            Eval(en, e, MetricRow(en, iface, base, measures, levels))
    decreases fuel, e, 0
  {
    if e.name !in iface.measures && e.name in iface.metrics {
      InlinedMeaning(en, iface, physical, iface.metrics[e.name], fuel - 1, levels - 1, base, measures, row);
    }
  }

  lemma {:induction false} InlinedWhenMeaning(en: Engine, iface: Interface, physical: Physical, w: WhenClause,
                                              fuel: nat,
                                              levels: nat, base: Row, measures: Row, row: Row)
    requires fuel <= levels && InlinedWhen(iface, physical, w, fuel).Some?
    requires RowFits(iface, physical, base, measures, row,
                     ReachedWhen(iface, w, fuel), PlainWhen(iface, w, fuel), HiddenWhen(iface, w, fuel))
    ensures EvalWhen(en, InlinedWhen(iface, physical, w, fuel).value, row) ==
            EvalWhen(en, w, MetricRow(en, iface, base, measures, levels))
    decreases fuel, w, 0
  {
    InlinedMeaning(en, iface, physical, w.condition, fuel, levels, base, measures, row);
    InlinedMeaning(en, iface, physical, w.result, fuel, levels, base, measures, row);
  }

  lemma {:induction false} InlinedWhensMeaning(en: Engine, iface: Interface, physical: Physical, ws: seq<WhenClause>,
                                               fuel: nat,
                                               levels: nat, base: Row, measures: Row, row: Row)
    requires fuel <= levels && InlinedWhens(iface, physical, ws, fuel).Some?
    requires RowFits(iface, physical, base, measures, row,
                     ReachedWhens(iface, ws, fuel), PlainWhens(iface, ws, fuel), HiddenWhens(iface, ws, fuel))
    ensures EvalWhens(en, InlinedWhens(iface, physical, ws, fuel).value, row) ==
            EvalWhens(en, ws, MetricRow(en, iface, base, measures, levels))
    decreases fuel, ws, 0
  {
    if ws != [] {
      InlinedWhenMeaning(en, iface, physical, ws[0], fuel, levels, base, measures, row);
      InlinedWhensMeaning(en, iface, physical, ws[1..], fuel, levels, base, measures, row);
      var all := InlinedWhens(iface, physical, ws, fuel).value;
      assert all[1..] == InlinedWhens(iface, physical, ws[1..], fuel).value;
    }
  }

  // ---------------------------------------------------------------- the aggregated row

  function IndexOf(order: seq<string>, n: string): (i: nat)
    requires n in order
    ensures i < |order| && order[i] == n
  {
    if order[0] == n then 0 else 1 + IndexOf(order[1..], n)
  }

  /** The output of the aggregation node: the result of each aggregate under the name of its
      measure, and the grouping columns. */
  ghost function AggregateRow(en: Engine, aggregates: seq<AggregateMeasure>, order: seq<string>, rows: seq<Row>,
                              group: Row): Row
    requires |aggregates| == |order|
  {
    n => if n in order then LoweredValue(en, aggregates[IndexOf(order, n)], rows) else group(n)
  }

  ghost function MeasureRow(en: Engine, iface: Interface, physical: Physical, rows: seq<Row>): Row {
    n => if n in iface.measures then MeasureValue(en, physical, iface.measures[n], rows) else VNull
  }

  /** What the metric is meant to be worth: measures over the rows, plain names in the grouping
      columns. */
  ghost function MetricValue(en: Engine, iface: Interface, physical: Physical, metric: Expr, levels: nat,
                             rows: seq<Row>, group: Row): Value {
    Eval(en, metric, MetricRow(en, iface, Renamed(physical, group), MeasureRow(en, iface, physical, rows), levels))
  }

  lemma AggregatesAreMeasures(en: Engine, iface: Interface, physical: Physical, aggregates: seq<AggregateMeasure>,
                              order: seq<string>, reached: set<string>, rows: seq<Row>, group: Row, n: string)
    requires IsLowering(iface, physical, aggregates, order, reached) && n in reached
    ensures AggregateRow(en, aggregates, order, rows, group)(n) == MeasureRow(en, iface, physical, rows)(n)
  {
    assert n in order;
    ConditionalAggregation(en, physical, iface.measures[n], rows);
  }

  /** The plan of a metric computes the metric: for any engine, resolver, rows and grouping
      columns, and however deep nested metrics are expanded beyond the cap. */
  lemma MetricPlanMeaning(en: Engine, iface: Interface, physical: Physical, metric: Expr, maxDepth: nat, levels: nat,
                          plan: DecomposedMeasure, order: seq<string>, rows: seq<Row>, group: Row)
    requires maxDepth <= levels && Some(plan.postAgg) == Inlined(iface, physical, metric, maxDepth)
    requires IsLowering(iface, physical, plan.aggregates, order, Reached(iface, metric, maxDepth))
    requires Closed(iface, physical, metric, maxDepth)
    ensures Eval(en, plan.postAgg, AggregateRow(en, plan.aggregates, order, rows, group)) ==
            MetricValue(en, iface, physical, metric, levels, rows, group)
  {
    var row := AggregateRow(en, plan.aggregates, order, rows, group);
    PlanRowFits(en, iface, physical, metric, maxDepth, plan.aggregates, order, rows, group);
    InlinedMeaning(en, iface, physical, metric, maxDepth, levels, Renamed(physical, group),
      MeasureRow(en, iface, physical, rows), row);
  }

  /** On the aggregated row every name has the value that it stands for in the metric. */
  lemma PlanRowFits(en: Engine, iface: Interface, physical: Physical, metric: Expr, maxDepth: nat,
                    aggregates: seq<AggregateMeasure>, order: seq<string>, rows: seq<Row>, group: Row)
    requires IsLowering(iface, physical, aggregates, order, Reached(iface, metric, maxDepth))
    requires Closed(iface, physical, metric, maxDepth)
    ensures RowFits(iface, physical, Renamed(physical, group), MeasureRow(en, iface, physical, rows),
                    AggregateRow(en, aggregates, order, rows, group),
                    Reached(iface, metric, maxDepth), Plain(iface, metric, maxDepth), Hidden(iface, metric, maxDepth))
  {
    var row := AggregateRow(en, aggregates, order, rows, group);
    var (reached, measures) := (Reached(iface, metric, maxDepth), MeasureRow(en, iface, physical, rows));
    forall n | n in reached ensures row(n) == measures(n) {
      AggregatesAreMeasures(en, iface, physical, aggregates, order, reached, rows, group, n);
    }
    assert forall n :: n in order <==> n in reached;
    assert forall n :: n in reached ==> n in iface.measures;
  }

  // ---------------------------------------------------------------- when the plan is closed

  lemma {:induction false} NamesOfInlined(iface: Interface, e: Expr, fuel: nat)
    requires Inlined(iface, IDENTITY, e, fuel).Some?
    ensures var names := Names(Inlined(iface, IDENTITY, e, fuel).value);
            && Reached(iface, e, fuel) + Hidden(iface, e, fuel) <= names
            && (forall n :: n in names - Reached(iface, e, fuel) - Hidden(iface, e, fuel) ==>
                  n !in iface.measures && n !in iface.metrics)
    ensures Reached(iface, e, fuel) <= iface.measures.Keys
    decreases fuel, e, 1
  {
    if IsLeaf(e) {
      if e.name !in iface.measures && e.name in iface.metrics {
        NamesOfInlined(iface, iface.metrics[e.name], fuel - 1);
      }
    } else if e.Binary? {
      NamesOfInlined(iface, e.left, fuel);
      NamesOfInlined(iface, e.right, fuel);
    } else if e.Case? {
      NamesOfInlinedWhens(iface, e.whens, fuel);
      if e.els.Some? { NamesOfInlined(iface, e.els.value, fuel); }
    }
  }

  lemma {:induction false} NamesOfInlinedWhen(iface: Interface, w: WhenClause, fuel: nat)
    requires InlinedWhen(iface, IDENTITY, w, fuel).Some?
    ensures var names := NamesWhen(InlinedWhen(iface, IDENTITY, w, fuel).value);
            && ReachedWhen(iface, w, fuel) + HiddenWhen(iface, w, fuel) <= names
            && (forall n :: n in names - ReachedWhen(iface, w, fuel) - HiddenWhen(iface, w, fuel) ==>
                  n !in iface.measures && n !in iface.metrics)
    ensures ReachedWhen(iface, w, fuel) <= iface.measures.Keys
    decreases fuel, w, 0
  {
    NamesOfInlined(iface, w.condition, fuel);
    NamesOfInlined(iface, w.result, fuel);
  }

  lemma {:induction false} NamesOfInlinedWhens(iface: Interface, ws: seq<WhenClause>, fuel: nat)
    requires InlinedWhens(iface, IDENTITY, ws, fuel).Some?
    ensures var names := NamesWhens(InlinedWhens(iface, IDENTITY, ws, fuel).value);
            && ReachedWhens(iface, ws, fuel) + HiddenWhens(iface, ws, fuel) <= names
            && (forall n :: n in names - ReachedWhens(iface, ws, fuel) - HiddenWhens(iface, ws, fuel) ==>
                  n !in iface.measures && n !in iface.metrics)
    ensures ReachedWhens(iface, ws, fuel) <= iface.measures.Keys
    decreases fuel, ws, 0
  {
    if ws != [] {
      NamesOfInlinedWhen(iface, ws[0], fuel);
      NamesOfInlinedWhens(iface, ws[1..], fuel);
      var all := InlinedWhens(iface, IDENTITY, ws, fuel).value;
      assert all[1..] == InlinedWhens(iface, IDENTITY, ws[1..], fuel).value;
    }
  }

  /** A successful decomposition reads nothing but its aggregates and plain columns exactly
      when the names it does not look at are harmless. */
  lemma ClosedExact(iface: Interface, metric: Expr, maxDepth: nat)
    requires Inlined(iface, IDENTITY, metric, maxDepth).Some?
    ensures Closed(iface, IDENTITY, metric, maxDepth) <==>
            forall n :: n in Names(Inlined(iface, IDENTITY, metric, maxDepth).value) ==>
              n in Reached(iface, metric, maxDepth) || (n !in iface.measures && n !in iface.metrics)
  {
    NamesOfInlined(iface, metric, maxDepth);
    PlainIsPlain(iface, metric, maxDepth);
  }

  lemma {:induction false} PlainIsPlain(iface: Interface, e: Expr, fuel: nat)
    ensures forall n :: n in Plain(iface, e, fuel) ==> n !in iface.measures && n !in iface.metrics
    decreases fuel, e, 1
  {
    if IsLeaf(e) {
      if e.name !in iface.measures && e.name in iface.metrics && fuel > 0 {
        PlainIsPlain(iface, iface.metrics[e.name], fuel - 1);
      }
    } else if e.Binary? {
      PlainIsPlain(iface, e.left, fuel);
      PlainIsPlain(iface, e.right, fuel);
    } else if e.Case? {
      PlainWhensArePlain(iface, e.whens, fuel);
      if e.els.Some? { PlainIsPlain(iface, e.els.value, fuel); }
    }
  }

  lemma {:induction false} PlainWhensArePlain(iface: Interface, ws: seq<WhenClause>, fuel: nat)
    ensures forall n :: n in PlainWhens(iface, ws, fuel) ==> n !in iface.measures && n !in iface.metrics
    decreases fuel, ws, 1
  {
    if ws != [] {
      PlainWhenIsPlain(iface, ws[0], fuel);
      PlainWhensArePlain(iface, ws[1..], fuel);
    }
  }

  lemma {:induction false} PlainWhenIsPlain(iface: Interface, w: WhenClause, fuel: nat)
    ensures forall n :: n in PlainWhen(iface, w, fuel) ==> n !in iface.measures && n !in iface.metrics
    decreases fuel, w, 0
  {
    PlainIsPlain(iface, w.condition, fuel);
    PlainIsPlain(iface, w.result, fuel);
  }

  /** Expressions of leaves, literals, operators and CASE only. */
  predicate WalkedOnly(e: Expr)
    decreases e, 1
  {
    if e.Binary? then WalkedOnly(e.left) && WalkedOnly(e.right)
    else if e.Case? then WhensWalkedOnly(e.whens) && (e.els.Some? ==> WalkedOnly(e.els.value))
    else IsLeaf(e) || e.Lit?
  }

  predicate WhenWalkedOnly(w: WhenClause)
    decreases w, 0
  {
    WalkedOnly(w.condition) && WalkedOnly(w.result)
  }

  predicate WhensWalkedOnly(ws: seq<WhenClause>)
    decreases ws, 0
  {
    ws == [] || (WhenWalkedOnly(ws[0]) && WhensWalkedOnly(ws[1..]))
  }

  /** Metrics written with references, literals, operators and CASE hide nothing. */
  lemma {:induction false} WalkedOnlyIsClosed(iface: Interface, e: Expr, fuel: nat)
    requires WalkedOnly(e) && forall m :: m in iface.metrics ==> WalkedOnly(iface.metrics[m])
    ensures Hidden(iface, e, fuel) == {}
    decreases fuel, e, 1
  {
    if IsLeaf(e) {
      if e.name !in iface.measures && e.name in iface.metrics && fuel > 0 {
        WalkedOnlyIsClosed(iface, iface.metrics[e.name], fuel - 1);
      }
    } else if e.Binary? {
      WalkedOnlyIsClosed(iface, e.left, fuel);
      WalkedOnlyIsClosed(iface, e.right, fuel);
    } else if e.Case? {
      WhensWalkedOnlyHideNothing(iface, e.whens, fuel);
      if e.els.Some? { WalkedOnlyIsClosed(iface, e.els.value, fuel); }
    }
  }

  lemma {:induction false} WhensWalkedOnlyHideNothing(iface: Interface, ws: seq<WhenClause>, fuel: nat)
    requires WhensWalkedOnly(ws) && forall m :: m in iface.metrics ==> WalkedOnly(iface.metrics[m])
    ensures HiddenWhens(iface, ws, fuel) == {}
    decreases fuel, ws, 0
  {
    if ws != [] {
      WhenWalkedOnlyHidesNothing(iface, ws[0], fuel);
      WhensWalkedOnlyHideNothing(iface, ws[1..], fuel);
    }
  }

  lemma {:induction false} WhenWalkedOnlyHidesNothing(iface: Interface, w: WhenClause, fuel: nat)
    requires WhenWalkedOnly(w) && forall m :: m in iface.metrics ==> WalkedOnly(iface.metrics[m])
    ensures HiddenWhen(iface, w, fuel) == {}
    decreases fuel, w, 0
  {
    WalkedOnlyIsClosed(iface, w.condition, fuel);
    WalkedOnlyIsClosed(iface, w.result, fuel);
  }

  /** So their plans are closed as soon as no plain column is stored under an aggregate's name. */
  lemma WalkedOnlyPlanIsClosed(iface: Interface, physical: Physical, e: Expr, fuel: nat)
    requires WalkedOnly(e) && forall m :: m in iface.metrics ==> WalkedOnly(iface.metrics[m])
    requires forall n :: n in Plain(iface, e, fuel) ==> PhysicalName(physical, n) !in Reached(iface, e, fuel)
    ensures Closed(iface, physical, e, fuel)
  {
    WalkedOnlyIsClosed(iface, e, fuel);
  }

  // ---------------------------------------------------------------- a measure that is lost

  /** COALESCE returns its first argument that is not NULL. */
  ghost predicate Coalesces(en: Engine) {
    forall v, w :: en.call("COALESCE", [v, w]) == if v.VNull? then w else v
  }

  const DEFAULTED := Call("COALESCE", [EntityRef("m"), Lit(Integer(0))])

  lemma DefaultedMeaning(en: Engine, row: Row)
    requires Coalesces(en)
    ensures Eval(en, DEFAULTED, row) == if row("m").VNull? then VNum(0.0) else row("m")
  {
    var args := [EntityRef("m"), Lit(Integer(0))];
    assert args[1..] == [Lit(Integer(0))];
    assert EvalAll(en, args[1..], row) == [VNum(0.0)];
    assert EvalAll(en, args, row) == [row("m"), VNum(0.0)];
  }

  /** A measure below any other node is lost: COALESCE(m, 0) is planned without an aggregate for
      m, and is worth whatever the grouped row holds under that name. */
  lemma MeasureBelowCallIsLost(en: Engine, m: Measure, maxDepth: nat, levels: nat, rows: seq<Row>, group: Row)
    requires Coalesces(en)
    ensures var iface := Interface(map["m" := m], map[]);
      && Inlined(iface, IDENTITY, DEFAULTED, maxDepth) == Some(DEFAULTED)
      && IsLowering(iface, IDENTITY, [], [], Reached(iface, DEFAULTED, maxDepth))
      && !Closed(iface, IDENTITY, DEFAULTED, maxDepth)
      && Eval(en, DEFAULTED, AggregateRow(en, [], [], rows, group))
         == (if group("m").VNull? then VNum(0.0) else group("m"))
      && MetricValue(en, iface, IDENTITY, DEFAULTED, levels, rows, group)
         == (var v := MeasureValue(en, IDENTITY, m, rows); if v.VNull? then VNum(0.0) else v)
  {
    var iface := Interface(map["m" := m], map[]);
    DefaultedMeaning(en, AggregateRow(en, [], [], rows, group));
    DefaultedMeaning(en, MetricRow(en, iface, Renamed(IDENTITY, group), MeasureRow(en, iface, IDENTITY, rows), levels));
    assert "m" in NamesAll([EntityRef("m"), Lit(Integer(0))]);
    assert "m" in Hidden(iface, DEFAULTED, maxDepth);
  }

  const COUNT_ROWS := Measure(Count, Lit(Integer(1)), [], IntegerType)
  const NO_COLUMNS: Row := n => VNull

  /** On one row, COALESCE of a row count is 1, and its plan says 0. */
  lemma LostCountIsZero(en: Engine, row: Row)
    requires Coalesces(en)
    ensures var iface := Interface(map["m" := COUNT_ROWS], map[]);
      && Eval(en, DEFAULTED, AggregateRow(en, [], [], [row], NO_COLUMNS)) == VNum(0.0)
      && MetricValue(en, iface, IDENTITY, DEFAULTED, 0, [row], NO_COLUMNS) == VNum(1.0)
  {
    MeasureBelowCallIsLost(en, COUNT_ROWS, 0, 0, [row], NO_COLUMNS);
    assert [row][1..] == [];
    var kept := Renamed(IDENTITY, row);
    assert PassesAll(en, [], kept);
    assert FilteredRows(en, IDENTITY, [], [row]) == [kept];
    assert ColumnOf(en, Lit(Integer(1)), [kept]) == [VNum(1.0)];
    assert NonNull([VNum(1.0)]) == [VNum(1.0)];
  }
}
