/**
 Decomposition of a metric into aggregates and a post-aggregation expression.

 `Decomposition` is the working state of the walk: the aggregates found so far and the alias
 of each. `Inlined` is the expression the walk must produce: the metric with nested metrics
 replaced by their own expressions, at most `fuel` levels deep.
 */
module Decomposer {
  import opened Wrappers
  import opened Exprs
  import opened Resolver
  import opened Aggregations

  datatype Interface = Interface(measures: map<string, Measure>, metrics: map<string, Expr>)

  // ---------------------------------------------------------------- specification

  predicate IsLeaf(e: Expr) { e.Column? || e.EntityRef? }

  /** None when nesting goes deeper than `fuel` metrics. */
  function Inlined(iface: Interface, physical: Physical, e: Expr, fuel: nat): Option<Expr>
    decreases fuel, e, 1
  {
    if IsLeaf(e) then
      if e.name in iface.measures then Some(Column(e.name))
      else if e.name in iface.metrics then
        if fuel == 0 then None else Inlined(iface, physical, iface.metrics[e.name], fuel - 1)
      else Some(ResolveColumn(physical, e.name))
    else if e.Binary? then
      var l := Inlined(iface, physical, e.left, fuel);
      var r := Inlined(iface, physical, e.right, fuel);
      if l.None? || r.None? then None else Some(Binary(l.value, e.op, r.value))
    else if e.Case? then
      var ws := InlinedWhens(iface, physical, e.whens, fuel);
      var els := if e.els.Some? then Inlined(iface, physical, e.els.value, fuel) else Some(NULL);
      if ws.None? || els.None? then None
      else Some(Case(ws.value, if e.els.Some? then els else None))
    else Some(e)
  }

  function InlinedWhen(iface: Interface, physical: Physical, w: WhenClause, fuel: nat): Option<WhenClause>
    decreases fuel, w, 0
  {
    var c := Inlined(iface, physical, w.condition, fuel);
    var r := Inlined(iface, physical, w.result, fuel);
    if c.None? || r.None? then None else Some(WhenClause(c.value, r.value))
  }

  function InlinedWhens(iface: Interface, physical: Physical, ws: seq<WhenClause>, fuel: nat): Option<seq<WhenClause>>
    decreases fuel, ws, 0
  {
    if ws == [] then Some([])
    else
      var w := InlinedWhen(iface, physical, ws[0], fuel);
      var rest := InlinedWhens(iface, physical, ws[1..], fuel);
      if w.None? || rest.None? then None else Some([w.value] + rest.value)
  }

  /** The measures that the walk reaches. */
  function Reached(iface: Interface, e: Expr, fuel: nat): set<string>
    decreases fuel, e, 1
  {
    if IsLeaf(e) then
      if e.name in iface.measures then {e.name}
      else if e.name in iface.metrics && fuel > 0 then Reached(iface, iface.metrics[e.name], fuel - 1)
      else {}
    else if e.Binary? then Reached(iface, e.left, fuel) + Reached(iface, e.right, fuel)
    else if e.Case? then
      ReachedWhens(iface, e.whens, fuel) + if e.els.Some? then Reached(iface, e.els.value, fuel) else {}
    else {}
  }

  function ReachedWhen(iface: Interface, w: WhenClause, fuel: nat): set<string>
    decreases fuel, w, 0
  {
    Reached(iface, w.condition, fuel) + Reached(iface, w.result, fuel)
  }

  function ReachedWhens(iface: Interface, ws: seq<WhenClause>, fuel: nat): set<string>
    decreases fuel, ws, 0
  {
    if ws == [] then {} else ReachedWhen(iface, ws[0], fuel) + ReachedWhens(iface, ws[1..], fuel)
  }

  // ---------------------------------------------------------------- nesting

  /** The nested metrics that the walk meets in e itself; a measure of the same name comes first. */
  function Walked(iface: Interface, e: Expr): (r: set<string>)
    ensures forall n :: n in r ==> n in iface.metrics && n !in iface.measures
    decreases e, 1
  {
    if IsLeaf(e) then if e.name in iface.metrics && e.name !in iface.measures then {e.name} else {}
    else if e.Binary? then Walked(iface, e.left) + Walked(iface, e.right)
    else if e.Case? then WalkedWhens(iface, e.whens) + if e.els.Some? then Walked(iface, e.els.value) else {}
    else {}
  }

  function WalkedWhen(iface: Interface, w: WhenClause): (r: set<string>)
    ensures forall n :: n in r ==> n in iface.metrics && n !in iface.measures
    decreases w, 0
  {
    Walked(iface, w.condition) + Walked(iface, w.result)
  }

  function WalkedWhens(iface: Interface, ws: seq<WhenClause>): (r: set<string>)
    ensures forall n :: n in r ==> n in iface.metrics && n !in iface.measures
    decreases ws, 0
  {
    if ws == [] then {} else WalkedWhen(iface, ws[0]) + WalkedWhens(iface, ws[1..])
  }

  /** The expression of metric a refers to metric b where the walk meets it. */
  predicate Nests(iface: Interface, a: string, b: string) {
    a in iface.metrics && b in Walked(iface, iface.metrics[a])
  }

  /** Names of metrics, the first one from `refs`, each of them nested in the one before. */
  ghost predicate Nesting(iface: Interface, refs: set<string>, names: seq<string>) {
    && (names != [] ==> names[0] in refs)
    && forall i, j :: 0 <= i < j < |names| && j == i + 1 ==> Nests(iface, names[i], names[j])
  }

  /** Metrics nest at least n deep below these references. */
  ghost predicate NestsDeep(iface: Interface, refs: set<string>, n: nat) {
    exists names :: |names| == n && Nesting(iface, refs, names)
  }

  lemma NestsDeepUnion(iface: Interface, a: set<string>, b: set<string>, n: nat)
    requires n > 0
    ensures NestsDeep(iface, a + b, n) <==> NestsDeep(iface, a, n) || NestsDeep(iface, b, n)
  {
    if names :| |names| == n && Nesting(iface, a + b, names) {
      assert Nesting(iface, a, names) || Nesting(iface, b, names);
    }
    if names :| |names| == n && Nesting(iface, a, names) { assert Nesting(iface, a + b, names); }
    if names :| |names| == n && Nesting(iface, b, names) { assert Nesting(iface, a + b, names); }
  }

  lemma NestingPrepend(iface: Interface, a: string, refs: set<string>, names: seq<string>)
    requires a in iface.metrics && refs == Walked(iface, iface.metrics[a]) && Nesting(iface, refs, names)
    ensures Nesting(iface, {a}, [a] + names)
  {
    var all := [a] + names;
    forall i, j | 0 <= i < j < |all| && j == i + 1 ensures Nests(iface, all[i], all[j]) {
      if i > 0 { assert all[i] == names[i - 1] && all[j] == names[j - 1]; }
    }
  }

  lemma NestingRest(iface: Interface, a: string, refs: set<string>, names: seq<string>)
    requires a in iface.metrics && refs == Walked(iface, iface.metrics[a]) && names != [] && Nesting(iface, {a}, names)
    ensures Nesting(iface, refs, names[1..])
  {
    var rest := names[1..];
    if rest != [] { assert Nests(iface, names[0], names[1]); }
    forall i, j | 0 <= i < j < |rest| && j == i + 1 ensures Nests(iface, rest[i], rest[j]) {
      assert rest[i] == names[i + 1] && rest[j] == names[j + 1];
    }
  }

  /** Below one reference, metrics nest one deeper than below its expression. */
  lemma NestsDeepStep(iface: Interface, a: string, n: nat)
    requires a in iface.metrics
    ensures NestsDeep(iface, {a}, n + 1) <==> NestsDeep(iface, Walked(iface, iface.metrics[a]), n)
  {
    var refs := Walked(iface, iface.metrics[a]);
    if names :| |names| == n + 1 && Nesting(iface, {a}, names) {
      NestingRest(iface, a, refs, names);
      assert |names[1..]| == n;
    }
    if names :| |names| == n && Nesting(iface, refs, names) {
      NestingPrepend(iface, a, refs, names);
      assert |[a] + names| == n + 1;
    }
  }

  lemma NothingNests(iface: Interface, n: nat)
    requires n > 0
    ensures !NestsDeep(iface, {}, n)
  {
  }

  /** The walk fails if and only if some chain of nested metrics is longer than the fuel. */
  lemma {:induction false} InlinedExactly(iface: Interface, physical: Physical, e: Expr, fuel: nat)
    ensures Inlined(iface, physical, e, fuel).None? <==> NestsDeep(iface, Walked(iface, e), fuel + 1)
    decreases fuel, e, 1
  {
    if IsLeaf(e) {
      LeafInlinedExactly(iface, physical, e, fuel);
    } else if e.Binary? {
      InlinedExactly(iface, physical, e.left, fuel);
      InlinedExactly(iface, physical, e.right, fuel);
      NestsDeepUnion(iface, Walked(iface, e.left), Walked(iface, e.right), fuel + 1);
    } else if e.Case? {
      WhensInlinedExactly(iface, physical, e.whens, fuel);
      if e.els.Some? { InlinedExactly(iface, physical, e.els.value, fuel); } else { NothingNests(iface, fuel + 1); }
      var els := if e.els.Some? then Walked(iface, e.els.value) else {};
      NestsDeepUnion(iface, WalkedWhens(iface, e.whens), els, fuel + 1);
    } else {
      NothingNests(iface, fuel + 1);
    }
  }

  lemma {:induction false} LeafInlinedExactly(iface: Interface, physical: Physical, e: Expr, fuel: nat)
    requires IsLeaf(e)
    ensures Inlined(iface, physical, e, fuel).None? <==> NestsDeep(iface, Walked(iface, e), fuel + 1)
    decreases fuel, e, 0
  {
    if e.name in iface.measures || e.name !in iface.metrics {
      NothingNests(iface, fuel + 1);
    } else {
      NestsDeepStep(iface, e.name, fuel);
      if fuel > 0 {
        InlinedExactly(iface, physical, iface.metrics[e.name], fuel - 1);
      } else {
        assert Nesting(iface, Walked(iface, iface.metrics[e.name]), []);
      }
    }
  }

  lemma {:induction false} WhensInlinedExactly(iface: Interface, physical: Physical, ws: seq<WhenClause>, fuel: nat)
    ensures InlinedWhens(iface, physical, ws, fuel).None? <==> NestsDeep(iface, WalkedWhens(iface, ws), fuel + 1)
    decreases fuel, ws, 0
  {
    if ws == [] {
      NothingNests(iface, fuel + 1);
    } else {
      WhenInlinedExactly(iface, physical, ws[0], fuel);
      WhensInlinedExactly(iface, physical, ws[1..], fuel);
      NestsDeepUnion(iface, WalkedWhen(iface, ws[0]), WalkedWhens(iface, ws[1..]), fuel + 1);
    }
  }

  lemma {:induction false} WhenInlinedExactly(iface: Interface, physical: Physical, w: WhenClause, fuel: nat)
    ensures InlinedWhen(iface, physical, w, fuel).None? <==> NestsDeep(iface, WalkedWhen(iface, w), fuel + 1)
    decreases fuel, w, 0
  {
    InlinedExactly(iface, physical, w.condition, fuel);
    InlinedExactly(iface, physical, w.result, fuel);
    NestsDeepUnion(iface, Walked(iface, w.condition), Walked(iface, w.result), fuel + 1);
  }

  // ---------------------------------------------------------------- walking the branches of CASE

  lemma {:induction false} WhensSplit(iface: Interface, physical: Physical, ws: seq<WhenClause>, i: nat, fuel: nat)
    requires i < |ws|
    ensures
      var before := InlinedWhens(iface, physical, ws[..i], fuel);
      var at := InlinedWhen(iface, physical, ws[i], fuel);
      var after := InlinedWhens(iface, physical, ws[i + 1..], fuel);
      InlinedWhens(iface, physical, ws, fuel) ==
      if before.None? || at.None? || after.None? then None else Some(before.value + [at.value] + after.value)
  {
    if i == 0 {
      assert ws[..0] == [] && ws[0 + 1..] == ws[1..];
      var at := InlinedWhen(iface, physical, ws[0], fuel);
      var after := InlinedWhens(iface, physical, ws[1..], fuel);
      if at.Some? && after.Some? { assert [] + [at.value] + after.value == [at.value] + after.value; }
    } else {
      WhensSplit(iface, physical, ws[1..], i - 1, fuel);
      assert ws[..i][0] == ws[0] && ws[..i][1..] == ws[1..][..i - 1];
      assert ws[i + 1..] == ws[1..][i..];
      var w := InlinedWhen(iface, physical, ws[0], fuel);
      var before := InlinedWhens(iface, physical, ws[1..][..i - 1], fuel);
      var at := InlinedWhen(iface, physical, ws[i], fuel);
      var after := InlinedWhens(iface, physical, ws[i + 1..], fuel);
      if w.Some? && before.Some? && at.Some? && after.Some? {
        assert [w.value] + (before.value + [at.value] + after.value)
            == ([w.value] + before.value) + [at.value] + after.value;
      }
    }
  }

  lemma {:induction false} ReachedSplit(iface: Interface, ws: seq<WhenClause>, i: nat, fuel: nat)
    requires i < |ws|
    ensures ReachedWhens(iface, ws[..i + 1], fuel) ==
            ReachedWhens(iface, ws[..i], fuel) + ReachedWhen(iface, ws[i], fuel)
  {
    if i == 0 {
      assert ws[..1][1..] == [] && ws[..0] == [];
    } else {
      ReachedSplit(iface, ws[1..], i - 1, fuel);
      assert ws[..i + 1][1..] == ws[1..][..i] && ws[..i][1..] == ws[1..][..i - 1];
    }
  }

  /** One more clause: the step of the loop over the branches. */
  lemma WhensStep(iface: Interface, physical: Physical, ws: seq<WhenClause>, i: nat, fuel: nat)
    requires i < |ws| && InlinedWhens(iface, physical, ws[..i], fuel).Some?
    ensures var at := InlinedWhen(iface, physical, ws[i], fuel);
            && (at.None? ==> InlinedWhens(iface, physical, ws, fuel).None?)
            && (at.Some? ==> InlinedWhens(iface, physical, ws[..i + 1], fuel) ==
                             Some(InlinedWhens(iface, physical, ws[..i], fuel).value + [at.value]))
    ensures ReachedWhens(iface, ws[..i + 1], fuel) == ReachedWhens(iface, ws[..i], fuel) +
            ReachedWhen(iface, ws[i], fuel)
  {
    WhensSplit(iface, physical, ws, i, fuel);
    WhensSplit(iface, physical, ws[..i + 1], i, fuel);
    ReachedSplit(iface, ws, i, fuel);
    assert ws[..i + 1][..i] == ws[..i] && ws[..i + 1][i + 1..] == [];
    var at := InlinedWhen(iface, physical, ws[i], fuel);
    if at.Some? {
      var next := InlinedWhens(iface, physical, ws[..i], fuel).value + [at.value];
      assert next + [] == next;
    }
  }

  // ---------------------------------------------------------------- the walk

  datatype PlannerError = MaxDepthExceeded

  class Decomposition {
    const iface: Interface
    const physical: Physical
    const maxDepth: nat
    var aggregates: seq<AggregateMeasure>
    var aggNames: map<string, string>
    /** The measures in the order in which they were first reached. */
    ghost var order: seq<string>

    ghost predicate Valid()
      reads this
    {
      && Distinct(order)
      && aggNames.Keys == (set n | n in order)
      && |aggregates| == |order|
      && forall i :: 0 <= i < |order| ==>
           && order[i] in iface.measures
           && aggNames[order[i]] == order[i]
           && aggregates[i] == LoweredMeasure(physical, iface.measures[order[i]])
    }

    constructor (iface: Interface, physical: Physical, maxDepth: nat)
      ensures Valid() && order == []
      ensures this.iface == iface && this.physical == physical && this.maxDepth == maxDepth
    {
      this.iface, this.physical, this.maxDepth := iface, physical, maxDepth;
      aggregates, aggNames, order := [], map[], [];
    }

    /** The state after a walk over an expression that reaches `found`. */
    twostate predicate Extended(found: set<string>)
      reads this
    {
      && Valid()
      && old(order) <= order
      && aggNames.Keys == old(aggNames.Keys) + found
    }

    method DecomposeExpr(e: Expr, depth: nat) returns (r: Result<Expr, PlannerError>)
      requires Valid() && depth <= maxDepth
      modifies this
      ensures Valid()
      ensures r.Ok? <==> Inlined(iface, physical, e, maxDepth - depth).Some?
      ensures r.Ok? ==> Some(r.value) == Inlined(iface, physical, e, maxDepth - depth)
      ensures r.Ok? ==> Extended(Reached(iface, e, maxDepth - depth))
      decreases maxDepth - depth, e, 1
    {
      match e
      case Column(n) => r := ResolveLeaf(n, depth, e);
      case EntityRef(n) => r := ResolveLeaf(n, depth, e);
      case Binary(l, op, right) =>
        var l' := DecomposeExpr(l, depth);
        if l'.Err? { return l'; }
        var r' := DecomposeExpr(right, depth);
        if r'.Err? { return r'; }
        r := Ok(Binary(l'.value, op, r'.value));
      case Lit(_) => r := Ok(e);
      case Case(ws, els) =>
        var ws' := DecomposeWhens(ws, depth);
        if ws'.Err? { return Err(ws'.error); }
        if els.Some? {
          var els' := DecomposeExpr(els.value, depth);
          if els'.Err? { return els'; }
          r := Ok(Case(ws'.value, Some(els'.value)));
        } else {
          r := Ok(Case(ws'.value, None));
        }
      case _ => r := Ok(e);
    }

    method DecomposeWhens(ws: seq<WhenClause>, depth: nat) returns (r: Result<seq<WhenClause>, PlannerError>)
      requires Valid() && depth <= maxDepth
      modifies this
      ensures Valid()
      ensures r.Ok? <==> InlinedWhens(iface, physical, ws, maxDepth - depth).Some?
      ensures r.Ok? ==> Some(r.value) == InlinedWhens(iface, physical, ws, maxDepth - depth)
      ensures r.Ok? ==> Extended(ReachedWhens(iface, ws, maxDepth - depth))
      decreases maxDepth - depth, ws, 0
    {
      var whens: seq<WhenClause> := [];
      for i := 0 to |ws|
        invariant Valid() && old(order) <= order
        invariant InlinedWhens(iface, physical, ws[..i], maxDepth - depth) == Some(whens)
        invariant aggNames.Keys == old(aggNames.Keys) + ReachedWhens(iface, ws[..i], maxDepth - depth)
      {
        WhensStep(iface, physical, ws, i, maxDepth - depth);
        var w := DecomposeWhen(ws[i], depth);
        if w.Err? { return Err(w.error); }
        whens := whens + [w.value];
      }
      assert ws[..|ws|] == ws;
      r := Ok(whens);
    }

    method DecomposeWhen(w: WhenClause, depth: nat) returns (r: Result<WhenClause, PlannerError>)
      requires Valid() && depth <= maxDepth
      modifies this
      ensures Valid()
      ensures r.Ok? <==> InlinedWhen(iface, physical, w, maxDepth - depth).Some?
      ensures r.Ok? ==> Some(r.value) == InlinedWhen(iface, physical, w, maxDepth - depth)
      ensures r.Ok? ==> Extended(ReachedWhen(iface, w, maxDepth - depth))
      decreases maxDepth - depth, w, 0
    {
      var c := DecomposeExpr(w.condition, depth);
      if c.Err? { return Err(c.error); }
      var t := DecomposeExpr(w.result, depth);
      if t.Err? { return Err(t.error); }
      r := Ok(WhenClause(c.value, t.value));
    }

    method ResolveLeaf(name: string, depth: nat, ghost leaf: Expr) returns (r: Result<Expr, PlannerError>)
      requires Valid() && depth <= maxDepth
      requires IsLeaf(leaf) && leaf.name == name
      modifies this
      ensures Valid()
      ensures r.Ok? <==> Inlined(iface, physical, leaf, maxDepth - depth).Some?
      ensures r.Ok? ==> Some(r.value) == Inlined(iface, physical, leaf, maxDepth - depth)
      ensures r.Ok? ==> Extended(Reached(iface, leaf, maxDepth - depth))
      decreases maxDepth - depth, leaf, 0
    {
      if name in aggNames {
        return Ok(Column(aggNames[name]));
      }
      if name in iface.measures {
        var d := DecomposeMeasure(physical, name, iface.measures[name]);
        aggregates := aggregates + d.aggregates;
        aggNames := aggNames[name := name];
        order := order + [name];
        return Ok(d.postAgg);
      }
      if name in iface.metrics {
        if depth >= maxDepth {
          return Err(MaxDepthExceeded);
        }
        r := DecomposeExpr(iface.metrics[name], depth + 1);
        return;
      }
      r := Ok(ResolveColumn(physical, name));
    }
  }

  /** Every measure that the metric reaches is lowered exactly once, and nothing else is. The
      call fails exactly when more than `maxDepth` metrics nest in one another. */
  method DecomposeMetric(iface: Interface, physical: Physical, metric: Expr, maxDepth: nat)
    returns (r: Result<DecomposedMeasure, PlannerError>, ghost order: seq<string>)
    ensures r.Err? <==> NestsDeep(iface, Walked(iface, metric), maxDepth + 1)
    ensures r.Ok? ==>
      && Some(r.value.postAgg) == Inlined(iface, physical, metric, maxDepth)
      && IsLowering(iface, physical, r.value.aggregates, order, Reached(iface, metric, maxDepth))
  {
    var d := new Decomposition(iface, physical, maxDepth);
    var post := d.DecomposeExpr(metric, 0);
    InlinedExactly(iface, physical, metric, maxDepth);
    order := d.order;
    match post
    case Ok(e) => r := Ok(DecomposedMeasure(d.aggregates, e));
    case Err(x) => r := Err(x);
  }

  /** `aggregates` lists the lowering of each measure of `measures` once, in the given order. */
  ghost predicate IsLowering(iface: Interface, physical: Physical, aggregates: seq<AggregateMeasure>,
                             order: seq<string>, measures: set<string>) {
    && Distinct(order)
    && (set n | n in order) == measures
    && |aggregates| == |order|
    && forall i :: 0 <= i < |order| ==>
         && order[i] in iface.measures
         && aggregates[i] == LoweredMeasure(physical, iface.measures[order[i]])
  }
}
