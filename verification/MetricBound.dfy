/**
 When a metric can be decomposed: exactly when no chain of nested metrics is longer than the cap;
 with some cap, exactly when no chain comes back to a metric. What the compiler checks is enough
 for that when the metric graph knows every reference that decomposition follows.
 */
module MetricBound {
  import opened Wrappers
  import opened Exprs
  import opened Resolver
  import opened Aggregations
  import opened Decomposer
  import G = MetricGraph

  // ---------------------------------------------------------------- without a cap

  /** A chain of nested metrics below e comes back to one of them. */
  ghost predicate Circles(iface: Interface, e: Expr) {
    exists names, i, j :: 0 <= i < j < |names| && names[i] == names[j] && Nesting(iface, Walked(iface, e), names)
  }

  lemma {:induction false} NestedAreMetrics(iface: Interface, e: Expr, names: seq<string>, i: nat)
    requires Nesting(iface, Walked(iface, e), names) && i < |names|
    ensures names[i] in iface.metrics
  {
    if i > 0 { assert Nests(iface, names[i - 1], names[i]); }
  }

  lemma LongChainCircles(iface: Interface, e: Expr, names: seq<string>)
    requires Nesting(iface, Walked(iface, e), names) && |names| > |iface.metrics.Keys|
    ensures Circles(iface, e)
  {
    forall n | n in names ensures n in iface.metrics.Keys {
      var i :| 0 <= i < |names| && names[i] == n;
      NestedAreMetrics(iface, e, names, i);
    }
    var i, j := G.Pigeonhole(names, iface.metrics.Keys);
    assert 0 <= i < j < |names| && names[i] == names[j];
  }

  lemma NestingPrefix(iface: Interface, refs: set<string>, names: seq<string>, n: nat)
    requires Nesting(iface, refs, names) && n <= |names|
    ensures Nesting(iface, refs, names[..n])
  {
  }

  lemma NestingSnoc(iface: Interface, refs: set<string>, names: seq<string>, next: string)
    requires Nesting(iface, refs, names) && names != [] && Nests(iface, names[|names| - 1], next)
    ensures Nesting(iface, refs, names + [next])
  {
  }

  /** Going round the circle, a chain of any length that ends on it. */
  lemma {:induction false} RoundTheCircle(iface: Interface, refs: set<string>, names: seq<string>, i: nat, j: nat,
                                          n: nat)
    returns (chain: seq<string>, t: nat)
    requires Nesting(iface, refs, names) && i < j < |names| && names[i] == names[j] && n > i
    ensures |chain| == n && Nesting(iface, refs, chain) && i <= t < j && chain[n - 1] == names[t]
    decreases n
  {
    if n == i + 1 {
      NestingPrefix(iface, refs, names, n);
      chain, t := names[..n], i;
    } else {
      chain, t := RoundTheCircle(iface, refs, names, i, j, n - 1);
      assert Nests(iface, names[t], names[t + 1]);
      NestingSnoc(iface, refs, chain, names[t + 1]);
      chain := chain + [names[t + 1]];
      t := if t + 1 == j then i else t + 1;
    }
  }

  lemma CircleNestsDeep(iface: Interface, refs: set<string>, names: seq<string>, i: nat, j: nat, n: nat)
    requires Nesting(iface, refs, names) && i < j < |names| && names[i] == names[j]
    ensures NestsDeep(iface, refs, n)
  {
    if n <= i {
      NestingPrefix(iface, refs, names, n);
      assert |names[..n]| == n;
    } else {
      var chain, t := RoundTheCircle(iface, refs, names, i, j, n);
    }
  }

  /** No cap is enough for a metric if and only if its references circle. */
  lemma NeverInlinedExactly(iface: Interface, physical: Physical, e: Expr)
    ensures (forall maxDepth: nat :: Inlined(iface, physical, e, maxDepth).None?) <==> Circles(iface, e)
  {
    if Circles(iface, e) {
      var names, i, j :| 0 <= i < j < |names| && names[i] == names[j] && Nesting(iface, Walked(iface, e), names);
      forall maxDepth: nat ensures Inlined(iface, physical, e, maxDepth).None? {
        CircleNestsDeep(iface, Walked(iface, e), names, i, j, maxDepth + 1);
        InlinedExactly(iface, physical, e, maxDepth);
      }
    } else {
      var cap := |iface.metrics.Keys|;
      InlinedExactly(iface, physical, e, cap);
      if names :| |names| == cap + 1 && Nesting(iface, Walked(iface, e), names) { LongChainCircles(iface, e, names); }
    }
  }

  // ---------------------------------------------------------------- what the compiler checks

  /** Every nested reference that decomposition follows is to another metric, and one of the
      identifiers that were extracted. */
  ghost predicate CompiledInterface(iface: Interface, g: G.Graph) {
    && iface.metrics.Keys <= G.MetricNames(g)
    && forall m, r :: Nests(iface, m, r) ==> r != m && r in G.Find(g, m).deps
  }

  lemma NestedIsShallower(iface: Interface, g: G.Graph, depths: G.Depths, m: string, r: string)
    requires G.Solution(g, depths) && CompiledInterface(iface, g) && Nests(iface, m, r)
    ensures m in depths && r in depths && depths[r] < depths[m]
  {
    assert G.Edge(g, m, r);
    G.DependencyIsShallower(g, depths, m, r);
  }

  /** Depths fall along a chain. */
  lemma {:induction false} ChainFalls(iface: Interface, g: G.Graph, depths: G.Depths, m: string, names: seq<string>,
                                      i: nat)
    requires G.Solution(g, depths) && CompiledInterface(iface, g) && m in iface.metrics
    requires Nesting(iface, Walked(iface, iface.metrics[m]), names) && i < |names|
    ensures m in depths && names[i] in depths && depths[names[i]] + i < depths[m]
    decreases i
  {
    if i == 0 {
      assert Nests(iface, m, names[0]);
      NestedIsShallower(iface, g, depths, m, names[0]);
    } else {
      ChainFalls(iface, g, depths, m, names, i - 1);
      assert Nests(iface, names[i - 1], names[i]);
      NestedIsShallower(iface, g, depths, names[i - 1], names[i]);
    }
  }

  /** Decomposing metric m succeeds for every cap of at least its compiled depth. */
  lemma CompiledDepthSuffices(iface: Interface, physical: Physical, g: G.Graph, depths: G.Depths, m: string,
                              maxDepth: nat)
    requires G.Solution(g, depths) && CompiledInterface(iface, g) && m in iface.metrics
    requires depths[m] <= maxDepth
    ensures Inlined(iface, physical, iface.metrics[m], maxDepth).Some?
  {
    InlinedExactly(iface, physical, iface.metrics[m], maxDepth);
    if names :| |names| == maxDepth + 1 && Nesting(iface, Walked(iface, iface.metrics[m]), names) {
      ChainFalls(iface, g, depths, m, names, maxDepth);
    }
  }

  /** Compile, then plan. Whatever the compiler says, the plan fails exactly when metrics nest
      deeper than the cap; when the compiler accepts a graph that knows every reference, that does
      not happen for any cap of 3 or more. */
  method PlanCompiledMetric(g: G.Graph, cyclic: bool, iface: Interface, physical: Physical, m: string, maxDepth: nat)
    returns (compiled: Result<G.Depths, G.CompileError>, r: Result<DecomposedMeasure, PlannerError>)
    requires G.Valid(g) && (cyclic <==> G.Cyclic(g)) && m in iface.metrics
    ensures compiled == Err(G.MetricCycle) <==> cyclic
    ensures r.Err? <==> NestsDeep(iface, Walked(iface, iface.metrics[m]), maxDepth + 1)
    ensures compiled.Ok? && CompiledInterface(iface, g) && maxDepth >= 3 ==> r.Ok?
  {
    compiled := G.BuildMetricGraph(g, cyclic);
    if compiled.Ok? && CompiledInterface(iface, g) && maxDepth >= 3 {
      CompiledDepthSuffices(iface, physical, g, compiled.value, m, maxDepth);
      InlinedExactly(iface, physical, iface.metrics[m], maxDepth);
    }
    ghost var order;
    r, order := DecomposeMetric(iface, physical, iface.metrics[m], maxDepth);
  }
}
