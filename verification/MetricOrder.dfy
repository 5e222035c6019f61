/**
 The evaluation order of compiled metrics and the measures each of them is made of.
 */
module MetricOrder {
  import opened Wrappers
  import opened Exprs
  import opened Sorting
  import G = MetricGraph

  /** A compiled metric: the entity references of its expression, in walk order, and the depth
      that the metric graph gave it. */
  datatype CompiledMetric = CompiledMetric(name: string, refs: seq<string>, depth: nat)

  datatype MetricOrder = MetricOrder(evaluationOrder: seq<string>, metricMeasures: map<string, seq<string>>)

  function MetricNames(metrics: seq<CompiledMetric>): set<string> {
    set m | m in metrics :: m.name
  }

  ghost predicate UniqueNames(metrics: seq<CompiledMetric>) {
    forall i, j :: 0 <= i < j < |metrics| ==> metrics[i].name != metrics[j].name
  }

  /** Metric n refers to r. */
  ghost predicate Refers(metrics: seq<CompiledMetric>, n: string, r: string) {
    exists m :: m in metrics && m.name == n && r in m.refs
  }

  /** Metric n refers to another metric r. A name that is also a measure is read as the measure. */
  ghost predicate Step(metrics: seq<CompiledMetric>, measures: set<string>, n: string, r: string) {
    Refers(metrics, n, r) && r !in measures && r in MetricNames(metrics)
  }

  /** `path` leads from metric n to metric t through metric references. */
  ghost predicate MetricPath(metrics: seq<CompiledMetric>, measures: set<string>, n: string, t: string,
                             path: seq<string>)
    decreases |path|
  {
    if path == [] then n == t
    else Step(metrics, measures, n, path[0]) && MetricPath(metrics, measures, path[0], t, path[1..])
  }

  /** Measure x is reachable from metric n. */
  ghost predicate Constituent(metrics: seq<CompiledMetric>, measures: set<string>, n: string, x: string) {
    exists t, path :: MetricPath(metrics, measures, n, t, path) && x in measures && Refers(metrics, t, x)
  }

  lemma {:induction false} PathExtend(metrics: seq<CompiledMetric>, measures: set<string>, n: string, t: string,
                                      path: seq<string>, r: string)
    requires MetricPath(metrics, measures, n, t, path) && Step(metrics, measures, t, r)
    ensures MetricPath(metrics, measures, n, r, path + [r])
    decreases |path|
  {
    var longer := path + [r];
    if path == [] {
      assert longer[1..] == [];
    } else {
      PathExtend(metrics, measures, path[0], t, path[1..], r);
      assert longer[0] == path[0] && longer[1..] == path[1..] + [r];
    }
  }

  /** A set that contains n and is closed under metric references contains everything reachable. */
  lemma {:induction false} ClosedContainsReachable(metrics: seq<CompiledMetric>, measures: set<string>,
                                                   visited: set<string>,
                                                   n: string, t: string, path: seq<string>)
    requires n in visited
    requires forall a, r :: a in visited && Step(metrics, measures, a, r) ==> r in visited
    requires MetricPath(metrics, measures, n, t, path)
    ensures t in visited
    decreases |path|
  {
    if path != [] { ClosedContainsReachable(metrics, measures, visited, path[0], t, path[1..]); }
  }

  ghost predicate ReachedFrom(metrics: seq<CompiledMetric>, measures: set<string>, n: string, t: string) {
    exists path :: MetricPath(metrics, measures, n, t, path)
  }

  function RefsOf(metrics: seq<CompiledMetric>, n: string): (refs: seq<string>)
    requires n in MetricNames(metrics)
    ensures exists m :: m in metrics && m.name == n && m.refs == refs
  {
    if metrics[0].name == n then metrics[0].refs
    else
      assert exists m :: m in metrics[1..] && m.name == n;
      RefsOf(metrics[1..], n)
  }

  // ---------------------------------------------------------------- the traversal

  /** Where the traversal from n stands: everything pending or done is reachable, the references
      of everything done are pending or done, and `leaves` are the measures found so far. */
  ghost predicate Traversal(metrics: seq<CompiledMetric>, measures: set<string>, n: string,
                            visited: set<string>, stack: seq<string>, leaves: set<string>) {
    && (n in visited || n in stack)
    && (forall t :: t in visited || t in stack ==> t in MetricNames(metrics) && ReachedFrom(metrics, measures, n, t))
    && (forall t, r :: t in visited && Step(metrics, measures, t, r) ==> r in visited || r in stack)
    && (forall t, x :: t in visited && x in measures && Refers(metrics, t, x) ==> x in leaves)
    && (forall x :: x in leaves ==> Constituent(metrics, measures, n, x))
  }

  lemma FinishedTraversal(metrics: seq<CompiledMetric>, measures: set<string>, n: string, visited: set<string>,
                          leaves: set<string>)
    requires Traversal(metrics, measures, n, visited, [], leaves)
    ensures forall x :: x in leaves <==> Constituent(metrics, measures, n, x)
  {
    forall x | Constituent(metrics, measures, n, x) ensures x in leaves {
      var t, path :| MetricPath(metrics, measures, n, t, path) && x in measures && Refers(metrics, t, x);
      ClosedContainsReachable(metrics, measures, visited, n, t, path);
    }
  }

  /** The measures that metric n is made of, by depth-first search with an explicit stack. The
      search ends on cyclic references too. */
  method LeafMeasures(metrics: seq<CompiledMetric>, measures: set<string>, n: string) returns (leaves: set<string>)
    requires UniqueNames(metrics) && n in MetricNames(metrics)
    ensures forall x :: x in leaves <==> Constituent(metrics, measures, n, x)
  {
    leaves := {};
    var visited: set<string> := {};
    var stack := [n];
    assert ReachedFrom(metrics, measures, n, n) by { assert MetricPath(metrics, measures, n, n, []); }
    while stack != []
      invariant Traversal(metrics, measures, n, visited, stack, leaves)
      decreases MetricNames(metrics) - visited, |stack|
    {
      var current := stack[|stack| - 1];
      ghost var before := stack;
      stack := stack[..|stack| - 1];
      if current !in visited {
        visited, stack, leaves := VisitMetric(metrics, measures, n, current, visited, stack, leaves, before);
      } else {
        assert forall t :: t in before ==> t in stack || t == current;
      }
    }
    FinishedTraversal(metrics, measures, n, visited, leaves);
  }

  /** What the first k references of a metric have added to the stack and the leaves. */
  ghost predicate Scanned(metrics: seq<CompiledMetric>, measures: set<string>, refs: seq<string>, k: nat,
                          stack0: seq<string>, leaves0: set<string>, stack: seq<string>, leaves: set<string>)
    requires k <= |refs|
  {
    && stack0 <= stack && leaves0 <= leaves
    && (forall j :: 0 <= j < k ==>
          if refs[j] in measures then refs[j] in leaves else refs[j] in MetricNames(metrics) ==> refs[j] in stack)
    && (forall t :: t in stack ==> t in stack0 || (t in refs && t !in measures && t in MetricNames(metrics)))
    && (forall x :: x in leaves ==> x in leaves0 || (x in refs && x in measures))
  }

  lemma ScanStep(metrics: seq<CompiledMetric>, measures: set<string>, refs: seq<string>, k: nat,
                 stack0: seq<string>, leaves0: set<string>, stack: seq<string>, leaves: set<string>)
    requires k < |refs| && Scanned(metrics, measures, refs, k, stack0, leaves0, stack, leaves)
    ensures var r := refs[k];
      if r in measures then Scanned(metrics, measures, refs, k + 1, stack0, leaves0, stack, leaves + {r})
      else if r in MetricNames(metrics) then
        Scanned(metrics, measures, refs, k + 1, stack0, leaves0, stack + [r], leaves)
      else Scanned(metrics, measures, refs, k + 1, stack0, leaves0, stack, leaves)
  {
    assert refs[k] in refs;
  }

  method VisitMetric(metrics: seq<CompiledMetric>, measures: set<string>, ghost n: string, current: string,
                     visited0: set<string>, stack0: seq<string>, leaves0: set<string>, ghost before: seq<string>)
    returns (visited: set<string>, stack: seq<string>, leaves: set<string>)
    requires UniqueNames(metrics) && Traversal(metrics, measures, n, visited0, before, leaves0)
    requires before == stack0 + [current]
    ensures Traversal(metrics, measures, n, visited, stack, leaves)
    ensures visited == visited0 + {current}
  {
    visited, stack, leaves := visited0 + {current}, stack0, leaves0;
    assert current in before;
    var refs := RefsOf(metrics, current);
    for i := 0 to |refs|
      invariant Scanned(metrics, measures, refs, i, stack0, leaves0, stack, leaves)
    {
      ScanStep(metrics, measures, refs, i, stack0, leaves0, stack, leaves);
      var r := refs[i];
      if r in measures {
        leaves := leaves + {r};
      } else if r in MetricNames(metrics) {
        stack := stack + [r];
      }
    }
    VisitKeeps(metrics, measures, n, current, visited0, stack0, leaves0, stack, leaves);
  }

  /** A scan of all references of a metric, in terms of the metric graph. */
  lemma ScannedAll(metrics: seq<CompiledMetric>, measures: set<string>, current: string,
                   stack0: seq<string>, leaves0: set<string>, stack: seq<string>, leaves: set<string>)
    requires UniqueNames(metrics) && current in MetricNames(metrics)
    requires Scanned(metrics, measures, RefsOf(metrics, current), |RefsOf(metrics, current)|, stack0, leaves0, stack,
             leaves)
    ensures forall t :: Step(metrics, measures, current, t) ==> t in stack
    ensures forall x :: x in measures && Refers(metrics, current, x) ==> x in leaves
    ensures forall t :: t in stack ==> t in stack0 || Step(metrics, measures, current, t)
    ensures forall x :: x in leaves ==> x in leaves0 || (x in measures && Refers(metrics, current, x))
  {
    forall r ensures Refers(metrics, current, r) <==> r in RefsOf(metrics, current) {
    }
  }

  lemma StepReached(metrics: seq<CompiledMetric>, measures: set<string>, n: string, current: string, t: string)
    requires ReachedFrom(metrics, measures, n, current) && Step(metrics, measures, current, t)
    ensures ReachedFrom(metrics, measures, n, t)
  {
    var path :| MetricPath(metrics, measures, n, current, path);
    PathExtend(metrics, measures, n, current, path, t);
  }

  lemma VisitKeeps(metrics: seq<CompiledMetric>, measures: set<string>, n: string, current: string,
                   visited: set<string>, stack0: seq<string>, leaves: set<string>, stack': seq<string>,
                     leaves': set<string>)
    requires UniqueNames(metrics) && Traversal(metrics, measures, n, visited, stack0 + [current], leaves)
    requires current in MetricNames(metrics) && stack0 <= stack' && leaves <= leaves'
    requires Scanned(metrics, measures, RefsOf(metrics, current), |RefsOf(metrics, current)|, stack0, leaves, stack',
             leaves')
    ensures Traversal(metrics, measures, n, visited + {current}, stack', leaves')
  {
    ScannedAll(metrics, measures, current, stack0, leaves, stack', leaves');
    assert forall t :: t in stack0 + [current] <==> t in stack0 || t == current;
    assert ReachedFrom(metrics, measures, n, current);
    forall t | Step(metrics, measures, current, t) ensures ReachedFrom(metrics, measures, n, t) {
      StepReached(metrics, measures, n, current, t);
    }
    forall x | x in measures && Refers(metrics, current, x) ensures Constituent(metrics, measures, n, x) {
    }
  }

  // ---------------------------------------------------------------- the order

  /** The elements of a set in ascending order. */
  method SortedElements(s: set<string>) returns (r: seq<string>)
    ensures multiset(r) == multiset(s) && SortedBy(r, StringLe)
  {
    var v: seq<string> := [];
    var left := s;
    while left != {}
      invariant left <= s && multiset(v) == multiset(s - left)
      decreases left
    {
      var x :| x in left;
      assert s - (left - {x}) == (s - left) + {x};
      v := v + [x];
      left := left - {x};
    }
    assert s - left == s;
    StringLeIsOrder();
    SortIsSorted(v, StringLe);
    r := Sort(v, StringLe);
  }

  predicate DepthLe(a: CompiledMetric, b: CompiledMetric) { a.depth <= b.depth }

  function NamesOf(metrics: seq<CompiledMetric>): (r: seq<string>)
    ensures |r| == |metrics| && forall i :: 0 <= i < |metrics| ==> r[i] == metrics[i].name
  {
    if metrics == [] then [] else [metrics[0].name] + NamesOf(metrics[1..])
  }

  /** `order` is a permutation of the metrics by ascending depth. */
  ghost predicate ByDepth(metrics: seq<CompiledMetric>, order: seq<CompiledMetric>) {
    multiset(order) == multiset(metrics) && SortedBy(order, DepthLe)
  }

  /** None without metrics. Otherwise each metric lists exactly the measures reachable from it,
      ascending and without repetition, and the order is the metrics by ascending depth. */
  method Build(metrics: seq<CompiledMetric>, measures: set<string>)
    returns (r: Option<MetricOrder>, ghost order: seq<CompiledMetric>)
    requires UniqueNames(metrics)
    ensures r.None? <==> metrics == []
    ensures r.Some? ==>
      && ByDepth(metrics, order) && r.value.evaluationOrder == NamesOf(order)
      && (forall m :: m in metrics ==> Ties(order, m, DepthLe) == Ties(metrics, m, DepthLe))
      && r.value.metricMeasures.Keys == MetricNames(metrics)
      && forall n :: n in MetricNames(metrics) ==> ListsConstituents(metrics, measures, n, r.value.metricMeasures[n])
  {
    if metrics == [] {
      return None, [];
    }
    var metricMeasures: map<string, seq<string>> := map[];
    for i := 0 to |metrics|
      invariant metricMeasures.Keys == set k | 0 <= k < i :: metrics[k].name
      invariant forall n :: n in metricMeasures ==> ListsConstituents(metrics, measures, n, metricMeasures[n])
    {
      var name := metrics[i].name;
      assert metrics[i] in metrics;
      var leaves := LeafMeasures(metrics, measures, name);
      var sorted := SortedElements(leaves);
      metricMeasures := metricMeasures[name := sorted];
    }
    var sortedMetrics := Sort(metrics, DepthLe);
    SortIsSorted(metrics, DepthLe);
    forall m | m in metrics ensures Ties(sortedMetrics, m, DepthLe) == Ties(metrics, m, DepthLe) {
      SortKeepsTies(metrics, m, DepthLe);
    }
    order := sortedMetrics;
    r := Some(MetricOrder(NamesOf(sortedMetrics), metricMeasures));
  }

  /** `list` holds exactly the measures reachable from n, each once, in ascending order. */
  ghost predicate ListsConstituents(metrics: seq<CompiledMetric>, measures: set<string>, n: string, list: seq<string>) {
    && SortedBy(list, StringLe)
    && (forall x :: multiset(list)[x] == if Constituent(metrics, measures, n, x) then 1 else 0)
  }

  // ---------------------------------------------------------------- leaves first

  /** The metrics carry the depths of the depth loop, and refer only to identifiers that were
      extracted from their sources. */
  ghost predicate CompiledFrom(metrics: seq<CompiledMetric>, g: G.Graph, depths: G.Depths) {
    && MetricNames(metrics) <= G.MetricNames(g)
    && G.Solution(g, depths)
    && forall m :: m in metrics ==>
         && m.name in depths && m.depth == depths[m.name]
         && forall r :: r in m.refs ==> r in G.Find(g, m.name).deps
  }

  lemma ReferenceIsShallower(metrics: seq<CompiledMetric>, g: G.Graph, depths: G.Depths, a: CompiledMetric,
                             b: CompiledMetric)
    requires CompiledFrom(metrics, g, depths) && a in metrics && b in metrics
    requires b.name in a.refs && b.name != a.name
    ensures b.depth < a.depth
  {
    assert a.name in MetricNames(metrics) && b.name in MetricNames(metrics);
    assert G.Edge(g, a.name, b.name);
    G.DependencyIsShallower(g, depths, a.name, b.name);
  }

  /** In any order by ascending depth every metric follows the other metrics it refers to. */
  lemma EvaluationOrderIsTopological(metrics: seq<CompiledMetric>, g: G.Graph, depths: G.Depths,
                                     order: seq<CompiledMetric>, i: nat, j: nat)
    requires CompiledFrom(metrics, g, depths) && ByDepth(metrics, order)
    requires i < |order| && j < |order| && order[j].name in order[i].refs && order[j].name != order[i].name
    ensures j < i
  {
    SameElements(order, metrics);
    var a, b := order[i], order[j];
    assert a in metrics && b in metrics;
    ReferenceIsShallower(metrics, g, depths, a, b);
    assert i < j ==> DepthLe(a, b);
  }
}
