/**
 The metric dependency graph: cycle rejection, the change-until-stable computation of
 depths, and the depth limit.
 */
module MetricGraph {
  import opened Wrappers

  /** A metric with the identifiers that were extracted from its expression source. */
  datatype MetricDef = MetricDef(name: string, deps: seq<string>)

  datatype Graph = Graph(metrics: seq<MetricDef>, measures: set<string>)

  datatype CompileError = MetricCycle | MetricDepthExceeded(metric: string, depth: nat)

  const MAX_METRIC_DEPTH: nat := 3

  /** Metrics have unique names: the first occurrence of a name is kept. */
  predicate Valid(g: Graph) {
    forall i, j :: 0 <= i < j < |g.metrics| ==> g.metrics[i].name != g.metrics[j].name
  }

  function MetricNames(g: Graph): set<string> {
    set m | m in g.metrics :: m.name
  }

  function Nodes(g: Graph): set<string> {
    MetricNames(g) + g.measures
  }

  ghost function Find(g: Graph, n: string): (m: MetricDef)
    requires n in MetricNames(g)
    ensures m in g.metrics && m.name == n
  {
    var m :| m in g.metrics && m.name == n; m
  }

  lemma FindUnique(g: Graph, i: nat)
    requires Valid(g) && i < |g.metrics|
    ensures g.metrics[i].name in MetricNames(g) && Find(g, g.metrics[i].name) == g.metrics[i]
  {
    var n := g.metrics[i].name;
    assert g.metrics[i] in g.metrics;
    var j :| 0 <= j < |g.metrics| && g.metrics[j] == Find(g, n);
  }

  // ---------------------------------------------------------------- paths and cycles

  /** Metric a names b, another node of the graph. */
  ghost predicate Edge(g: Graph, a: string, b: string) {
    a in MetricNames(g) && b in Find(g, a).deps && b != a && b in Nodes(g)
  }

  ghost predicate Path(g: Graph, p: seq<string>) {
    forall i, j :: 0 <= i < j < |p| && j == i + 1 ==> Edge(g, p[i], p[j])
  }

  ghost predicate Cyclic(g: Graph) {
    exists p :: |p| >= 2 && Path(g, p) && p[0] == p[|p| - 1]
  }

  lemma Pigeonhole(p: seq<string>, s: set<string>) returns (i: nat, j: nat)
    requires |p| > |s| && forall x :: x in p ==> x in s
    ensures i < j < |p| && p[i] == p[j]
  {
    var last := p[|p| - 1];
    if k :| 0 <= k < |p| - 1 && p[k] == last {
      return k, |p| - 1;
    }
    var init := p[..|p| - 1];
    assert forall x :: x in init ==> x in s - {last};
    i, j := Pigeonhole(init, s - {last});
  }

  lemma PathInNodes(g: Graph, p: seq<string>, k: nat)
    requires Path(g, p) && k < |p| && p[0] in Nodes(g)
    ensures p[k] in Nodes(g)
  {
    if k > 0 { assert Edge(g, p[k - 1], p[k]); }
  }

  lemma LoopIsCycle(g: Graph, p: seq<string>, i: nat, j: nat)
    requires Path(g, p) && i < j < |p| && p[i] == p[j]
    ensures Cyclic(g)
  {
    var c := p[i..j + 1];
    assert |c| >= 2 && c[0] == c[|c| - 1];
    forall a, b | 0 <= a < b < |c| && b == a + 1 ensures Edge(g, c[a], c[b]) {
      assert c[a] == p[i + a] && c[b] == p[i + b];
    }
  }

  /** A path with more nodes than the graph closes a cycle. */
  lemma LongPathIsCyclic(g: Graph, p: seq<string>)
    requires Path(g, p) && |p| > |Nodes(g)| && p[0] in Nodes(g)
    ensures Cyclic(g)
  {
    forall x | x in p ensures x in Nodes(g) {
      var k :| 0 <= k < |p| && p[k] == x;
      PathInNodes(g, p, k);
    }
    var i, j := Pigeonhole(p, Nodes(g));
    LoopIsCycle(g, p, i, j);
  }

  /** A path of k edges that starts at n. */
  ghost predicate PathFrom(g: Graph, n: string, k: nat, p: seq<string>) {
    |p| == k + 1 && p[0] == n && Path(g, p)
  }

  lemma PathPrepend(g: Graph, n: string, d: string, k: nat, p: seq<string>)
    requires PathFrom(g, d, k, p) && Edge(g, n, d)
    ensures PathFrom(g, n, k + 1, [n] + p)
  {
    var q := [n] + p;
    forall i, j | 0 <= i < j < |q| && j == i + 1 ensures Edge(g, q[i], q[j]) {
      if i > 0 { assert q[i] == p[i - 1] && q[j] == p[j - 1]; }
    }
  }

  // ---------------------------------------------------------------- depths

  type Depths = map<string, nat>

  function Max(a: nat, b: nat): nat { if a > b then a else b }

  /** The greatest known depth among the identifiers other than the metric itself; 0 if none. */
  function MaxDepDepth(depths: Depths, deps: seq<string>, self: string): nat {
    if deps == [] then 0
    else Max(if deps[0] != self && deps[0] in depths then depths[deps[0]] else 0,
             MaxDepDepth(depths, deps[1..], self))
  }

  function NewDepth(depths: Depths, m: MetricDef): nat {
    if m.deps == [] then 0 else MaxDepDepth(depths, m.deps, m.name) + 1
  }

  /** The depth a node must have, given the depths of the others. */
  ghost function LocalDepth(g: Graph, depths: Depths, n: string): nat {
    if n in MetricNames(g) then NewDepth(depths, Find(g, n)) else 0
  }

  /** Every metric is one deeper than its deepest dependency, or 0 without identifiers; a
      measure has depth 0. */
  ghost predicate Solution(g: Graph, depths: Depths) {
    && depths.Keys == Nodes(g)
    && forall n :: n in depths ==> depths[n] == LocalDepth(g, depths, n)
  }

  lemma MaxDepDepthBound(depths: Depths, deps: seq<string>, self: string, d: string)
    requires d in deps && d != self && d in depths
    ensures depths[d] <= MaxDepDepth(depths, deps, self)
  {
    if deps[0] != d { MaxDepDepthBound(depths, deps[1..], self, d); }
  }

  lemma {:induction false} MaxDepDepthMonotone(a: Depths, b: Depths, deps: seq<string>, self: string)
    requires forall n :: n in a ==> n in b && a[n] <= b[n]
    ensures MaxDepDepth(a, deps, self) <= MaxDepDepth(b, deps, self)
  {
    if deps != [] { MaxDepDepthMonotone(a, b, deps[1..], self); }
  }

  lemma {:induction false} MaxDepDepthDiffers(a: Depths, b: Depths, deps: seq<string>, self: string) returns (d: string)
    requires a.Keys == b.Keys && MaxDepDepth(a, deps, self) != MaxDepDepth(b, deps, self)
    ensures d in deps && d != self && d in a && a[d] != b[d]
  {
    if deps[0] != self && deps[0] in a && a[deps[0]] != b[deps[0]] {
      d := deps[0];
    } else {
      d := MaxDepDepthDiffers(a, b, deps[1..], self);
    }
  }

  /** In a solution every dependency is strictly shallower than its metric. */
  lemma DependencyIsShallower(g: Graph, depths: Depths, n: string, d: string)
    requires Solution(g, depths) && Edge(g, n, d)
    ensures depths[d] < depths[n]
  {
    MaxDepDepthBound(depths, Find(g, n).deps, n, d);
  }

  // ---------------------------------------------------------------- existence and uniqueness

  /** Depths after k rounds from zero: right for every node with no path of k edges. */
  ghost function Levels(g: Graph, k: nat): (r: Depths)
    ensures r.Keys == Nodes(g)
  {
    if k == 0 then map n | n in Nodes(g) :: 0
    else var prev := Levels(g, k - 1); map n | n in Nodes(g) :: LocalDepth(g, prev, n)
  }

  /** When two assignments give a node different depths, they differ at a dependency. */
  lemma LocalDepthDiffers(g: Graph, a: Depths, b: Depths, n: string) returns (d: string)
    requires a.Keys == b.Keys == Nodes(g) && LocalDepth(g, a, n) != LocalDepth(g, b, n)
    ensures Edge(g, n, d) && a[d] != b[d]
  {
    d := MaxDepDepthDiffers(a, b, Find(g, n).deps, n);
  }

  /** The next round still changes the depth of n. */
  ghost predicate Unsettled(g: Graph, n: string, k: nat) {
    n in Nodes(g) && Levels(g, k + 1)[n] != Levels(g, k)[n]
  }

  lemma UnsettledDependency(g: Graph, n: string, k: nat) returns (d: string)
    requires k > 0 && Unsettled(g, n, k)
    ensures Edge(g, n, d) && Unsettled(g, d, k - 1)
  {
    assert Levels(g, k + 1)[n] == LocalDepth(g, Levels(g, k), n);
    assert Levels(g, k)[n] == LocalDepth(g, Levels(g, k - 1), n);
    d := LocalDepthDiffers(g, Levels(g, k), Levels(g, k - 1), n);
  }

  ghost predicate Divergent(g: Graph, depths: Depths, n: string, k: nat) {
    Solution(g, depths) && n in Nodes(g) && depths[n] != Levels(g, k)[n]
  }

  lemma DivergentDependency(g: Graph, depths: Depths, n: string, k: nat) returns (d: string)
    requires k > 0 && Divergent(g, depths, n, k)
    ensures Edge(g, n, d) && Divergent(g, depths, d, k - 1)
  {
    assert Levels(g, k)[n] == LocalDepth(g, Levels(g, k - 1), n);
    d := LocalDepthDiffers(g, depths, Levels(g, k - 1), n);
  }

  /** Where a round changes a depth after k rounds, a path of k edges starts. */
  lemma {:induction false} UnsettledPath(g: Graph, n: string, k: nat) returns (p: seq<string>)
    requires Unsettled(g, n, k)
    ensures PathFrom(g, n, k, p)
    decreases k
  {
    if k == 0 {
      p := [n];
    } else {
      var d := UnsettledDependency(g, n, k);
      var rest := UnsettledPath(g, d, k - 1);
      PathPrepend(g, n, d, k - 1, rest);
      p := [n] + rest;
    }
  }

  /** Where a solution differs from k rounds, a path of k edges starts. */
  lemma {:induction false} DivergencePath(g: Graph, depths: Depths, n: string, k: nat) returns (p: seq<string>)
    requires Divergent(g, depths, n, k)
    ensures PathFrom(g, n, k, p)
    decreases k
  {
    if k == 0 {
      p := [n];
    } else {
      var d := DivergentDependency(g, depths, n, k);
      var rest := DivergencePath(g, depths, d, k - 1);
      PathPrepend(g, n, d, k - 1, rest);
      p := [n] + rest;
    }
  }

  ghost function Depth(g: Graph): (r: Depths)
    ensures r.Keys == Nodes(g)
  {
    Levels(g, |Nodes(g)|)
  }

  lemma DepthIsSolution(g: Graph)
    requires !Cyclic(g)
    ensures Solution(g, Depth(g))
  {
    var k := |Nodes(g)|;
    forall n | n in Nodes(g) ensures Depth(g)[n] == LocalDepth(g, Depth(g), n) {
      assert Levels(g, k + 1)[n] == LocalDepth(g, Levels(g, k), n);
      if Levels(g, k + 1)[n] != Levels(g, k)[n] {
        var p := UnsettledPath(g, n, k);
        LongPathIsCyclic(g, p);
      }
    }
  }

  /** An acyclic graph has exactly one assignment of depths. */
  lemma UniqueSolution(g: Graph, depths: Depths)
    requires !Cyclic(g)
    ensures Solution(g, depths) <==> depths == Depth(g)
  {
    DepthIsSolution(g);
    if Solution(g, depths) {
      forall n | n in Nodes(g) ensures depths[n] == Depth(g)[n] {
        if depths[n] != Depth(g)[n] {
          var p := DivergencePath(g, depths, n, |Nodes(g)|);
          LongPathIsCyclic(g, p);
        }
      }
    }
  }

  // ---------------------------------------------------------------- depths are longest paths

  ghost predicate HasIdentifiers(g: Graph, n: string) {
    n in MetricNames(g) && Find(g, n).deps != []
  }

  /** How many metrics with identifiers a dependency path passes: all but the last node, which
      may be a measure or have none, certainly do. */
  ghost function Passed(g: Graph, p: seq<string>): nat
    requires p != []
  {
    |p| - 1 + if HasIdentifiers(g, p[|p| - 1]) then 1 else 0
  }

  lemma {:induction false} DepthsFallAlong(g: Graph, depths: Depths, p: seq<string>)
    requires Solution(g, depths) && p != [] && Path(g, p) && p[0] in Nodes(g)
    ensures p[|p| - 1] in depths && depths[p[|p| - 1]] + |p| - 1 <= depths[p[0]]
    decreases |p|
  {
    if |p| > 1 {
      var init := p[..|p| - 1];
      DepthsFallAlong(g, depths, init);
      assert Edge(g, p[|p| - 2], p[|p| - 1]);
      DependencyIsShallower(g, depths, p[|p| - 2], p[|p| - 1]);
    }
  }

  lemma MaxDepDepthIsReached(depths: Depths, deps: seq<string>, self: string) returns (d: string)
    requires MaxDepDepth(depths, deps, self) > 0
    ensures d in deps && d != self && d in depths && depths[d] == MaxDepDepth(depths, deps, self)
  {
    if deps[0] != self && deps[0] in depths && depths[deps[0]] == MaxDepDepth(depths, deps, self) {
      d := deps[0];
    } else {
      d := MaxDepDepthIsReached(depths, deps[1..], self);
    }
  }

  lemma {:induction false} DeepestPath(g: Graph, depths: Depths, n: string) returns (p: seq<string>)
    requires Solution(g, depths) && n in Nodes(g)
    ensures p != [] && p[0] == n && Path(g, p) && Passed(g, p) == depths[n]
    decreases depths[n]
  {
    p := [n];
    if n in MetricNames(g) && MaxDepDepth(depths, Find(g, n).deps, n) > 0 {
      var d := MaxDepDepthIsReached(depths, Find(g, n).deps, n);
      var rest := DeepestPath(g, depths, d);
      assert Edge(g, n, d);
      PathPrepend(g, n, d, |rest| - 1, rest);
      p := [n] + rest;
    }
  }

  /** The depth of a node is the greatest number of metrics with identifiers on a dependency
      path from it. */
  lemma DepthIsLongestPath(g: Graph, depths: Depths, n: string)
    requires Solution(g, depths) && n in Nodes(g)
    ensures exists p :: p != [] && p[0] == n && Path(g, p) && Passed(g, p) == depths[n]
    ensures forall p :: p != [] && p[0] == n && Path(g, p) ==> Passed(g, p) <= depths[n]
  {
    var deepest := DeepestPath(g, depths, n);
    forall p | p != [] && p[0] == n && Path(g, p) ensures Passed(g, p) <= depths[n] {
      DepthsFallAlong(g, depths, p);
    }
  }

  // ---------------------------------------------------------------- the depth loop

  /** `depths` never overshoots: the measures are in it, and no entry exceeds `limit`. */
  ghost predicate Below(g: Graph, depths: Depths, limit: Depths) {
    && g.measures <= depths.Keys <= Nodes(g) == limit.Keys
    && forall n :: n in depths ==> depths[n] <= limit[n]
  }

  predicate Stable(depths: Depths, m: MetricDef) {
    m.name in depths && NewDepth(depths, m) <= depths[m.name]
  }

  function Gap(depths: Depths, limit: Depths, n: string): int
    requires n in limit
  {
    if n in depths then limit[n] as int - depths[n] as int else limit[n] + 1
  }

  /** How far the entries of the metrics are from the limit. */
  function Slack(ms: seq<MetricDef>, depths: Depths, limit: Depths): int
    requires forall i :: 0 <= i < |ms| ==> ms[i].name in limit
  {
    if ms == [] then 0 else Gap(depths, limit, ms[0].name) + Slack(ms[1..], depths, limit)
  }

  lemma NamesInLimit(g: Graph, limit: Depths)
    requires limit.Keys == Nodes(g)
    ensures forall i :: 0 <= i < |g.metrics| ==> g.metrics[i].name in limit
  {
    forall i | 0 <= i < |g.metrics| ensures g.metrics[i].name in MetricNames(g) {
      assert g.metrics[i] in g.metrics;
    }
  }

  function SlackOf(g: Graph, depths: Depths, limit: Depths): int
    requires limit.Keys == Nodes(g)
  {
    NamesInLimit(g, limit);
    Slack(g.metrics, depths, limit)
  }

  lemma {:induction false} SlackBounds(ms: seq<MetricDef>, depths: Depths, limit: Depths)
    requires forall i :: 0 <= i < |ms| ==> ms[i].name in limit
    requires forall n :: n in depths && n in limit ==> depths[n] <= limit[n]
    ensures Slack(ms, depths, limit) >= 0
  {
    if ms != [] { SlackBounds(ms[1..], depths, limit); }
  }

  lemma {:induction false} SlackShrinks(ms: seq<MetricDef>, depths: Depths, limit: Depths, n: string, d: nat)
    requires forall i :: 0 <= i < |ms| ==> ms[i].name in limit
    requires n in limit && d <= limit[n] && (n in depths ==> depths[n] < d)
    ensures Slack(ms, depths[n := d], limit) <= Slack(ms, depths, limit)
    ensures forall i :: 0 <= i < |ms| && ms[i].name == n ==> Slack(ms, depths[n := d], limit) < Slack(ms, depths, limit)
  {
    if ms != [] { SlackShrinks(ms[1..], depths, limit, n, d); }
  }

  /** A new depth never overshoots a solution. */
  lemma NewDepthStaysBelow(g: Graph, depths: Depths, limit: Depths, i: nat)
    requires Valid(g) && Solution(g, limit) && Below(g, depths, limit) && i < |g.metrics|
    ensures g.metrics[i].name in limit && NewDepth(depths, g.metrics[i]) <= limit[g.metrics[i].name]
  {
    var m := g.metrics[i];
    FindUnique(g, i);
    assert limit[m.name] == NewDepth(limit, m);
    MaxDepDepthMonotone(depths, limit, m.deps, m.name);
  }

  /** Raising an entry to its new depth keeps it at or below the solution, and is progress. */
  lemma RaiseIsProgress(g: Graph, depths: Depths, limit: Depths, i: nat)
    requires Valid(g) && Solution(g, limit) && Below(g, depths, limit) && i < |g.metrics|
    requires !Stable(depths, g.metrics[i])
    ensures Below(g, depths[g.metrics[i].name := NewDepth(depths, g.metrics[i])], limit)
    ensures SlackOf(g, depths[g.metrics[i].name := NewDepth(depths, g.metrics[i])], limit) < SlackOf(g, depths, limit)
  {
    NewDepthStaysBelow(g, depths, limit, i);
    NamesInLimit(g, limit);
    SlackShrinks(g.metrics, depths, limit, g.metrics[i].name, NewDepth(depths, g.metrics[i]));
  }

  lemma LevelBelowStable(g: Graph, depths: Depths, prev: Depths, n: string)
    requires depths.Keys == Nodes(g) && forall m :: m in g.metrics ==> Stable(depths, m)
    requires forall x :: x in prev ==> x in depths && prev[x] <= depths[x]
    requires n in Nodes(g)
    ensures LocalDepth(g, prev, n) <= depths[n]
  {
    if n in MetricNames(g) {
      var m := Find(g, n);
      assert Stable(depths, m);
      MaxDepDepthMonotone(prev, depths, m.deps, n);
    }
  }

  lemma {:induction false} StableReachesLevels(g: Graph, depths: Depths, k: nat)
    requires depths.Keys == Nodes(g) && forall m :: m in g.metrics ==> Stable(depths, m)
    ensures forall n :: n in Nodes(g) ==> Levels(g, k)[n] <= depths[n]
    decreases k
  {
    if k > 0 {
      StableReachesLevels(g, depths, k - 1);
      forall n | n in Nodes(g) ensures Levels(g, k)[n] <= depths[n] {
        LevelBelowStable(g, depths, Levels(g, k - 1), n);
      }
    }
  }

  lemma StableIsSolution(g: Graph, depths: Depths, limit: Depths)
    requires !Cyclic(g) && limit == Depth(g) && Below(g, depths, limit)
    requires forall m :: m in g.metrics ==> Stable(depths, m)
    ensures depths == limit
  {
    assert depths.Keys == Nodes(g);
    StableReachesLevels(g, depths, |Nodes(g)|);
    forall n | n in Nodes(g) ensures depths[n] == limit[n] {
    }
  }

  /** Repeats passes over the metrics until none changes. Terminates on every acyclic graph,
      with the unique solution. */
  method ComputeDepths(g: Graph, ghost limit: Depths) returns (depths: Depths)
    requires Valid(g) && !Cyclic(g) && limit == Depth(g)
    ensures depths == limit
  {
    DepthIsSolution(g);
    NamesInLimit(g, limit);
    depths := map n | n in g.measures :: 0;
    var changed := true;
    while changed
      invariant Below(g, depths, limit)
      invariant !changed ==> forall m :: m in g.metrics ==> Stable(depths, m)
      decreases SlackOf(g, depths, limit), changed
    {
      SlackBounds(g.metrics, depths, limit);
      depths, changed := Pass(g, depths, limit);
    }
    StableIsSolution(g, depths, limit);
  }

  /** One pass over the metrics: raises every entry that is missing or too small. */
  method Pass(g: Graph, start: Depths, ghost limit: Depths) returns (depths: Depths, changed: bool)
    requires Valid(g) && Solution(g, limit) && Below(g, start, limit)
    ensures Below(g, depths, limit)
    ensures !changed ==> depths == start && forall m :: m in g.metrics ==> Stable(depths, m)
    ensures changed ==> SlackOf(g, depths, limit) < SlackOf(g, start, limit)
  {
    depths, changed := start, false;
    for i := 0 to |g.metrics|
      invariant Below(g, depths, limit)
      invariant !changed ==> depths == start && forall k :: 0 <= k < i ==> Stable(depths, g.metrics[k])
      invariant changed ==> SlackOf(g, depths, limit) < SlackOf(g, start, limit)
    {
      var m := g.metrics[i];
      var newDepth := NewDepth(depths, m);
      if m.name !in depths || depths[m.name] < newDepth {
        RaiseIsProgress(g, depths, limit, i);
        depths := depths[m.name := newDepth];
        changed := true;
      }
    }
  }

  /** The cycle test is the graph library's, taken by its contract. Errors are exactly: a
      cycle, or some depth above the limit. */
  method BuildMetricGraph(g: Graph, cyclic: bool) returns (r: Result<Depths, CompileError>)
    requires Valid(g) && (cyclic <==> Cyclic(g))
    ensures r == Err(MetricCycle) <==> Cyclic(g)
    ensures r.Ok? <==> !Cyclic(g) && forall n :: n in Nodes(g) ==> Depth(g)[n] <= 3
    ensures r.Ok? ==> r.value == Depth(g) && Solution(g, r.value)
    ensures r.Err? && r.error.MetricDepthExceeded? ==>
      r.error.metric in Nodes(g) && r.error.depth == Depth(g)[r.error.metric] > 3
  {
    if cyclic {
      return Err(MetricCycle);
    }
    DepthIsSolution(g);
    var depths := ComputeDepths(g, Depth(g));
    var left := depths.Keys;
    while left != {}
      invariant left <= depths.Keys
      invariant forall n :: n in depths.Keys - left ==> depths[n] <= MAX_METRIC_DEPTH
      decreases left
    {
      var n :| n in left;
      if depths[n] > MAX_METRIC_DEPTH {
        return Err(MetricDepthExceeded(n, depths[n]));
      }
      left := left - {n};
    }
    r := Ok(depths);
  }
}
