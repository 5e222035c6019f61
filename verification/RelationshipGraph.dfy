/**
 The relationship graph of a manifest: adjacency in both directions, and a shortest path of
 relationships between every two connected datasets, found by breadth-first search.
 */
module RelationshipGraphs {
  import opened Wrappers

  datatype JoinColumns = JoinColumns(from: string, into: string)

  datatype Relationship = Relationship(from: string, into: string, columns: seq<JoinColumns>)

  type Edges = map<string, seq<(string, nat)>>

  // ---------------------------------------------------------------- walks

  /** Relationship i connects a and b, in either direction. */
  predicate Joins(rels: seq<Relationship>, i: nat, a: string, b: string) {
    && i < |rels|
    && ((rels[i].from == a && rels[i].into == b) || (rels[i].into == a && rels[i].from == b))
  }

  ghost predicate Walk(rels: seq<Relationship>, s: string, t: string, p: seq<nat>)
    decreases |p|
  {
    if p == [] then s == t
    else exists mid :: Walk(rels, s, mid, Init(p)) && Joins(rels, Last(p), mid, t)
  }

  function Init(p: seq<nat>): seq<nat>
    requires p != []
  {
    p[..|p| - 1]
  }

  function Last(p: seq<nat>): nat
    requires p != []
  {
    p[|p| - 1]
  }

  ghost predicate Reachable(rels: seq<Relationship>, s: string, t: string) {
    exists p :: Walk(rels, s, t, p)
  }

  ghost predicate ShortestWalk(rels: seq<Relationship>, s: string, t: string, p: seq<nat>) {
    Walk(rels, s, t, p) && forall q :: Walk(rels, s, t, q) ==> |p| <= |q|
  }

  lemma WalkStep(rels: seq<Relationship>, s: string, mid: string, t: string, p: seq<nat>, i: nat)
    requires Walk(rels, s, mid, p) && Joins(rels, i, mid, t)
    ensures Walk(rels, s, t, p + [i])
  {
    assert Init(p + [i]) == p && Last(p + [i]) == i;
  }

  // ---------------------------------------------------------------- keys

  const NUL := '\0'

  /** The two names with a NUL between them. */
  function PathKey(from: string, into: string): string {
    from + [NUL] + into
  }

  /** The first name, with the separator, opens the second: the test for a clash of keys. */
  predicate Clashes(a: string, c: string) {
    a + [NUL] <= c || c + [NUL] <= a
  }

  /** Keys with the shorter first name in front are equal only if it opens the longer one. */
  lemma EqualKeysClash(a: string, b: string, c: string, d: string)
    requires PathKey(a, b) == PathKey(c, d) && |a| < |c|
    ensures a + [NUL] <= c
  {
    var k := PathKey(a, b);
    assert k[..|a| + 1] == a + [NUL] && k[..|c|] == c;
    assert k[..|c|][..|a| + 1] == k[..|a| + 1];
  }

  lemma SameLengthKeys(a: string, b: string, c: string, d: string)
    requires PathKey(a, b) == PathKey(c, d) && |a| == |c|
    ensures a == c && b == d
  {
    var k := PathKey(a, b);
    assert a == k[..|a|] == c && b == k[|a| + 1..] == d;
  }

  /** The key that the longer of two clashing names shares with the shorter one. */
  lemma SharedKey(a: string, c: string, d: string)
    requires a + [NUL] <= c
    ensures PathKey(a, c[|a| + 1..] + [NUL] + d) == PathKey(c, d)
  {
    assert c == a + [NUL] + c[|a| + 1..];
  }

  /** Two different first names share some key if and only if they clash. */
  lemma KeysCollideExactly(a: string, c: string)
    requires a != c
    ensures (exists b, d :: PathKey(a, b) == PathKey(c, d)) <==> Clashes(a, c)
  {
    if b, d :| PathKey(a, b) == PathKey(c, d) {
      if |a| == |c| { SameLengthKeys(a, b, c, d); }
      else if |a| < |c| { EqualKeysClash(a, b, c, d); }
      else { EqualKeysClash(c, d, a, b); }
    }
    if a + [NUL] <= c {
      SharedKey(a, c, []);
    } else if c + [NUL] <= a {
      SharedKey(c, a, []);
      assert PathKey(a, []) == PathKey(c, a[|c| + 1..] + [NUL] + []);
    }
  }

  /** Equal keys of names that do not clash come from equal pairs. */
  lemma PathKeyInjective(a: string, b: string, c: string, d: string)
    requires !Clashes(a, c) && PathKey(a, b) == PathKey(c, d)
    ensures a == c && b == d
  {
    if a != c { KeysCollideExactly(a, c); }
    SameLengthKeys(a, b, c, d);
  }

  /** No two dataset names clash. Names without NUL never do. */
  ghost predicate KeysApart(names: seq<string>) {
    forall a, c :: a in names && c in names ==> !Clashes(a, c)
  }

  lemma NulFreeIsApart(names: seq<string>)
    requires forall n :: n in names ==> NUL !in n
    ensures KeysApart(names)
  {
    forall a, c | a in names && c in names ensures !(a + [NUL] <= c) {
      assert (a + [NUL])[|a|] == NUL;
      assert forall i :: 0 <= i < |c| ==> c[i] in c;
    }
  }

  type Paths = map<string, seq<nat>>

  function StoredPath(paths: Paths, from: string, into: string): Option<seq<nat>> {
    var k := PathKey(from, into);
    if k in paths then Some(paths[k]) else None
  }

  // ---------------------------------------------------------------- adjacency

  function EdgesOf(edges: Edges, a: string): seq<(string, nat)> {
    if a in edges then edges[a] else []
  }

  ghost predicate IsForward(rels: seq<Relationship>, edges: Edges) {
    forall a: string, b: string, i: nat ::
      (b, i) in EdgesOf(edges, a) <==> i < |rels| && rels[i].from == a && rels[i].into == b
  }

  ghost predicate IsReverse(rels: seq<Relationship>, edges: Edges) {
    forall a: string, b: string, i: nat ::
      (b, i) in EdgesOf(edges, a) <==> i < |rels| && rels[i].into == a && rels[i].from == b
  }

  lemma ForwardStep(rels: seq<Relationship>, i: nat, edges: Edges)
    requires i < |rels| && IsForward(rels[..i], edges)
    ensures IsForward(rels[..i + 1], edges[rels[i].from := EdgesOf(edges, rels[i].from) + [(rels[i].into, i)]])
  {
    var edges' := edges[rels[i].from := EdgesOf(edges, rels[i].from) + [(rels[i].into, i)]];
    forall a: string, b: string, k: nat
      ensures (b, k) in EdgesOf(edges', a) <==> k < i + 1 && rels[k].from == a && rels[k].into == b
    {
      assert (b, k) in EdgesOf(edges, a) <==> k < i && rels[k].from == a && rels[k].into == b;
      if a == rels[i].from { InSnoc(EdgesOf(edges, a), (rels[i].into, i), (b, k)); }
    }
  }

  lemma ReverseStep(rels: seq<Relationship>, i: nat, edges: Edges)
    requires i < |rels| && IsReverse(rels[..i], edges)
    ensures IsReverse(rels[..i + 1], edges[rels[i].into := EdgesOf(edges, rels[i].into) + [(rels[i].from, i)]])
  {
    var edges' := edges[rels[i].into := EdgesOf(edges, rels[i].into) + [(rels[i].from, i)]];
    forall a: string, b: string, k: nat
      ensures (b, k) in EdgesOf(edges', a) <==> k < i + 1 && rels[k].into == a && rels[k].from == b
    {
      assert (b, k) in EdgesOf(edges, a) <==> k < i && rels[k].into == a && rels[k].from == b;
      if a == rels[i].into { InSnoc(EdgesOf(edges, a), (rels[i].from, i), (b, k)); }
    }
  }

  lemma InSnoc<T>(s: seq<T>, last: T, x: T)
    ensures x in s + [last] <==> x in s || x == last
  {
  }

  // ---------------------------------------------------------------- breadth-first search

  type Queue = seq<(string, seq<nat>)>

  /** Every visited dataset has a walk from the source; the queue holds some of them. */
  ghost predicate SearchState(rels: seq<Relationship>, source: string, visited: set<string>, queue: Queue,
                              best: map<string, seq<nat>>) {
    && best.Keys == visited && source in best
    && (forall v :: v in best ==> Walk(rels, source, v, best[v]))
    && (forall k :: 0 <= k < |queue| ==> queue[k].0 in best && best[queue[k].0] == queue[k].1)
  }

  /** The queue is sorted by distance and spans at most two distances, none nearer than `d`;
      nothing visited is farther than d + 1. */
  ghost predicate Layered(queue: Queue, best: map<string, seq<nat>>, d: nat) {
    && (forall k :: 0 <= k < |queue| ==> d <= |queue[k].1| <= d + 1)
    && (forall j, k :: 0 <= j < k < |queue| ==> |queue[j].1| <= |queue[k].1|)
    && (forall v :: v in best ==> |best[v]| <= d + 1)
  }

  predicate InQueue(queue: Queue, v: string) {
    exists k :: 0 <= k < |queue| && queue[k].0 == v
  }

  ghost predicate Explored(rels: seq<Relationship>, best: map<string, seq<nat>>, v: string)
    requires v in best
  {
    forall i: nat, w :: Joins(rels, i, v, w) ==> w in best && |best[w]| <= |best[v]| + 1
  }

  /** `paths` is `before` plus the found paths of this source. */
  ghost predicate Recorded(paths: map<string, seq<nat>>, before: map<string, seq<nat>>, source: string,
                           best: map<string, seq<nat>>) {
    && (forall t :: t in best && t != source ==> PathKey(source, t) in paths && paths[PathKey(source, t)] == best[t])
    && (forall k :: (forall t :: t in best && t != source ==> k != PathKey(source, t)) ==>
          (k in paths <==> k in before) && (k in paths ==> paths[k] == before[k]))
  }

  function Endpoints(rels: seq<Relationship>): set<string> {
    (set r | r in rels :: r.from) + (set r | r in rels :: r.into)
  }

  ghost predicate Extends(best: map<string, seq<nat>>, best': map<string, seq<nat>>) {
    forall v :: v in best ==> v in best' && best'[v] == best[v]
  }

  /** When everything visited has been explored, the recorded walks are the shortest. */
  lemma {:induction false} ExploredIsShortest(rels: seq<Relationship>, source: string, best: map<string, seq<nat>>,
                                              t: string, q: seq<nat>)
    requires source in best && best[source] == []
    requires forall v :: v in best ==> Explored(rels, best, v)
    requires Walk(rels, source, t, q)
    ensures t in best && |best[t]| <= |q|
    decreases |q|
  {
    if q != [] {
      var mid :| Walk(rels, source, mid, Init(q)) && Joins(rels, Last(q), mid, t);
      ExploredIsShortest(rels, source, best, mid, Init(q));
      assert Explored(rels, best, mid);
    }
  }

  /** Visiting one new neighbour of a dataset at distance |path|. */
  lemma VisitKeeps(rels: seq<Relationship>, source: string, visited: set<string>, queue: Queue,
                   best: map<string, seq<nat>>, current: string, path: seq<nat>, neighbor: string, rel: nat)
    requires SearchState(rels, source, visited, queue, best) && Layered(queue, best, |path|)
    requires current in best && best[current] == path && Joins(rels, rel, current, neighbor) && neighbor !in best
    ensures SearchState(rels, source, visited + {neighbor}, queue + [(neighbor, path + [rel])],
            best[neighbor := path + [rel]])
    ensures Layered(queue + [(neighbor, path + [rel])], best[neighbor := path + [rel]], |path|)
    ensures neighbor in Endpoints(rels)
    ensures InQueue(queue + [(neighbor, path + [rel])], neighbor)
    ensures forall v :: InQueue(queue, v) ==> InQueue(queue + [(neighbor, path + [rel])], v)
  {
    WalkStep(rels, source, current, neighbor, path, rel);
    assert rels[rel] in rels;
    var queue' := queue + [(neighbor, path + [rel])];
    assert queue'[|queue|].0 == neighbor;
    forall v | InQueue(queue, v) ensures InQueue(queue', v) {
      var k :| 0 <= k < |queue| && queue[k].0 == v;
      assert queue'[k].0 == v;
    }
  }

  lemma RecordKeeps(paths: map<string, seq<nat>>, before: map<string, seq<nat>>, source: string,
                    best: map<string, seq<nat>>, neighbor: string, path: seq<nat>)
    requires Recorded(paths, before, source, best) && neighbor !in best && source in best
    ensures Recorded(paths[PathKey(source, neighbor) := path], before, source, best[neighbor := path])
  {
    forall t | PathKey(source, t) == PathKey(source, neighbor) ensures t == neighbor {
      assert t == PathKey(source, t)[|source| + 1..];
      assert neighbor == PathKey(source, neighbor)[|source| + 1..];
    }
  }

  /** The whole state of the search while it expands a dataset at distance `d`. */
  ghost predicate Searching(rels: seq<Relationship>, source: string, visited: set<string>, queue: Queue,
                            best: map<string, seq<nat>>, d: nat, paths: map<string, seq<nat>>,
                            before: map<string, seq<nat>>) {
    && SearchState(rels, source, visited, queue, best)
    && Layered(queue, best, d)
    && Recorded(paths, before, source, best)
  }

  /** Visiting only adds: new datasets are endpoints, each is queued, and nothing changes. */
  ghost predicate Grown(rels: seq<Relationship>, visited: set<string>, queue: Queue, best: map<string, seq<nat>>,
                        visited': set<string>, queue': Queue, best': map<string, seq<nat>>) {
    && Extends(best, best')
    && visited <= visited' <= visited + Endpoints(rels)
    && queue <= queue'
    && (forall v :: v in best' && v !in best ==> InQueue(queue', v))
    && |queue'| + |visited| == |queue| + |visited'|
  }

  ghost predicate ReachedEnds(edges: seq<(string, nat)>, best: map<string, seq<nat>>, d: nat) {
    forall e :: e in edges ==> e.0 in best && |best[e.0]| <= d + 1
  }

  lemma GrowStep(rels: seq<Relationship>, visited0: set<string>, queue0: Queue, best0: map<string, seq<nat>>,
                 visited: set<string>, queue: Queue, best: map<string, seq<nat>>, neighbor: string, path: seq<nat>)
    requires Grown(rels, visited0, queue0, best0, visited, queue, best)
    requires best.Keys == visited && neighbor !in visited && neighbor in Endpoints(rels)
    requires InQueue(queue + [(neighbor, path)], neighbor)
    requires forall v :: InQueue(queue, v) ==> InQueue(queue + [(neighbor, path)], v)
    ensures Grown(rels, visited0, queue0, best0, visited + {neighbor}, queue + [(neighbor, path)],
            best[neighbor := path])
  {
  }

  lemma VisitStep(rels: seq<Relationship>, source: string,
                  visited0: set<string>, queue0: Queue, best0: map<string, seq<nat>>,
                  visited: set<string>, queue: Queue, best: map<string, seq<nat>>,
                  paths: map<string, seq<nat>>, before: map<string, seq<nat>>,
                  current: string, path: seq<nat>, neighbor: string, rel: nat)
    requires Searching(rels, source, visited, queue, best, |path|, paths, before)
    requires Grown(rels, visited0, queue0, best0, visited, queue, best)
    requires current in best && best[current] == path && Joins(rels, rel, current, neighbor) && neighbor !in visited
    ensures var visited', queue', best' :=
              visited + {neighbor}, queue + [(neighbor, path + [rel])], best[neighbor := path + [rel]];
            && Searching(rels, source, visited', queue', best', |path|,
              paths[PathKey(source, neighbor) := path + [rel]], before)
            && Grown(rels, visited0, queue0, best0, visited', queue', best')
  {
    VisitKeeps(rels, source, visited, queue, best, current, path, neighbor, rel);
    RecordKeeps(paths, before, source, best, neighbor, path + [rel]);
    GrowStep(rels, visited0, queue0, best0, visited, queue, best, neighbor, path + [rel]);
  }

  lemma ReachStep(edges: seq<(string, nat)>, i: nat, best: map<string, seq<nat>>, best': map<string, seq<nat>>, d: nat)
    requires i < |edges| && ReachedEnds(edges[..i], best, d) && Extends(best, best')
    requires edges[i].0 in best' && |best'[edges[i].0]| <= d + 1
    ensures ReachedEnds(edges[..i + 1], best', d)
  {
    assert edges[..i + 1] == edges[..i] + [edges[i]];
  }

  /** An edge to a dataset that is visited already reaches it. */
  lemma SkipStep(rels: seq<Relationship>, source: string, edges: seq<(string, nat)>, i: nat,
                 visited: set<string>, queue: Queue, best: map<string, seq<nat>>, d: nat,
                 paths: map<string, seq<nat>>, before: map<string, seq<nat>>)
    requires i < |edges| && Searching(rels, source, visited, queue, best, d, paths, before)
    requires ReachedEnds(edges[..i], best, d) && edges[i].0 in visited
    ensures ReachedEnds(edges[..i + 1], best, d)
  {
    ReachStep(edges, i, best, best, d);
  }

  /** Between two expansions: everything visited is queued or explored. */
  ghost predicate Frontier(rels: seq<Relationship>, source: string, visited: set<string>, queue: Queue,
                           best: map<string, seq<nat>>, paths: map<string, seq<nat>>, before: map<string, seq<nat>>) {
    && SearchState(rels, source, visited, queue, best) && best[source] == []
    && Recorded(paths, before, source, best)
    && (queue != [] ==> Layered(queue, best, |queue[0].1|))
    && visited <= {source} + Endpoints(rels)
    && (forall v :: v in best ==> InQueue(queue, v) || Explored(rels, best, v))
  }

  lemma PopFront(rels: seq<Relationship>, source: string, visited: set<string>, queue: Queue,
                 best: map<string, seq<nat>>, paths: map<string, seq<nat>>, before: map<string, seq<nat>>)
    requires Frontier(rels, source, visited, queue, best, paths, before) && queue != []
    ensures Searching(rels, source, visited, queue[1..], best, |queue[0].1|, paths, before)
  {
  }

  lemma Advance(rels: seq<Relationship>, source: string,
                visited: set<string>, queue: Queue, best: map<string, seq<nat>>,
                paths: map<string, seq<nat>>, before: map<string, seq<nat>>,
                visited': set<string>, queue': Queue, best': map<string, seq<nat>>, paths': map<string, seq<nat>>)
    requires Frontier(rels, source, visited, queue, best, paths, before) && queue != []
    requires Searching(rels, source, visited', queue', best', |queue[0].1|, paths', before)
    requires Grown(rels, visited, queue[1..], best, visited', queue', best')
    requires Explored(rels, best', queue[0].0)
    ensures Frontier(rels, source, visited', queue', best', paths', before)
    ensures |queue'| - |visited'| < |queue| - |visited| && |visited'| <= |{source} + Endpoints(rels)|
  {
    StillExplored(rels, queue, best, queue', best');
    SubsetSize(visited', {source} + Endpoints(rels));
  }

  class RelationshipGraph {
    var forward: Edges
    var reverse: Edges
    var shortestPaths: map<string, seq<nat>>

    ghost predicate Valid(rels: seq<Relationship>)
      reads this
    {
      IsForward(rels, forward) && IsReverse(rels, reverse)
    }

    constructor (rels: seq<Relationship>)
      ensures Valid(rels) && shortestPaths == map[]
    {
      forward, reverse, shortestPaths := map[], map[], map[];
      new;
      for i := 0 to |rels|
        invariant IsForward(rels[..i], forward) && IsReverse(rels[..i], reverse)
        invariant shortestPaths == map[]
      {
        var r := rels[i];
        ForwardStep(rels, i, forward);
        ReverseStep(rels, i, reverse);
        forward := forward[r.from := EdgesOf(forward, r.from) + [(r.into, i)]];
        reverse := reverse[r.into := EdgesOf(reverse, r.into) + [(r.from, i)]];
      }
      assert rels[..|rels|] == rels;
    }

    method SetShortestPath(from: string, into: string, path: seq<nat>)
      modifies this`shortestPaths
      ensures shortestPaths == old(shortestPaths)[PathKey(from, into) := path]
    {
      shortestPaths := shortestPaths[PathKey(from, into) := path];
    }

    /** Lookup of a stored path. */
    function ShortestPath(from: string, into: string): Option<seq<nat>>
      reads this`shortestPaths
    {
      StoredPath(shortestPaths, from, into)
    }

    /** Visits the unvisited ends of `edges`, which all leave `current`. */
    method Discover(ghost rels: seq<Relationship>, source: string, ghost current: string, path: seq<nat>,
                    edges: seq<(string, nat)>, visited0: set<string>, queue0: Queue,
                    ghost best0: map<string, seq<nat>>, ghost before: map<string, seq<nat>>)
      returns (visited: set<string>, queue: Queue, ghost best: map<string, seq<nat>>)
      requires Searching(rels, source, visited0, queue0, best0, |path|, shortestPaths, before)
      requires current in best0 && best0[current] == path
      requires forall e :: e in edges ==> Joins(rels, e.1, current, e.0)
      modifies this`shortestPaths
      ensures Searching(rels, source, visited, queue, best, |path|, shortestPaths, before)
      ensures Grown(rels, visited0, queue0, best0, visited, queue, best)
      ensures ReachedEnds(edges, best, |path|)
    {
      visited, queue, best := visited0, queue0, best0;
      for i := 0 to |edges|
        invariant Searching(rels, source, visited, queue, best, |path|, shortestPaths, before)
        invariant Grown(rels, visited0, queue0, best0, visited, queue, best)
        invariant ReachedEnds(edges[..i], best, |path|)
      {
        var (neighbor, rel) := edges[i];
        assert edges[i] in edges;
        if neighbor !in visited {
          VisitStep(rels, source, visited0, queue0, best0, visited, queue, best, shortestPaths, before,
                    current, path, neighbor, rel);
          visited := visited + {neighbor};
          var newPath := path + [rel];
          ReachStep(edges, i, best, best[neighbor := newPath], |path|);
          SetShortestPath(source, neighbor, newPath);
          queue := queue + [(neighbor, newPath)];
          best := best[neighbor := newPath];
        } else {
          SkipStep(rels, source, edges, i, visited, queue, best, |path|, shortestPaths, before);
        }
      }
      assert edges[..|edges|] == edges;
    }

    /** Expands the front of the queue along the forward and then the reverse edges. */
    method Expand(ghost rels: seq<Relationship>, source: string, current: string, path: seq<nat>,
                  visited0: set<string>, queue0: Queue, ghost best0: map<string, seq<nat>>,
                  ghost before: map<string, seq<nat>>)
      returns (visited: set<string>, queue: Queue, ghost best: map<string, seq<nat>>)
      requires Valid(rels) && Searching(rels, source, visited0, queue0, best0, |path|, shortestPaths, before)
      requires current in best0 && best0[current] == path
      modifies this`shortestPaths
      ensures Searching(rels, source, visited, queue, best, |path|, shortestPaths, before)
      ensures Grown(rels, visited0, queue0, best0, visited, queue, best)
      ensures Explored(rels, best, current)
    {
      var forwardEdges, reverseEdges := EdgesOf(forward, current), EdgesOf(reverse, current);
      ghost var best1;
      visited, queue, best1 := Discover(rels, source, current, path, forwardEdges, visited0, queue0, best0, before);
      ghost var visited1, queue1 := visited, queue;
      visited, queue, best := Discover(rels, source, current, path, reverseEdges, visited, queue, best1, before);
      GrownTransitive(rels, visited0, queue0, best0, visited1, queue1, best1, visited, queue, best);
      assert Explored(rels, best, current) by {
        forall i: nat, w | Joins(rels, i, current, w) ensures w in best && |best[w]| <= |path| + 1 {
          assert (w, i) in forwardEdges || (w, i) in reverseEdges;
        }
      }
    }

    /** Breadth-first search from one dataset. */
    method ShortestPathsFrom(ghost rels: seq<Relationship>, source: string)
      requires Valid(rels)
      modifies this`shortestPaths
      ensures StoresShortest(rels, source, shortestPaths)
      ensures LeavesOthers(rels, source, old(shortestPaths), shortestPaths)
    {
      var visited := {source};
      var queue: Queue := [(source, [])];
      ghost var best: map<string, seq<nat>> := map[source := []];
      ghost var all := {source} + Endpoints(rels);
      assert InQueue(queue, source) by { assert queue[0].0 == source; }
      while |queue| > 0
        invariant Valid(rels) && Frontier(rels, source, visited, queue, best, shortestPaths, old(shortestPaths))
        decreases |queue| + |all| - |visited|
      {
        var (current, path) := queue[0];
        ghost var visited0, queue0, best0, paths0 := visited, queue, best, shortestPaths;
        PopFront(rels, source, visited, queue, best, shortestPaths, old(shortestPaths));
        visited, queue, best := Expand(rels, source, current, path, visited, queue[1..], best, old(shortestPaths));
        Advance(rels, source, visited0, queue0, best0, paths0, old(shortestPaths), visited, queue, best, shortestPaths);
      }
      FoundAll(rels, source, best);
    }
  }

  // ---------------------------------------------------------------- correctness

  /** An entry for exactly the other datasets that can be reached, each a shortest walk. */
  ghost predicate StoresShortest(rels: seq<Relationship>, source: string, paths: map<string, seq<nat>>) {
    forall t :: t != source && Reachable(rels, source, t) ==>
      PathKey(source, t) in paths && ShortestWalk(rels, source, t, paths[PathKey(source, t)])
  }

  ghost predicate KeyFrom(rels: seq<Relationship>, source: string, k: string) {
    exists t :: t != source && Reachable(rels, source, t) && k == PathKey(source, t)
  }

  ghost predicate LeavesOthers(rels: seq<Relationship>, source: string,
                               before: map<string, seq<nat>>, paths: map<string, seq<nat>>) {
    forall k :: !KeyFrom(rels, source, k) ==>
      (k in paths <==> k in before) && (k in paths ==> paths[k] == before[k])
  }

  lemma FoundAll(rels: seq<Relationship>, source: string, best: map<string, seq<nat>>)
    requires source in best && best[source] == []
    requires forall v :: v in best ==> Walk(rels, source, v, best[v]) && Explored(rels, best, v)
    ensures forall t :: t in best <==> Reachable(rels, source, t)
    ensures forall t :: t in best ==> ShortestWalk(rels, source, t, best[t])
  {
    forall t, q | Walk(rels, source, t, q) ensures t in best && |best[t]| <= |q| {
      ExploredIsShortest(rels, source, best, t, q);
    }
  }

  lemma GrownTransitive(
      rels: seq<Relationship>, visited0: set<string>, queue0: Queue, best0: map<string, seq<nat>>,
      visited1: set<string>, queue1: Queue, best1: map<string, seq<nat>>,
      visited2: set<string>, queue2: Queue, best2: map<string, seq<nat>>)
    requires Grown(rels, visited0, queue0, best0, visited1, queue1, best1)
    requires Grown(rels, visited1, queue1, best1, visited2, queue2, best2)
    ensures Grown(rels, visited0, queue0, best0, visited2, queue2, best2)
  {
    forall v | InQueue(queue1, v) ensures InQueue(queue2, v) {
      PrefixInQueue(queue1, queue2, v);
    }
  }

  lemma PrefixInQueue(queue: Queue, queue': Queue, v: string)
    requires queue <= queue' && InQueue(queue, v)
    ensures InQueue(queue', v)
  {
    var k :| 0 <= k < |queue| && queue[k].0 == v;
    assert queue'[k].0 == v;
  }

  /** Expanding the front keeps every visited dataset queued or explored. */
  lemma StillExplored(rels: seq<Relationship>, queue: Queue, best: map<string, seq<nat>>,
                      queue': Queue, best': map<string, seq<nat>>)
    requires queue != [] && queue[1..] <= queue' && Extends(best, best')
    requires forall v :: v in best ==> InQueue(queue, v) || Explored(rels, best, v)
    requires forall v :: v in best' && v !in best ==> InQueue(queue', v)
    requires queue[0].0 in best' && Explored(rels, best', queue[0].0)
    ensures forall v :: v in best' ==> InQueue(queue', v) || Explored(rels, best', v)
  {
    forall v | v in best && v != queue[0].0 ensures InQueue(queue', v) || Explored(rels, best', v) {
      if InQueue(queue, v) {
        var k :| 0 <= k < |queue| && queue[k].0 == v;
        assert queue[1..][k - 1].0 == v;
        PrefixInQueue(queue[1..], queue', v);
      } else {
        assert Explored(rels, best, v);
      }
    }
  }

  lemma SubsetSize<T>(a: set<T>, b: set<T>)
    requires a <= b
    ensures |a| <= |b|
  {
    if a != {} {
      var x :| x in a;
      SubsetSize(a - {x}, b - {x});
    }
  }

  /** The stored paths are exactly the shortest walks from each dataset to every other one. */
  ghost predicate AllPairsShortest(rels: seq<Relationship>, names: seq<string>, paths: map<string, seq<nat>>) {
    && (forall s, t :: s in names ==>
          && (PathKey(s, t) in paths <==> t != s && Reachable(rels, s, t))
          && (PathKey(s, t) in paths ==> ShortestWalk(rels, s, t, paths[PathKey(s, t)])))
    && (forall k :: k in paths ==> exists s :: s in names && KeyFrom(rels, s, k))
  }

  lemma NextSource(rels: seq<Relationship>, names: seq<string>, source: string,
                   before: map<string, seq<nat>>, paths: map<string, seq<nat>>)
    requires KeysApart(names + [source])
    requires source !in names && AllPairsShortest(rels, names, before)
    requires StoresShortest(rels, source, paths) && LeavesOthers(rels, source, before, paths)
    ensures AllPairsShortest(rels, names + [source], paths)
  {
    forall s, t | s in names + [source]
      ensures PathKey(s, t) in paths <==> t != s && Reachable(rels, s, t)
      ensures PathKey(s, t) in paths ==> ShortestWalk(rels, s, t, paths[PathKey(s, t)])
    {
      var k := PathKey(s, t);
      forall t', s' | k == PathKey(s', t') && s' in names + [source] ensures s' == s && t' == t {
        PathKeyInjective(s', t', s, t);
      }
      assert source in names + [source];
      if s in names {
        assert !KeyFrom(rels, source, k);
      } else if !(t != s && Reachable(rels, s, t)) {
        assert !KeyFrom(rels, source, k);
        assert k !in before by {
          forall s' | s' in names ensures !KeyFrom(rels, s', k) {
            assert s' in names + [source];
          }
        }
      }
    }
    forall k | k in paths ensures exists s :: s in names + [source] && KeyFrom(rels, s, k) {
      if KeyFrom(rels, source, k) {
        assert source in names + [source];
      } else {
        var s :| s in names && KeyFrom(rels, s, k);
        assert s in names + [source];
      }
    }
  }

  /** Shortest paths between all pairs. When no two dataset names clash, no source's entries
      overwrite another's. */
  method BuildRelationshipGraph(names: seq<string>, rels: seq<Relationship>) returns (g: RelationshipGraph)
    requires forall i, j :: 0 <= i < j < |names| ==> names[i] != names[j]
    ensures fresh(g) && g.Valid(rels)
    ensures KeysApart(names) ==> AllPairsShortest(rels, names, g.shortestPaths)
    ensures names != [] ==> StoresShortest(rels, names[|names| - 1], g.shortestPaths)
  {
    g := new RelationshipGraph(rels);
    for i := 0 to |names|
      invariant fresh(g) && g.Valid(rels)
      invariant KeysApart(names) ==> AllPairsShortest(rels, names[..i], g.shortestPaths)
      invariant i > 0 ==> StoresShortest(rels, names[i - 1], g.shortestPaths)
    {
      ghost var before := g.shortestPaths;
      g.ShortestPathsFrom(rels, names[i]);
      assert names[..i + 1] == names[..i] + [names[i]];
      if KeysApart(names) {
        NextSource(rels, names[..i], names[i], before, g.shortestPaths);
      }
    }
    assert names[..|names|] == names;
  }

  // ---------------------------------------------------------------- clashing names

  /** A relationship at each of two clashing names whose paths have one key. */
  function ClashingRelationships(a: string, c: string): seq<Relationship>
    requires a + [NUL] <= c
  {
    [Relationship(a, c[|a| + 1..] + [NUL] + (a + "d"), []), Relationship(c, a + "d", [])]
  }

  lemma DirectWalk(rels: seq<Relationship>, s: string, t: string, i: nat)
    requires Joins(rels, i, s, t)
    ensures Walk(rels, s, t, [i])
  {
    WalkStep(rels, s, s, t, [], i);
    assert [] + [i] == [i];
  }

  lemma ShortestIsDirect(rels: seq<Relationship>, s: string, t: string, p: seq<nat>, i: nat)
    requires Joins(rels, i, s, t) && s != t && ShortestWalk(rels, s, t, p)
    ensures |p| == 1 && Joins(rels, p[0], s, t)
  {
    DirectWalk(rels, s, t, i);
    var mid :| Walk(rels, s, mid, Init(p)) && Joins(rels, Last(p), mid, t);
  }

  /** One entry cannot serve both clashing sources, whatever is stored in it: one of the two
      paths is overwritten. */
  lemma ClashOverwrites(names: seq<string>, a: string, c: string, paths: map<string, seq<nat>>)
    requires a in names && c in names && a + [NUL] <= c
    ensures !AllPairsShortest(ClashingRelationships(a, c), names, paths)
  {
    var (rels, d) := (ClashingRelationships(a, c), a + "d");
    var b := c[|a| + 1..] + [NUL] + d;
    SharedKey(a, c, d);
    assert c[|a|] == (a + [NUL])[|a|] == NUL && d[|a|] == 'd';
    assert Joins(rels, 0, a, b) && Joins(rels, 1, c, d);
    DirectWalk(rels, a, b, 0);
    DirectWalk(rels, c, d, 1);
    if AllPairsShortest(rels, names, paths) {
      var p := paths[PathKey(a, b)];
      ShortestIsDirect(rels, a, b, p, 0);
      ShortestIsDirect(rels, c, d, p, 1);
      assert false;
    }
  }

  ghost predicate Storable(rels: seq<Relationship>, names: seq<string>) {
    exists paths :: AllPairsShortest(rels, names, paths)
  }

  lemma {:induction false} ShortestExists(rels: seq<Relationship>, s: string, t: string, p: seq<nat>)
    returns (q: seq<nat>)
    requires Walk(rels, s, t, p)
    ensures ShortestWalk(rels, s, t, q)
    decreases |p|
  {
    if shorter :| Walk(rels, s, t, shorter) && |shorter| < |p| {
      q := ShortestExists(rels, s, t, shorter);
    } else {
      q := p;
    }
  }

  lemma ReachableIsEndpoint(rels: seq<Relationship>, s: string, t: string)
    requires Reachable(rels, s, t) && s != t
    ensures t in Endpoints(rels)
  {
    var p :| Walk(rels, s, t, p);
    var mid :| Walk(rels, s, mid, Init(p)) && Joins(rels, Last(p), mid, t);
    assert rels[Last(p)] in rels;
  }

  ghost predicate IsEntry(rels: seq<Relationship>, names: seq<string>, s: string, t: string, k: string, p: seq<nat>) {
    s in names && t != s && k == PathKey(s, t) && ShortestWalk(rels, s, t, p)
  }

  lemma EntryExists(rels: seq<Relationship>, names: seq<string>, s: string, t: string)
    requires s in names && t != s && Reachable(rels, s, t)
    ensures exists p :: IsEntry(rels, names, s, t, PathKey(s, t), p)
  {
    var p :| Walk(rels, s, t, p);
    var q := ShortestExists(rels, s, t, p);
    assert IsEntry(rels, names, s, t, PathKey(s, t), q);
  }

  ghost predicate HasEntry(rels: seq<Relationship>, names: seq<string>, k: string) {
    exists s, t, p :: IsEntry(rels, names, s, t, k, p)
  }

  ghost function Entry(rels: seq<Relationship>, names: seq<string>, k: string): (p: seq<nat>)
    requires HasEntry(rels, names, k)
    ensures exists s, t :: IsEntry(rels, names, s, t, k, p)
  {
    var s, t, p :| IsEntry(rels, names, s, t, k, p); p
  }

  /** All keys that a search can store. */
  function Keys(rels: seq<Relationship>, names: seq<string>): set<string> {
    set s, t | s in names && t in Endpoints(rels) :: PathKey(s, t)
  }

  lemma EntryIsExact(rels: seq<Relationship>, names: seq<string>, s: string, t: string)
    requires KeysApart(names) && s in names
    ensures HasEntry(rels, names, PathKey(s, t)) <==> t != s && Reachable(rels, s, t)
    ensures HasEntry(rels, names, PathKey(s, t)) ==>
      PathKey(s, t) in Keys(rels, names) && ShortestWalk(rels, s, t, Entry(rels, names, PathKey(s, t)))
  {
    forall s', t', p | IsEntry(rels, names, s', t', PathKey(s, t), p) ensures s' == s && t' == t {
      PathKeyInjective(s', t', s, t);
    }
    if t != s && Reachable(rels, s, t) {
      ReachableIsEndpoint(rels, s, t);
      EntryExists(rels, names, s, t);
    }
  }

  lemma EntryIsFrom(rels: seq<Relationship>, names: seq<string>, k: string)
    requires HasEntry(rels, names, k)
    ensures exists s :: s in names && KeyFrom(rels, s, k)
  {
    var s, t, p :| IsEntry(rels, names, s, t, k, p);
    assert Reachable(rels, s, t);
    assert KeyFrom(rels, s, k);
  }

  lemma KeysApartIsStorable(rels: seq<Relationship>, names: seq<string>)
    requires KeysApart(names)
    ensures Storable(rels, names)
  {
    var paths := map k | k in Keys(rels, names) && HasEntry(rels, names, k) :: Entry(rels, names, k);
    forall s, t | s in names
      ensures PathKey(s, t) in paths <==> t != s && Reachable(rels, s, t)
      ensures PathKey(s, t) in paths ==> ShortestWalk(rels, s, t, paths[PathKey(s, t)])
    {
      EntryIsExact(rels, names, s, t);
    }
    forall k | k in paths ensures exists s :: s in names && KeyFrom(rels, s, k) {
      EntryIsFrom(rels, names, k);
    }
    assert AllPairsShortest(rels, names, paths);
  }

  /** The shortest paths of every list of relationships can be stored under these keys if and
      only if no two dataset names clash. */
  lemma StorableExactly(names: seq<string>)
    ensures (forall rels :: Storable(rels, names)) <==> KeysApart(names)
  {
    if KeysApart(names) {
      forall rels ensures Storable(rels, names) { KeysApartIsStorable(rels, names); }
    } else {
      var a, c :| a in names && c in names && Clashes(a, c);
      if a + [NUL] <= c { ClashIsNotStorable(names, a, c); } else { ClashIsNotStorable(names, c, a); }
    }
  }

  lemma ClashIsNotStorable(names: seq<string>, a: string, c: string)
    requires a in names && c in names && a + [NUL] <= c
    ensures !Storable(ClashingRelationships(a, c), names)
  {
    forall paths ensures !AllPairsShortest(ClashingRelationships(a, c), names, paths) {
      ClashOverwrites(names, a, c, paths);
    }
  }

  /** Two names that clash: building the graph loses the path from the first. */
  method OverwrittenEntry() returns (g: RelationshipGraph)
    ensures fresh(g)
    ensures var rels := ClashingRelationships("a", "a\0b");
      && !AllPairsShortest(rels, ["a", "a\0b"], g.shortestPaths)
      && StoresShortest(rels, "a\0b", g.shortestPaths)
  {
    assert "a" + [NUL] <= "a\0b";
    g := BuildRelationshipGraph(["a", "a\0b"], ClashingRelationships("a", "a\0b"));
    ClashOverwrites(["a", "a\0b"], "a", "a\0b", g.shortestPaths);
  }
}
