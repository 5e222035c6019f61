/**
 The order in which the entities of an ad-hoc query are joined: a traversal from the anchor
 along the relationships of the join path.
 */
module JoinOrders {
  import opened Wrappers
  import opened EntityResolver
  import R = RelationshipGraphs

  datatype JoinStep = JoinStep(entity: string, relationship: nat, reversed: bool)

  datatype Unreachable = Unreachable(names: seq<string>)

  function MatchNames(entities: seq<MatchedEntity>): (names: seq<string>)
    ensures |names| == |entities|
  {
    seq(|entities|, (i: nat) requires i < |entities| => entities[i].name)
  }

  function StepNames(steps: seq<JoinStep>): (names: seq<string>)
    ensures |names| == |steps|
  {
    seq(|steps|, (i: nat) requires i < |steps| => steps[i].entity)
  }

  /** The datasets a query may join: the anchor and the other selected entities. */
  function Scope(anchor: string, others: seq<MatchedEntity>): set<string> {
    {anchor} + Elements(MatchNames(others))
  }

  // ---------------------------------------------------------------- connection

  /** A walk along relationships of `path`; every dataset it leaves is in `scope`. */
  ghost predicate ScopedWalk(rels: seq<R.Relationship>, path: set<nat>, scope: set<string>, s: string, t: string,
                             p: seq<nat>)
    decreases |p|
  {
    if p == [] then s == t
    else exists mid :: mid in scope && ScopedWalk(rels, path, scope, s, mid, R.Init(p))
                       && R.Last(p) in path && R.Joins(rels, R.Last(p), mid, t)
  }

  /** A walk of at least one relationship. */
  ghost predicate Connected(rels: seq<R.Relationship>, path: set<nat>, scope: set<string>, s: string, t: string) {
    exists p :: p != [] && ScopedWalk(rels, path, scope, s, t, p)
  }

  lemma ExtendWalk(rels: seq<R.Relationship>, path: set<nat>, scope: set<string>, s: string, mid: string, t: string,
                   p: seq<nat>, i: nat)
    requires ScopedWalk(rels, path, scope, s, mid, p) && mid in scope && i in path && R.Joins(rels, i, mid, t)
    ensures ScopedWalk(rels, path, scope, s, t, p + [i])
  {
    assert R.Init(p + [i]) == p && R.Last(p + [i]) == i;
  }

  lemma {:induction false} PrependStep(rels: seq<R.Relationship>, path: set<nat>, scope: set<string>,
                                       s: string, mid: string, t: string, i: nat, p: seq<nat>)
    requires s in scope && i in path && R.Joins(rels, i, s, mid) && ScopedWalk(rels, path, scope, mid, t, p)
    ensures ScopedWalk(rels, path, scope, s, t, [i] + p)
    decreases |p|
  {
    if p == [] {
      ExtendWalk(rels, path, scope, s, s, mid, [], i);
      assert [i] + p == [] + [i];
    } else {
      var last :| last in scope && ScopedWalk(rels, path, scope, mid, last, R.Init(p))
                  && R.Last(p) in path && R.Joins(rels, R.Last(p), last, t);
      PrependStep(rels, path, scope, s, mid, last, i, R.Init(p));
      ExtendWalk(rels, path, scope, s, last, t, [i] + R.Init(p), R.Last(p));
      assert [i] + p == ([i] + R.Init(p)) + [R.Last(p)];
    }
  }

  lemma {:induction false} ReverseWalk(rels: seq<R.Relationship>, path: set<nat>, scope: set<string>,
                                       s: string, t: string, p: seq<nat>) returns (q: seq<nat>)
    requires ScopedWalk(rels, path, scope, s, t, p) && t in scope
    ensures ScopedWalk(rels, path, scope, t, s, q) && |q| == |p|
    decreases |p|
  {
    if p == [] {
      q := [];
    } else {
      var mid :| mid in scope && ScopedWalk(rels, path, scope, s, mid, R.Init(p))
                 && R.Last(p) in path && R.Joins(rels, R.Last(p), mid, t);
      q := ReverseWalk(rels, path, scope, s, mid, R.Init(p));
      PrependStep(rels, path, scope, t, mid, s, R.Last(p), q);
      q := [R.Last(p)] + q;
    }
  }

  lemma {:induction false} JoinWalks(rels: seq<R.Relationship>, path: set<nat>, scope: set<string>,
                                     s: string, mid: string, t: string, p: seq<nat>, q: seq<nat>)
    requires ScopedWalk(rels, path, scope, s, mid, p) && ScopedWalk(rels, path, scope, mid, t, q)
    ensures ScopedWalk(rels, path, scope, s, t, p + q)
    decreases |q|
  {
    if q == [] {
      assert p + q == p;
    } else {
      var last :| last in scope && ScopedWalk(rels, path, scope, mid, last, R.Init(q))
                  && R.Last(q) in path && R.Joins(rels, R.Last(q), last, t);
      JoinWalks(rels, path, scope, s, mid, last, p, R.Init(q));
      ExtendWalk(rels, path, scope, s, last, t, p + R.Init(q), R.Last(q));
      assert p + q == (p + R.Init(q)) + [R.Last(q)];
    }
  }

  lemma {:induction false} WidenWalk(rels: seq<R.Relationship>, path: set<nat>, wider: set<nat>, scope: set<string>,
                                     s: string, t: string, p: seq<nat>)
    requires path <= wider && ScopedWalk(rels, path, scope, s, t, p)
    ensures ScopedWalk(rels, wider, scope, s, t, p)
    decreases |p|
  {
    if p != [] {
      var mid :| mid in scope && ScopedWalk(rels, path, scope, s, mid, R.Init(p))
                 && R.Last(p) in path && R.Joins(rels, R.Last(p), mid, t);
      WidenWalk(rels, path, wider, scope, s, mid, R.Init(p));
    }
  }

  // ---------------------------------------------------------------- join orders

  /** The relationship joins `name` to one of `visited`, which is on its near side. */
  predicate Attaches(rels: seq<R.Relationship>, i: nat, reversed: bool, visited: set<string>, name: string) {
    && i < |rels|
    && if reversed then rels[i].into in visited && rels[i].from == name
       else rels[i].from in visited && rels[i].into == name
  }

  /** The first relationship of the path that attaches the entity, forwards where it does both. */
  ghost predicate AttachesFirst(rels: seq<R.Relationship>, joinPath: seq<nat>, i: nat, reversed: bool,
                                visited: set<string>, name: string) {
    && i in joinPath && Attaches(rels, i, reversed, visited, name)
    && (reversed ==> !Attaches(rels, i, false, visited, name))
    && exists j: nat :: j < |joinPath| && joinPath[j] == i && Blocked(rels, Elements(joinPath[..j]), visited, {name})
  }

  /** Every entity once, each attached to the anchor or to an earlier one. */
  ghost predicate IsJoinOrder(rels: seq<R.Relationship>, anchor: string, others: seq<MatchedEntity>,
                              joinPath: seq<nat>, steps: seq<JoinStep>) {
    && multiset(StepNames(steps)) == multiset(MatchNames(others))
    && StepsAttach(rels, anchor, joinPath, steps)
  }

  /** Step k attaches its entity to the anchor or to an earlier step. */
  ghost predicate StepAttaches(rels: seq<R.Relationship>, anchor: string, joinPath: seq<nat>, steps: seq<JoinStep>,
                               k: nat)
    requires k < |steps|
  {
    AttachesFirst(rels, joinPath, steps[k].relationship, steps[k].reversed, {anchor} + Elements(StepNames(steps[..k])),
      steps[k].entity)
  }

  ghost predicate StepsAttach(rels: seq<R.Relationship>, anchor: string, joinPath: seq<nat>, steps: seq<JoinStep>) {
    forall k :: 0 <= k < |steps| ==> StepAttaches(rels, anchor, joinPath, steps, k)
  }

  ghost predicate Blocked(rels: seq<R.Relationship>, path: set<nat>, visited: set<string>, stuck: set<string>) {
    forall i: nat, v, t :: i in path && v in visited && t in stuck ==> !R.Joins(rels, i, v, t)
  }

  /** The first of the remaining entities that a relationship of the path attaches. */
  method FindConnection(rels: seq<R.Relationship>, remaining: seq<MatchedEntity>, visited: set<string>,
                        joinPath: seq<nat>)
    returns (found: Option<(nat, nat, bool)>)
    requires forall i :: i in joinPath ==> i < |rels|
    ensures found.Some? ==>
      && found.value.0 < |remaining|
      && AttachesFirst(rels, joinPath, found.value.1, found.value.2, visited, remaining[found.value.0].name)
      && Blocked(rels, Elements(joinPath), visited, Elements(MatchNames(remaining[..found.value.0])))
    ensures found.None? ==> Blocked(rels, Elements(joinPath), visited, Elements(MatchNames(remaining)))
  {
    found := None;
    for i := 0 to |remaining|
      invariant Blocked(rels, Elements(joinPath), visited, Elements(MatchNames(remaining[..i])))
    {
      var name := remaining[i].name;
      for j := 0 to |joinPath|
        invariant Blocked(rels, Elements(joinPath[..j]), visited, {name})
      {
        assert joinPath[j] in joinPath;
        var rel := rels[joinPath[j]];
        if rel.from in visited && rel.into == name {
          return Some((i, joinPath[j], false));
        }
        if rel.into in visited && rel.from == name {
          return Some((i, joinPath[j], true));
        }
        assert Elements(joinPath[..j + 1]) == Elements(joinPath[..j]) + {joinPath[j]};
      }
      assert joinPath[..|joinPath|] == joinPath;
      assert MatchNames(remaining[..i + 1]) == MatchNames(remaining[..i]) + [name];
      assert Elements(MatchNames(remaining[..i + 1])) == Elements(MatchNames(remaining[..i])) + {name};
    }
    assert remaining[..|remaining|] == remaining;
  }

  /** The state of the traversal. */
  ghost predicate Traversal(rels: seq<R.Relationship>, anchor: string, others: seq<MatchedEntity>, joinPath: seq<nat>,
                            steps: seq<JoinStep>, visited: set<string>, remaining: seq<MatchedEntity>) {
    && multiset(StepNames(steps)) + multiset(MatchNames(remaining)) == multiset(MatchNames(others))
    && StepsAttach(rels, anchor, joinPath, steps)
    && visited == {anchor} + Elements(StepNames(steps))
    && AllConnected(rels, anchor, others, joinPath, StepNames(steps))
  }

  ghost predicate AllConnected(rels: seq<R.Relationship>, anchor: string, others: seq<MatchedEntity>,
                               joinPath: seq<nat>,
                               names: seq<string>) {
    forall n :: n in names ==> Connected(rels, Elements(joinPath), Scope(anchor, others), anchor, n)
  }

  lemma RemoveAt<T>(s: seq<T>, i: nat)
    requires i < |s|
    ensures multiset(s) == multiset(s[..i] + s[i + 1..]) + multiset{s[i]}
  {
    assert s == s[..i] + [s[i]] + s[i + 1..];
  }

  lemma Attach(rels: seq<R.Relationship>, anchor: string, others: seq<MatchedEntity>, joinPath: seq<nat>,
               steps: seq<JoinStep>, visited: set<string>, remaining: seq<MatchedEntity>, found: (nat, nat, bool))
    requires Traversal(rels, anchor, others, joinPath, steps, visited, remaining)
    requires found.0 < |remaining|
    requires AttachesFirst(rels, joinPath, found.1, found.2, visited, remaining[found.0].name)
    ensures var name := remaining[found.0].name;
            Traversal(rels, anchor, others, joinPath, steps + [JoinStep(name, found.1, found.2)], visited + {name},
                      Without(remaining, found.0))
  {
    var (i, name) := (found.0, remaining[found.0].name);
    var step := JoinStep(name, found.1, found.2);
    NamesMoved(steps, step, remaining, i);
    AttachStep(rels, anchor, joinPath, steps, step);
    AttachedIsConnected(rels, anchor, others, joinPath, steps, visited, remaining, name, found.1);
  }

  lemma NamesMoved(steps: seq<JoinStep>, step: JoinStep, remaining: seq<MatchedEntity>, i: nat)
    requires i < |remaining| && step.entity == remaining[i].name
    ensures StepNames(steps + [step]) == StepNames(steps) + [step.entity]
    ensures multiset(StepNames(steps + [step])) + multiset(MatchNames(remaining[..i] + remaining[i + 1..]))
            == multiset(StepNames(steps)) + multiset(MatchNames(remaining))
  {
    RemoveAt(MatchNames(remaining), i);
    assert MatchNames(remaining[..i] + remaining[i + 1..]) ==
           MatchNames(remaining)[..i] + MatchNames(remaining)[i + 1..];
    assert StepNames(steps + [step]) == StepNames(steps) + [step.entity];
  }

  lemma AttachStep(rels: seq<R.Relationship>, anchor: string, joinPath: seq<nat>, steps: seq<JoinStep>, step: JoinStep)
    requires StepsAttach(rels, anchor, joinPath, steps)
    requires AttachesFirst(rels, joinPath, step.relationship, step.reversed, {anchor} + Elements(StepNames(steps)),
               step.entity)
    ensures StepsAttach(rels, anchor, joinPath, steps + [step])
  {
    forall k | 0 <= k < |steps + [step]| ensures StepAttaches(rels, anchor, joinPath, steps + [step], k) {
      if k < |steps| {
        StepKept(rels, anchor, joinPath, steps, step, k);
      } else {
        NewStep(rels, anchor, joinPath, steps, step);
      }
    }
  }

  lemma StepKept(rels: seq<R.Relationship>, anchor: string, joinPath: seq<nat>, steps: seq<JoinStep>, step: JoinStep,
                 k: nat)
    requires k < |steps| && StepAttaches(rels, anchor, joinPath, steps, k)
    ensures StepAttaches(rels, anchor, joinPath, steps + [step], k)
  {
    assert (steps + [step])[..k] == steps[..k];
  }

  lemma NewStep(rels: seq<R.Relationship>, anchor: string, joinPath: seq<nat>, steps: seq<JoinStep>, step: JoinStep)
    requires AttachesFirst(rels, joinPath, step.relationship, step.reversed, {anchor} + Elements(StepNames(steps)),
               step.entity)
    ensures StepAttaches(rels, anchor, joinPath, steps + [step], |steps|)
  {
    assert (steps + [step])[..|steps|] == steps;
  }

  lemma AttachedIsConnected(rels: seq<R.Relationship>, anchor: string, others: seq<MatchedEntity>, joinPath: seq<nat>,
                            steps: seq<JoinStep>, visited: set<string>, remaining: seq<MatchedEntity>, name: string,
                              i: nat)
    requires Traversal(rels, anchor, others, joinPath, steps, visited, remaining)
    requires i in joinPath && exists v :: v in visited && R.Joins(rels, i, v, name)
    ensures Connected(rels, Elements(joinPath), Scope(anchor, others), anchor, name)
  {
    var v :| v in visited && R.Joins(rels, i, v, name);
    var (path, scope) := (Elements(joinPath), Scope(anchor, others));
    var p :| ScopedWalk(rels, path, scope, anchor, v, p) && (v == anchor ==> p == []) by {
      assert ScopedWalk(rels, path, scope, anchor, anchor, []);
    }
    VisitedInScope(anchor, others, steps, remaining, v);
    ExtendWalk(rels, path, scope, anchor, v, name, p, i);
  }

  lemma VisitedInScope(anchor: string, others: seq<MatchedEntity>, steps: seq<JoinStep>, remaining: seq<MatchedEntity>,
                       v: string)
    requires multiset(StepNames(steps)) + multiset(MatchNames(remaining)) == multiset(MatchNames(others))
    requires v == anchor || v in StepNames(steps)
    ensures v in Scope(anchor, others)
  {
    if v != anchor {
      assert v in multiset(MatchNames(others));
      assert v in MatchNames(others);
    }
  }

  /** Nothing that is still unattached when the traversal is blocked is connected to the anchor. */
  lemma {:induction false} BlockedIsDisconnected(rels: seq<R.Relationship>, path: set<nat>, scope: set<string>,
                                                 anchor: string,
                                                 visited: set<string>, stuck: set<string>, t: string, p: seq<nat>)
    requires anchor in visited && scope <= visited + stuck && Blocked(rels, path, visited, stuck)
    requires ScopedWalk(rels, path, scope, anchor, t, p)
    ensures p != [] ==> t !in stuck
    ensures t in scope ==> t in visited
    decreases |p|
  {
    if p != [] {
      var mid :| mid in scope && ScopedWalk(rels, path, scope, anchor, mid, R.Init(p))
                 && R.Last(p) in path && R.Joins(rels, R.Last(p), mid, t);
      BlockedIsDisconnected(rels, path, scope, anchor, visited, stuck, mid, R.Init(p));
    }
  }

  lemma StuckIsUnreachable(rels: seq<R.Relationship>, anchor: string, others: seq<MatchedEntity>, joinPath: seq<nat>,
                           steps: seq<JoinStep>, visited: set<string>, remaining: seq<MatchedEntity>)
    requires Traversal(rels, anchor, others, joinPath, steps, visited, remaining)
    requires Blocked(rels, Elements(joinPath), visited, Elements(MatchNames(remaining)))
    ensures forall o :: o in MatchNames(others) ==>
      (o in MatchNames(remaining) <==> !Connected(rels, Elements(joinPath), Scope(anchor, others), anchor, o))
  {
    var path, scope, stuck := Elements(joinPath), Scope(anchor, others), Elements(MatchNames(remaining));
    forall o | o in MatchNames(others) ensures o in StepNames(steps) || o in MatchNames(remaining) {
      assert o in multiset(MatchNames(others));
    }
    forall o | o in MatchNames(remaining) ensures !Connected(rels, path, scope, anchor, o) {
      if Connected(rels, path, scope, anchor, o) {
        var p :| p != [] && ScopedWalk(rels, path, scope, anchor, o, p);
        BlockedIsDisconnected(rels, path, scope, anchor, visited, stuck, o, p);
      }
    }
  }

  /** Succeeds if and only if every other entity is connected to the anchor by relationships of
      the join path that stay within the selected entities. */
  method ComputeJoinOrder(rels: seq<R.Relationship>, anchor: string, others: seq<MatchedEntity>, joinPath: seq<nat>)
    returns (r: Result<seq<JoinStep>, Unreachable>)
    requires forall i :: i in joinPath ==> i < |rels|
    ensures r.Ok? <==> AllConnected(rels, anchor, others, joinPath, MatchNames(others))
    ensures r.Ok? ==> IsJoinOrder(rels, anchor, others, joinPath, r.value)
    ensures r.Err? ==> forall o :: o in MatchNames(others) ==>
      (o in r.error.names <==> !Connected(rels, Elements(joinPath), Scope(anchor, others), anchor, o))
  {
    var visited := {anchor};
    var steps: seq<JoinStep> := [];
    var remaining := others;
    while remaining != []
      invariant Traversal(rels, anchor, others, joinPath, steps, visited, remaining)
      decreases |remaining|
    {
      var found := FindConnection(rels, remaining, visited, joinPath);
      if found.None? {
        StuckIsUnreachable(rels, anchor, others, joinPath, steps, visited, remaining);
        FirstIsAmong(others, steps, remaining);
        return Err(Unreachable(MatchNames(remaining)));
      }
      Attach(rels, anchor, others, joinPath, steps, visited, remaining, found.value);
      var (i, rel, reversed) := found.value;
      var name := remaining[i].name;
      remaining := Without(remaining, i);
      visited := visited + {name};
      steps := steps + [JoinStep(name, rel, reversed)];
    }
    AllAttached(others, steps);
    r := Ok(steps);
  }

  lemma FirstIsAmong(others: seq<MatchedEntity>, steps: seq<JoinStep>, remaining: seq<MatchedEntity>)
    requires multiset(StepNames(steps)) + multiset(MatchNames(remaining)) == multiset(MatchNames(others))
    requires remaining != []
    ensures MatchNames(remaining)[0] in MatchNames(others)
  {
    assert MatchNames(remaining)[0] in multiset(MatchNames(others));
  }

  lemma AllAttached(others: seq<MatchedEntity>, steps: seq<JoinStep>)
    requires multiset(StepNames(steps)) + multiset(MatchNames([])) == multiset(MatchNames(others))
    ensures multiset(StepNames(steps)) == multiset(MatchNames(others))
    ensures forall o :: o in MatchNames(others) ==> o in StepNames(steps)
  {
    assert MatchNames([]) == [];
    forall o | o in MatchNames(others) ensures o in StepNames(steps) {
      assert o in multiset(MatchNames(others));
      assert o in multiset(StepNames(steps));
    }
  }

  // ---------------------------------------------------------------- from the cover to the join order

  /** The link of the k-th entity is a walk that leaves only selected entities. */
  ghost predicate ScopedLink(rels: seq<R.Relationship>, entities: seq<MatchedEntity>, k: nat, link: seq<nat>)
    requires 1 <= k < |entities|
  {
    var (scope, path, name) := (Elements(MatchNames(entities)), Elements(link), entities[k].name);
    exists j :: 0 <= j < k && (ScopedWalk(rels, path, scope, entities[j].name, name, link)
                               || ScopedWalk(rels, path, scope, name, entities[j].name, link))
  }

  lemma {:induction false} LinkConnects(rels: seq<R.Relationship>, requested: seq<string>, entities: seq<Entity>,
                                        paths: Paths,
                                        result: MatchResult, links: seq<seq<nat>>, k: nat) returns (p: seq<nat>)
    requires GreedyCover(requested, entities, paths, result, links) && k < |result.entities|
    requires forall i, j :: 1 <= i < |result.entities| && j == i - 1 ==> ScopedLink(rels, result.entities, i, links[j])
    ensures ScopedWalk(rels, Elements(result.joinPath), Elements(MatchNames(result.entities)),
                       result.entities[0].name, result.entities[k].name, p)
    decreases k
  {
    var (selected, path, scope) := (result.entities, Elements(result.joinPath), Elements(MatchNames(result.entities)));
    if k == 0 {
      p := [];
    } else {
      var link := links[k - 1];
      UnionContains(links, k - 1);
      assert ScopedLink(rels, selected, k, link);
      var name := selected[k].name;
      var j :| 0 <= j < k && (ScopedWalk(rels, Elements(link), scope, selected[j].name, name, link)
                              || ScopedWalk(rels, Elements(link), scope, name, selected[j].name, link));
      var before := LinkConnects(rels, requested, entities, paths, result, links, j);
      var step := Forward(rels, Elements(link), path, scope, selected[j].name, name, link) by {
        assert MatchNames(selected)[j] in scope;
      }
      JoinWalks(rels, path, scope, selected[0].name, selected[j].name, name, before, step);
      p := before + step;
    }
  }

  lemma Forward(rels: seq<R.Relationship>, path: set<nat>, wider: set<nat>, scope: set<string>, s: string, t: string,
                link: seq<nat>)
    returns (p: seq<nat>)
    requires path <= wider && s in scope
    requires ScopedWalk(rels, path, scope, s, t, link) || ScopedWalk(rels, path, scope, t, s, link)
    ensures ScopedWalk(rels, wider, scope, s, t, p)
  {
    if ScopedWalk(rels, path, scope, s, t, link) {
      p := link;
    } else {
      p := ReverseWalk(rels, path, scope, t, s, link);
    }
    WidenWalk(rels, path, wider, scope, s, t, p);
  }

  /** A cover whose links leave only selected entities can always be joined. */
  lemma ScopedCoverIsJoinable(rels: seq<R.Relationship>, requested: seq<string>, entities: seq<Entity>, paths: Paths,
                              result: MatchResult, links: seq<seq<nat>>)
    requires GreedyCover(requested, entities, paths, result, links)
    requires forall i, j :: 1 <= i < |result.entities| && j == i - 1 ==> ScopedLink(rels, result.entities, i, links[j])
    requires forall i, j :: 0 <= i < j < |result.entities| ==> result.entities[i].name != result.entities[j].name
    ensures AllConnected(rels, result.entities[0].name, result.entities[1..], result.joinPath,
            MatchNames(result.entities[1..]))
  {
    var (selected, path) := (result.entities, Elements(result.joinPath));
    var (anchor, others) := (selected[0].name, selected[1..]);
    assert MatchNames(selected) == [anchor] + MatchNames(others);
    assert Elements(MatchNames(selected)) == Scope(anchor, others);
    forall n | n in MatchNames(others) ensures Connected(rels, path, Scope(anchor, others), anchor, n) {
      var k :| 0 <= k < |others| && MatchNames(others)[k] == n;
      assert selected[k + 1].name == n;
      var p := LinkConnects(rels, requested, entities, paths, result, links, k + 1);
      assert p != [];
    }
  }

  lemma SingleStepIsScoped(rels: seq<R.Relationship>, scope: set<string>, s: string, t: string, link: seq<nat>)
    requires R.Walk(rels, s, t, link) && |link| == 1 && s in scope
    ensures ScopedWalk(rels, Elements(link), scope, s, t, link)
  {
    var mid :| R.Walk(rels, s, mid, R.Init(link)) && R.Joins(rels, R.Last(link), mid, t);
    ExtendWalk(rels, Elements(link), scope, s, s, t, [], link[0]);
    assert [] + [link[0]] == link;
  }

  /** With the shortest paths of the relationship graph, a cover of which every link is a single
      relationship can be joined. */
  lemma DirectCoverIsJoinable(rels: seq<R.Relationship>, names: seq<string>, requested: seq<string>,
                              entities: seq<Entity>,
                              paths: Paths, result: MatchResult, links: seq<seq<nat>>)
    requires R.AllPairsShortest(rels, names, paths) && (forall e :: e in entities ==> e.name in names)
    requires GreedyCover(requested, entities, paths, result, links)
    requires forall i, j :: 0 <= i < j < |result.entities| ==> result.entities[i].name != result.entities[j].name
    requires forall l :: l in links ==> |l| == 1
    ensures AllConnected(rels, result.entities[0].name, result.entities[1..], result.joinPath,
            MatchNames(result.entities[1..]))
  {
    var selected := result.entities;
    forall k, j | 1 <= k < |selected| && j == k - 1 ensures ScopedLink(rels, selected, k, links[j]) {
      LinksAreWalks(rels, names, requested, entities, paths, result, links, k);
      DirectLinkIsScoped(rels, selected, k, links[j]);
    }
    ScopedCoverIsJoinable(rels, requested, entities, paths, result, links);
  }

  lemma DirectLinkIsScoped(rels: seq<R.Relationship>, selected: seq<MatchedEntity>, k: nat, link: seq<nat>)
    requires 1 <= k < |selected| && |link| == 1
    requires exists s :: s in selected[..k] && (R.ShortestWalk(rels, s.name, selected[k].name, link)
                                                || R.ShortestWalk(rels, selected[k].name, s.name, link))
    ensures ScopedLink(rels, selected, k, link)
  {
    var (scope, name) := (Elements(MatchNames(selected)), selected[k].name);
    var s :| s in selected[..k] &&
      (R.ShortestWalk(rels, s.name, name, link) || R.ShortestWalk(rels, name, s.name, link));
    var j :| 0 <= j < k && selected[j] == s;
    assert MatchNames(selected)[j] == s.name && MatchNames(selected)[k] == name;
    if R.ShortestWalk(rels, s.name, name, link) {
      SingleStepIsScoped(rels, scope, s.name, name, link);
    } else {
      SingleStepIsScoped(rels, scope, name, s.name, link);
    }
  }

  lemma {:induction false} WalkInRange(rels: seq<R.Relationship>, s: string, t: string, p: seq<nat>)
    requires R.Walk(rels, s, t, p)
    ensures forall i :: i in p ==> i < |rels|
    decreases |p|
  {
    if p != [] {
      var mid :| R.Walk(rels, s, mid, R.Init(p)) && R.Joins(rels, R.Last(p), mid, t);
      WalkInRange(rels, s, mid, R.Init(p));
      assert p == R.Init(p) + [R.Last(p)];
    }
  }

  lemma {:induction false} InSomeLink(links: seq<seq<nat>>, i: nat) returns (j: nat)
    requires i in UnionOf(links)
    ensures j < |links| && i in links[j]
    decreases |links|
  {
    if i in links[|links| - 1] {
      j := |links| - 1;
    } else {
      j := InSomeLink(links[..|links| - 1], i);
    }
  }

  /** The join path of a cover names relationships of the manifest only. */
  lemma JoinPathInRange(rels: seq<R.Relationship>, names: seq<string>, requested: seq<string>, entities: seq<Entity>,
                        paths: Paths, result: MatchResult, links: seq<seq<nat>>, i: nat)
    requires R.AllPairsShortest(rels, names, paths) && (forall e :: e in entities ==> e.name in names)
    requires GreedyCover(requested, entities, paths, result, links) && i in result.joinPath
    ensures i < |rels|
  {
    assert i in Elements(result.joinPath);
    var j := InSomeLink(links, i);
    LinksAreWalks(rels, names, requested, entities, paths, result, links, j + 1);
    LinkInRange(rels, result.entities[..j + 1], result.entities[j + 1], links[j]);
  }

  lemma LinkInRange(rels: seq<R.Relationship>, selected: seq<MatchedEntity>, m: MatchedEntity, link: seq<nat>)
    requires exists s ::
              s in selected &&
              (R.ShortestWalk(rels, s.name, m.name, link) || R.ShortestWalk(rels, m.name, s.name, link))
    ensures forall i :: i in link ==> i < |rels|
  {
    var s :| s in selected &&
      (R.ShortestWalk(rels, s.name, m.name, link) || R.ShortestWalk(rels, m.name, s.name, link));
    if R.ShortestWalk(rels, s.name, m.name, link) {
      WalkInRange(rels, s.name, m.name, link);
    } else {
      WalkInRange(rels, m.name, s.name, link);
    }
  }
}
