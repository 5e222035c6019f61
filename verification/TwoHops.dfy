/**
 A query that the cover answers and the join order refuses: the only path between the two
 datasets it selects leads through a third one that provides nothing that is asked for.
 */
module TwoHops {
  import opened Wrappers
  import opened EntityResolver
  import opened JoinOrders
  import R = RelationshipGraphs

  const RELATIONSHIPS := [R.Relationship("orders", "stores", []), R.Relationship("stores", "regions", [])]
  const ORDERS := Entity("orders", {}, {}, {"revenue"}, {}, true)
  const STORES := Entity("stores", {"address"}, {}, {}, {}, true)
  const REGIONS := Entity("regions", {"climate"}, {}, {}, {}, true)
  const ENTITIES := [ORDERS, STORES, REGIONS]
  const NAMES := ["orders", "stores", "regions"]
  const REQUESTED := ["revenue", "climate"]
  const ORDERS_MATCH := MatchedEntity("orders", [], [], ["revenue"], [])
  const STORES_MATCH := MatchedEntity("stores", [], [], [], [])
  const REGIONS_MATCH := MatchedEntity("regions", ["climate"], [], [], [])

  // ---------------------------------------------------------------- the only path

  lemma TwoHopsIsWalk()
    ensures R.Walk(RELATIONSHIPS, "orders", "regions", [0, 1])
  {
    R.WalkStep(RELATIONSHIPS, "orders", "orders", "stores", [], 0);
    assert [] + [0] == [0];
    R.WalkStep(RELATIONSHIPS, "orders", "stores", "regions", [0], 1);
    assert [0] + [1] == [0, 1];
  }

  lemma OneHopEndsAtStores(t: string, p: seq<nat>)
    requires R.Walk(RELATIONSHIPS, "orders", t, p) && |p| == 1
    ensures t == "stores" && p == [0]
  {
    var mid :| R.Walk(RELATIONSHIPS, "orders", mid, R.Init(p)) && R.Joins(RELATIONSHIPS, R.Last(p), mid, t);
    assert mid == "orders";
  }

  /** Every shortest walk from orders to regions is the one through stores. */
  lemma ShortestIsTwoHops(p: seq<nat>)
    requires R.ShortestWalk(RELATIONSHIPS, "orders", "regions", p)
    ensures p == [0, 1]
  {
    TwoHopsIsWalk();
    assert |p| != 0;
    if |p| == 1 { OneHopEndsAtStores("regions", p); }
    var mid :| R.Walk(RELATIONSHIPS, "orders", mid, R.Init(p)) && R.Joins(RELATIONSHIPS, R.Last(p), mid, "regions");
    OneHopEndsAtStores(mid, R.Init(p));
    assert p == R.Init(p) + [R.Last(p)];
  }

  lemma RegionsAreLinked(paths: Paths, selected: seq<MatchedEntity>)
    requires R.AllPairsShortest(RELATIONSHIPS, NAMES, paths) && selected != [] && selected[0] == ORDERS_MATCH
    ensures LinkTo(paths, selected, REGIONS_MATCH) == Some([0, 1])
  {
    TwoHopsIsWalk();
    assert "orders" == NAMES[0] && "orders" in NAMES;
    assert R.Reachable(RELATIONSHIPS, "orders", "regions");
    ShortestIsTwoHops(paths[R.PathKey("orders", "regions")]);
  }

  // ---------------------------------------------------------------- what each dataset covers

  lemma CoveredOne(f: string, g: string, names: set<string>)
    ensures Covered([f, g], names) == (if f in names then [f] else []) + (if g in names then [g] else [])
  {
    assert [f, g][1..] == [g] && [g][1..] == [];
    assert Covered([g], names) == if g in names then [g] else [];
  }

  lemma MatchesAre(e: Entity)
    requires e.keys == {} && e.metrics == {}
    ensures Match(e, REQUESTED) ==
            MatchedEntity(e.name, Covered(REQUESTED, e.dimensions), [], Covered(REQUESTED, e.measures), [])
  {
    CoveredOne("revenue", "climate", {});
    assert e.keys - e.dimensions == {};
  }

  lemma OrdersMatch()
    ensures Match(ORDERS, REQUESTED) == ORDERS_MATCH
  {
    MatchesAre(ORDERS);
    CoveredOne("revenue", "climate", {});
    CoveredOne("revenue", "climate", {"revenue"});
  }

  lemma StoresMatch()
    ensures Match(STORES, REQUESTED) == STORES_MATCH
  {
    MatchesAre(STORES);
    CoveredOne("revenue", "climate", {});
    CoveredOne("revenue", "climate", {"address"});
  }

  lemma RegionsMatch()
    ensures Match(REGIONS, REQUESTED) == REGIONS_MATCH
  {
    MatchesAre(REGIONS);
    CoveredOne("revenue", "climate", {});
    CoveredOne("revenue", "climate", {"climate"});
  }

  lemma AllMatches(e: Entity)
    requires e in ENTITIES
    ensures Match(e, REQUESTED) ==
            if e == ORDERS then ORDERS_MATCH else if e == STORES then STORES_MATCH else REGIONS_MATCH
  {
    OrdersMatch();
    StoresMatch();
    RegionsMatch();
    assert e == ENTITIES[0] || e == ENTITIES[1] || e == ENTITIES[2];
  }

  // ---------------------------------------------------------------- the cover

  lemma OrdersComeFirst(first: MatchedEntity)
    requires BestFirst(REQUESTED, ENTITIES, first)
    ensures first == ORDERS_MATCH
  {
    var e :| e in ENTITIES && first == Match(e, REQUESTED) && Provides(e, REQUESTED) &&
      forall o :: o in ENTITIES && Provides(o, REQUESTED) ==> NotBeaten(e, o, REQUESTED);
    AllMatches(e);
    OrdersMatch();
    assert ORDERS == ENTITIES[0] && ORDERS in ENTITIES;
  }

  lemma OrdersAlone()
    ensures CoveredBy([ORDERS_MATCH]) == {"revenue"}
  {
    CoveredBySnoc([], ORDERS_MATCH);
    assert [] + [ORDERS_MATCH] == [ORDERS_MATCH];
  }

  lemma RequestedSet()
    ensures Elements(REQUESTED) == {"revenue", "climate"} && |Elements(REQUESTED)| == 2
  {
    assert Elements(REQUESTED) == {"revenue", "climate"};
    assert {"revenue", "climate"} - {"revenue"} == {"climate"};
  }

  lemma ClimateIsMissing(selected: seq<MatchedEntity>)
    requires selected != [] && selected[0] == ORDERS_MATCH
    ensures MissingBefore(REQUESTED, selected, 1) == {"climate"}
  {
    assert selected[..1] == [ORDERS_MATCH];
    OrdersAlone();
    RequestedSet();
  }

  lemma OnlyRegionsCoverClimate(m: MatchedEntity)
    requires IsMatch(REQUESTED, ENTITIES, m) && NewCount(m, {"climate"}) > 0
    ensures m == REGIONS_MATCH
  {
    var e :| e in ENTITIES && m == Match(e, REQUESTED);
    AllMatches(e);
    assert ORDERS_MATCH.AllCovered() * {"climate"} == {} && STORES_MATCH.AllCovered() * {"climate"} == {};
  }

  /** The second choice covers the climate, so it is regions. */
  lemma RegionsComeSecond(paths: Paths, selected: seq<MatchedEntity>, link: seq<nat>)
    requires R.AllPairsShortest(RELATIONSHIPS, NAMES, paths)
    requires |selected| == 2 && selected[0] == ORDERS_MATCH && IsMatch(REQUESTED, ENTITIES, selected[1])
    requires NewCount(selected[1], MissingBefore(REQUESTED, selected, 1)) > 0
    requires LinkTo(paths, selected[..1], selected[1]) == Some(link)
    ensures selected[1] == REGIONS_MATCH && link == [0, 1]
  {
    ClimateIsMissing(selected);
    OnlyRegionsCoverClimate(selected[1]);
    RegionsAreLinked(paths, selected[..1]);
  }

  lemma OrdersAreNotEnough(selected: seq<MatchedEntity>)
    requires selected != [] && selected[0] == ORDERS_MATCH && Elements(REQUESTED) <= CoveredBy(selected)
    ensures |selected| > 1
  {
    if |selected| == 1 {
      assert selected == [ORDERS_MATCH];
      OrdersAlone();
      RequestedSet();
    }
  }

  lemma UnionOfOne(link: seq<nat>)
    ensures UnionOf([link]) == Elements(link)
  {
    assert [link][..0] == [];
  }

  lemma SecondIsMatch(requested: seq<string>, entities: seq<Entity>, selected: seq<MatchedEntity>)
    requires AreMatches(requested, entities, selected) && |selected| == 2
    ensures IsMatch(requested, entities, selected[1])
  {
    assert selected[1] in selected;
  }

  lemma PathOfOneLink(links: seq<seq<nat>>, joinPath: seq<nat>)
    requires |links| == 1 && Elements(joinPath) == UnionOf(links)
    ensures Elements(joinPath) == Elements(links[0])
  {
    assert links == [links[0]];
    UnionOfOne(links[0]);
  }

  /** What a greedy cover of two entities says of the second. */
  lemma SecondChoice(requested: seq<string>, entities: seq<Entity>, paths: Paths, result: MatchResult,
                     links: seq<seq<nat>>)
    requires GreedyCover(requested, entities, paths, result, links) && |result.entities| == 2
    ensures |links| == 1 && IsMatch(requested, entities, result.entities[1])
    ensures NewCount(result.entities[1], MissingBefore(requested, result.entities, 1)) > 0
    ensures LinkTo(paths, result.entities[..1], result.entities[1]) == Some(links[0])
    ensures Elements(result.joinPath) == Elements(links[0])
  {
    SecondIsMatch(requested, entities, result.entities);
    PathOfOneLink(links, result.joinPath);
    assert ChosenGreedily(requested, entities, paths, result.entities, 1, links[0]);
  }

  lemma AtMostTwo(paths: Paths, result: MatchResult, links: seq<seq<nat>>)
    requires GreedyCover(REQUESTED, ENTITIES, paths, result, links)
    ensures |result.entities| <= 2
  {
    NoMoreEntitiesThanFields(REQUESTED, ENTITIES, paths, result, links);
    RequestedSet();
  }

  lemma OrdersAreFirst(paths: Paths, result: MatchResult, links: seq<seq<nat>>)
    requires GreedyCover(REQUESTED, ENTITIES, paths, result, links)
    ensures result.entities[0] == ORDERS_MATCH
  {
    OrdersComeFirst(result.entities[0]);
  }

  lemma TwoHopsFollow(paths: Paths, result: MatchResult, link: seq<nat>)
    requires R.AllPairsShortest(RELATIONSHIPS, NAMES, paths)
    requires |result.entities| == 2 && result.entities[0] == ORDERS_MATCH &&
             IsMatch(REQUESTED, ENTITIES, result.entities[1])
    requires NewCount(result.entities[1], MissingBefore(REQUESTED, result.entities, 1)) > 0
    requires LinkTo(paths, result.entities[..1], result.entities[1]) == Some(link)
    requires Elements(result.joinPath) == Elements(link)
    ensures result.entities == [ORDERS_MATCH, REGIONS_MATCH] && Elements(result.joinPath) == {0, 1}
  {
    RegionsComeSecond(paths, result.entities, link);
    TwoElements(0, 1);
    PairIs(result.entities);
  }

  lemma TwoElements(i: nat, j: nat)
    ensures Elements([i, j]) == {i, j}
  {
    assert forall k :: k in [i, j] <==> k == i || k == j;
  }

  lemma PairIs(s: seq<MatchedEntity>)
    requires |s| == 2
    ensures s == [s[0], s[1]]
  {
  }

  lemma ExactlyTwo(paths: Paths, result: MatchResult, links: seq<seq<nat>>)
    requires GreedyCover(REQUESTED, ENTITIES, paths, result, links) && Elements(REQUESTED) <= CoveredBy(result.entities)
    ensures |result.entities| == 2
  {
    OrdersAreFirst(paths, result, links);
    OrdersAreNotEnough(result.entities);
    AtMostTwo(paths, result, links);
  }

  /** Every cover of the request selects orders and regions and joins them by both
      relationships, whatever the stored shortest paths are. */
  lemma CoverIsTwoHops(paths: Paths, result: MatchResult, links: seq<seq<nat>>)
    requires R.AllPairsShortest(RELATIONSHIPS, NAMES, paths)
    requires GreedyCover(REQUESTED, ENTITIES, paths, result, links) && Elements(REQUESTED) <= CoveredBy(result.entities)
    ensures result.entities == [ORDERS_MATCH, REGIONS_MATCH] && Elements(result.joinPath) == {0, 1}
  {
    OrdersAreFirst(paths, result, links);
    ExactlyTwo(paths, result, links);
    SecondChoice(REQUESTED, ENTITIES, paths, result, links);
    TwoHopsFollow(paths, result, links[0]);
  }

  // ---------------------------------------------------------------- no join order

  lemma RegionsAreCutOff(joinPath: seq<nat>)
    requires Elements(joinPath) == {0, 1}
    ensures !AllConnected(RELATIONSHIPS, "orders", [REGIONS_MATCH], joinPath, MatchNames([REGIONS_MATCH]))
  {
    var (path, scope) := (Elements(joinPath), Scope("orders", [REGIONS_MATCH]));
    assert MatchNames([REGIONS_MATCH]) == ["regions"] && scope == {"orders", "regions"};
    assert Blocked(RELATIONSHIPS, path, {"orders"}, {"regions"});
    assert "regions" in MatchNames([REGIONS_MATCH]);
    if Connected(RELATIONSHIPS, path, scope, "orders", "regions") {
      var p :| p != [] && ScopedWalk(RELATIONSHIPS, path, scope, "orders", "regions", p);
      BlockedIsDisconnected(RELATIONSHIPS, path, scope, "orders", {"orders"}, {"regions"}, "regions", p);
      assert false;
    }
  }

  lemma RegionsAddSomething(selected: seq<MatchedEntity>, missing: set<string>)
    requires missing == Elements(REQUESTED) - CoveredBy(selected) && missing != {} && "revenue" in CoveredBy(selected)
    ensures NewCount(REGIONS_MATCH, missing) > 0
  {
    RequestedSet();
    assert missing == {"climate"};
    assert "climate" in REGIONS_MATCH.AllCovered() * missing;
  }

  /** The cover is found: what orders leave missing is covered by regions, which are linked. */
  lemma CoverIsFound(paths: Paths, selected: seq<MatchedEntity>, missing: set<string>)
    requires R.AllPairsShortest(RELATIONSHIPS, NAMES, paths)
    requires selected != [] && BestFirst(REQUESTED, ENTITIES, selected[0])
    ensures !Stuck(REQUESTED, ENTITIES, paths, selected, missing)
  {
    OrdersComeFirst(selected[0]);
    RegionsAreLinked(paths, selected);
    RegionsMatch();
    OrdersCoverRevenue(selected);
    assert REGIONS == ENTITIES[2] && REGIONS in ENTITIES;
    if Stuck(REQUESTED, ENTITIES, paths, selected, missing) {
      RegionsAddSomething(selected, missing);
    }
  }

  lemma {:induction false} OrdersCoverRevenue(selected: seq<MatchedEntity>)
    requires selected != [] && selected[0] == ORDERS_MATCH
    ensures "revenue" in CoveredBy(selected)
    decreases |selected|
  {
    if |selected| > 1 { OrdersCoverRevenue(selected[..|selected| - 1]); }
  }

  lemma NamesAreApart()
    ensures R.KeysApart(NAMES)
  {
    assert forall n :: n in NAMES ==> R.NUL !in n;
    R.NulFreeIsApart(NAMES);
  }

  lemma OrdersProvide()
    ensures exists e :: e in ENTITIES && Provides(e, REQUESTED)
  {
    OrdersMatch();
    assert ORDERS == ENTITIES[0] && ORDERS in ENTITIES;
  }

  /** The cover of this query, on the graph of this manifest. */
  method CoverTwoHopQuery(paths: Paths) returns (cover: MatchResult)
    requires R.AllPairsShortest(RELATIONSHIPS, NAMES, paths)
    ensures cover.entities == [ORDERS_MATCH, REGIONS_MATCH] && Elements(cover.joinPath) == {0, 1}
  {
    OrdersProvide();
    var r, chosen, links := FindCoveringEntities(REQUESTED, ENTITIES, paths);
    if r.Err? {
      CoverIsFound(paths, chosen, r.error.remaining);
    }
    OrdersComeFirst(chosen[0]);
    cover := r.value;
    CoverIsTwoHops(paths, cover, links);
  }

  /** From the manifest to the failure: the graph is built, the cover succeeds, and then no join
      order exists. */
  method PlanTwoHopQuery() returns (cover: MatchResult, order: Result<seq<JoinStep>, Unreachable>)
    ensures cover.entities == [ORDERS_MATCH, REGIONS_MATCH]
    ensures order.Err? && "regions" in order.error.names
  {
    NamesAreApart();
    var g := R.BuildRelationshipGraph(NAMES, RELATIONSHIPS);
    cover := CoverTwoHopQuery(g.shortestPaths);
    RegionsAreCutOff(cover.joinPath);
    assert forall i :: i in cover.joinPath ==> i in Elements(cover.joinPath);
    order := ComputeJoinOrder(RELATIONSHIPS, "orders", [REGIONS_MATCH], cover.joinPath);
    assert MatchNames([REGIONS_MATCH]) == ["regions"];
  }
}
