/**
 Which entities answer a query without FROM: entities are ranked by what they cover, and a
 greedy cover adds entities connected to those already selected.
 */
module EntityResolver {
  import opened Wrappers
  import opened Sorting
  import R = RelationshipGraphs

  datatype Entity = Entity(
    name: string, dimensions: set<string>, keys: set<string>, measures: set<string>, metrics: set<string>,
    simple: bool)

  datatype MatchedEntity = MatchedEntity(
    name: string, dimensions: seq<string>, keys: seq<string>, measures: seq<string>, metrics: seq<string>)
  {
    function GroupByFields(): seq<string> { dimensions + keys }

    function AggregateFields(): seq<string> { measures + metrics }

    function AggCoverage(): nat { |measures| + |metrics| }

    function GroupByCoverage(): nat { |dimensions| + |keys| }

    function TotalCoverage(): nat { |dimensions| + |keys| + |measures| + |metrics| }

    function AllCovered(): set<string> {
      Elements(dimensions) + Elements(keys) + Elements(measures) + Elements(metrics)
    }

    /** No field is counted under two categories. */
    ghost predicate SingleCategory() {
      Elements(dimensions) !! Elements(keys) !! Elements(measures) !! Elements(metrics)
    }
  }

  datatype MatchResult = MatchResult(entities: seq<MatchedEntity>, joinPath: seq<nat>)

  datatype ResolveError = NoFields | NoProvider | Uncoverable(remaining: set<string>)

  function Elements<T>(s: seq<T>): set<T> {
    set x | x in s
  }

  // ---------------------------------------------------------------- scoring

  /** How many fields of the request are among the names. */
  function Hits(requested: seq<string>, names: set<string>): nat {
    if requested == [] then 0 else (if requested[0] in names then 1 else 0) + Hits(requested[1..], names)
  }

  function Covered(requested: seq<string>, names: set<string>): (r: seq<string>)
    ensures forall f :: f in r <==> f in requested && f in names
    ensures |r| == Hits(requested, names)
  {
    if requested == [] then []
    else (if requested[0] in names then [requested[0]] else []) + Covered(requested[1..], names)
  }

  /** Covered fields keep the order and the repetitions of the request: each stands behind as
      many others as the request has before it. */
  lemma {:induction false} CoveredKeepsOrder(requested: seq<string>, names: set<string>, i: nat)
    requires i < |requested| && requested[i] in names
    ensures Hits(requested[..i], names) < |Covered(requested, names)|
    ensures Covered(requested, names)[Hits(requested[..i], names)] == requested[i]
    decreases i
  {
    if i > 0 {
      CoveredKeepsOrder(requested[1..], names, i - 1);
      assert requested[..i][1..] == requested[1..][..i - 1];
    }
  }

  /** Key columns that are also dimensions count as dimensions. */
  function Match(e: Entity, requested: seq<string>): MatchedEntity {
    MatchedEntity(e.name, Covered(requested, e.dimensions), Covered(requested, e.keys - e.dimensions),
                  Covered(requested, e.measures), Covered(requested, e.metrics))
  }

  datatype Candidate = Candidate(matched: MatchedEntity, rank: nat)

  /** More aggregates first, then more grouping fields, then simple datasets. */
  predicate CandidateLe(a: Candidate, b: Candidate) {
    var (aa, ba) := (a.matched.AggCoverage(), b.matched.AggCoverage());
    var (ag, bg) := (a.matched.GroupByCoverage(), b.matched.GroupByCoverage());
    aa > ba || (aa == ba && (ag > bg || (ag == bg && a.rank <= b.rank)))
  }

  function CandidateOf(e: Entity, requested: seq<string>): Candidate {
    Candidate(Match(e, requested), if e.simple then 0 else 1)
  }

  ghost predicate Provides(e: Entity, requested: seq<string>) {
    Match(e, requested).TotalCoverage() > 0
  }

  /** How many requested fields an entity can aggregate, and how many it can group by. */
  function Aggregates(e: Entity, requested: seq<string>): nat {
    Hits(requested, e.measures) + Hits(requested, e.metrics)
  }

  function Groupings(e: Entity, requested: seq<string>): nat {
    Hits(requested, e.dimensions) + Hits(requested, e.keys - e.dimensions)
  }

  /** `o` has no more aggregates than `e`; with as many, no more grouping fields; and with as
      many of both it is not simple unless `e` is. */
  predicate NotBeaten(e: Entity, o: Entity, requested: seq<string>) {
    var (ea, oa) := (Aggregates(e, requested), Aggregates(o, requested));
    var (eg, og) := (Groupings(e, requested), Groupings(o, requested));
    oa <= ea && (oa == ea ==> og <= eg && (og == eg && o.simple ==> e.simple))
  }

  /** The order of the candidates is the ranking of the entities behind them. */
  lemma RankingExact(e: Entity, o: Entity, requested: seq<string>)
    ensures CandidateLe(CandidateOf(e, requested), CandidateOf(o, requested)) <==> NotBeaten(e, o, requested)
  {
  }

  /** The candidates, one for each entity that provides something, in the order of the entities. */
  function CandidatesOf(entities: seq<Entity>, requested: seq<string>): seq<Candidate> {
    if entities == [] then []
    else
      var (before, last) := (CandidatesOf(entities[..|entities| - 1], requested), entities[|entities| - 1]);
      if Match(last, requested).TotalCoverage() > 0 then before + [CandidateOf(last, requested)] else before
  }

  lemma {:induction false} CandidatesAreProviders(entities: seq<Entity>, requested: seq<string>)
    ensures forall c :: c in CandidatesOf(entities, requested) <==> exists e ::
              e in entities && Provides(e, requested) && c == CandidateOf(e, requested)
    decreases |entities|
  {
    if entities != [] {
      var (init, last) := (entities[..|entities| - 1], entities[|entities| - 1]);
      CandidatesAreProviders(init, requested);
      assert forall e :: e in entities <==> e in init || e == last;
    }
  }

  // ---------------------------------------------------------------- double counting

  lemma {:induction false} HitsBound(requested: seq<string>, fields: set<string>)
    ensures Hits(requested, fields) <= |requested|
    ensures Hits(requested, fields) == |requested| <==> Elements(requested) <= fields
    decreases |requested|
  {
    if requested != [] {
      HitsBound(requested[1..], fields);
      assert Elements(requested) == {requested[0]} + Elements(requested[1..]);
    }
  }

  lemma {:induction false} HitsUnion(requested: seq<string>, a: set<string>, b: set<string>)
    ensures Hits(requested, a + b) <= Hits(requested, a) + Hits(requested, b)
    ensures Hits(requested, a + b) == Hits(requested, a) + Hits(requested, b) <==>
            Elements(requested) * a * b == {}
    decreases |requested|
  {
    if requested != [] {
      HitsUnion(requested[1..], a, b);
      assert Elements(requested) == {requested[0]} + Elements(requested[1..]);
      if requested[0] in a && requested[0] in b {
        assert requested[0] in Elements(requested) * a * b;
      }
    }
  }

  /** Four sets that hit as often as the request is long cover it exactly when no requested
      field is in two of them. */
  lemma FourHits(requested: seq<string>, d: set<string>, k: set<string>, ms: set<string>, mt: set<string>)
    requires Hits(requested, d) + Hits(requested, k) + Hits(requested, ms) + Hits(requested, mt) == |requested|
    ensures var all := Elements(requested);
      all <= d + k + ms + mt <==> all * d * k == {} && all * (d + k) * ms == {} && all * (d + k + ms) * mt == {}
  {
    HitsUnion(requested, d, k);
    HitsUnion(requested, d + k, ms);
    HitsUnion(requested, d + k + ms, mt);
    HitsBound(requested, d + k + ms + mt);
  }

  lemma CoveredParts(e: Entity, requested: seq<string>)
    ensures var (m, all) := (Match(e, requested), Elements(requested));
      && Elements(m.dimensions) == all * e.dimensions && Elements(m.keys) == all * (e.keys - e.dimensions)
      && Elements(m.measures) == all * e.measures && Elements(m.metrics) == all * e.metrics
  {
  }

  /** When the total coverage equals the length of the request, the entity covers the whole
      request if and only if none of its fields is counted twice. */
  lemma FastPathExact(e: Entity, requested: seq<string>)
    requires Match(e, requested).TotalCoverage() == |requested|
    ensures Elements(requested) <= Match(e, requested).AllCovered() <==> Match(e, requested).SingleCategory()
  {
    var (d, k, ms, mt) := (e.dimensions, e.keys - e.dimensions, e.measures, e.metrics);
    CoveredParts(e, requested);
    FourHits(requested, d, k, ms, mt);
    DisjointParts(Elements(requested), d, k, ms, mt);
  }

  lemma DisjointParts(all: set<string>, d: set<string>, k: set<string>, ms: set<string>, mt: set<string>)
    ensures (all * d !! all * k !! all * ms !! all * mt) <==>
            all * d * k == {} && all * (d + k) * ms == {} && all * (d + k + ms) * mt == {}
  {
    Disjoint(all, d, k);
    Disjoint(all, d + k, ms);
    Disjoint(all, d + k + ms, mt);
    assert all * (d + k) == all * d + all * k;
    assert all * (d + k + ms) == all * d + all * k + all * ms;
  }

  lemma Disjoint(all: set<string>, a: set<string>, b: set<string>)
    ensures (all * a !! all * b) <==> all * a * b == {}
  {
    if all * a * b == {} {
      assert forall x :: x in all * a && x in all * b ==> x in all * a * b;
    } else {
      var x :| x in all * a * b;
      assert x in all * a && x in all * b;
    }
  }

  const TWICE_COUNTED := Entity("orders", {}, {}, {"x"}, {"x"}, true)

  /** A field that is both a measure and a metric makes one entity pass for a full cover. */
  lemma DoubleCountingPassesForCover()
    ensures var m := Match(TWICE_COUNTED, ["x", "y"]);
            m.TotalCoverage() == |["x", "y"]| && "y" !in m.AllCovered()
  {
    var req := ["x", "y"];
    assert req[1..] == ["y"] && req[1..][1..] == [];
    assert Covered(req[1..], {"x"}) == [];
    assert Covered(req, {"x"}) == ["x"];
    assert Covered(req, {}) == [] by {
      assert forall f :: f !in Covered(req, {});
    }
    assert TWICE_COUNTED.keys - TWICE_COUNTED.dimensions == {};
  }

  // ---------------------------------------------------------------- links

  type Paths = R.Paths

  /** The stored path between a candidate and the first selected entity that has one. */
  function LinkTo(paths: Paths, selected: seq<MatchedEntity>, candidate: MatchedEntity): Option<seq<nat>> {
    if selected == [] then None
    else if R.StoredPath(paths, selected[0].name, candidate.name).Some? then
      R.StoredPath(paths, selected[0].name, candidate.name)
    else if R.StoredPath(paths, candidate.name, selected[0].name).Some? then
      R.StoredPath(paths, candidate.name, selected[0].name)
    else LinkTo(paths, selected[1..], candidate)
  }

  predicate Unlinked(paths: Paths, s: MatchedEntity, candidate: MatchedEntity) {
    R.StoredPath(paths, s.name, candidate.name).None? && R.StoredPath(paths, candidate.name, s.name).None?
  }

  /** `path` is stored from s to the candidate, or it is stored back and none is from s. */
  predicate Linked(paths: Paths, s: MatchedEntity, candidate: MatchedEntity, path: seq<nat>) {
    || R.StoredPath(paths, s.name, candidate.name) == Some(path)
    || (R.StoredPath(paths, s.name, candidate.name).None? && R.StoredPath(paths, candidate.name, s.name) == Some(path))
  }

  ghost predicate FirstLinked(paths: Paths, selected: seq<MatchedEntity>, candidate: MatchedEntity, path: seq<nat>,
                              i: nat) {
    && i < |selected| && Linked(paths, selected[i], candidate, path)
    && forall j :: 0 <= j < i ==> Unlinked(paths, selected[j], candidate)
  }

  /** The link is the path from the first selected entity that has one in either direction, the
      direction towards the candidate before the other. */
  lemma {:induction false} LinkIsFirst(paths: Paths, selected: seq<MatchedEntity>, candidate: MatchedEntity)
    returns (i: nat)
    ensures var link := LinkTo(paths, selected, candidate);
            if link.Some? then FirstLinked(paths, selected, candidate, link.value, i)
            else forall s :: s in selected ==> Unlinked(paths, s, candidate)
    decreases |selected|
  {
    i := 0;
    if selected != [] && Unlinked(paths, selected[0], candidate) {
      var rest := selected[1..];
      var k := LinkIsFirst(paths, rest, candidate);
      i := k + 1;
      assert forall s :: s in selected <==> s == selected[0] || s in rest;
      if LinkTo(paths, rest, candidate).Some? {
        LaterLinked(paths, selected, candidate, LinkTo(paths, rest, candidate).value, k);
      }
    }
  }

  lemma LaterLinked(paths: Paths, selected: seq<MatchedEntity>, candidate: MatchedEntity, path: seq<nat>, k: nat)
    requires selected != [] && Unlinked(paths, selected[0], candidate)
    requires FirstLinked(paths, selected[1..], candidate, path, k)
    ensures FirstLinked(paths, selected, candidate, path, k + 1)
  {
    var rest := selected[1..];
    assert selected[k + 1] == rest[k];
    forall j | 0 <= j < k + 1 ensures Unlinked(paths, selected[j], candidate) {
      if j > 0 { assert selected[j] == rest[j - 1]; }
    }
  }

  function NewCount(m: MatchedEntity, remaining: set<string>): nat {
    |m.AllCovered() * remaining|
  }

  // ---------------------------------------------------------------- one greedy choice

  /** The candidate at `idx` is linked to the selection by `path`, covers something missing, no
      linked candidate covers more, and none before it covers as much. */
  ghost predicate BestOf(candidates: seq<Candidate>, remaining: set<string>, selected: seq<MatchedEntity>,
                         paths: Paths, idx: nat, path: seq<nat>) {
    && idx < |candidates|
    && NewCount(candidates[idx].matched, remaining) > 0
    && LinkTo(paths, selected, candidates[idx].matched) == Some(path)
    && (forall c :: c in candidates && LinkTo(paths, selected, c.matched).Some? ==>
          NewCount(c.matched, remaining) <= NewCount(candidates[idx].matched, remaining))
    && (forall j :: 0 <= j < idx && LinkTo(paths, selected, candidates[j].matched).Some? ==>
          NewCount(candidates[j].matched, remaining) < NewCount(candidates[idx].matched, remaining))
  }

  method BestNext(candidates: seq<Candidate>, remaining: set<string>, selected: seq<MatchedEntity>, paths: Paths)
    returns (best: Option<nat>, path: seq<nat>)
    ensures best.Some? ==> BestOf(candidates, remaining, selected, paths, best.value, path)
    ensures best.None? ==> forall c :: c in candidates && LinkTo(paths, selected, c.matched).Some? ==>
            NewCount(c.matched, remaining) == 0
  {
    best, path := None, [];
    var bestCount := 0;
    for i := 0 to |candidates|
      invariant FirstBest(candidates, remaining, selected, paths, i, best, bestCount)
      invariant best.Some? ==> LinkTo(paths, selected, candidates[best.value].matched) == Some(path)
    {
      var count := NewCount(candidates[i].matched, remaining);
      NextBest(candidates, remaining, selected, paths, i, best, bestCount);
      if count == 0 || count <= bestCount {
        continue;
      }
      var link := LinkTo(paths, selected, candidates[i].matched);
      if link.Some? {
        best, bestCount, path := Some(i), count, link.value;
      }
    }
    if best.Some? {
      FirstBestIsBest(candidates, remaining, selected, paths, best.value, bestCount, path);
    } else {
      NothingGained(candidates, remaining, selected, paths);
    }
  }

  /** What a candidate would add, if it is linked. */
  function Gain(candidates: seq<Candidate>, remaining: set<string>, selected: seq<MatchedEntity>, paths: Paths, k: nat):
    nat
    requires k < |candidates|
  {
    if LinkTo(paths, selected, candidates[k].matched).Some? then NewCount(candidates[k].matched, remaining) else 0
  }

  /** The first of the greatest gains among the first n candidates. */
  ghost predicate FirstBest(candidates: seq<Candidate>, remaining: set<string>, selected: seq<MatchedEntity>,
                            paths: Paths, n: nat, best: Option<nat>, count: nat)
    requires n <= |candidates|
  {
    && (forall k :: 0 <= k < n ==> Gain(candidates, remaining, selected, paths, k) <= count)
    && if best.None? then count == 0
       else
         && best.value < n && Gain(candidates, remaining, selected, paths, best.value) == count > 0
         && forall k :: 0 <= k < best.value ==> Gain(candidates, remaining, selected, paths, k) < count
  }

  /** One more candidate replaces the best so far if and only if it is linked and gains more. */
  lemma NextBest(candidates: seq<Candidate>, remaining: set<string>, selected: seq<MatchedEntity>, paths: Paths,
                 n: nat, best: Option<nat>, count: nat)
    requires n < |candidates| && FirstBest(candidates, remaining, selected, paths, n, best, count)
    ensures var gain := Gain(candidates, remaining, selected, paths, n);
            if gain > count then FirstBest(candidates, remaining, selected, paths, n + 1, Some(n), gain)
            else FirstBest(candidates, remaining, selected, paths, n + 1, best, count)
  {
  }

  lemma NothingGained(candidates: seq<Candidate>, remaining: set<string>, selected: seq<MatchedEntity>, paths: Paths)
    requires FirstBest(candidates, remaining, selected, paths, |candidates|, None, 0)
    ensures forall c :: c in candidates && LinkTo(paths, selected, c.matched).Some? ==>
              NewCount(c.matched, remaining) == 0
  {
    forall c | c in candidates && LinkTo(paths, selected, c.matched).Some? ensures NewCount(c.matched, remaining) == 0 {
      var k :| 0 <= k < |candidates| && candidates[k] == c;
      assert Gain(candidates, remaining, selected, paths, k) <= 0;
    }
  }

  lemma FirstBestIsBest(candidates: seq<Candidate>, remaining: set<string>, selected: seq<MatchedEntity>, paths: Paths,
                        best: nat, count: nat, path: seq<nat>)
    requires FirstBest(candidates, remaining, selected, paths, |candidates|, Some(best), count)
    requires LinkTo(paths, selected, candidates[best].matched) == Some(path)
    ensures BestOf(candidates, remaining, selected, paths, best, path)
  {
    forall c | c in candidates && LinkTo(paths, selected, c.matched).Some?
      ensures NewCount(c.matched, remaining) <= NewCount(candidates[best].matched, remaining)
    {
      var k :| 0 <= k < |candidates| && candidates[k] == c;
      assert Gain(candidates, remaining, selected, paths, k) <= count;
    }
    forall j | 0 <= j < best && LinkTo(paths, selected, candidates[j].matched).Some?
      ensures NewCount(candidates[j].matched, remaining) < NewCount(candidates[best].matched, remaining)
    {
      assert Gain(candidates, remaining, selected, paths, j) < count;
    }
  }

  // ---------------------------------------------------------------- the greedy cover

  function CoveredBy(selected: seq<MatchedEntity>): set<string> {
    if selected == [] then {} else CoveredBy(selected[..|selected| - 1]) + selected[|selected| - 1].AllCovered()
  }

  lemma CoveredBySnoc(selected: seq<MatchedEntity>, m: MatchedEntity)
    ensures CoveredBy(selected + [m]) == CoveredBy(selected) + m.AllCovered()
  {
    assert (selected + [m])[..|selected|] == selected;
  }

  /** What is still missing before the k-th choice. */
  function MissingBefore(requested: seq<string>, selected: seq<MatchedEntity>, k: nat): set<string>
    requires k <= |selected|
  {
    Elements(requested) - CoveredBy(selected[..k])
  }

  /** After the entities selected so far, `m` is linked to one of them by `link`, covers something
      that was missing, no other linked entity would have covered more of it, and of those that
      would have covered as much none ranks better. */
  ghost predicate GreedyChoice(requested: seq<string>, entities: seq<Entity>, paths: Paths,
                               selected: seq<MatchedEntity>, m: MatchedEntity, link: seq<nat>) {
    var missing := Elements(requested) - CoveredBy(selected);
    && LinkTo(paths, selected, m) == Some(link)
    && NewCount(m, missing) > 0
    && exists e :: e in entities && m == Match(e, requested)
                   && BestAmong(requested, entities, paths, selected, missing, e)
  }

  /** The k-th selected entity was chosen greedily after those before it. */
  ghost predicate ChosenGreedily(requested: seq<string>, entities: seq<Entity>, paths: Paths,
                                 selected: seq<MatchedEntity>, k: nat, link: seq<nat>)
    requires k < |selected|
  {
    GreedyChoice(requested, entities, paths, selected[..k], selected[k], link)
  }

  /** No linked entity outside the selection covers more of what is missing than `e`, and none
      that covers as much ranks better. */
  ghost predicate BestAmong(requested: seq<string>, entities: seq<Entity>, paths: Paths,
                            selected: seq<MatchedEntity>, missing: set<string>, e: Entity) {
    var count := NewCount(Match(e, requested), missing);
    forall o :: o in entities && Match(o, requested) !in selected
                && LinkTo(paths, selected, Match(o, requested)).Some? ==>
      && NewCount(Match(o, requested), missing) <= count
      && (NewCount(Match(o, requested), missing) == count ==> NotBeaten(e, o, requested))
  }

  /** The selection was made greedily, one link per choice after the first. */
  ghost predicate GreedySelection(requested: seq<string>, entities: seq<Entity>, paths: Paths,
                                  selected: seq<MatchedEntity>, links: seq<seq<nat>>) {
    && |links| + 1 == |selected|
    && (forall k, j :: 1 <= k < |selected| && j == k - 1 ==>
          ChosenGreedily(requested, entities, paths, selected, k, links[j]))
    && AreMatches(requested, entities, selected)
  }

  ghost predicate IsMatch(requested: seq<string>, entities: seq<Entity>, m: MatchedEntity) {
    exists e :: e in entities && m == Match(e, requested)
  }

  ghost predicate AreMatches(requested: seq<string>, entities: seq<Entity>, s: seq<MatchedEntity>) {
    forall m :: m in s ==> IsMatch(requested, entities, m)
  }

  /** The best-ranked entity comes first. */
  ghost predicate BestFirst(requested: seq<string>, entities: seq<Entity>, first: MatchedEntity) {
    exists e :: e in entities && first == Match(e, requested) && Provides(e, requested) &&
      forall o :: o in entities && Provides(o, requested) ==> NotBeaten(e, o, requested)
  }

  predicate Ascending(s: seq<nat>) {
    forall i, j :: 0 <= i < j < |s| ==> s[i] < s[j]
  }

  predicate NatLe(a: nat, b: nat) { a <= b }

  /** Drops repetitions of a sorted list. */
  function Dedup(s: seq<nat>): seq<nat> {
    if |s| <= 1 then s
    else
      var init, last := s[..|s| - 1], s[|s| - 1];
      if init[|init| - 1] == last then Dedup(init) else Dedup(init) + [last]
  }

  /** Ascending, with the same elements and the same last one. */
  ghost predicate Deduplicates(r: seq<nat>, s: seq<nat>) {
    && Ascending(r) && Elements(r) == Elements(s)
    && (s != [] ==> r != [] && r[|r| - 1] == s[|s| - 1])
  }

  lemma ElementsOfSnoc(s: seq<nat>, last: nat)
    ensures Elements(s + [last]) == Elements(s) + {last}
  {
  }

  lemma DedupStep(r: seq<nat>, s: seq<nat>)
    requires |s| > 1 && Deduplicates(r, s[..|s| - 1]) && s[|s| - 2] <= s[|s| - 1]
    ensures Deduplicates(if s[|s| - 2] == s[|s| - 1] then r else r + [s[|s| - 1]], s)
  {
    var init, last := s[..|s| - 1], s[|s| - 1];
    assert s == init + [last];
    ElementsOfSnoc(init, last);
    ElementsOfSnoc(r, last);
    assert init[|init| - 1] in Elements(init);
  }

  lemma SortedPrefix(s: seq<nat>)
    requires SortedBy(s, NatLe) && |s| > 1
    ensures SortedBy(s[..|s| - 1], NatLe) && s[|s| - 2] <= s[|s| - 1]
  {
    assert NatLe(s[|s| - 2], s[|s| - 1]);
  }

  lemma {:induction false} DedupIsAscending(s: seq<nat>)
    requires SortedBy(s, NatLe)
    ensures Deduplicates(Dedup(s), s)
    decreases |s|
  {
    if |s| > 1 {
      SortedPrefix(s);
      DedupIsAscending(s[..|s| - 1]);
      DedupStep(Dedup(s[..|s| - 1]), s);
    }
  }

  function SortDedup(s: seq<nat>): (r: seq<nat>)
    ensures Ascending(r) && Elements(r) == Elements(s)
  {
    SortIsSorted(s, NatLe);
    SameElements(Sort(s, NatLe), s);
    DedupIsAscending(Sort(s, NatLe));
    Dedup(Sort(s, NatLe))
  }

  function UnionOf(links: seq<seq<nat>>): set<nat> {
    if links == [] then {} else UnionOf(links[..|links| - 1]) + Elements(links[|links| - 1])
  }

  // ---------------------------------------------------------------- the method

  /** The entities that provide something, best first: one candidate for each, never one before
      another that beats it. */
  method RankedCandidates(requested: seq<string>, entities: seq<Entity>) returns (ranked: seq<Candidate>)
    ensures multiset(ranked) == multiset(CandidatesOf(entities, requested))
    ensures forall c :: c in ranked ==>
              Ties(ranked, c, CandidateLe) == Ties(CandidatesOf(entities, requested), c, CandidateLe)
    ensures forall c :: c in ranked <==> exists e ::
            e in entities && Provides(e, requested) && c == CandidateOf(e, requested)
    ensures forall i, j :: 0 <= i < j < |ranked| ==> CandidateLe(ranked[i], ranked[j])
    ensures forall i, j, e, o ::
              0 <= i < j < |ranked| ==>
              ranked[i] == CandidateOf(e, requested) && ranked[j] == CandidateOf(o, requested) ==>
                NotBeaten(e, o, requested)
  {
    var candidates := [];
    for i := 0 to |entities|
      invariant candidates == CandidatesOf(entities[..i], requested)
    {
      assert entities[..i + 1][..i] == entities[..i];
      if Match(entities[i], requested).TotalCoverage() > 0 {
        candidates := candidates + [CandidateOf(entities[i], requested)];
      }
    }
    assert entities[..|entities|] == entities;
    ranked := Sort(candidates, CandidateLe);
    RankingIsTotal();
    SortIsSorted(candidates, CandidateLe);
    SameElements(ranked, candidates);
    CandidatesAreProviders(entities, requested);
    RankedNotBeaten(requested, ranked);
    forall c | c in ranked ensures Ties(ranked, c, CandidateLe) == Ties(candidates, c, CandidateLe) {
      SortKeepsTies(candidates, c, CandidateLe);
    }
  }

  lemma RankingIsTotal()
    ensures TotalPreorder(CandidateLe)
  {
  }

  lemma RankedNotBeaten(requested: seq<string>, ranked: seq<Candidate>)
    requires SortedBy(ranked, CandidateLe)
    ensures forall i, j, e, o ::
              0 <= i < j < |ranked| ==>
              ranked[i] == CandidateOf(e, requested) && ranked[j] == CandidateOf(o, requested) ==>
                NotBeaten(e, o, requested)
  {
    forall i, j, e, o |
      0 <= i < j < |ranked| && ranked[i] == CandidateOf(e, requested) && ranked[j] == CandidateOf(o, requested)
      ensures NotBeaten(e, o, requested)
    {
      RankingExact(e, o, requested);
    }
  }

  lemma RankedFirst(requested: seq<string>, entities: seq<Entity>, ranked: seq<Candidate>)
    requires SortedBy(ranked, CandidateLe) && ranked != []
    requires forall c :: c in ranked <==> exists e ::
             e in entities && Provides(e, requested) && c == CandidateOf(e, requested)
    ensures BestFirst(requested, entities, ranked[0].matched)
  {
    assert ranked[0] in ranked;
    var e :| e in entities && Provides(e, requested) && ranked[0] == CandidateOf(e, requested);
    forall o | o in entities && Provides(o, requested) ensures NotBeaten(e, o, requested) {
      assert CandidateOf(o, requested) in ranked;
      assert CandidateLe(ranked[0], ranked[0]);
      RankingExact(e, o, requested);
    }
  }

  predicate FullCount(requested: seq<string>, first: MatchedEntity) {
    first.TotalCoverage() == |requested|
  }

  /** A greedy selection whose links make up the join path. */
  ghost predicate GreedyCover(requested: seq<string>, entities: seq<Entity>, paths: Paths,
                              result: MatchResult, links: seq<seq<nat>>) {
    && GreedySelection(requested, entities, paths, result.entities, links)
    && BestFirst(requested, entities, result.entities[0])
    && Ascending(result.joinPath) && Elements(result.joinPath) == UnionOf(links)
  }

  /** No entity linked to the selection covers anything still missing. */
  ghost predicate Stuck(requested: seq<string>, entities: seq<Entity>, paths: Paths, selected: seq<MatchedEntity>,
                        missing: set<string>) {
    && missing == Elements(requested) - CoveredBy(selected) && missing != {}
    && forall e :: e in entities && LinkTo(paths, selected, Match(e, requested)).Some? ==>
         NewCount(Match(e, requested), missing) == 0
  }

  /** The candidates still to choose from: every provider that is not selected, best first. */
  ghost predicate Pending(requested: seq<string>, entities: seq<Entity>, selected: seq<MatchedEntity>,
                          candidates: seq<Candidate>) {
    && (forall e :: e in entities && Provides(e, requested) ==>
          Match(e, requested) in selected || CandidateOf(e, requested) in candidates)
    && AreCandidates(requested, entities, candidates)
    && SortedBy(candidates, CandidateLe)
  }

  ghost predicate IsCandidate(requested: seq<string>, entities: seq<Entity>, c: Candidate) {
    exists e :: e in entities && c == CandidateOf(e, requested)
  }

  ghost predicate AreCandidates(requested: seq<string>, entities: seq<Entity>, s: seq<Candidate>) {
    forall c :: c in s ==> IsCandidate(requested, entities, c)
  }

  /** An entity that provides nothing, or is selected already, covers nothing that is missing. */
  lemma NothingNew(requested: seq<string>, e: Entity, selected: seq<MatchedEntity>)
    requires !Provides(e, requested) || Match(e, requested) in selected
    ensures NewCount(Match(e, requested), Elements(requested) - CoveredBy(selected)) == 0
  {
    var m := Match(e, requested);
    if Provides(e, requested) {
      SelectedIsCovered(selected, m);
    } else {
      assert m.AllCovered() == {};
    }
    assert m.AllCovered() * (Elements(requested) - CoveredBy(selected)) == {};
  }

  lemma {:induction false} SelectedIsCovered(selected: seq<MatchedEntity>, m: MatchedEntity)
    requires m in selected
    ensures m.AllCovered() <= CoveredBy(selected)
    decreases |selected|
  {
    if m != selected[|selected| - 1] {
      SelectedIsCovered(selected[..|selected| - 1], m);
    }
  }

  lemma SelectNext(requested: seq<string>, entities: seq<Entity>, paths: Paths, selected: seq<MatchedEntity>,
                   candidates: seq<Candidate>, links: seq<seq<nat>>, idx: nat, link: seq<nat>)
    requires GreedySelection(requested, entities, paths, selected, links) &&
             Pending(requested, entities, selected, candidates)
    requires BestOf(candidates, Elements(requested) - CoveredBy(selected), selected, paths, idx, link)
    ensures GreedySelection(requested, entities, paths, selected + [candidates[idx].matched], links + [link])
  {
    LastChoice(requested, entities, paths, selected, candidates, idx, link);
    var e := EntityBehind(requested, entities, candidates, idx);
    SelectionGrows(requested, entities, paths, selected, links, candidates[idx].matched, link);
  }

  lemma SelectionGrows(requested: seq<string>, entities: seq<Entity>, paths: Paths, selected: seq<MatchedEntity>,
                       links: seq<seq<nat>>, m: MatchedEntity, link: seq<nat>)
    requires GreedySelection(requested, entities, paths, selected, links) && IsMatch(requested, entities, m)
    requires GreedyChoice(requested, entities, paths, selected, m, link)
    ensures GreedySelection(requested, entities, paths, selected + [m], links + [link])
  {
    var selected', links' := selected + [m], links + [link];
    forall k, j | 1 <= k < |selected'| && j == k - 1
      ensures ChosenGreedily(requested, entities, paths, selected', k, links'[j])
    {
      if k < |selected| {
        EarlierChoice(requested, entities, paths, selected, m, k, links[j]);
      } else {
        NewestChoice(requested, entities, paths, selected, m, link);
      }
    }
  }

  lemma NewestChoice(requested: seq<string>, entities: seq<Entity>, paths: Paths, selected: seq<MatchedEntity>,
                     m: MatchedEntity, link: seq<nat>)
    requires GreedyChoice(requested, entities, paths, selected, m, link)
    ensures ChosenGreedily(requested, entities, paths, selected + [m], |selected|, link)
  {
    assert (selected + [m])[..|selected|] == selected;
  }

  lemma EntityBehind(requested: seq<string>, entities: seq<Entity>, candidates: seq<Candidate>, idx: nat)
    returns (e: Entity)
    requires AreCandidates(requested, entities, candidates) && idx < |candidates|
    ensures e in entities && candidates[idx] == CandidateOf(e, requested)
  {
    assert IsCandidate(requested, entities, candidates[idx]);
    e :| e in entities && candidates[idx] == CandidateOf(e, requested);
  }

  lemma EarlierChoice(requested: seq<string>, entities: seq<Entity>, paths: Paths, selected: seq<MatchedEntity>,
                      next: MatchedEntity, k: nat, link: seq<nat>)
    requires k < |selected| && ChosenGreedily(requested, entities, paths, selected, k, link)
    ensures ChosenGreedily(requested, entities, paths, selected + [next], k, link)
  {
    PrefixKept(selected, next, k);
  }

  lemma PrefixKept(selected: seq<MatchedEntity>, next: MatchedEntity, k: nat)
    requires k < |selected|
    ensures (selected + [next])[..k] == selected[..k] && (selected + [next])[k] == selected[k]
  {
  }

  lemma LastChoice(requested: seq<string>, entities: seq<Entity>, paths: Paths, selected: seq<MatchedEntity>,
                   candidates: seq<Candidate>, idx: nat, link: seq<nat>)
    requires Pending(requested, entities, selected, candidates)
    requires BestOf(candidates, Elements(requested) - CoveredBy(selected), selected, paths, idx, link)
    ensures GreedyChoice(requested, entities, paths, selected, candidates[idx].matched, link)
  {
    var e := EntityBehind(requested, entities, candidates, idx);
    BestOfAll(requested, entities, paths, selected, candidates, idx, link, e);
  }

  lemma BestOfAll(requested: seq<string>, entities: seq<Entity>, paths: Paths, selected: seq<MatchedEntity>,
                  candidates: seq<Candidate>, idx: nat, link: seq<nat>, e: Entity)
    requires Pending(requested, entities, selected, candidates)
    requires BestOf(candidates, Elements(requested) - CoveredBy(selected), selected, paths, idx, link)
    requires e in entities && candidates[idx] == CandidateOf(e, requested)
    ensures BestAmong(requested, entities, paths, selected, Elements(requested) - CoveredBy(selected), e)
  {
    var missing := Elements(requested) - CoveredBy(selected);
    forall o | o in entities && Match(o, requested) !in selected && LinkTo(paths, selected, Match(o, requested)).Some?
      ensures NewCount(Match(o, requested), missing) <= NewCount(Match(e, requested), missing)
      ensures NewCount(Match(o, requested), missing) == NewCount(Match(e, requested), missing) ==>
                NotBeaten(e, o, requested)
    {
      if CandidateOf(o, requested) in candidates {
        var j :| 0 <= j < |candidates| && candidates[j] == CandidateOf(o, requested);
        assert CandidateLe(candidates[idx], candidates[idx]);
        RankingExact(e, o, requested);
      } else {
        NothingNew(requested, o, selected);
      }
    }
  }

  /** The state of the greedy loop. */
  ghost predicate Covering(requested: seq<string>, entities: seq<Entity>, paths: Paths, selected: seq<MatchedEntity>,
                           candidates: seq<Candidate>, links: seq<seq<nat>>, covered: set<string>,
                           remaining: set<string>, indices: seq<nat>) {
    && GreedySelection(requested, entities, paths, selected, links) &&
      Pending(requested, entities, selected, candidates)
    && covered == CoveredBy(selected) && remaining == Elements(requested) - covered
    && Elements(indices) == UnionOf(links)
  }

  lemma CoveringStep(requested: seq<string>, entities: seq<Entity>, paths: Paths, selected: seq<MatchedEntity>,
                     candidates: seq<Candidate>, links: seq<seq<nat>>, covered: set<string>,
                     remaining: set<string>, indices: seq<nat>, idx: nat, link: seq<nat>)
    requires Covering(requested, entities, paths, selected, candidates, links, covered, remaining, indices)
    requires BestOf(candidates, remaining, selected, paths, idx, link)
    ensures var next := candidates[idx].matched;
            Covering(requested, entities, paths, selected + [next], Without(candidates, idx), links + [link],
                     covered + next.AllCovered(), remaining - next.AllCovered(), indices + link)
  {
    SelectNext(requested, entities, paths, selected, candidates, links, idx, link);
    CoveredBySnoc(selected, candidates[idx].matched);
    StillSorted(candidates, idx);
  }

  function Without<T>(s: seq<T>, i: nat): (r: seq<T>)
    requires i < |s|
    ensures |r| == |s| - 1
  {
    s[..i] + s[i + 1..]
  }

  lemma StillSorted(candidates: seq<Candidate>, idx: nat)
    requires SortedBy(candidates, CandidateLe) && idx < |candidates|
    ensures SortedBy(Without(candidates, idx), CandidateLe)
    ensures forall c :: c in candidates <==> c == candidates[idx] || c in Without(candidates, idx)
  {
    assert candidates == candidates[..idx] + [candidates[idx]] + candidates[idx + 1..];
  }

  lemma CoveringDone(requested: seq<string>, entities: seq<Entity>, paths: Paths, selected: seq<MatchedEntity>,
                     candidates: seq<Candidate>, links: seq<seq<nat>>, covered: set<string>, indices: seq<nat>)
    requires Covering(requested, entities, paths, selected, candidates, links, covered, {}, indices)
    ensures GreedySelection(requested, entities, paths, selected, links)
    ensures Elements(requested) <= CoveredBy(selected) && Elements(indices) == UnionOf(links)
  {
    forall f | f in Elements(requested) ensures f in covered {
      assert f !in Elements(requested) - covered;
    }
  }

  /** The greedy set cover that starts from one entity. The ghost results are the selection so
      far, also when the cover fails, and the path by which each later entity was linked. */
  method CoverGreedily(requested: seq<string>, ghost entities: seq<Entity>, paths: Paths, first: MatchedEntity,
                       others: seq<Candidate>)
    returns (r: Result<MatchResult, ResolveError>, ghost chosen: seq<MatchedEntity>, ghost links: seq<seq<nat>>)
    requires Pending(requested, entities, [first], others) && IsMatch(requested, entities, first)
    ensures GreedySelection(requested, entities, paths, chosen, links) && chosen[0] == first
    ensures r.Ok? ==> chosen == r.value.entities
    ensures r.Ok? ==> r.value.entities != [] && r.value.entities[0] == first
    ensures r.Ok? ==> Elements(requested) <= CoveredBy(r.value.entities)
    ensures r.Ok? ==> Ascending(r.value.joinPath) && Elements(r.value.joinPath) == UnionOf(links)
    ensures r.Err? ==> r.error.Uncoverable? && Stuck(requested, entities, paths, chosen, r.error.remaining)
  {
    var candidates, selected, covered := others, [first], first.AllCovered();
    var remaining := Elements(requested) - covered;
    var joinIndices: seq<nat> := [];
    links := [];
    while remaining != {}
      invariant Covering(requested, entities, paths, selected, candidates, links, covered, remaining, joinIndices)
      invariant selected[0] == first
      decreases |candidates|
    {
      var best, link := BestNext(candidates, remaining, selected, paths);
      if best.None? {
        IsStuck(requested, entities, paths, selected, candidates, remaining);
        return Err(Uncoverable(remaining)), selected, links;
      }
      var next := candidates[best.value].matched;
      CoveringStep(requested, entities, paths, selected, candidates, links, covered, remaining, joinIndices,
        best.value, link);
      candidates := Without(candidates, best.value);
      remaining := remaining - next.AllCovered();
      covered := covered + next.AllCovered();
      selected := selected + [next];
      joinIndices := joinIndices + link;
      links := links + [link];
    }
    CoveringDone(requested, entities, paths, selected, candidates, links, covered, joinIndices);
    chosen := selected;
    r := Ok(MatchResult(selected, SortDedup(joinIndices)));
  }

  /** The entities that answer a query. */
  method FindCoveringEntities(requested: seq<string>, entities: seq<Entity>, paths: Paths)
    returns (r: Result<MatchResult, ResolveError>, ghost chosen: seq<MatchedEntity>, ghost links: seq<seq<nat>>)
    ensures r == Err(NoFields) <==> requested == []
    ensures r == Err(NoProvider) <==> requested != [] && forall e :: e in entities ==> !Provides(e, requested)
    ensures r.Ok? ==> chosen == r.value.entities && GreedyCover(requested, entities, paths, r.value, links)
    ensures r.Ok? && FullCount(requested, chosen[0]) ==> |chosen| == 1
    ensures r.Ok? && !FullCount(requested, chosen[0]) ==> Elements(requested) <= CoveredBy(chosen)
    ensures r.Err? && r.error.Uncoverable? ==>
      && GreedySelection(requested, entities, paths, chosen, links) && BestFirst(requested, entities, chosen[0])
      && !FullCount(requested, chosen[0]) && Stuck(requested, entities, paths, chosen, r.error.remaining)
  {
    if requested == [] {
      return Err(NoFields), [], [];
    }
    var ranked := RankedCandidates(requested, entities);
    if ranked == [] {
      assert forall e :: e in entities && Provides(e, requested) ==> CandidateOf(e, requested) in ranked;
      return Err(NoProvider), [], [];
    }
    RankedFirst(requested, entities, ranked);
    var first := ranked[0].matched;
    if first.TotalCoverage() == |requested| {
      return Ok(MatchResult([first], [])), [first], [];
    }
    StartsPending(requested, entities, ranked);
    r, chosen, links := CoverGreedily(requested, entities, paths, first, ranked[1..]);
  }

  lemma StartsPending(requested: seq<string>, entities: seq<Entity>, ranked: seq<Candidate>)
    requires ranked != [] && SortedBy(ranked, CandidateLe)
    requires forall c :: c in ranked <==> exists e ::
             e in entities && Provides(e, requested) && c == CandidateOf(e, requested)
    ensures Pending(requested, entities, [ranked[0].matched], ranked[1..])
    ensures IsMatch(requested, entities, ranked[0].matched)
  {
    assert forall c :: c in ranked <==> c == ranked[0] || c in ranked[1..];
    forall e | e in entities && Provides(e, requested)
      ensures Match(e, requested) in [ranked[0].matched] || CandidateOf(e, requested) in ranked[1..]
    {
      assert CandidateOf(e, requested) in ranked;
    }
    forall c | c in ranked ensures IsCandidate(requested, entities, c) {
      var e :| e in entities && Provides(e, requested) && c == CandidateOf(e, requested);
    }
    var e := EntityBehind(requested, entities, ranked, 0);
  }

  lemma IsStuck(requested: seq<string>, entities: seq<Entity>, paths: Paths, selected: seq<MatchedEntity>,
                candidates: seq<Candidate>, missing: set<string>)
    requires missing == Elements(requested) - CoveredBy(selected) && missing != {}
    requires Pending(requested, entities, selected, candidates)
    requires forall c :: c in candidates && LinkTo(paths, selected, c.matched).Some? ==>
               NewCount(c.matched, missing) == 0
    ensures Stuck(requested, entities, paths, selected, missing)
  {
    forall e | e in entities && LinkTo(paths, selected, Match(e, requested)).Some?
      ensures NewCount(Match(e, requested), missing) == 0
    {
      if CandidateOf(e, requested) !in candidates { NothingNew(requested, e, selected); }
    }
  }

  // ---------------------------------------------------------------- what a cover is worth

  /** A successful cover covers the whole request, unless the first entity alone reached the
      requested number of fields by counting one of them in two categories. */
  lemma CoverExact(requested: seq<string>, entities: seq<Entity>, paths: Paths, result: MatchResult,
                   links: seq<seq<nat>>)
    requires GreedyCover(requested, entities, paths, result, links)
    requires FullCount(requested, result.entities[0]) ==> |result.entities| == 1
    requires !FullCount(requested, result.entities[0]) ==> Elements(requested) <= CoveredBy(result.entities)
    ensures Elements(requested) <= CoveredBy(result.entities) <==>
            (FullCount(requested, result.entities[0]) ==> result.entities[0].SingleCategory())
  {
    var first := result.entities[0];
    if FullCount(requested, first) {
      var e :| e in entities && first == Match(e, requested);
      FastPathExact(e, requested);
      assert result.entities == [] + [first];
      CoveredBySnoc([], first);
    }
  }

  ghost predicate EachAdds(requested: seq<string>, selected: seq<MatchedEntity>) {
    forall k :: 0 <= k < |selected| ==> NewCount(selected[k], MissingBefore(requested, selected, k)) > 0
  }

  function MissingCount(requested: seq<string>, selected: seq<MatchedEntity>, k: nat): nat
    requires k <= |selected|
  {
    |MissingBefore(requested, selected, k)|
  }

  lemma AllMissingFirst(requested: seq<string>, selected: seq<MatchedEntity>)
    ensures MissingCount(requested, selected, 0) == |Elements(requested)|
  {
    assert selected[..0] == [] && CoveredBy([]) == {};
  }

  lemma CountFalls(requested: seq<string>, selected: seq<MatchedEntity>, k: nat)
    requires EachAdds(requested, selected) && k < |selected|
    ensures MissingCount(requested, selected, k + 1) < MissingCount(requested, selected, k)
  {
    AddingShrinks(requested, selected, k);
  }

  lemma {:induction false} FallingIsBounded(counts: seq<nat>, n: nat)
    requires n < |counts| && forall k :: 0 < k <= n ==> counts[k] < counts[k - 1]
    ensures n + counts[n] <= counts[0]
    decreases n
  {
    if n > 0 { FallingIsBounded(counts, n - 1); }
  }

  function MissingCounts(requested: seq<string>, selected: seq<MatchedEntity>, n: nat): (r: seq<nat>)
    requires n <= |selected|
    ensures |r| == n + 1 && forall k :: 0 <= k <= n ==> r[k] == MissingCount(requested, selected, k)
  {
    if n == 0 then [MissingCount(requested, selected, 0)]
    else MissingCounts(requested, selected, n - 1) + [MissingCount(requested, selected, n)]
  }

  lemma AddingIsBounded(requested: seq<string>, selected: seq<MatchedEntity>)
    requires EachAdds(requested, selected)
    ensures |selected| <= |Elements(requested)|
  {
    var counts := MissingCounts(requested, selected, |selected|);
    forall k | 0 < k <= |selected| ensures counts[k] < counts[k - 1] { CountFalls(requested, selected, k - 1); }
    FallingIsBounded(counts, |selected|);
    AllMissingFirst(requested, selected);
  }

  /** Every selected entity covers a field that nothing before it covers, so there are never
      more of them than distinct requested fields. */
  lemma NoMoreEntitiesThanFields(requested: seq<string>, entities: seq<Entity>, paths: Paths,
                                 result: MatchResult, links: seq<seq<nat>>)
    requires GreedyCover(requested, entities, paths, result, links)
    ensures EachAdds(requested, result.entities)
    ensures |result.entities| <= |Elements(requested)|
  {
    forall k | 0 <= k < |result.entities|
      ensures NewCount(result.entities[k], MissingBefore(requested, result.entities, k)) > 0
    {
      EveryChoiceAdds(requested, entities, paths, result, links, k);
    }
    AddingIsBounded(requested, result.entities);
  }

  lemma EveryChoiceAdds(requested: seq<string>, entities: seq<Entity>, paths: Paths,
                        result: MatchResult, links: seq<seq<nat>>, k: nat)
    requires GreedyCover(requested, entities, paths, result, links) && k < |result.entities|
    ensures NewCount(result.entities[k], MissingBefore(requested, result.entities, k)) > 0
  {
    if k == 0 {
      FirstProvides(requested, entities, result.entities[0]);
      assert MissingBefore(requested, result.entities, 0) == Elements(requested);
    } else {
      assert ChosenGreedily(requested, entities, paths, result.entities, k, links[k - 1]);
    }
  }

  lemma AddingShrinks(requested: seq<string>, selected: seq<MatchedEntity>, k: nat)
    requires EachAdds(requested, selected) && k < |selected|
    ensures |MissingBefore(requested, selected, k + 1)| < |MissingBefore(requested, selected, k)|
  {
    ChoiceShrinks(requested, selected, k);
  }

  lemma ChoiceShrinks(requested: seq<string>, selected: seq<MatchedEntity>, k: nat)
    requires k < |selected|
    ensures |MissingBefore(requested, selected, k + 1)|
            == |MissingBefore(requested, selected, k)| - NewCount(selected[k], MissingBefore(requested, selected, k))
  {
    var (before, after) := (MissingBefore(requested, selected, k), MissingBefore(requested, selected, k + 1));
    assert selected[..k + 1] == selected[..k] + [selected[k]];
    CoveredBySnoc(selected[..k], selected[k]);
    assert after == before - selected[k].AllCovered() * before;
  }

  lemma FirstProvides(requested: seq<string>, entities: seq<Entity>, first: MatchedEntity)
    requires BestFirst(requested, entities, first)
    ensures NewCount(first, Elements(requested)) > 0
  {
    var e :| e in entities && first == Match(e, requested) && Provides(e, requested);
    ProvidesSomething(e, requested);
  }

  lemma InSomeCategory(m: MatchedEntity) returns (f: string)
    requires m.TotalCoverage() > 0
    ensures f in m.AllCovered()
  {
    f := if |m.dimensions| > 0 then m.dimensions[0] else if |m.keys| > 0 then m.keys[0]
         else if |m.measures| > 0 then m.measures[0] else m.metrics[0];
  }

  lemma CoveredIsRequested(e: Entity, requested: seq<string>)
    ensures Match(e, requested).AllCovered() <= Elements(requested)
  {
  }

  lemma ProvidesSomething(e: Entity, requested: seq<string>)
    requires Provides(e, requested)
    ensures |Match(e, requested).AllCovered() * Elements(requested)| > 0
  {
    var f := InSomeCategory(Match(e, requested));
    CoveredIsRequested(e, requested);
    assert f in Match(e, requested).AllCovered() * Elements(requested);
  }

  /** With the paths of a relationship graph, every link is a shortest walk between the new
      entity and one selected before it, and lies in the join path. */
  lemma LinksAreWalks(rels: seq<R.Relationship>, names: seq<string>, requested: seq<string>, entities: seq<Entity>,
                      paths: Paths, result: MatchResult, links: seq<seq<nat>>, k: nat)
    requires R.AllPairsShortest(rels, names, paths) && (forall e :: e in entities ==> e.name in names)
    requires GreedyCover(requested, entities, paths, result, links) && 1 <= k < |result.entities|
    ensures Elements(links[k - 1]) <= Elements(result.joinPath)
    ensures exists s :: s in result.entities[..k] &&
              (R.ShortestWalk(rels, s.name, result.entities[k].name, links[k - 1])
               || R.ShortestWalk(rels, result.entities[k].name, s.name, links[k - 1]))
  {
    UnionContains(links, k - 1);
    assert ChosenGreedily(requested, entities, paths, result.entities, k, links[k - 1]);
    NamesKnown(requested, entities, names, result.entities);
    StoredIsWalk(rels, names, paths, result.entities[..k], result.entities[k], links[k - 1]);
  }

  lemma NamesKnown(requested: seq<string>, entities: seq<Entity>, names: seq<string>, selected: seq<MatchedEntity>)
    requires AreMatches(requested, entities, selected) && (forall e :: e in entities ==> e.name in names)
    ensures forall m :: m in selected ==> m.name in names
  {
    forall m | m in selected ensures m.name in names {
      assert IsMatch(requested, entities, m);
    }
  }

  lemma StoredIsWalk(rels: seq<R.Relationship>, names: seq<string>, paths: Paths, selected: seq<MatchedEntity>,
                     m: MatchedEntity, link: seq<nat>)
    requires R.AllPairsShortest(rels, names, paths) && LinkTo(paths, selected, m) == Some(link)
    requires m.name in names && forall s :: s in selected ==> s.name in names
    ensures exists s ::
              s in selected &&
              (R.ShortestWalk(rels, s.name, m.name, link) || R.ShortestWalk(rels, m.name, s.name, link))
  {
    var i := LinkIsFirst(paths, selected, m);
    var s := selected[i];
    assert Some(link) == R.StoredPath(paths, s.name, m.name) || Some(link) == R.StoredPath(paths, m.name, s.name);
  }

  lemma {:induction false} UnionContains(links: seq<seq<nat>>, j: nat)
    requires j < |links|
    ensures Elements(links[j]) <= UnionOf(links)
    decreases |links|
  {
    if j < |links| - 1 { UnionContains(links[..|links| - 1], j); }
  }
}
