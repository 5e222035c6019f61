/**
 What each joined entity is asked for, and the condition each join tests.
 */
module JoinRequests {
  import opened Wrappers
  import opened Exprs
  import A = Aggregations
  import opened Filters
  import opened EntityResolver
  import opened JoinOrders
  import R = RelationshipGraphs

  /** `session` stands for the grain and the session variables, which are passed on as they are. */
  datatype Request = Request(
    entity: string, dimensions: seq<string>, measures: seq<string>, filters: seq<QueryFilter>,
    orderBy: seq<string>, limit: Option<nat>, session: map<string, string>)
  {
    function Fields(): set<string> { Elements(dimensions) + Elements(measures) }
  }

  datatype EntityRequest = EntityRequest(entity: string, request: Request, extraJoinKeys: seq<string>)

  // ---------------------------------------------------------------- join keys

  /** The columns of one side of a relationship. */
  function SideColumns(rel: R.Relationship, far: bool): seq<string> {
    seq(|rel.columns|, (k: nat) requires k < |rel.columns| => if far then rel.columns[k].into else rel.columns[k].from)
  }

  function KeysOfOne(rel: R.Relationship, name: string): set<string> {
    (if rel.from == name then Elements(SideColumns(rel, false)) else {})
    + (if rel.into == name then Elements(SideColumns(rel, true)) else {})
  }

  /** The columns of an entity that the used relationships join on. */
  function KeysOf(rels: seq<R.Relationship>, used: set<nat>, name: string): set<string> {
    set i, c | i in used && 0 <= i < |rels| && c in KeysOfOne(rels[i], name) :: c
  }

  /** The added columns that the query did not ask for. */
  function Extras(added: seq<string>, original: set<string>): seq<string> {
    if added == [] then []
    else Extras(added[..|added| - 1], original)
         + if added[|added| - 1] in original then [] else [added[|added| - 1]]
  }

  /** `base` with the needed columns that neither it nor the measures hold, each once. */
  ghost predicate Augmented(base: seq<string>, measures: set<string>, original: set<string>, needed: set<string>,
                            dims: seq<string>, extra: seq<string>) {
    && base <= dims
    && var added := dims[|base|..];
       && Distinct(added)
       && Elements(added) == needed - Elements(base) - measures
       && extra == Extras(added, original)
  }

  lemma ElementsSnoc<T>(s: seq<T>, x: T)
    ensures Elements(s + [x]) == Elements(s) + {x}
  {
  }

  lemma ElementsConcat<T>(s: seq<T>, t: seq<T>)
    ensures Elements(s + t) == Elements(s) + Elements(t)
  {
  }

  lemma NewKey(base: seq<string>, measures: set<string>, original: set<string>, needed: set<string>,
               dims: seq<string>, extra: seq<string>, column: string)
    requires Augmented(base, measures, original, needed, dims, extra)
    requires column !in Elements(dims) && column !in measures
    ensures Augmented(base, measures, original, needed + {column}, dims + [column],
                      extra + if column in original then [] else [column])
  {
    var added := dims[|base|..];
    assert dims == base + added;
    ElementsConcat(base, added);
    assert (dims + [column])[|base|..] == added + [column];
    ElementsSnoc(added, column);
  }

  /** Adds the columns of one side of a relationship. */
  method AddJoinKeys(columns: seq<string>, measures: set<string>, original: set<string>,
                     dims0: seq<string>, dimSet0: set<string>, extra0: seq<string>,
                     ghost base: seq<string>, ghost needed: set<string>)
    returns (dims: seq<string>, dimSet: set<string>, extra: seq<string>)
    requires Augmented(base, measures, original, needed, dims0, extra0) && dimSet0 == Elements(dims0)
    ensures Augmented(base, measures, original, needed + Elements(columns), dims, extra) && dimSet == Elements(dims)
  {
    dims, dimSet, extra := dims0, dimSet0, extra0;
    assert needed + Elements(columns[..0]) == needed;
    for k := 0 to |columns|
      invariant Augmented(base, measures, original, needed + Elements(columns[..k]), dims, extra)
      invariant dimSet == Elements(dims)
    {
      var column := columns[k];
      ghost var before := needed + Elements(columns[..k]);
      assert columns[..k + 1] == columns[..k] + [column];
      ElementsSnoc(columns[..k], column);
      assert before + {column} == needed + Elements(columns[..k + 1]);
      if column !in dimSet && column !in measures {
        NewKey(base, measures, original, before, dims, extra, column);
        ElementsSnoc(dims, column);
        dims := dims + [column];
        dimSet := dimSet + {column};
        if column !in original {
          extra := extra + [column];
        }
      }
    }
    assert columns[..|columns|] == columns;
  }

  // ---------------------------------------------------------------- requests

  function OriginalFields(original: Request): set<string> {
    Elements(original.dimensions) + Elements(original.measures)
  }

  /** The entity's own fields first, then its join keys; the query's filters, order and limit
      are applied after the join. */
  ghost predicate IsRequestFor(rels: seq<R.Relationship>, used: set<nat>, m: MatchedEntity, original: Request,
                               q: EntityRequest) {
    && q.entity == m.name
    && q.request == original.(entity := m.name, dimensions := q.request.dimensions, measures := m.measures + m.metrics,
                              filters := [], orderBy := [], limit := None)
    && Augmented(m.dimensions + m.keys, Elements(m.measures + m.metrics), OriginalFields(original),
                 KeysOf(rels, used, m.name), q.request.dimensions, q.extraJoinKeys)
  }

  lemma KeysOfMore(rels: seq<R.Relationship>, used: set<nat>, i: nat, name: string)
    requires i < |rels|
    ensures KeysOf(rels, used + {i}, name) == KeysOf(rels, used, name) + KeysOfOne(rels[i], name)
  {
  }

  /** The relationships are visited in any order. */
  method BuildRequest(rels: seq<R.Relationship>, used: set<nat>, m: MatchedEntity, original: Request)
    returns (q: EntityRequest)
    requires forall i :: i in used ==> i < |rels|
    ensures IsRequestFor(rels, used, m, original, q)
  {
    var base, measures := m.GroupByFields(), m.AggregateFields();
    var dims, dimSet, extra: seq<string> := base, Elements(base), [];
    var measureSet, originalFields := Elements(measures), OriginalFields(original);
    ghost var done: set<nat> := {};
    assert dims[|base|..] == [];
    var todo := used;
    while todo != {}
      invariant todo <= used && done == used - todo && dimSet == Elements(dims)
      invariant Augmented(base, measureSet, originalFields, KeysOf(rels, done, m.name), dims, extra)
      decreases todo
    {
      var i :| i in todo;
      var rel := rels[i];
      ghost var needed := KeysOf(rels, done, m.name);
      KeysOfMore(rels, done, i, m.name);
      if rel.from == m.name {
        dims, dimSet, extra := AddJoinKeys(SideColumns(rel, false), measureSet, originalFields, dims, dimSet, extra,
          base, needed);
        needed := needed + Elements(SideColumns(rel, false));
      }
      if rel.into == m.name {
        dims, dimSet, extra := AddJoinKeys(SideColumns(rel, true), measureSet, originalFields, dims, dimSet, extra,
          base, needed);
        needed := needed + Elements(SideColumns(rel, true));
      }
      assert needed == KeysOf(rels, done + {i}, m.name);
      todo, done := todo - {i}, done + {i};
    }
    assert done == used;
    q := EntityRequest(m.name, original.(entity := m.name, dimensions := dims, measures := measures,
                                         filters := [], orderBy := [], limit := None), extra);
  }

  function UsedRelationships(steps: seq<JoinStep>): set<nat> {
    set s | s in steps :: s.relationship
  }

  /** One request for each entity, in the order of the cover. */
  ghost predicate AreRequests(rels: seq<R.Relationship>, entities: seq<MatchedEntity>, steps: seq<JoinStep>,
                              original: Request, requests: seq<EntityRequest>) {
    && |requests| == |entities|
    && forall k :: 0 <= k < |entities| ==>
      IsRequestFor(rels, UsedRelationships(steps), entities[k], original, requests[k])
  }

  method BuildEntityRequests(rels: seq<R.Relationship>, entities: seq<MatchedEntity>, steps: seq<JoinStep>,
                             original: Request)
    returns (requests: seq<EntityRequest>)
    requires forall s :: s in steps ==> s.relationship < |rels|
    ensures AreRequests(rels, entities, steps, original, requests)
  {
    requests := [];
    for k := 0 to |entities|
      invariant |requests| == k
      invariant forall j :: 0 <= j < k ==>
                IsRequestFor(rels, UsedRelationships(steps), entities[j], original, requests[j])
    {
      var q := BuildRequest(rels, UsedRelationships(steps), entities[k], original);
      requests := requests + [q];
    }
  }

  lemma RequestFields(rels: seq<R.Relationship>, used: set<nat>, m: MatchedEntity, original: Request, q: EntityRequest)
    requires IsRequestFor(rels, used, m, original, q)
    ensures Elements(m.GroupByFields()) + Elements(m.AggregateFields()) == m.AllCovered()
    ensures q.request.Fields() == m.AllCovered() + KeysOf(rels, used, m.name)
    ensures Elements(q.request.dimensions[|m.GroupByFields()|..]) == KeysOf(rels, used, m.name) - m.AllCovered()
  {
    var base, dims := m.GroupByFields(), q.request.dimensions;
    var added := dims[|base|..];
    assert dims == base + added;
    ElementsConcat(base, added);
    ElementsConcat(m.dimensions, m.keys);
    ElementsConcat(m.measures, m.metrics);
  }

  lemma DistinctConcat<T>(s: seq<T>, t: seq<T>)
    requires Distinct(s) && Distinct(t) && Elements(s) !! Elements(t)
    ensures Distinct(s + t)
  {
    assert forall i :: 0 <= i < |s| ==> s[i] in Elements(s);
    assert forall i :: 0 <= i < |t| ==> t[i] in Elements(t);
  }

  lemma RequestIsDistinct(rels: seq<R.Relationship>, used: set<nat>, m: MatchedEntity, original: Request,
                          q: EntityRequest)
    requires IsRequestFor(rels, used, m, original, q) && Distinct(m.GroupByFields())
    ensures Distinct(q.request.dimensions)
  {
    var base, dims := m.GroupByFields(), q.request.dimensions;
    DistinctConcat(base, dims[|base|..]);
    assert dims == base + dims[|base|..];
  }

  /** A request keeps every field of its entity, adds no column twice, and holds every column
      of the entity that a used relationship joins on. */
  lemma RequestHolds(rels: seq<R.Relationship>, used: set<nat>, m: MatchedEntity, original: Request, q: EntityRequest)
    requires IsRequestFor(rels, used, m, original, q)
    ensures q.request.Fields() == m.AllCovered() + KeysOf(rels, used, m.name)
    ensures Distinct(m.GroupByFields()) ==> Distinct(q.request.dimensions)
    ensures Elements(q.extraJoinKeys) == q.request.Fields() - m.AllCovered() - OriginalFields(original)
  {
    RequestFields(rels, used, m, original, q);
    if Distinct(m.GroupByFields()) { RequestIsDistinct(rels, used, m, original, q); }
    ExtrasAre(q.request.dimensions[|m.GroupByFields()|..], OriginalFields(original));
  }

  lemma {:induction false} ExtrasAre(added: seq<string>, original: set<string>)
    ensures Elements(Extras(added, original)) == Elements(added) - original
    decreases |added|
  {
    if added != [] {
      var init, last := added[..|added| - 1], added[|added| - 1];
      ExtrasAre(init, original);
      assert added == init + [last];
      ElementsSnoc(init, last);
      ElementsSnoc(Extras(init, original), last);
      assert Extras(init, original) + [] == Extras(init, original);
    }
  }

  // ---------------------------------------------------------------- conditions

  function LeftColumn(pair: R.JoinColumns, reversed: bool): string {
    if reversed then pair.into else pair.from
  }

  function RightColumn(pair: R.JoinColumns, reversed: bool): string {
    if reversed then pair.from else pair.into
  }

  function PairTests(columns: seq<R.JoinColumns>, reversed: bool): seq<Expr> {
    seq(|columns|, (k: nat) requires k < |columns| =>
      Binary(Column(LeftColumn(columns[k], reversed)), Eq, Column(RightColumn(columns[k], reversed))))
  }

  /** All column pairs equal; the side that is joined already stands on the left. */
  function JoinCondition(rel: R.Relationship, reversed: bool): Expr {
    if rel.columns == [] then TRUE else A.Conjunction(PairTests(rel.columns, reversed))
  }

  /** On one row of the joined schema the condition is TRUE exactly when the two names of every
      column pair have one value there, and it is not NULL. */
  lemma ConditionOnOneRow(en: Engine, rel: R.Relationship, reversed: bool, row: Row)
    ensures Eval(en, JoinCondition(rel, reversed), row) == VBool(true) <==>
      forall pair :: pair in rel.columns ==> row(pair.from) == row(pair.into) != VNull
  {
    if rel.columns != [] {
      var tests := PairTests(rel.columns, reversed);
      A.ConjunctionIsTrue(en, tests, row);
      forall k: nat | k < |rel.columns|
        ensures Eval(en, tests[k], row) == VBool(true) <==>
                row(rel.columns[k].from) == row(rel.columns[k].into) != VNull
      {
      }
      if A.PassesAll(en, tests, row) {
        forall k: nat | k < |rel.columns| ensures row(rel.columns[k].from) == row(rel.columns[k].into) != VNull {
          assert tests[k] in tests;
        }
      }
    }
  }

  /** The row of the joined schema: the columns of the left side come first, so an unqualified
      name that both sides have is the left one. */
  function Joined(left: set<string>, l: Row, r: Row): Row {
    n => if n in left then l(n) else r(n)
  }

  /** What the relationship asks of a left and a right row. */
  ghost predicate PairsMatch(columns: seq<R.JoinColumns>, reversed: bool, l: Row, r: Row) {
    forall pair :: pair in columns ==>
      if reversed then l(pair.into) == r(pair.from) != VNull else l(pair.from) == r(pair.into) != VNull
  }

  ghost predicate KeepsMatching(en: Engine, rel: R.Relationship, reversed: bool, left: set<string>, l: Row, r: Row) {
    Eval(en, JoinCondition(rel, reversed), Joined(left, l, r)) == VBool(true) <==>
      PairsMatch(rel.columns, reversed, l, r)
  }

  const SAME: Row := n => VNum(1.0)

  /** Agrees with SAME on every name that the left side does not hide. */
  function Differs(left: set<string>): Row {
    n => if n in left then VNum(2.0) else VNum(1.0)
  }

  /** When the left side has a column of the name that stands on the right, the condition keeps
      a pair of rows that do not match. */
  lemma HiddenColumnIsNotTested(en: Engine, rel: R.Relationship, reversed: bool, left: set<string>, pair: R.JoinColumns)
    requires pair in rel.columns && RightColumn(pair, reversed) in left
    requires forall p :: p in rel.columns ==> LeftColumn(p, reversed) in left
    ensures Eval(en, JoinCondition(rel, reversed), Joined(left, SAME, Differs(left))) == VBool(true)
    ensures !PairsMatch(rel.columns, reversed, SAME, Differs(left))
  {
    ConditionOnOneRow(en, rel, reversed, Joined(left, SAME, Differs(left)));
    assert SAME(LeftColumn(pair, reversed)) != Differs(left)(RightColumn(pair, reversed));
  }

  lemma VisibleColumnsAreTested(en: Engine, rel: R.Relationship, reversed: bool, left: set<string>, l: Row, r: Row)
    requires forall p :: p in rel.columns ==> LeftColumn(p, reversed) in left && RightColumn(p, reversed) !in left
    ensures KeepsMatching(en, rel, reversed, left, l, r)
  {
    var row := Joined(left, l, r);
    ConditionOnOneRow(en, rel, reversed, row);
    assert forall p :: p in rel.columns ==>
      && row(LeftColumn(p, reversed)) == l(LeftColumn(p, reversed))
      && row(RightColumn(p, reversed)) == r(RightColumn(p, reversed));
  }

  /** The join keeps exactly the matching pairs of rows if and only if no column that stands on
      the right has a namesake on the left. */
  lemma JoinKeepsMatchingExactly(en: Engine, rel: R.Relationship, reversed: bool, left: set<string>)
    requires forall p :: p in rel.columns ==> LeftColumn(p, reversed) in left
    ensures (forall l: Row, r: Row :: KeepsMatching(en, rel, reversed, left, l, r)) <==>
            forall p :: p in rel.columns ==> RightColumn(p, reversed) !in left
  {
    if forall p :: p in rel.columns ==> RightColumn(p, reversed) !in left {
      forall l: Row, r: Row ensures KeepsMatching(en, rel, reversed, left, l, r) {
        VisibleColumnsAreTested(en, rel, reversed, left, l, r);
      }
    } else {
      var pair :| pair in rel.columns && RightColumn(pair, reversed) in left;
      HiddenColumnIsNotTested(en, rel, reversed, left, pair);
      assert !KeepsMatching(en, rel, reversed, left, SAME, Differs(left));
    }
  }

  /** The usual key, named alike on both sides, is compared with itself. */
  lemma SharedKeyIsNotTested(en: Engine)
    ensures var rel := R.Relationship("orders", "customers", [R.JoinColumns("customer_id", "customer_id")]);
      && Eval(en, JoinCondition(rel, false), Joined({"customer_id"}, SAME, Differs({"customer_id"}))) == VBool(true)
      && !PairsMatch(rel.columns, false, SAME, Differs({"customer_id"}))
  {
    var pair := R.JoinColumns("customer_id", "customer_id");
    var rel := R.Relationship("orders", "customers", [pair]);
    assert pair in rel.columns;
    HiddenColumnIsNotTested(en, rel, false, {"customer_id"}, pair);
  }

  predicate NamedBy(fs: seq<Expr>, n: string) {
    exists f :: f in fs && n in Names(f)
  }

  lemma NamedBySnoc(fs: seq<Expr>, last: Expr, n: string)
    ensures NamedBy(fs + [last], n) <==> NamedBy(fs, n) || n in Names(last)
  {
    assert forall f :: f in fs + [last] <==> f in fs || f == last;
  }

  lemma NamesOfAnd(l: Expr, r: Expr)
    ensures Names(Binary(l, And, r)) == Names(l) + Names(r)
  {
  }

  lemma {:induction false} ConjunctionNames(fs: seq<Expr>, n: string)
    requires fs != []
    ensures n in Names(A.Conjunction(fs)) <==> NamedBy(fs, n)
    decreases |fs|
  {
    var init, last := fs[..|fs| - 1], fs[|fs| - 1];
    assert fs == init + [last];
    NamedBySnoc(init, last, n);
    if |fs| > 1 {
      ConjunctionNames(init, n);
      NamesOfAnd(A.Conjunction(init), last);
    }
  }

  lemma ConditionNames(rel: R.Relationship, reversed: bool, n: string) returns (pair: R.JoinColumns)
    requires n in Names(JoinCondition(rel, reversed))
    ensures pair in rel.columns && (n == LeftColumn(pair, reversed) || n == RightColumn(pair, reversed))
  {
    var tests := PairTests(rel.columns, reversed);
    ConjunctionNames(tests, n);
    var i :| 0 <= i < |tests| && n in Names(tests[i]);
    pair := rel.columns[i];
    var (left, right) := (Column(LeftColumn(pair, reversed)), Column(RightColumn(pair, reversed)));
    assert Names(Binary(left, Eq, right)) == Names(left) + Names(right);
  }

  // ---------------------------------------------------------------- join scope

  /** The dataset on the side of a step that is joined already. */
  function NearEntity(rels: seq<R.Relationship>, step: JoinStep): string
    requires step.relationship < |rels|
  {
    if step.reversed then rels[step.relationship].into else rels[step.relationship].from
  }

  lemma OwnColumnsInRequest(rels: seq<R.Relationship>, used: set<nat>, i: nat, far: bool, m: MatchedEntity,
                            original: Request, q: EntityRequest, k: nat)
    requires IsRequestFor(rels, used, m, original, q)
    requires i in used && i < |rels| && k < |rels[i].columns|
    requires m.name == if far then rels[i].into else rels[i].from
    ensures (if far then rels[i].columns[k].into else rels[i].columns[k].from) in q.request.Fields()
  {
    var column := if far then rels[i].columns[k].into else rels[i].columns[k].from;
    assert SideColumns(rels[i], far)[k] == column;
    assert column in KeysOfOne(rels[i], m.name);
    assert column in KeysOf(rels, used, m.name);
    RequestHolds(rels, used, m, original, q);
  }

  /** In every join step the near side is the anchor or an earlier step, and each column of the
      condition is in the request of the entity on its side. */
  lemma JoinScope(rels: seq<R.Relationship>, entities: seq<MatchedEntity>, joinPath: seq<nat>, steps: seq<JoinStep>,
                  original: Request, requests: seq<EntityRequest>, k: nat)
    requires entities != [] && IsJoinOrder(rels, entities[0].name, entities[1..], joinPath, steps)
    requires AreRequests(rels, entities, steps, original, requests) && k < |steps|
    ensures steps[k].relationship < |rels|
    ensures var rel, near := rels[steps[k].relationship], NearEntity(rels, steps[k]);
      && (near == entities[0].name || near in StepNames(steps[..k]))
      && (exists q :: q in requests && q.entity == near) && (exists q :: q in requests && q.entity == steps[k].entity)
      && (forall q, pair :: q in requests && q.entity == near && pair in rel.columns ==>
            LeftColumn(pair, steps[k].reversed) in q.request.Fields())
      && (forall q, pair :: q in requests && q.entity == steps[k].entity && pair in rel.columns ==>
            RightColumn(pair, steps[k].reversed) in q.request.Fields())
  {
    var (step, anchor) := (steps[k], entities[0].name);
    StepIsNear(rels, anchor, entities[1..], joinPath, steps, k);
    var (rel, near) := (rels[step.relationship], NearEntity(rels, step));
    assert step in steps && step.relationship in UsedRelationships(steps);
    HasRequest(rels, entities, steps, original, requests, near);
    HasRequest(rels, entities, steps, original, requests, step.entity);
    forall q, pair | q in requests && q.entity == near && pair in rel.columns
      ensures LeftColumn(pair, step.reversed) in q.request.Fields()
    {
      ColumnInRequest(rels, entities, steps, original, requests, q, step.relationship, step.reversed, pair);
    }
    forall q, pair | q in requests && q.entity == step.entity && pair in rel.columns
      ensures RightColumn(pair, step.reversed) in q.request.Fields()
    {
      ColumnInRequest(rels, entities, steps, original, requests, q, step.relationship, !step.reversed, pair);
    }
  }

  lemma StepIsNear(rels: seq<R.Relationship>, anchor: string, others: seq<MatchedEntity>, joinPath: seq<nat>,
                   steps: seq<JoinStep>, k: nat)
    requires IsJoinOrder(rels, anchor, others, joinPath, steps) && k < |steps|
    ensures steps[k].relationship < |rels|
    ensures NearEntity(rels, steps[k]) == anchor || NearEntity(rels, steps[k]) in StepNames(steps[..k])
    ensures NearEntity(rels, steps[k]) == anchor || NearEntity(rels, steps[k]) in MatchNames(others)
    ensures steps[k].entity in MatchNames(others)
    ensures steps[k].entity == if steps[k].reversed then rels[steps[k].relationship].from
            else rels[steps[k].relationship].into
  {
    assert StepAttaches(rels, anchor, joinPath, steps, k);
    assert StepNames(steps)[k] == steps[k].entity;
    assert steps[k].entity in multiset(MatchNames(others)) by {
      assert StepNames(steps)[k] in multiset(StepNames(steps));
    }
    var near := NearEntity(rels, steps[k]);
    if near != anchor {
      assert near in StepNames(steps[..k]);
      var j :| 0 <= j < k && StepNames(steps[..k])[j] == near;
      assert StepNames(steps)[j] == near;
      assert near in multiset(StepNames(steps));
    }
  }

  lemma HasRequest(rels: seq<R.Relationship>, entities: seq<MatchedEntity>, steps: seq<JoinStep>,
                   original: Request, requests: seq<EntityRequest>, name: string)
    requires entities != [] && AreRequests(rels, entities, steps, original, requests)
    requires name == entities[0].name || name in MatchNames(entities[1..])
    ensures exists q :: q in requests && q.entity == name
  {
    var j := 0;
    if name != entities[0].name {
      var i :| 0 <= i < |entities| - 1 && MatchNames(entities[1..])[i] == name;
      j := i + 1;
    }
    assert entities[j].name == name && IsRequestFor(rels, UsedRelationships(steps), entities[j], original, requests[j]);
    assert requests[j] in requests;
  }

  lemma ColumnInRequest(rels: seq<R.Relationship>, entities: seq<MatchedEntity>, steps: seq<JoinStep>,
                        original: Request,
                        requests: seq<EntityRequest>, q: EntityRequest, i: nat, far: bool, pair: R.JoinColumns)
    requires AreRequests(rels, entities, steps, original, requests) && q in requests
    requires i in UsedRelationships(steps) && i < |rels| && pair in rels[i].columns
    requires q.entity == if far then rels[i].into else rels[i].from
    ensures (if far then pair.into else pair.from) in q.request.Fields()
  {
    var j :| 0 <= j < |requests| && requests[j] == q;
    var k :| 0 <= k < |rels[i].columns| && rels[i].columns[k] == pair;
    assert IsRequestFor(rels, UsedRelationships(steps), entities[j], original, requests[j]);
    OwnColumnsInRequest(rels, UsedRelationships(steps), i, far, entities[j], original, q, k);
  }

  /** The condition of a step mentions no column outside the two requests. */
  lemma ConditionInScope(rels: seq<R.Relationship>, entities: seq<MatchedEntity>, joinPath: seq<nat>,
                         steps: seq<JoinStep>,
                         original: Request, requests: seq<EntityRequest>, k: nat, near: EntityRequest,
                           own: EntityRequest)
    requires entities != [] && IsJoinOrder(rels, entities[0].name, entities[1..], joinPath, steps)
    requires AreRequests(rels, entities, steps, original, requests) && k < |steps|
    requires steps[k].relationship < |rels|
    requires near in requests && near.entity == NearEntity(rels, steps[k])
    requires own in requests && own.entity == steps[k].entity
    ensures Names(JoinCondition(rels[steps[k].relationship], steps[k].reversed))
            <= near.request.Fields() + own.request.Fields()
  {
    var (rel, reversed) := (rels[steps[k].relationship], steps[k].reversed);
    JoinScope(rels, entities, joinPath, steps, original, requests, k);
    forall n | n in Names(JoinCondition(rel, reversed)) ensures n in near.request.Fields() + own.request.Fields() {
      var pair := ConditionNames(rel, reversed, n);
    }
  }
}
