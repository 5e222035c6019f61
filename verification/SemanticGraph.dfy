/**
 The unified semantic graph: dataset and field nodes, join and provides-field edges, and the
 name maps that find a node, built by calls in any order.
 */
module SemanticGraphs {

  datatype FieldType = Dimension | Measure | Metric | Key

  datatype Node =
    | DatasetNode(name: string, kind: string)
    | FieldNode(name: string, fieldType: FieldType)

  datatype EdgeKind = Join(relationship: nat) | ProvidesField

  datatype Edge = Edge(from: nat, into: nat, kind: EdgeKind)

  // ---------------------------------------------------------------- what the graph records

  /** The graph as relations between names. */
  datatype Catalog = Catalog(
    datasets: map<string, string>, fields: map<string, FieldType>,
    offers: set<(string, string)>, joins: seq<(string, string, nat)>)
  {
    function WithDataset(name: string, kind: string): Catalog {
      if name in datasets then this else this.(datasets := datasets[name := kind])
    }

    function WithField(name: string, fieldType: FieldType): Catalog {
      if name in fields then this else this.(fields := fields[name := fieldType])
    }

    function WithJoin(from: string, into: string, relationship: nat): Catalog {
      var c := WithDataset(from, "").WithDataset(into, "");
      c.(joins := c.joins + [(from, into, relationship)])
    }

    function WithProvides(dataset: string, field: string, fieldType: FieldType): Catalog {
      var c := WithDataset(dataset, "").WithField(field, fieldType);
      c.(offers := c.offers + {(dataset, field)})
    }
  }

  const EMPTY := Catalog(map[], map[], {}, [])

  // ---------------------------------------------------------------- the indexed form

  /** A name map finds exactly the nodes of one sort. */
  ghost predicate DatasetsIndexed(nodes: seq<Node>, index: map<string, nat>, datasets: map<string, string>) {
    && index.Keys == datasets.Keys
    && (forall n :: n in index ==> index[n] < |nodes| && nodes[index[n]] == DatasetNode(n, datasets[n]))
    && (forall i :: 0 <= i < |nodes| && nodes[i].DatasetNode? ==> nodes[i].name in index && index[nodes[i].name] == i)
  }

  ghost predicate FieldsIndexed(nodes: seq<Node>, index: map<string, nat>, fields: map<string, FieldType>) {
    && index.Keys == fields.Keys
    && (forall n :: n in index ==> index[n] < |nodes| && nodes[index[n]] == FieldNode(n, fields[n]))
    && (forall i :: 0 <= i < |nodes| && nodes[i].FieldNode? ==> nodes[i].name in index && index[nodes[i].name] == i)
  }

  predicate EdgeIsTyped(nodes: seq<Node>, e: Edge) {
    && e.from < |nodes| && e.into < |nodes| && nodes[e.from].DatasetNode?
    && if e.kind.Join? then nodes[e.into].DatasetNode? else nodes[e.into].FieldNode?
  }

  ghost predicate ProvidesRecorded(nodes: seq<Node>, edges: seq<Edge>, offers: set<(string, string)>) {
    forall d, f :: (d, f) in offers <==> exists e :: e in edges && ProvidesBetween(nodes, e, d, f)
  }

  predicate ProvidesBetween(nodes: seq<Node>, e: Edge, d: string, f: string) {
    EdgeIsTyped(nodes, e) && e.kind.ProvidesField? && nodes[e.from].name == d && nodes[e.into].name == f
  }

  /** The join edges, in the order they were added. */
  function JoinsOf(nodes: seq<Node>, edges: seq<Edge>): seq<(string, string, nat)>
    requires forall e :: e in edges ==> EdgeIsTyped(nodes, e)
  {
    if edges == [] then []
    else
      var init, e := edges[..|edges| - 1], edges[|edges| - 1];
      assert EdgeIsTyped(nodes, e) by { assert e in edges; }
      JoinsOf(nodes, init)
      + if e.kind.Join? then [(nodes[e.from].name, nodes[e.into].name, e.kind.relationship)] else []
  }

  ghost predicate Represents(nodes: seq<Node>, edges: seq<Edge>, datasetNodes: map<string, nat>,
                             fieldNodes: map<string, nat>,
                             c: Catalog) {
    && DatasetsIndexed(nodes, datasetNodes, c.datasets)
    && FieldsIndexed(nodes, fieldNodes, c.fields)
    && (forall e :: e in edges ==> EdgeIsTyped(nodes, e))
    && ProvidesRecorded(nodes, edges, c.offers)
    && JoinsOf(nodes, edges) == c.joins
  }

  /** A further node changes nothing that the edges say. */
  lemma {:induction false} JoinsKept(nodes: seq<Node>, node: Node, edges: seq<Edge>)
    requires forall e :: e in edges ==> EdgeIsTyped(nodes, e)
    ensures forall e :: e in edges ==> EdgeIsTyped(nodes + [node], e)
    ensures JoinsOf(nodes + [node], edges) == JoinsOf(nodes, edges)
    decreases |edges|
  {
    if edges != [] {
      assert EdgeIsTyped(nodes, edges[|edges| - 1]) by { assert edges[|edges| - 1] in edges; }
      JoinsKept(nodes, node, edges[..|edges| - 1]);
    }
  }

  lemma DatasetAdded(nodes: seq<Node>, edges: seq<Edge>, datasetNodes: map<string, nat>, fieldNodes: map<string, nat>,
                     c: Catalog, name: string, kind: string)
    requires Represents(nodes, edges, datasetNodes, fieldNodes, c) && name !in datasetNodes
    ensures Represents(nodes + [DatasetNode(name, kind)], edges, datasetNodes[name := |nodes|], fieldNodes,
                       c.WithDataset(name, kind))
  {
    JoinsKept(nodes, DatasetNode(name, kind), edges);
  }

  lemma FieldAdded(nodes: seq<Node>, edges: seq<Edge>, datasetNodes: map<string, nat>, fieldNodes: map<string, nat>,
                   c: Catalog, name: string, fieldType: FieldType)
    requires Represents(nodes, edges, datasetNodes, fieldNodes, c) && name !in fieldNodes
    ensures Represents(nodes + [FieldNode(name, fieldType)], edges, datasetNodes, fieldNodes[name := |nodes|],
                       c.WithField(name, fieldType))
  {
    JoinsKept(nodes, FieldNode(name, fieldType), edges);
  }

  lemma JoinAdded(nodes: seq<Node>, edges: seq<Edge>, datasetNodes: map<string, nat>, fieldNodes: map<string, nat>,
                  c: Catalog, from: string, into: string, relationship: nat)
    requires Represents(nodes, edges, datasetNodes, fieldNodes, c) && from in datasetNodes && into in datasetNodes
    ensures Represents(nodes, edges + [Edge(datasetNodes[from], datasetNodes[into], Join(relationship))],
                       datasetNodes, fieldNodes, c.(joins := c.joins + [(from, into, relationship)]))
  {
    var e := Edge(datasetNodes[from], datasetNodes[into], Join(relationship));
    assert (edges + [e])[..|edges|] == edges;
    EdgeAdded(nodes, edges, e, c.offers);
  }

  lemma EdgeAdded(nodes: seq<Node>, edges: seq<Edge>, added: Edge, offers: set<(string, string)>)
    requires ProvidesRecorded(nodes, edges, offers)
    ensures forall d, f :: (exists e :: e in edges + [added] && ProvidesBetween(nodes, e, d, f))
                           <==> (d, f) in offers || ProvidesBetween(nodes, added, d, f)
  {
    assert forall e :: e in edges + [added] <==> e in edges || e == added;
  }

  lemma ProvidesAdded(nodes: seq<Node>, edges: seq<Edge>, datasetNodes: map<string, nat>, fieldNodes: map<string, nat>,
                      c: Catalog, dataset: string, field: string)
    requires Represents(nodes, edges, datasetNodes, fieldNodes, c) && dataset in datasetNodes && field in fieldNodes
    ensures Represents(nodes, edges + [Edge(datasetNodes[dataset], fieldNodes[field], ProvidesField)],
                       datasetNodes, fieldNodes, c.(offers := c.offers + {(dataset, field)}))
  {
    var e := Edge(datasetNodes[dataset], fieldNodes[field], ProvidesField);
    assert (edges + [e])[..|edges|] == edges;
    EdgeAdded(nodes, edges, e, c.offers);
  }

  // ---------------------------------------------------------------- neighbours

  /** The nodes at the other end of the edges into `node`, the latest edge first. */
  function Incoming(edges: seq<Edge>, node: nat): (r: seq<nat>)
    ensures forall n :: n in r <==> exists e :: e in edges && e.into == node && e.from == n
  {
    if edges == [] then []
    else
      var init, e := edges[..|edges| - 1], edges[|edges| - 1];
      assert forall x :: x in edges <==> x in init || x == e;
      (if e.into == node then [e.from] else []) + Incoming(init, node)
  }

  function Outgoing(edges: seq<Edge>, node: nat): (r: seq<nat>)
    ensures forall n :: n in r <==> exists e :: e in edges && e.from == node && e.into == n
  {
    if edges == [] then []
    else
      var init, e := edges[..|edges| - 1], edges[|edges| - 1];
      assert forall x :: x in edges <==> x in init || x == e;
      (if e.from == node then [e.into] else []) + Outgoing(init, node)
  }

  function DatasetNames(nodes: seq<Node>, found: seq<nat>): (r: seq<string>)
    requires forall i :: i in found ==> i < |nodes|
    ensures forall n :: n in r <==> exists i :: i in found && nodes[i].DatasetNode? && nodes[i].name == n
  {
    if found == [] then []
    else
      assert forall i :: i in found <==> i == found[0] || i in found[1..];
      assert found[0] in found;
      (if nodes[found[0]].DatasetNode? then [nodes[found[0]].name] else []) + DatasetNames(nodes, found[1..])
  }

  function FieldNames(nodes: seq<Node>, found: seq<nat>): (r: seq<string>)
    requires forall i :: i in found ==> i < |nodes|
    ensures forall n :: n in r <==> exists i :: i in found && nodes[i].FieldNode? && nodes[i].name == n
  {
    if found == [] then []
    else
      assert forall i :: i in found <==> i == found[0] || i in found[1..];
      assert found[0] in found;
      (if nodes[found[0]].FieldNode? then [nodes[found[0]].name] else []) + FieldNames(nodes, found[1..])
  }

  /** Walking every kind of edge backwards from a field finds exactly its providers: join edges
      end in datasets. */
  lemma ProvidersFound(nodes: seq<Node>, edges: seq<Edge>, datasetNodes: map<string, nat>, fieldNodes: map<string, nat>,
                       c: Catalog, field: string, d: string)
    requires Represents(nodes, edges, datasetNodes, fieldNodes, c) && field in fieldNodes
    ensures d in DatasetNames(nodes, Incoming(edges, fieldNodes[field])) <==> (d, field) in c.offers
  {
    var at := fieldNodes[field];
    if d in DatasetNames(nodes, Incoming(edges, at)) {
      var i :| i in Incoming(edges, at) && nodes[i].DatasetNode? && nodes[i].name == d;
      var e :| e in edges && e.into == at && e.from == i;
      assert ProvidesBetween(nodes, e, d, field);
    }
    if (d, field) in c.offers {
      var e :| e in edges && ProvidesBetween(nodes, e, d, field);
      assert e.from in Incoming(edges, at);
    }
  }

  lemma FieldsFound(nodes: seq<Node>, edges: seq<Edge>, datasetNodes: map<string, nat>, fieldNodes: map<string, nat>,
                    c: Catalog, dataset: string, f: string)
    requires Represents(nodes, edges, datasetNodes, fieldNodes, c) && dataset in datasetNodes
    ensures f in FieldNames(nodes, Outgoing(edges, datasetNodes[dataset])) <==> (dataset, f) in c.offers
  {
    var at := datasetNodes[dataset];
    if f in FieldNames(nodes, Outgoing(edges, at)) {
      var i :| i in Outgoing(edges, at) && nodes[i].FieldNode? && nodes[i].name == f;
      var e :| e in edges && e.from == at && e.into == i;
      assert ProvidesBetween(nodes, e, dataset, f);
    }
    if (dataset, f) in c.offers {
      var e :| e in edges && ProvidesBetween(nodes, e, dataset, f);
      assert e.into in Outgoing(edges, at);
    }
  }

  class SemanticGraph {
    var nodes: seq<Node>
    var edges: seq<Edge>
    var datasetNodes: map<string, nat>
    var fieldNodes: map<string, nat>
    ghost var catalog: Catalog

    ghost predicate Valid()
      reads this
    {
      Represents(nodes, edges, datasetNodes, fieldNodes, catalog)
    }

    constructor ()
      ensures Valid() && catalog == EMPTY
    {
      nodes, edges, datasetNodes, fieldNodes, catalog := [], [], map[], map[], EMPTY;
    }

    method AddDataset(name: string, kind: string) returns (node: nat)
      requires Valid()
      modifies this
      ensures Valid() && catalog == old(catalog).WithDataset(name, kind)
      ensures name in datasetNodes && datasetNodes[name] == node && fieldNodes == old(fieldNodes)
      ensures forall n :: n in old(datasetNodes) ==> n in datasetNodes && datasetNodes[n] == old(datasetNodes)[n]
    {
      if name in datasetNodes {
        return datasetNodes[name];
      }
      DatasetAdded(nodes, edges, datasetNodes, fieldNodes, catalog, name, kind);
      node := |nodes|;
      nodes := nodes + [DatasetNode(name, kind)];
      datasetNodes := datasetNodes[name := node];
      catalog := catalog.WithDataset(name, kind);
    }

    method AddField(name: string, fieldType: FieldType) returns (node: nat)
      requires Valid()
      modifies this
      ensures Valid() && catalog == old(catalog).WithField(name, fieldType)
      ensures name in fieldNodes && fieldNodes[name] == node && datasetNodes == old(datasetNodes)
      ensures forall n :: n in old(fieldNodes) ==> n in fieldNodes && fieldNodes[n] == old(fieldNodes)[n]
    {
      if name in fieldNodes {
        return fieldNodes[name];
      }
      FieldAdded(nodes, edges, datasetNodes, fieldNodes, catalog, name, fieldType);
      node := |nodes|;
      nodes := nodes + [FieldNode(name, fieldType)];
      fieldNodes := fieldNodes[name := node];
      catalog := catalog.WithField(name, fieldType);
    }

    /** The node of a dataset, added without a kind when it is not there yet. */
    method DatasetNodeOf(name: string) returns (node: nat)
      requires Valid()
      modifies this
      ensures Valid() && catalog == old(catalog).WithDataset(name, "")
      ensures name in datasetNodes && datasetNodes[name] == node && fieldNodes == old(fieldNodes)
      ensures forall n :: n in old(datasetNodes) ==> n in datasetNodes && datasetNodes[n] == old(datasetNodes)[n]
    {
      if name in datasetNodes {
        node := datasetNodes[name];
      } else {
        node := AddDataset(name, "");
      }
    }

    method AddJoin(from: string, into: string, relationship: nat)
      requires Valid()
      modifies this
      ensures Valid() && catalog == old(catalog).WithJoin(from, into, relationship)
    {
      var fromNode := DatasetNodeOf(from);
      var intoNode := DatasetNodeOf(into);
      JoinAdded(nodes, edges, datasetNodes, fieldNodes, catalog, from, into, relationship);
      edges := edges + [Edge(fromNode, intoNode, Join(relationship))];
      catalog := catalog.(joins := catalog.joins + [(from, into, relationship)]);
    }

    method AddProvidesField(dataset: string, field: string, fieldType: FieldType)
      requires Valid()
      modifies this
      ensures Valid() && catalog == old(catalog).WithProvides(dataset, field, fieldType)
    {
      var datasetNode := DatasetNodeOf(dataset);
      var fieldNode;
      if field in fieldNodes {
        fieldNode := fieldNodes[field];
      } else {
        fieldNode := AddField(field, fieldType);
      }
      ProvidesAdded(nodes, edges, datasetNodes, fieldNodes, catalog, dataset, field);
      edges := edges + [Edge(datasetNode, fieldNode, ProvidesField)];
      catalog := catalog.(offers := catalog.offers + {(dataset, field)});
    }

    method FieldProviders(field: string) returns (r: seq<string>)
      requires Valid()
      ensures forall d :: d in r <==> (d, field) in catalog.offers
    {
      if field !in fieldNodes {
        assert forall d :: (d, field) !in catalog.offers;
        return [];
      }
      r := DatasetNames(nodes, Incoming(edges, fieldNodes[field]));
      forall d { ProvidersFound(nodes, edges, datasetNodes, fieldNodes, catalog, field, d); }
    }

    method DatasetFields(dataset: string) returns (r: seq<string>)
      requires Valid()
      ensures forall f :: f in r <==> (dataset, f) in catalog.offers
    {
      if dataset !in datasetNodes {
        assert forall f :: (dataset, f) !in catalog.offers;
        return [];
      }
      r := FieldNames(nodes, Outgoing(edges, datasetNodes[dataset]));
      forall f { FieldsFound(nodes, edges, datasetNodes, fieldNodes, catalog, dataset, f); }
    }

    /** The names of the fields of one type, in the map's own order. */
    function FieldsOfType(fieldType: FieldType): (r: set<string>)
      reads this
      requires Valid()
      ensures forall n :: n in r <==> n in catalog.fields && catalog.fields[n] == fieldType
    {
      set n | n in fieldNodes && nodes[fieldNodes[n]] == FieldNode(n, fieldType)
    }

    function DatasetCount(): (r: nat)
      reads this
      requires Valid()
      ensures r == |catalog.datasets|
    {
      assert datasetNodes.Keys == catalog.datasets.Keys;
      |datasetNodes|
    }

    function FieldCount(): (r: nat)
      reads this
      requires Valid()
      ensures r == |catalog.fields|
    {
      assert fieldNodes.Keys == catalog.fields.Keys;
      |fieldNodes|
    }
  }

  ghost predicate IsDatasetNode(nodes: seq<Node>, name: string, i: nat) {
    i < |nodes| && nodes[i].DatasetNode? && nodes[i].name == name
  }

  ghost predicate IsFieldNode(nodes: seq<Node>, name: string, i: nat) {
    i < |nodes| && nodes[i].FieldNode? && nodes[i].name == name
  }

  /** A dataset name has a node exactly when it was recorded, and never two; so do field names. */
  lemma OneNodePerName(nodes: seq<Node>, edges: seq<Edge>, datasetNodes: map<string, nat>, fieldNodes: map<string, nat>,
                       c: Catalog, name: string)
    requires Represents(nodes, edges, datasetNodes, fieldNodes, c)
    ensures name in c.datasets <==> exists i :: IsDatasetNode(nodes, name, i)
    ensures name in c.fields <==> exists i :: IsFieldNode(nodes, name, i)
    ensures forall i, j :: IsDatasetNode(nodes, name, i) && IsDatasetNode(nodes, name, j) ==> i == j
    ensures forall i, j :: IsFieldNode(nodes, name, i) && IsFieldNode(nodes, name, j) ==> i == j
  {
    if name in c.datasets { assert IsDatasetNode(nodes, name, datasetNodes[name]); }
    if name in c.fields { assert IsFieldNode(nodes, name, fieldNodes[name]); }
  }

  // ---------------------------------------------------------------- whole runs

  datatype Op =
    | AddDataset(name: string, kind: string)
    | AddField(name: string, fieldType: FieldType)
    | AddJoin(from: string, into: string, relationship: nat)
    | AddProvidesField(dataset: string, field: string, fieldType: FieldType)

  function After(c: Catalog, op: Op): Catalog {
    match op
    case AddDataset(name, kind) => c.WithDataset(name, kind)
    case AddField(name, fieldType) => c.WithField(name, fieldType)
    case AddJoin(from, into, relationship) => c.WithJoin(from, into, relationship)
    case AddProvidesField(dataset, field, fieldType) => c.WithProvides(dataset, field, fieldType)
  }

  function Run(ops: seq<Op>): Catalog {
    if ops == [] then EMPTY else After(Run(ops[..|ops| - 1]), ops[|ops| - 1])
  }

  /** The field type an operation declares for a field name. */
  predicate Types(op: Op, field: string) {
    (op.AddField? && op.name == field) || (op.AddProvidesField? && op.field == field)
  }

  predicate Mentions(op: Op, dataset: string) {
    || (op.AddDataset? && op.name == dataset)
    || (op.AddJoin? && (op.from == dataset || op.into == dataset))
    || (op.AddProvidesField? && op.dataset == dataset)
  }

  function KindIn(op: Op): string {
    if op.AddDataset? then op.kind else ""
  }

  /** A field has a node exactly when some call declared it, with the type of the first one. */
  lemma {:induction false} FirstTypeWins(ops: seq<Op>, field: string, k: nat)
    requires k < |ops| && Types(ops[k], field) && forall j :: 0 <= j < k ==> !Types(ops[j], field)
    ensures field in Run(ops).fields && Run(ops).fields[field] == ops[k].fieldType
    decreases |ops|
  {
    if k < |ops| - 1 {
      FirstTypeWins(ops[..|ops| - 1], field, k);
    } else {
      Undeclared(ops[..k], field);
    }
  }

  lemma {:induction false} Undeclared(ops: seq<Op>, field: string)
    requires forall op :: op in ops ==> !Types(op, field)
    ensures field !in Run(ops).fields
    decreases |ops|
  {
    if ops != [] {
      assert ops[|ops| - 1] in ops;
      Undeclared(ops[..|ops| - 1], field);
    }
  }

  /** A dataset has a node exactly when some call mentioned it, with the kind of the first one. */
  lemma {:induction false} FirstKindWins(ops: seq<Op>, dataset: string, k: nat)
    requires k < |ops| && Mentions(ops[k], dataset) && forall j :: 0 <= j < k ==> !Mentions(ops[j], dataset)
    ensures dataset in Run(ops).datasets && Run(ops).datasets[dataset] == KindIn(ops[k])
    decreases |ops|
  {
    if k < |ops| - 1 {
      FirstKindWins(ops[..|ops| - 1], dataset, k);
    } else {
      Unmentioned(ops[..k], dataset);
    }
  }

  lemma {:induction false} Unmentioned(ops: seq<Op>, dataset: string)
    requires forall op :: op in ops ==> !Mentions(op, dataset)
    ensures dataset !in Run(ops).datasets
    decreases |ops|
  {
    if ops != [] {
      assert ops[|ops| - 1] in ops;
      Unmentioned(ops[..|ops| - 1], dataset);
    }
  }

  /** A dataset provides a field exactly when some call declared so; joins never matter. */
  lemma {:induction false} ProvidesExactlyDeclared(ops: seq<Op>, d: string, f: string)
    ensures (d, f) in Run(ops).offers <==> exists t :: AddProvidesField(d, f, t) in ops
    decreases |ops|
  {
    if ops != [] {
      var init, last := ops[..|ops| - 1], ops[|ops| - 1];
      ProvidesExactlyDeclared(init, d, f);
      assert forall op :: op in ops <==> op in init || op == last;
      if last.AddProvidesField? && last.dataset == d && last.field == f {
        assert AddProvidesField(d, f, last.fieldType) in ops;
      }
    }
  }

  /** Any run of calls on a new graph. */
  method Replay(ops: seq<Op>) returns (g: SemanticGraph)
    ensures fresh(g) && g.Valid() && g.catalog == Run(ops)
  {
    g := new SemanticGraph();
    for i := 0 to |ops|
      invariant fresh(g) && g.Valid() && g.catalog == Run(ops[..i])
    {
      assert ops[..i + 1][..i] == ops[..i] && ops[..i + 1][i] == ops[i];
      match ops[i]
      case AddDataset(name, kind) => var _ := g.AddDataset(name, kind);
      case AddField(name, fieldType) => var _ := g.AddField(name, fieldType);
      case AddJoin(from, into, relationship) => g.AddJoin(from, into, relationship);
      case AddProvidesField(dataset, field, fieldType) => g.AddProvidesField(dataset, field, fieldType);
    }
    assert ops[..|ops|] == ops;
  }

  /** After any run, the datasets found for a field are those declared to provide it, and the
      fields found for a dataset are the converse. */
  method ProvidersAfter(ops: seq<Op>, field: string, dataset: string)
    returns (providers: seq<string>, fields: seq<string>)
    ensures forall d :: d in providers <==> exists t :: AddProvidesField(d, field, t) in ops
    ensures forall f :: f in fields <==> exists t :: AddProvidesField(dataset, f, t) in ops
  {
    var g := Replay(ops);
    providers := g.FieldProviders(field);
    fields := g.DatasetFields(dataset);
    forall d { ProvidesExactlyDeclared(ops, d, field); }
    forall f { ProvidesExactlyDeclared(ops, dataset, f); }
  }
}
