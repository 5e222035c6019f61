/**
 The coverage index of an entity: one bit per field and dataset, so that "does this dataset
 cover the requested fields" is a subset test on bit sets instead of lookups by name.
 */
module Coverage {
  import opened Wrappers

  // ---------------------------------------------------------------- column mappings

  datatype MappingValue =
    | Simple(column: string)
    | WithGrain(column: string, grain: Option<string>)
    | Literal(value: string)
    | Anchored(columns: map<string, string>)

  /** An explicit mapping: the entry of each semantic name, in the map's own order. */
  type Entries = seq<(string, MappingValue)>

  predicate DistinctNames(entries: Entries) {
    forall i, j :: 0 <= i < j < |entries| ==> entries[i].0 != entries[j].0
  }

  datatype TemporalMapping = TemporalMapping(column: string, grain: Option<string>)

  datatype ResolvedColumnMapping = ResolvedColumnMapping(
    physical: map<string, string>, literals: map<string, string>,
    temporal: map<string, TemporalMapping>, anchored: map<string, map<string, string>>)
  {
    predicate ContainsKey(name: string) {
      name in physical || name in literals || name in temporal || name in anchored
    }
  }

  /** The name is a key, or a sub-name of an anchored key, of the explicit mapping. */
  predicate IsMapped(entries: Entries, name: string) {
    exists e :: e in entries && EntryMaps(e, name)
  }

  predicate EntryMaps(e: (string, MappingValue), name: string) {
    e.0 == name || (e.1.Anchored? && name in e.1.columns)
  }

  /** An entry gives a physical column to a name: a simple or grained entry to its own, an
      anchored one to each of its sub-names. */
  predicate Gives(e: (string, MappingValue), name: string, column: string) {
    || e == (name, Simple(column))
    || (e.1.WithGrain? && e == (name, WithGrain(column, e.1.grain)))
    || (e.1.Anchored? && name in e.1.columns && e.1.columns[name] == column)
  }

  ghost predicate LastGiver(entries: Entries, k: nat, name: string, column: string) {
    && k < |entries| && Gives(entries[k], name, column)
    && forall j, c :: k < j < |entries| ==> !Gives(entries[j], name, c)
  }

  /** The last entry that gives a name a column decides. */
  ghost predicate IsGiven(entries: Entries, name: string, column: string) {
    exists k: nat :: LastGiver(entries, k, name, column)
  }

  ghost predicate PhysicalIs(entries: Entries, physical: map<string, string>) {
    forall name, column :: IsGiven(entries, name, column) <==> name in physical && physical[name] == column
  }

  ghost predicate LiteralsAre(entries: Entries, literals: map<string, string>) {
    forall name, value :: (name in literals && literals[name] == value) <==> (name, Literal(value)) in entries
  }

  ghost predicate TemporalIs(entries: Entries, temporal: map<string, TemporalMapping>) {
    forall name, column, grain ::
      (name in temporal && temporal[name] == TemporalMapping(column, grain)) <==>
        (name, WithGrain(column, grain)) in entries
  }

  ghost predicate AnchoredIs(entries: Entries, anchored: map<string, map<string, string>>) {
    forall name, columns :: (name in anchored && anchored[name] == columns) <==> (name, Anchored(columns)) in entries
  }

  /** The four maps together say what the explicit mapping says. */
  ghost predicate Resolves(entries: Entries, r: ResolvedColumnMapping) {
    && PhysicalIs(entries, r.physical) && LiteralsAre(entries, r.literals)
    && TemporalIs(entries, r.temporal) && AnchoredIs(entries, r.anchored)
  }

  /** Adds every column of an anchored entry, in any order. */
  method InsertColumns(physical: map<string, string>, columns: map<string, string>) returns (r: map<string, string>)
    ensures r == physical + columns
  {
    r := physical;
    var todo := columns.Keys;
    while todo != {}
      invariant todo <= columns.Keys
      invariant forall n :: n in r <==> n in physical || (n in columns && n !in todo)
      invariant forall n :: n in r ==> r[n] == if n in columns && n !in todo then columns[n] else physical[n]
      decreases todo
    {
      var name :| name in todo;
      r := r[name := columns[name]];
      todo := todo - {name};
    }
  }

  function PhysicalWith(e: (string, MappingValue), physical: map<string, string>): map<string, string> {
    match e.1
    case Simple(column) => physical[e.0 := column]
    case WithGrain(column, _) => physical[e.0 := column]
    case Literal(_) => physical
    case Anchored(columns) => physical + columns
  }

  lemma GivenBefore(entries: Entries, e: (string, MappingValue), k: nat, name: string, column: string)
    requires k < |entries| && forall c :: !Gives(e, name, c)
    ensures LastGiver(entries + [e], k, name, column) <==> LastGiver(entries, k, name, column)
  {
    var all := entries + [e];
    assert forall j :: 0 <= j < |entries| ==> all[j] == entries[j];
    assert all[|entries|] == e;
  }

  lemma GivenStep(entries: Entries, e: (string, MappingValue), name: string, column: string)
    ensures IsGiven(entries + [e], name, column) <==>
            if exists c :: Gives(e, name, c) then Gives(e, name, column) else IsGiven(entries, name, column)
  {
    var all := entries + [e];
    assert all[|entries|] == e;
    if c :| Gives(e, name, c) {
      if Gives(e, name, column) {
        assert LastGiver(all, |entries|, name, column);
      }
    } else {
      if k: nat :| LastGiver(entries, k, name, column) {
        GivenBefore(entries, e, k, name, column);
      }
      if k: nat :| LastGiver(all, k, name, column) {
        GivenBefore(entries, e, k, name, column);
      }
    }
  }

  lemma PhysicalStep(entries: Entries, e: (string, MappingValue), physical: map<string, string>)
    requires PhysicalIs(entries, physical)
    ensures PhysicalIs(entries + [e], PhysicalWith(e, physical))
  {
    forall name, column
      ensures IsGiven(entries + [e], name, column) <==>
              name in PhysicalWith(e, physical) && PhysicalWith(e, physical)[name] == column
    {
      GivenStep(entries, e, name, column);
      EntryGives(e, physical, name, column);
    }
  }

  lemma EntryGives(e: (string, MappingValue), physical: map<string, string>, name: string, column: string)
    ensures (name in PhysicalWith(e, physical) && PhysicalWith(e, physical)[name] == column) <==>
            if exists c :: Gives(e, name, c) then Gives(e, name, column)
            else name in physical && physical[name] == column
  {
    match e.1
    case Simple(c) => assert Gives(e, e.0, c);
    case WithGrain(c, _) => assert Gives(e, e.0, c);
    case Literal(_) =>
    case Anchored(columns) => assert name in columns ==> Gives(e, name, columns[name]);
  }

  /** One more entry, with a name that no earlier entry has. */
  lemma ResolveStep(entries: Entries, e: (string, MappingValue), r: ResolvedColumnMapping)
    requires Resolves(entries, r) && forall o :: o in entries ==> o.0 != e.0
    ensures Resolves(entries + [e], ResolvedColumnMapping(
              PhysicalWith(e, r.physical),
              if e.1.Literal? then r.literals[e.0 := e.1.value] else r.literals,
              if e.1.WithGrain? then r.temporal[e.0 := TemporalMapping(e.1.column, e.1.grain)] else r.temporal,
              if e.1.Anchored? then r.anchored[e.0 := e.1.columns] else r.anchored))
  {
    PhysicalStep(entries, e, r.physical);
  }

  method FromColumnMapping(entries: Entries) returns (r: ResolvedColumnMapping)
    requires DistinctNames(entries)
    ensures Resolves(entries, r)
  {
    var physical: map<string, string>, literals: map<string, string> := map[], map[];
    var temporal: map<string, TemporalMapping>, anchored: map<string, map<string, string>> := map[], map[];
    for i := 0 to |entries|
      invariant Resolves(entries[..i], ResolvedColumnMapping(physical, literals, temporal, anchored))
    {
      ResolveStep(entries[..i], entries[i], ResolvedColumnMapping(physical, literals, temporal, anchored));
      assert entries[..i + 1] == entries[..i] + [entries[i]];
      var (name, value) := entries[i];
      match value
      case Simple(column) =>
        physical := physical[name := column];
      case WithGrain(column, grain) =>
        physical := physical[name := column];
        temporal := temporal[name := TemporalMapping(column, grain)];
      case Literal(text) =>
        literals := literals[name := text];
      case Anchored(columns) =>
        physical := InsertColumns(physical, columns);
        anchored := anchored[name := columns];
    }
    assert entries[..|entries|] == entries;
    r := ResolvedColumnMapping(physical, literals, temporal, anchored);
  }

  ghost predicate SomeGives(entries: Entries, name: string) {
    exists e, c :: e in entries && Gives(e, name, c)
  }

  /** A name has a physical column exactly when some entry gives it one. */
  lemma {:induction false} SomeGiver(entries: Entries, name: string)
    ensures SomeGives(entries, name) <==> exists c :: IsGiven(entries, name, c)
    decreases |entries|
  {
    if entries == [] {
      assert forall k: nat, c :: !LastGiver(entries, k, name, c);
    } else {
      var init, last := entries[..|entries| - 1], entries[|entries| - 1];
      SomeGiver(init, name);
      assert entries == init + [last];
      assert forall e :: e in entries <==> e in init || e == last;
      forall c { GivenStep(init, last, name, c); }
      if c :| Gives(last, name, c) {
        assert IsGiven(entries, name, c);
      } else {
        assert SomeGives(entries, name) <==> SomeGives(init, name);
        if c :| IsGiven(init, name, c) { assert IsGiven(entries, name, c); }
      }
    }
  }

  /** A name is found in the resolved mapping exactly when the explicit mapping maps it. */
  lemma ContainsExactlyMapped(entries: Entries, r: ResolvedColumnMapping, name: string)
    requires Resolves(entries, r)
    ensures r.ContainsKey(name) <==> IsMapped(entries, name)
  {
    if r.ContainsKey(name) {
      KeyIsMapped(entries, r, name);
    }
    if e :| e in entries && EntryMaps(e, name) {
      MappedIsKey(entries, r, e, name);
    }
  }

  lemma MappedIsKey(entries: Entries, r: ResolvedColumnMapping, e: (string, MappingValue), name: string)
    requires Resolves(entries, r) && e in entries && EntryMaps(e, name)
    ensures r.ContainsKey(name)
  {
    assert e.1.Literal? ==> e == (e.0, Literal(e.1.value));
    assert e.1.Anchored? ==> e == (e.0, Anchored(e.1.columns));
    if c :| Gives(e, name, c) {
      assert SomeGives(entries, name);
      SomeGiver(entries, name);
      var column :| IsGiven(entries, name, column);
    } else {
      assert e.1.Simple? || e.1.WithGrain? ==> e.0 == name ==> Gives(e, name, e.1.column);
      assert e.1.Anchored? && name in e.1.columns ==> Gives(e, name, e.1.columns[name]);
    }
  }

  lemma KeyIsMapped(entries: Entries, r: ResolvedColumnMapping, name: string)
    requires Resolves(entries, r) && r.ContainsKey(name)
    ensures IsMapped(entries, name)
  {
    if name in r.physical {
      assert IsGiven(entries, name, r.physical[name]);
      var k: nat :| LastGiver(entries, k, name, r.physical[name]);
      assert EntryMaps(entries[k], name);
    } else {
      var e := if name in r.literals then (name, Literal(r.literals[name]))
               else if name in r.temporal then (name, WithGrain(r.temporal[name].column, r.temporal[name].grain))
               else (name, Anchored(r.anchored[name]));
      assert name in r.temporal ==>
             r.temporal[name] == TemporalMapping(r.temporal[name].column, r.temporal[name].grain);
      assert e in entries && EntryMaps(e, name);
    }
  }

  // ---------------------------------------------------------------- bit sets

  /** A fixed-capacity bit set. */
  datatype Bitset = Bitset(capacity: nat, ones: set<nat>) {
    predicate InRange() {
      forall b :: b in ones ==> b < capacity
    }

    function Insert(bit: nat): Bitset
      requires bit < capacity
    {
      this.(ones := ones + {bit})
    }

    predicate IsSubset(other: Bitset) {
      ones <= other.ones
    }
  }

  // ---------------------------------------------------------------- the index

  datatype Dimension = Dimension(name: string, metadata: bool, computed: bool)

  datatype CoverageIndex = CoverageIndex(
    fieldNames: seq<string>, fieldPositions: map<string, nat>, datasetBitmaps: seq<Bitset>)

  /** A field that a physical column can provide. */
  predicate Mappable(dimensions: seq<Dimension>, measures: seq<string>, name: string) {
    name in measures || exists d :: d in dimensions && d.name == name && !d.metadata && !d.computed
  }

  function MappableDimensions(dimensions: seq<Dimension>): (r: seq<string>)
    ensures forall n :: n in r <==> exists d :: d in dimensions && d.name == n && !d.metadata && !d.computed
  {
    if dimensions == [] then []
    else
      assert forall d :: d in dimensions <==> d == dimensions[0] || d in dimensions[1..];
      (if !dimensions[0].metadata && !dimensions[0].computed then [dimensions[0].name] else [])
      + MappableDimensions(dimensions[1..])
  }

  /** Each name's last position. */
  ghost predicate PositionsOf(names: seq<string>, positions: map<string, nat>) {
    && (forall n :: n in names <==> n in positions)
    && (forall n :: n in positions ==>
          positions[n] < |names| && names[positions[n]] == n && n !in names[positions[n] + 1..])
  }

  ghost predicate BitmapOf(positions: map<string, nat>, capacity: nat, binding: ResolvedColumnMapping, bitmap: Bitset) {
    && bitmap.capacity == capacity && bitmap.InRange()
    && (forall n :: n in positions ==> (positions[n] in bitmap.ones <==> binding.ContainsKey(n)))
  }

  ghost predicate Indexes(idx: CoverageIndex, dimensions: seq<Dimension>, measures: seq<string>,
                          bindings: seq<ResolvedColumnMapping>) {
    && idx.fieldNames == MappableDimensions(dimensions) + measures
    && PositionsOf(idx.fieldNames, idx.fieldPositions)
    && |idx.datasetBitmaps| == |bindings|
    && forall i :: 0 <= i < |bindings| ==>
         BitmapOf(idx.fieldPositions, |idx.fieldNames|, bindings[i], idx.datasetBitmaps[i])
  }

  method BuildPositions(names: seq<string>) returns (positions: map<string, nat>)
    ensures PositionsOf(names, positions)
  {
    positions := map[];
    for i := 0 to |names|
      invariant PositionsOf(names[..i], positions)
    {
      assert names[..i + 1] == names[..i] + [names[i]];
      positions := positions[names[i] := i];
    }
    assert names[..|names|] == names;
  }

  /** One bit for each field the binding maps; the positions are visited in any order. */
  method BuildBitmap(positions: map<string, nat>, capacity: nat, binding: ResolvedColumnMapping)
    returns (bitmap: Bitset)
    requires forall n :: n in positions ==> positions[n] < capacity
    requires forall m, n :: m in positions && n in positions && positions[m] == positions[n] ==> m == n
    ensures BitmapOf(positions, capacity, binding, bitmap)
  {
    bitmap := Bitset(capacity, {});
    var todo := positions.Keys;
    while todo != {}
      invariant todo <= positions.Keys && bitmap.capacity == capacity && bitmap.InRange()
      invariant forall n :: n in positions ==>
        (positions[n] in bitmap.ones <==> n !in todo && binding.ContainsKey(n))
      decreases todo
    {
      var name :| name in todo;
      if binding.ContainsKey(name) {
        bitmap := bitmap.Insert(positions[name]);
      }
      todo := todo - {name};
    }
  }

  method BuildIndex(dimensions: seq<Dimension>, measures: seq<string>, bindings: seq<ResolvedColumnMapping>)
    returns (idx: CoverageIndex)
    ensures Indexes(idx, dimensions, measures, bindings)
  {
    var names := MappableDimensions(dimensions) + measures;
    var positions := BuildPositions(names);
    var bitmaps := [];
    for i := 0 to |bindings|
      invariant |bitmaps| == i
      invariant forall j :: 0 <= j < i ==> BitmapOf(positions, |names|, bindings[j], bitmaps[j])
    {
      var bitmap := BuildBitmap(positions, |names|, bindings[i]);
      bitmaps := bitmaps + [bitmap];
    }
    idx := CoverageIndex(names, positions, bitmaps);
  }

  /** The bits of the requested names that the index knows. */
  method BuildFieldMask(idx: CoverageIndex, names: seq<string>) returns (mask: Bitset)
    requires PositionsOf(idx.fieldNames, idx.fieldPositions)
    ensures mask.capacity == |idx.fieldNames| && mask.InRange()
    ensures forall n :: n in idx.fieldPositions ==> (idx.fieldPositions[n] in mask.ones <==> n in names)
    ensures forall b :: b in mask.ones ==> exists n :: n in idx.fieldPositions && idx.fieldPositions[n] == b
  {
    mask := Bitset(|idx.fieldNames|, {});
    for i := 0 to |names|
      invariant mask.capacity == |idx.fieldNames| && mask.InRange()
      invariant forall n :: n in idx.fieldPositions ==> (idx.fieldPositions[n] in mask.ones <==> n in names[..i])
      invariant forall b :: b in mask.ones ==> exists n :: n in idx.fieldPositions && idx.fieldPositions[n] == b
    {
      assert names[..i + 1] == names[..i] + [names[i]];
      if names[i] in idx.fieldPositions {
        assert idx.fieldPositions[names[i]] < |idx.fieldNames|;
        mask := mask.Insert(idx.fieldPositions[names[i]]);
      }
    }
    assert names[..|names|] == names;
  }

  // ---------------------------------------------------------------- the test

  /** The bits of a request are a subset of a dataset's bits exactly when the dataset's explicit
      mapping maps every requested name that the index knows. */
  method CoversByMask(idx: CoverageIndex, dimensions: seq<Dimension>, measures: seq<string>,
                      ghost mappings: seq<Entries>, bindings: seq<ResolvedColumnMapping>, names: seq<string>, i: nat)
    returns (covers: bool)
    requires Indexes(idx, dimensions, measures, bindings) && |mappings| == |bindings| && i < |bindings|
    requires forall j :: 0 <= j < |bindings| ==> Resolves(mappings[j], bindings[j])
    ensures covers <==> forall n :: n in names && Mappable(dimensions, measures, n) ==> IsMapped(mappings[i], n)
  {
    var mask := BuildFieldMask(idx, names);
    covers := mask.IsSubset(idx.datasetBitmaps[i]);
    forall n { ContainsExactlyMapped(mappings[i], bindings[i], n); }
    assert BitmapOf(idx.fieldPositions, |idx.fieldNames|, bindings[i], idx.datasetBitmaps[i]);
    if covers {
      assert forall n :: n in names && n in idx.fieldPositions ==> idx.fieldPositions[n] in mask.ones;
    }
  }

}
