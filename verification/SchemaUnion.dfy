/** Union of several file schemas, done twice in the repository: for child jobs
    (ckan-ingestor-rs/ckan-worker-coordinator/src/child_merge.rs) and inside the crawler
    (ckan-ingestor-rs/ckan-ingestor-lib/src/readers/crawler_aggregate.rs). */
module SchemaUnion {
  import opened Common

  datatype ColumnType = Utf8 | Other(description: string)

  datatype Column = Column(name: string, dataType: ColumnType, nullable: bool)

  datatype Kind = Kind(dataType: ColumnType, nullable: bool)

  type Schema = seq<Column>

  // ----- The union -----

  function Absorb(fields: map<string, Kind>, c: Column): map<string, Kind> {
    if c.name !in fields then fields[c.name := Kind(c.dataType, true)]
    else if fields[c.name].dataType != c.dataType then fields[c.name := Kind(Utf8, true)]
    else if c.nullable then fields[c.name := fields[c.name].(nullable := true)]
    else fields
  }

  function AbsorbAll(fields: map<string, Kind>, schema: Schema): map<string, Kind> {
    if schema == [] then fields else Absorb(AbsorbAll(fields, schema[..|schema| - 1]), schema[|schema| - 1])
  }

  /** All columns of all children, in the order they are visited. */
  function Columns(schemas: seq<Schema>): Schema {
    if schemas == [] then [] else Columns(schemas[..|schemas| - 1]) + schemas[|schemas| - 1]
  }

  function UnionOf(schemas: seq<Schema>): map<string, Kind> { AbsorbAll(map[], Columns(schemas)) }

  /** Every column of that name has this type. */
  ghost predicate Uniform(columns: Schema, name: string, t: ColumnType) {
    forall c :: c in columns && c.name == name ==> c.dataType == t
  }

  /** The least type above all columns of a name: their common type, or text. */
  ghost predicate JoinOf(columns: Schema, name: string, k: Kind) {
    && k.nullable
    && (exists c :: c in columns && c.name == name)
    && (if exists t :: Uniform(columns, name, t) then Uniform(columns, name, k.dataType) else k.dataType == Utf8)
  }

  lemma {:induction false} UnionIsJoin(columns: Schema, name: string)
    ensures var u := AbsorbAll(map[], columns);
            && (name in u <==> exists c :: c in columns && c.name == name)
            && (name in u ==> JoinOf(columns, name, u[name]))
  {
    if columns != [] {
      var before, c := columns[..|columns| - 1], columns[|columns| - 1];
      assert columns == before + [c];
      UnionIsJoin(before, name);
      var u := AbsorbAll(map[], before);
      if c.name == name {
        assert c in columns;
        if name in u {
          JoinNext(before, c, u[name]);
        } else {
          assert Uniform(columns, name, c.dataType);
        }
      } else if name in u {
        JoinOther(before, c, name, u[name]);
      }
    }
  }

  lemma JoinNext(before: Schema, c: Column, k: Kind)
    requires JoinOf(before, c.name, k)
    ensures JoinOf(before + [c], c.name, if k.dataType != c.dataType then Kind(Utf8, true) else k)
  {
    var all := before + [c];
    var b :| b in before && b.name == c.name;
    assert b in all && c in all;
    if exists t :: Uniform(all, c.name, t) {
      var t :| Uniform(all, c.name, t);
      assert Uniform(before, c.name, t);
    } else if k.dataType == c.dataType && Uniform(before, c.name, k.dataType) {
      assert Uniform(all, c.name, k.dataType);
    }
  }

  lemma JoinOther(before: Schema, c: Column, name: string, k: Kind)
    requires JoinOf(before, name, k) && c.name != name
    ensures JoinOf(before + [c], name, k)
  {
    var all := before + [c];
    var b :| b in before && b.name == name;
    assert b in all;
    forall t ensures Uniform(before, name, t) <==> Uniform(all, name, t) {}
  }

  lemma JoinUnique(a: Schema, b: Schema, name: string, k: Kind, l: Kind)
    requires forall c :: c in a <==> c in b
    requires JoinOf(a, name, k) && JoinOf(b, name, l)
    ensures k == l
  {
    var c :| c in a && c.name == name;
    forall t ensures Uniform(a, name, t) <==> Uniform(b, name, t) {}
  }

  lemma {:induction false} ColumnsMember(schemas: seq<Schema>, c: Column)
    ensures c in Columns(schemas) <==> exists s :: s in schemas && c in s
  {
    if schemas != [] {
      var n := |schemas| - 1;
      assert schemas == schemas[..n] + [schemas[n]];
      ColumnsMember(schemas[..n], c);
    }
  }

  /** The union does not depend on the order or on repetitions of the children. */
  lemma UnionIgnoresOrder(a: seq<Schema>, b: seq<Schema>)
    requires forall s :: s in a <==> s in b
    ensures UnionOf(a) == UnionOf(b)
  {
    forall c ensures c in Columns(a) <==> c in Columns(b) {
      ColumnsMember(a, c);
      ColumnsMember(b, c);
    }
    forall name ensures name in UnionOf(a) <==> name in UnionOf(b)
                ensures name in UnionOf(a) ==> UnionOf(a)[name] == UnionOf(b)[name] {
      UnionIsJoin(Columns(a), name);
      UnionIsJoin(Columns(b), name);
      if name in UnionOf(a) { JoinUnique(Columns(a), Columns(b), name, UnionOf(a)[name], UnionOf(b)[name]); }
    }
  }

  /** Each column of each child keeps its type or becomes text. */
  lemma ColumnsWiden(schemas: seq<Schema>, schema: Schema, c: Column)
    requires schema in schemas && c in schema
    ensures c.name in UnionOf(schemas) && UnionOf(schemas)[c.name].dataType in {c.dataType, Utf8}
  {
    ColumnsMember(schemas, c);
    UnionIsJoin(Columns(schemas), c.name);
    var k := UnionOf(schemas)[c.name];
    if t :| Uniform(Columns(schemas), c.name, t) {
      assert k.dataType == c.dataType;
    }
  }

  lemma {:induction false} AbsorbSplit(fields: map<string, Kind>, a: Schema, b: Schema)
    ensures AbsorbAll(fields, a + b) == AbsorbAll(AbsorbAll(fields, a), b)
  {
    if b == [] {
      assert a + b == a;
    } else {
      assert (a + b)[..|a + b| - 1] == a + b[..|b| - 1];
      AbsorbSplit(fields, a, b[..|b| - 1]);
    }
  }

  lemma UnionNext(schemas: seq<Schema>, schema: Schema)
    ensures UnionOf(schemas + [schema]) == AbsorbAll(UnionOf(schemas), schema)
  {
    assert (schemas + [schema])[..|schemas|] == schemas;
    AbsorbSplit(map[], Columns(schemas), schema);
  }

  method AddSchema(fields: map<string, Kind>, schema: Schema) returns (next: map<string, Kind>)
    ensures next == AbsorbAll(fields, schema)
  {
    next := fields;
    var i := 0;
    while i < |schema|
      invariant 0 <= i <= |schema| && next == AbsorbAll(fields, schema[..i])
    {
      assert schema[..i + 1][..i] == schema[..i];
      var c := schema[i];
      if c.name in next {
        if next[c.name].dataType != c.dataType {
          next := next[c.name := Kind(Utf8, true)];
        } else if c.nullable {
          next := next[c.name := next[c.name].(nullable := true)];
        }
      } else {
        next := next[c.name := Kind(c.dataType, true)];
      }
      i := i + 1;
    }
    assert schema[..i] == schema;
  }

  // ----- The column that names the source file -----

  function SourceName(k: nat): string {
    if k == 0 then "__source_file" else "__source_file_" + Decimal(k)
  }

  lemma SourceNamesDiffer()
    ensures AllDifferent(SourceName)
  {
    forall i: nat, j: nat | i < j ensures SourceName(i) != SourceName(j) {
      if i == 0 {
        assert |SourceName(j)| > |SourceName(0)|;
      } else if SourceName(i) == SourceName(j) {
        assert SourceName(i)[14..] == Decimal(i) && SourceName(j)[14..] == Decimal(j);
        DecimalInjective(i, j);
      }
    }
  }

  /** The first unused name; the search makes at most one try more than there are fields. */
  method FreshSourceName(fields: map<string, Kind>) returns (name: string, ghost k: nat)
    ensures name == SourceName(k) && name !in fields && k <= |fields.Keys|
    ensures forall j: nat :: j < k ==> SourceName(j) in fields
    ensures k == 0 ==> name == "__source_file"
    ensures k > 0 ==> name == "__source_file_" + Decimal(k) && "__source_file" in fields
                      && forall n: nat :: 1 <= n < k ==> "__source_file_" + Decimal(n) in fields
  {
    SourceNamesDiffer();
    name, k := SourceName(0), 0;
    var index := 1;
    while name in fields
      invariant index == k + 1 && name == SourceName(k)
      invariant Tried(SourceName, k) <= fields.Keys
      decreases fields.Keys - Tried(SourceName, k)
    {
      TriedHolds(SourceName, k);
      name := "__source_file_" + Decimal(index);
      index := index + 1;
      k := k + 1;
    }
    TriedHolds(SourceName, k);
    forall j: nat | j < k ensures SourceName(j) in fields { assert SourceName(j) in Tried(SourceName, k); }
    TriesBounded(SourceName, k, fields.Keys);
    if k > 0 { assert SourceName(0) in fields; }
    forall n: nat | 1 <= n < k ensures "__source_file_" + Decimal(n) in fields { assert SourceName(n) in fields; }
  }

  // ----- Geographic metadata -----

  /** All files plain, or all geographic with the same metadata. */
  predicate Compatible(geos: seq<Option<string>>) {
    forall i :: 0 <= i < |geos| ==> geos[i] == geos[0]
  }

  // ----- Rows -----

  /** A value with its type and its text, or nothing. */
  datatype Cell = Empty | Cell(dataType: ColumnType, text: string)

  type InRow = map<string, Cell>

  datatype File = File(schema: Schema, geo: Option<string>, batches: seq<seq<InRow>>, source: string)

  /** Arrow's cast of whole arrays: the types decide whether there is one, and a value that it cannot take becomes
      nothing. */
  datatype Cast = Cast(supports: (ColumnType, ColumnType) -> bool, value: (Cell, ColumnType) -> Option<string>)

  /** Same type unchanged, else a cast, else the displayed text; only text accepts everything. All values of a column
      have one type, so they all take the same way. */
  function Convert(cell: Cell, target: ColumnType, cast: Cast): Option<Cell> {
    if cell.Empty? then Some(Empty)
    else if cell.dataType == target then Some(cell)
    else if cast.supports(cell.dataType, target) then
      match cast.value(cell, target)
      case None => Some(Empty)
      case Some(text) => Some(Cell(target, text))
    else if target == Utf8 then Some(Cell(Utf8, cell.text))
    else None
  }

  datatype Target = Target(name: string, dataType: ColumnType, fixed: Option<string>)

  /** One output value: a fixed text, the converted input, or nothing for a missing column. */
  function OutCell(t: Target, row: InRow, cast: Cast): Option<Cell> {
    if t.fixed.Some? then Some(Cell(Utf8, t.fixed.value))
    else if t.name in row then Convert(row[t.name], t.dataType, cast)
    else Some(Empty)
  }

  ghost predicate RowConforms(row: InRow, schema: Schema) {
    forall name :: name in row ==>
      exists c :: c in schema && c.name == name && (row[name].Empty? || row[name].dataType == c.dataType)
  }

  ghost predicate FileConforms(f: File) {
    forall b, r :: 0 <= b < |f.batches| && 0 <= r < |f.batches[b]| ==> RowConforms(f.batches[b][r], f.schema)
  }

  /** A target that takes every value of the file. */
  ghost predicate Accepts(t: Target, schema: Schema) {
    t.fixed.Some? || forall c :: c in schema && c.name == t.name ==> t.dataType in {c.dataType, Utf8}
  }

  /** The value of one output column: the fixed text, nothing for a column or a value that is not there, the value itself if
      it has the type of the column, what the cast makes of it if there is one, and else its text. */
  predicate Becomes(out: Cell, fixed: Option<string>, name: string, dataType: ColumnType, row: InRow, cast: Cast) {
    && (fixed.Some? ==> out == Cell(Utf8, fixed.value))
    && (fixed.None? && (name !in row || row[name].Empty?) ==> out == Empty)
    && (fixed.None? && name in row && row[name].Cell? ==>
          var value := row[name];
          && (value.dataType == dataType ==> out == value)
          && (value.dataType != dataType && cast.supports(value.dataType, dataType) ==>
                out == (if cast.value(value, dataType).Some? then Cell(dataType, cast.value(value, dataType).value) else Empty))
          && (value.dataType != dataType && !cast.supports(value.dataType, dataType) ==> dataType == Utf8 && out == Cell(Utf8, value.text)))
  }

  /** What `OutCell` gives is this value. */
  lemma OutCellBecomes(t: Target, row: InRow, cast: Cast)
    ensures OutCell(t, row, cast).Some? ==> Becomes(OutCell(t, row, cast).value, t.fixed, t.name, t.dataType, row, cast)
  {}

  ghost predicate RowOut(out: seq<Cell>, targets: seq<Target>, row: InRow, cast: Cast) {
    |out| == |targets| && forall t :: 0 <= t < |targets| ==>
      Becomes(out[t], targets[t].fixed, targets[t].name, targets[t].dataType, row, cast)
  }

  ghost predicate RowsOut(outs: seq<seq<Cell>>, targets: seq<Target>, rows: seq<InRow>, cast: Cast) {
    |outs| == |rows| && forall r :: 0 <= r < |rows| ==> RowOut(outs[r], targets, rows[r], cast)
  }

  lemma AcceptedConverts(t: Target, row: InRow, schema: Schema, cast: Cast)
    requires RowConforms(row, schema) && Accepts(t, schema)
    ensures OutCell(t, row, cast).Some?
  {
    if t.fixed.None? && t.name in row {
      var c :| c in schema && c.name == t.name && (row[t.name].Empty? || row[t.name].dataType == c.dataType);
    }
  }

  method WriteRow(targets: seq<Target>, row: InRow, cast: Cast, ghost schema: Schema) returns (out: seq<Cell>)
    requires RowConforms(row, schema) && forall t :: t in targets ==> Accepts(t, schema)
    ensures RowOut(out, targets, row, cast)
  {
    out := [];
    var t := 0;
    while t < |targets|
      invariant 0 <= t <= |targets| && |out| == t
      invariant forall u :: 0 <= u < t ==> Becomes(out[u], targets[u].fixed, targets[u].name, targets[u].dataType, row, cast)
    {
      assert targets[t] in targets;
      AcceptedConverts(targets[t], row, schema, cast);
      OutCellBecomes(targets[t], row, cast);
      out := out + [OutCell(targets[t], row, cast).value];
      t := t + 1;
    }
  }

  /** Rewrites a file batch by batch: the conversion never fails and no row is lost or added. */
  method WriteFile(f: File, targets: seq<Target>, cast: Cast) returns (outs: seq<seq<Cell>>)
    requires FileConforms(f) && forall t :: t in targets ==> Accepts(t, f.schema)
    ensures RowsOut(outs, targets, Flatten(f.batches), cast)
  {
    outs := [];
    var b := 0;
    while b < |f.batches|
      invariant 0 <= b <= |f.batches|
      invariant RowsOut(outs, targets, Flatten(f.batches[..b]), cast)
    {
      var batch := f.batches[b];
      assert f.batches[..b + 1][..b] == f.batches[..b];
      ghost var done := outs;
      var r := 0;
      while r < |batch|
        invariant 0 <= r <= |batch|
        invariant RowsOut(outs, targets, Flatten(f.batches[..b]) + batch[..r], cast)
      {
        var out := WriteRow(targets, batch[r], cast, f.schema);
        assert batch[..r + 1] == batch[..r] + [batch[r]];
        assert Flatten(f.batches[..b]) + batch[..r + 1] == Flatten(f.batches[..b]) + batch[..r] + [batch[r]];
        outs := outs + [out];
        r := r + 1;
      }
      assert batch[..r] == batch;
      b := b + 1;
    }
    assert f.batches[..b] == f.batches;
  }

  /** The columns of the merged schema in name order. */
  ghost function Merged(fields: map<string, Kind>): Schema {
    var names := Ordered(fields.Keys);
    OrderedLists(fields.Keys);
    seq(|names|, i requires 0 <= i < |names| => (assert names[i] in names; Column(names[i], fields[names[i]].dataType, fields[names[i]].nullable)))
  }

  /** Each column once, in name order, with its type. */
  lemma MergedExact(fields: map<string, Kind>)
    ensures forall i, j :: 0 <= i < j < |Merged(fields)| ==> StrLess(Merged(fields)[i].name, Merged(fields)[j].name)
    ensures forall c :: c in Merged(fields) <==> c.name in fields && c.dataType == fields[c.name].dataType && c.nullable == fields[c.name].nullable
  {
    var names, columns := Ordered(fields.Keys), Merged(fields);
    OrderedLists(fields.Keys);
    forall i, j | 0 <= i < j < |columns| ensures StrLess(columns[i].name, columns[j].name) {
      assert columns[i].name == names[i] && columns[j].name == names[j];
    }
    forall c ensures c in columns <==> c.name in fields && c.dataType == fields[c.name].dataType && c.nullable == fields[c.name].nullable {
      if c in columns {
        var i :| 0 <= i < |columns| && columns[i] == c;
        assert names[i] in names;
      }
      if c.name in fields {
        assert c.name in names;
        var i :| 0 <= i < |names| && names[i] == c.name;
        assert columns[i].name == c.name;
      }
    }
  }

  method MergedColumns(fields: map<string, Kind>) returns (columns: Schema)
    ensures columns == Merged(fields)
  {
    var names := ListOrdered(fields.Keys);
    OrderedLists(fields.Keys);
    columns := [];
    var i := 0;
    while i < |names|
      invariant 0 <= i <= |names| && |columns| == i
      invariant forall j :: 0 <= j < i ==> columns[j] == Merged(fields)[j]
    {
      assert names[i] in names;
      columns := columns + [Column(names[i], fields[names[i]].dataType, fields[names[i]].nullable)];
      i := i + 1;
    }
  }

  /** What a union says about the values of one of its files. */
  lemma UnionAccepts(schemas: seq<Schema>, schema: Schema, t: Target)
    requires schema in schemas
    requires t.fixed.None? ==> t.name in UnionOf(schemas) && t.dataType == UnionOf(schemas)[t.name].dataType
    ensures Accepts(t, schema)
  {
    if t.fixed.None? {
      forall c | c in schema && c.name == t.name ensures t.dataType in {c.dataType, Utf8} { ColumnsWiden(schemas, schema, c); }
    }
  }
}
