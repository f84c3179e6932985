/** Import of discovered snapshots into the lake catalogue (analytics/catalog_ingestion.py) and the path
    walk of its publication (analytics/publish_lake_snapshot.py). */
module CatalogIngestion {
  import opened Common
  import ResourceForest

  /** One discovered record. `fallbackTitle` is the title derived from metadata or address, `body` the other columns. */
  datatype Record = Record(
    id: string, sourceId: Option<string>, parent: Option<string>, title: string, fallbackTitle: string,
    version: Option<string>, collection: Option<string>, body: string)

  datatype Snapshot = Snapshot(source: string, sync: string, at: int, zoned: bool, records: seq<Record>)

  datatype Row = Row(
    parent: Option<string>, title: string, version: Option<string>, collection: Option<string>, body: string,
    status: string, deleted: bool)

  datatype RawRow = RawRow(parent: Option<string>, body: string, sync: string, at: int)

  datatype Import = Import(sync: string, at: int)

  /** Everything the lake keeps about one source. */
  datatype SourceState = SourceState(
    rows: map<string, Row>, declared: set<string>, raw: map<string, map<string, RawRow>>, imports: set<Import>)

  // ----- Validation -----

  function Or(a: string, b: string): string { if a == "" then b else a }

  function ParentName(p: Option<string>): string { if p.Some? then p.value else "" }

  function ById(records: seq<Record>): map<string, Record> {
    if records == [] then map[] else ById(records[..|records| - 1])[records[|records| - 1].id := records[|records| - 1]]
  }

  ghost function SnapshotParents(records: seq<Record>): ResourceForest.Parents {
    map id | id in ById(records) :: ParentName(ById(records)[id].parent)
  }

  ghost predicate Identified(records: seq<Record>, source: string) {
    && (forall i :: 0 <= i < |records| ==> records[i].id != "" && (records[i].sourceId.None? || records[i].sourceId.value == source))
    && (forall i, j :: 0 <= i < j < |records| ==> records[i].id != records[j].id)
  }

  lemma RecordRefused(records: seq<Record>, i: nat, source: string)
    requires i < |records|
    requires records[i].id == "" || (records[i].sourceId.Some? && records[i].sourceId.value != source)
             || exists j :: 0 <= j < i && records[..i][j].id == records[i].id
    ensures !Identified(records, source)
  {
    if exists j :: 0 <= j < i && records[..i][j].id == records[i].id {
      var j :| 0 <= j < i && records[..i][j].id == records[i].id;
      assert records[j].id == records[i].id;
    }
  }

  /** `[a-z][a-z0-9_]*`, and not one of the catalogue's own tables. */
  predicate CollectionName(name: string) {
    && name != "" && 'a' <= name[0] <= 'z'
    && (forall i :: 0 <= i < |name| ==> 'a' <= name[i] <= 'z' || '0' <= name[i] <= '9' || name[i] == '_')
    && !("catalog_" <= name)
  }

  function DeclaredBy(records: seq<Record>): set<string> {
    set r | r in records && r.collection.Some? && r.collection.value != "" :: r.collection.value
  }

  /** The checks made before the transaction starts. */
  ghost predicate WellFormed(s: Snapshot) {
    && s.source != "" && s.sync != "" && s.zoned
    && Identified(s.records, s.source)
    && ResourceForest.Forest(SnapshotParents(s.records))
  }

  ghost predicate Acceptable(s: Snapshot) {
    && WellFormed(s)
    && (forall name :: name in DeclaredBy(s.records) ==> CollectionName(name))
  }

  lemma {:induction false} ByIdHolds(records: seq<Record>, id: string)
    ensures id in ById(records) <==> exists i :: 0 <= i < |records| && records[i].id == id
    ensures id in ById(records) ==> ById(records)[id] in records && ById(records)[id].id == id
  {
    if records != [] {
      var n := |records| - 1;
      assert records == records[..n] + [records[n]];
      ByIdHolds(records[..n], id);
    }
  }

  // ----- The effect of one snapshot on its source -----

  function RowFor(prev: map<string, Row>, r: Record): Row {
    var status :=
      if r.id in prev && prev[r.id].version == r.version && !prev[r.id].deleted then Or(prev[r.id].status, "discovered")
      else "discovered";
    Row(r.parent, Or(r.title, r.fallbackTitle), r.version, r.collection, r.body, status, false)
  }

  function CurrentRows(prev: map<string, Row>, records: seq<Record>): map<string, Row> {
    if records == [] then map[]
    else CurrentRows(prev, records[..|records| - 1])[records[|records| - 1].id := RowFor(prev, records[|records| - 1])]
  }

  function MergedRows(prev: map<string, Row>, records: seq<Record>): map<string, Row> {
    CurrentRows(prev, records)
      + map id | id in prev && id !in ById(records).Keys :: prev[id].(deleted := true, status := "deleted")
  }

  lemma {:induction false} CurrentRowsHold(prev: map<string, Row>, records: seq<Record>, id: string)
    ensures id in CurrentRows(prev, records) <==> id in ById(records)
    ensures id in ById(records) ==> CurrentRows(prev, records)[id] == RowFor(prev, ById(records)[id]) && ById(records)[id].id == id
  {
    if records != [] { CurrentRowsHold(prev, records[..|records| - 1], id); }
  }

  /** What a current row takes from its record; a title that is absent gives way to the one derived. */
  predicate ListedAs(row: Row, r: Record) {
    && row.parent == r.parent && row.version == r.version && row.collection == r.collection && row.body == r.body
    && row.title == (if r.title != "" then r.title else r.fallbackTitle) && !row.deleted
  }

  /** A status is kept by an import that brings the same version of a live row. */
  predicate StatusKept(status: string, prev: map<string, Row>, r: Record) {
    if r.id in prev && prev[r.id].version == r.version && !prev[r.id].deleted && prev[r.id].status != "" then status == prev[r.id].status
    else status == "discovered"
  }

  /** Listed resources become current rows, the others keep their fields and turn into tombstones. */
  lemma MergedRow(prev: map<string, Row>, records: seq<Record>, id: string)
    ensures id in MergedRows(prev, records) <==> id in prev || id in ById(records)
    ensures id in ById(records) ==>
              var row, r := MergedRows(prev, records)[id], ById(records)[id];
              r.id == id && ListedAs(row, r) && StatusKept(row.status, prev, r)
    ensures id in prev && id !in ById(records) ==> MergedRows(prev, records)[id] == prev[id].(deleted := true, status := "deleted")
  {
    CurrentRowsHold(prev, records, id);
  }

  function RawRows(s: Snapshot, name: string): map<string, RawRow> {
    map id | id in ById(s.records) && ById(s.records)[id].collection == Some(name) ::
      RawRow(ById(s.records)[id].parent, ById(s.records)[id].body, s.sync, s.at)
  }

  predicate Refused(imports: set<Import>, s: Snapshot) {
    exists i :: i in imports && (i.sync == s.sync || i.at >= s.at)
  }

  function Replaced(st: SourceState, s: Snapshot): SourceState {
    var declared := st.declared + DeclaredBy(s.records);
    SourceState(MergedRows(st.rows, s.records), declared,
                map name | name in declared :: RawRows(s, name), st.imports + {Import(s.sync, s.at)})
  }

  ghost function Ingested(st: SourceState, s: Snapshot): SourceState {
    if !Acceptable(s) || Refused(st.imports, s) then st else Replaced(st, s)
  }

  // ----- What an import leaves, field by field -----

  ghost predicate Lists(s: Snapshot, id: string) { exists r :: r in s.records && r.id == id }

  /** The rows of one collection: those of the records that name it. */
  ghost predicate CollectionOf(raw: map<string, RawRow>, s: Snapshot, name: string) {
    && (forall id :: id in raw <==> exists r :: r in s.records && r.id == id && r.collection == Some(name))
    && (forall r :: r in s.records && r.id in raw ==>
          raw[r.id].parent == r.parent && raw[r.id].body == r.body && raw[r.id].sync == s.sync && raw[r.id].at == s.at)
  }

  ghost predicate NamesCollection(s: Snapshot, name: string) {
    name != "" && exists r :: r in s.records && r.collection == Some(name)
  }

  /** The state after an import: current rows, tombstones that keep their fields, every collection ever declared filled
      anew, and the import noted. */
  ghost predicate Imports(st: SourceState, s: Snapshot, after: SourceState) {
    && (forall id :: id in after.rows <==> id in st.rows || Lists(s, id))
    && (forall r :: r in s.records ==> ListedAs(after.rows[r.id], r) && StatusKept(after.rows[r.id].status, st.rows, r))
    && (forall id :: id in st.rows && !Lists(s, id) ==> after.rows[id] == st.rows[id].(deleted := true, status := "deleted"))
    && (forall name :: name in after.declared <==> name in st.declared || NamesCollection(s, name))
    && after.raw.Keys == after.declared && (forall name :: name in after.raw ==> CollectionOf(after.raw[name], s, name))
    && after.imports == st.imports + {Import(s.sync, s.at)}
  }

  /** Identifiers that are not repeated name their record. */
  lemma OwnRecord(s: Snapshot, r: Record)
    requires Identified(s.records, s.source) && r in s.records
    ensures r.id in ById(s.records) && ById(s.records)[r.id] == r
  {
    ByIdHolds(s.records, r.id);
    var i :| 0 <= i < |s.records| && s.records[i] == r;
    var j :| 0 <= j < |s.records| && s.records[j] == ById(s.records)[r.id];
  }

  lemma ListsById(s: Snapshot, id: string)
    ensures Lists(s, id) <==> id in ById(s.records)
  {
    ByIdHolds(s.records, id);
  }

  lemma RawRowsExact(s: Snapshot, name: string)
    requires Identified(s.records, s.source)
    ensures CollectionOf(RawRows(s, name), s, name)
  {
    var raw := RawRows(s, name);
    forall id ensures id in raw <==> exists r :: r in s.records && r.id == id && r.collection == Some(name) {
      ByIdHolds(s.records, id);
      forall r | r in s.records && r.id == id ensures id in ById(s.records) && ById(s.records)[id] == r { OwnRecord(s, r); }
    }
    forall r | r in s.records && r.id in raw
      ensures raw[r.id].parent == r.parent && raw[r.id].body == r.body && raw[r.id].sync == s.sync && raw[r.id].at == s.at
    {
      OwnRecord(s, r);
    }
  }

  lemma RowsExactly(prev: map<string, Row>, s: Snapshot)
    requires Identified(s.records, s.source)
    ensures var rows := MergedRows(prev, s.records);
            && (forall id :: id in rows <==> id in prev || Lists(s, id))
            && (forall r :: r in s.records ==> r.id in rows && ListedAs(rows[r.id], r) && StatusKept(rows[r.id].status, prev, r))
            && (forall id :: id in prev && !Lists(s, id) ==> rows[id] == prev[id].(deleted := true, status := "deleted"))
  {
    var rows := MergedRows(prev, s.records);
    forall id
      ensures id in rows <==> id in prev || Lists(s, id)
      ensures id in prev && !Lists(s, id) ==> rows[id] == prev[id].(deleted := true, status := "deleted")
    {
      MergedRow(prev, s.records, id);
      ListsById(s, id);
    }
    forall r | r in s.records ensures r.id in rows && ListedAs(rows[r.id], r) && StatusKept(rows[r.id].status, prev, r) {
      OwnRecord(s, r);
      MergedRow(prev, s.records, r.id);
    }
  }

  lemma ReplacedImports(st: SourceState, s: Snapshot)
    requires Identified(s.records, s.source)
    ensures Imports(st, s, Replaced(st, s))
  {
    var after := Replaced(st, s);
    RowsExactly(st.rows, s);
    forall name | name in after.raw ensures CollectionOf(after.raw[name], s, name) { RawRowsExact(s, name); }
    forall name ensures name in DeclaredBy(s.records) <==> NamesCollection(s, name) {}
  }

  // ----- The lake -----

  /** A table, its rows grouped by their `source_id` column and identified within a source. */
  type Table<V> = map<string, map<string, V>>

  function Selected<V>(table: Table<V>, source: string): map<string, V> {
    if source in table then table[source] else map[]
  }

  datatype Verdict = Imported | Skipped | Raised

  class Lake {
    var resources: Table<Row>
    var declared: map<string, set<string>>
    var raw: map<string, Table<RawRow>>
    var imports: map<string, set<Import>>

    constructor ()
      ensures resources == map[] && declared == map[] && raw == map[] && imports == map[]
    {
      resources, declared, raw, imports := map[], map[], map[], map[];
    }

    function NamesOf(source: string): set<string>
      reads this`declared
    {
      if source in declared then declared[source] else {}
    }

    function ImportsOf(source: string): set<Import>
      reads this`imports
    {
      if source in imports then imports[source] else {}
    }

    function RawOf(source: string, name: string): map<string, RawRow>
      reads this`raw
    {
      if name in raw then Selected(raw[name], source) else map[]
    }

    ghost function Of(source: string): SourceState
      reads this
    {
      SourceState(Selected(resources, source), NamesOf(source),
                  map name | name in NamesOf(source) :: RawOf(source, name), ImportsOf(source))
    }

    method CheckSnapshot(s: Snapshot) returns (ok: bool)
      ensures ok <==> WellFormed(s)
    {
      if s.source == "" || s.sync == "" || !s.zoned {
        return false;
      }
      var parents;
      ok, parents := CheckRecords(s.records, s.source);
      if ok {
        ok := CheckTree(s.records, parents);
      }
    }

    /** The identifiers of the records, and their parents. */
    static method CheckRecords(records: seq<Record>, source: string) returns (ok: bool, parents: map<string, Option<string>>)
      ensures ok <==> Identified(records, source)
      ensures ok ==> parents == map id | id in ById(records) :: ById(records)[id].parent
    {
      var i := 0;
      parents := map[];
      while i < |records|
        invariant 0 <= i <= |records| && Identified(records[..i], source)
        invariant parents == map id | id in ById(records[..i]) :: ById(records[..i])[id].parent
      {
        var r := records[i];
        assert records[..i + 1][..i] == records[..i];
        ByIdHolds(records[..i], r.id);
        if r.id == "" || r.id in parents || (r.sourceId.Some? && r.sourceId.value != source) {
          RecordRefused(records, i, source);
          return false, parents;
        }
        parents := parents[r.id := r.parent];
        i := i + 1;
      }
      assert records[..i] == records;
      return true, parents;
    }

    /** The walk from every resource, in the order of the records, with a shared visited set. */
    method CheckTree(records: seq<Record>, parents: map<string, Option<string>>) returns (ok: bool)
      requires parents == map id | id in ById(records) :: ById(records)[id].parent
      requires forall i :: 0 <= i < |records| ==> records[i].id != ""
      ensures ok <==> ResourceForest.Forest(SnapshotParents(records))
    {
      ghost var p := SnapshotParents(records);
      var visited: set<string> := {};
      var i := 0;
      while i < |records|
        invariant 0 <= i <= |records|
        invariant forall id :: id in visited ==> ResourceForest.Rooted(p, id)
        invariant forall j :: 0 <= j < i ==> ResourceForest.Rooted(p, records[j].id)
      {
        var path: set<string> := {};
        var key := Some(records[i].id);
        ByIdHolds(records, records[i].id);
        while key.Some? && key.value != "" && key.value !in visited
          invariant path <= parents.Keys
          invariant ResourceForest.Rooted(p, records[i].id) <==> ResourceForest.Rooted(p, ParentName(key))
          invariant forall x :: x in path ==> (ResourceForest.Rooted(p, x) <==> ResourceForest.Rooted(p, ParentName(key)))
          invariant forall x :: x in path ==> ResourceForest.Below(p, x, ParentName(key))
          decreases parents.Keys - path
        {
          var node := key.value;
          if node !in parents || node in path {
            if node in parents { ResourceForest.CycleNeverRooted(p, node); }
            return false;
          }
          ResourceForest.RootedStep(p, node);
          forall x | x in path || x == node ensures ResourceForest.Below(p, x, p[node]) { ResourceForest.BelowStep(p, x, node); }
          path := path + {node};
          key := parents[node];
        }
        ResourceForest.RootMarkerRooted(p);
        visited := visited + path;
        i := i + 1;
      }
      forall id | id in p ensures ResourceForest.Rooted(p, id) { ByIdHolds(records, id); }
      return true;
    }

    /** `ingest_snapshot`: one transaction that replaces what the source has. */
    method IngestSnapshot(s: Snapshot) returns (verdict: Verdict)
      modifies this
      ensures Of(s.source) == Ingested(old(Of(s.source)), s)
      ensures forall other :: other != s.source ==> Of(other) == old(Of(other))
      ensures verdict == if !WellFormed(s) then Raised
                         else if Refused(old(ImportsOf(s.source)), s) then Skipped
                         else if !Acceptable(s) then Raised else Imported
      ensures verdict.Imported? ==> Imports(old(Of(s.source)), s, Of(s.source))
      ensures !verdict.Imported? ==> Of(s.source) == old(Of(s.source))
    {
      var ok := CheckSnapshot(s);
      if !ok {
        return Raised;
      }
      if Refused(ImportsOf(s.source), s) {
        return Skipped;
      }
      if exists name :: name in DeclaredBy(s.records) && !CollectionName(name) {
        return Raised;
      }
      Commit(s);
      ReplacedImports(old(Of(s.source)), s);
      return Imported;
    }

    /** The body of the transaction. */
    method Commit(s: Snapshot)
      modifies this
      ensures Of(s.source) == Replaced(old(Of(s.source)), s)
      ensures forall other :: other != s.source ==> Of(other) == old(Of(other))
    {
      var current := BuildRows(Selected(resources, s.source), s.records);
      var names := NamesOf(s.source) + DeclaredBy(s.records);
      ReplaceRaw(s, names);
      RecordTables(s, current, names);
      OfReplaced(s);
      forall other | other != s.source ensures Of(other) == old(Of(other)) {
        OfUnchanged(other);
      }
    }

    /** The tables with one entry for the whole source. */
    method RecordTables(s: Snapshot, current: map<string, Row>, names: set<string>)
      modifies this`resources, this`declared, this`imports
      ensures Selected(resources, s.source) == current && NamesOf(s.source) == names
      ensures ImportsOf(s.source) == old(ImportsOf(s.source)) + {Import(s.sync, s.at)}
      ensures forall other :: other != s.source ==> Selected(resources, other) == old(Selected(resources, other))
      ensures forall other :: other != s.source ==> NamesOf(other) == old(NamesOf(other)) && ImportsOf(other) == old(ImportsOf(other))
    {
      imports := imports[s.source := ImportsOf(s.source) + {Import(s.sync, s.at)}];
      resources := resources[s.source := current];
      declared := declared[s.source := names];
    }

    twostate lemma OfReplaced(s: Snapshot)
      requires Selected(resources, s.source) == MergedRows(old(Selected(resources, s.source)), s.records)
      requires NamesOf(s.source) == old(NamesOf(s.source)) + DeclaredBy(s.records)
      requires forall name :: name in NamesOf(s.source) ==> RawOf(s.source, name) == RawRows(s, name)
      requires ImportsOf(s.source) == old(ImportsOf(s.source)) + {Import(s.sync, s.at)}
      ensures Of(s.source) == Replaced(old(Of(s.source)), s)
    {
    }

    twostate lemma OfUnchanged(source: string)
      requires Selected(resources, source) == old(Selected(resources, source))
      requires NamesOf(source) == old(NamesOf(source)) && ImportsOf(source) == old(ImportsOf(source))
      requires forall name :: RawOf(source, name) == old(RawOf(source, name))
      ensures Of(source) == old(Of(source))
    {
      assert Of(source).raw == old(Of(source).raw);
    }

    /** Current rows first, then tombstones for what is no longer listed. */
    method BuildRows(previous: map<string, Row>, records: seq<Record>) returns (current: map<string, Row>)
      ensures current == MergedRows(previous, records)
    {
      current := map[];
      var parents: set<string> := {};
      var i := 0;
      while i < |records|
        invariant 0 <= i <= |records|
        invariant current == CurrentRows(previous, records[..i])
        invariant parents == ById(records[..i]).Keys
      {
        assert records[..i + 1][..i] == records[..i];
        current := current[records[i].id := RowFor(previous, records[i])];
        parents := parents + {records[i].id};
        i := i + 1;
      }
      assert records[..i] == records;
      current := current + map id | id in previous && id !in parents :: previous[id].(deleted := true, status := "deleted");
    }

    method ReplaceRaw(s: Snapshot, names: set<string>)
      modifies this`raw
      ensures forall name :: name in names ==> RawOf(s.source, name) == RawRows(s, name)
      ensures forall other, name :: other != s.source ==> RawOf(other, name) == old(RawOf(other, name))
    {
      var pending := names;
      while pending != {}
        invariant pending <= names
        invariant forall name :: name in names - pending ==> RawOf(s.source, name) == RawRows(s, name)
        invariant forall other, name :: other != s.source ==> RawOf(other, name) == old(RawOf(other, name))
        decreases pending
      {
        var name :| name in pending;
        pending := pending - {name};
        var table := if name in raw then raw[name] else map[];
        raw := raw[name := table[s.source := RawRows(s, name)]];
      }
    }
  }
}
