/** Merging the files of a parent's children
    (ckan-ingestor-rs/ckan-worker-coordinator/src/child_merge.rs, `normalize_children`). */
module ChildMerge {
  import opened Common
  import opened SchemaUnion

  datatype Merge = Merge(schema: Schema, sourceColumn: Option<string>, files: seq<seq<seq<Cell>>>)

  ghost function SchemasOf(children: seq<Option<File>>): seq<Schema>
    requires forall i :: 0 <= i < |children| ==> children[i].Some?
  {
    seq(|children|, i requires 0 <= i < |children| => children[i].value.schema)
  }

  ghost function GeosOf(children: seq<Option<File>>): seq<Option<string>>
    requires forall i :: 0 <= i < |children| ==> children[i].Some?
  {
    seq(|children|, i requires 0 <= i < |children| => children[i].value.geo)
  }

  /** For one child: the merged columns by name, the source column holding the child's source. */
  function TargetsFor(schema: Schema, sourceColumn: Option<string>, source: string): seq<Target> {
    seq(|schema|, i requires 0 <= i < |schema| =>
      Target(schema[i].name, schema[i].dataType, if sourceColumn == Some(schema[i].name) then Some(source) else None))
  }

  /** The columns: the union in name order, then the source column if the children are tabular. */
  ghost predicate SchemaFor(schema: Schema, sourceColumn: Option<string>, fields: map<string, Kind>, tabular: bool) {
    && (tabular <==> sourceColumn.Some?)
    && (sourceColumn.Some? ==> sourceColumn.value !in fields)
    && schema == Merged(fields) + if tabular then [Column(sourceColumn.value, Utf8, false)] else []
  }

  lemma TargetsAccept(schemas: seq<Schema>, schema: Schema, sourceColumn: Option<string>, tabular: bool, source: string, s: Schema)
    requires SchemaFor(schema, sourceColumn, UnionOf(schemas), tabular) && s in schemas
    ensures forall t :: t in TargetsFor(schema, sourceColumn, source) ==> Accepts(t, s)
  {
    var fields := UnionOf(schemas);
    OrderedLists(fields.Keys);
    var targets := TargetsFor(schema, sourceColumn, source);
    forall i | 0 <= i < |targets| ensures Accepts(targets[i], s) {
      if i < |Merged(fields)| {
        assert schema[i] == Merged(fields)[i];
        assert Ordered(fields.Keys)[i] in Ordered(fields.Keys);
      }
      UnionAccepts(schemas, s, targets[i]);
    }
  }

  method MergeSchemas(children: seq<Option<File>>) returns (fields: Option<map<string, Kind>>)
    ensures fields.Some? <==> forall i :: 0 <= i < |children| ==> children[i].Some?
    ensures fields.Some? ==> fields.value == UnionOf(SchemasOf(children))
  {
    var fieldsSoFar: map<string, Kind> := map[];
    var i := 0;
    while i < |children|
      invariant 0 <= i <= |children| && forall j :: 0 <= j < i ==> children[j].Some?
      invariant fieldsSoFar == UnionOf(SchemasOf(children[..i]))
    {
      if children[i].None? {
        return None;
      }
      UnionNext(SchemasOf(children[..i]), children[i].value.schema);
      assert SchemasOf(children[..i + 1]) == SchemasOf(children[..i]) + [children[i].value.schema];
      fieldsSoFar := AddSchema(fieldsSoFar, children[i].value.schema);
      i := i + 1;
    }
    assert children[..i] == children;
    return Some(fieldsSoFar);
  }

  /** The merged schema, with a source column under an unused name for tabular children. */
  method BuildSchema(fields: map<string, Kind>, tabular: bool) returns (schema: Schema, sourceColumn: Option<string>)
    ensures SchemaFor(schema, sourceColumn, fields, tabular)
  {
    schema := MergedColumns(fields);
    sourceColumn := None;
    if tabular {
      var name, _ := FreshSourceName(fields);
      sourceColumn := Some(name);
      schema := schema + [Column(name, Utf8, false)];
    }
  }

  /** What is remembered of the geographic metadata of the files so far. */
  ghost predicate GeoState(geos: seq<Option<string>>, geoMetadata: Option<string>, sawPlain: bool) {
    && Compatible(geos)
    && (sawPlain <==> geos != [] && geos[0].None?)
    && geoMetadata == (if geos != [] then geos[0] else None)
  }

  method CheckGeo(geo: Option<string>, geoMetadata: Option<string>, sawPlain: bool, ghost geos: seq<Option<string>>)
    returns (ok: bool, nextMetadata: Option<string>, nextPlain: bool)
    requires GeoState(geos, geoMetadata, sawPlain)
    ensures ok <==> Compatible(geos + [geo])
    ensures ok ==> GeoState(geos + [geo], nextMetadata, nextPlain)
  {
    ghost var all := geos + [geo];
    assert all[|geos|] == geo;
    nextMetadata, nextPlain := geoMetadata, sawPlain;
    if geo.Some? {
      if sawPlain || (geoMetadata.Some? && geoMetadata != geo) {
        return false, nextMetadata, nextPlain;
      }
      nextMetadata := geo;
    } else {
      if geoMetadata.Some? {
        return false, nextMetadata, nextPlain;
      }
      nextPlain := true;
    }
    return true, nextMetadata, nextPlain;
  }

  /** Row by row and column by column: the source in the source column, else the value of the column of that name. */
  ghost predicate FileOut(out: seq<seq<Cell>>, schema: Schema, sourceColumn: Option<string>, child: File, cast: Cast) {
    var rows := Flatten(child.batches);
    && |out| == |rows|
    && forall r :: 0 <= r < |rows| ==> MergedRow(out[r], schema, sourceColumn, child.source, rows[r], cast)
  }

  ghost predicate MergedRow(out: seq<Cell>, schema: Schema, sourceColumn: Option<string>, source: string, row: InRow, cast: Cast) {
    && |out| == |schema|
    && forall c :: 0 <= c < |schema| ==>
         Becomes(out[c], if sourceColumn == Some(schema[c].name) then Some(source) else None, schema[c].name, schema[c].dataType, row, cast)
  }

  lemma TargetsMean(out: seq<seq<Cell>>, schema: Schema, sourceColumn: Option<string>, child: File, cast: Cast)
    requires RowsOut(out, TargetsFor(schema, sourceColumn, child.source), Flatten(child.batches), cast)
    ensures FileOut(out, schema, sourceColumn, child, cast)
  {
    var targets, rows := TargetsFor(schema, sourceColumn, child.source), Flatten(child.batches);
    forall r | 0 <= r < |rows| ensures MergedRow(out[r], schema, sourceColumn, child.source, rows[r], cast) {
      assert RowOut(out[r], targets, rows[r], cast);
    }
  }

  lemma CompatiblePrefix(geos: seq<Option<string>>, k: nat)
    requires k <= |geos|
    ensures Compatible(geos) ==> Compatible(geos[..k])
  {
  }

  /** Writes the rows of one child under the merged schema; no conversion fails. */
  method NormalizeChild(child: File, ghost schemas: seq<Schema>, schema: Schema, sourceColumn: Option<string>, ghost tabular: bool, cast: Cast)
    returns (out: seq<seq<Cell>>)
    requires FileConforms(child) && child.schema in schemas && SchemaFor(schema, sourceColumn, UnionOf(schemas), tabular)
    ensures FileOut(out, schema, sourceColumn, child, cast)
  {
    TargetsAccept(schemas, schema, sourceColumn, tabular, child.source, child.schema);
    out := WriteFile(child, TargetsFor(schema, sourceColumn, child.source), cast);
    TargetsMean(out, schema, sourceColumn, child, cast);
  }

  method NormalizeChildren(children: seq<Option<File>>, tabular: bool, cast: Cast) returns (r: Option<Merge>)
    requires forall i :: 0 <= i < |children| && children[i].Some? ==> FileConforms(children[i].value)
    ensures r.Some? <==> (forall i :: 0 <= i < |children| ==> children[i].Some?) && Compatible(GeosOf(children))
    ensures r.Some? ==>
              && SchemaFor(r.value.schema, r.value.sourceColumn, UnionOf(SchemasOf(children)), tabular)
              && |r.value.files| == |children|
              && forall i :: 0 <= i < |children| ==>
                   FileOut(r.value.files[i], r.value.schema, r.value.sourceColumn, children[i].value, cast)
  {
    var fields := MergeSchemas(children);
    if fields.None? {
      return None;
    }
    var schema, sourceColumn := BuildSchema(fields.value, tabular);
    ghost var geos := GeosOf(children);
    var files: seq<seq<seq<Cell>>> := [];
    var geoMetadata: Option<string> := None;
    var sawPlain := false;
    var i := 0;
    while i < |children|
      invariant 0 <= i <= |children| && |files| == i
      invariant GeoState(geos[..i], geoMetadata, sawPlain)
      invariant forall j :: 0 <= j < i ==> FileOut(files[j], schema, sourceColumn, children[j].value, cast)
    {
      var child := children[i].value;
      var ok;
      ok, geoMetadata, sawPlain := CheckGeo(child.geo, geoMetadata, sawPlain, geos[..i]);
      assert geos[..i + 1] == geos[..i] + [child.geo];
      if !ok {
        CompatiblePrefix(geos, i + 1);
        return None;
      }
      assert SchemasOf(children)[i] == child.schema;
      var out := NormalizeChild(child, SchemasOf(children), schema, sourceColumn, tabular, cast);
      files := files + [out];
      i := i + 1;
    }
    assert geos[..i] == geos;
    return Some(Merge(schema, sourceColumn, files));
  }
}
