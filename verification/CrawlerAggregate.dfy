/** The crawler's own merging of several files
    (ckan-ingestor-rs/ckan-ingestor-lib/src/readers/crawler_aggregate.rs). */
module CrawlerAggregate {
  import opened Common
  import opened SchemaUnion
  import ChildMerge

  class SchemaAccumulator {
    var fields: map<string, Kind>
    var sawGeo: bool
    var sawPlain: bool
    var geoMetadata: Option<string>
    var sources: nat

    constructor ()
      ensures Accumulates([])
    {
      fields, sawGeo, sawPlain, geoMetadata, sources := map[], false, false, None, 0;
    }

    /** The state after these files have been added. */
    ghost predicate Accumulates(files: seq<File>)
      reads this
    {
      && fields == UnionOf(ChildMerge.SchemasOf(Present(files)))
      && Compatible(ChildMerge.GeosOf(Present(files)))
      && sources == |files|
      && (sawGeo <==> files != [] && files[0].geo.Some?)
      && (sawPlain <==> files != [] && files[0].geo.None?)
      && geoMetadata == (if files != [] then files[0].geo else None)
    }

    /** An incompatible file is refused. */
    method Add(f: File, ghost files: seq<File>) returns (ok: bool)
      requires Accumulates(files)
      modifies this
      ensures ok <==> Compatible(ChildMerge.GeosOf(Present(files + [f])))
      ensures ok ==> Accumulates(files + [f])
    {
      OneMore(files, f);
      if f.geo.Some? {
        sawGeo := true;
        if geoMetadata.Some? {
          if geoMetadata != f.geo {
            return false;
          }
        } else {
          geoMetadata := f.geo;
        }
      } else {
        sawPlain := true;
      }
      if sawGeo && sawPlain {
        return false;
      }
      UnionNext(ChildMerge.SchemasOf(Present(files)), f.schema);
      fields := AddSchema(fields, f.schema);
      sources := sources + 1;
      return true;
    }

    method Build(tabular: bool, ghost files: seq<File>) returns (w: Option<AggregateWriter>)
      requires Accumulates(files)
      ensures w.Some? <==> files != []
      ensures w.Some? ==>
                && fresh(w.value) && w.value.rows == []
                && ChildMerge.SchemaFor(w.value.schema, w.value.sourceName, UnionOf(ChildMerge.SchemasOf(Present(files))), tabular)
                && (w.value.replaceName <==> !tabular && "name" in UnionOf(ChildMerge.SchemasOf(Present(files))))
    {
      if sources == 0 {
        return None;
      }
      var schema := MergedColumns(fields);
      var sourceName: Option<string> := None;
      if tabular {
        var name, _ := FreshSourceName(fields);
        sourceName := Some(name);
        schema := schema + [Column(name, Utf8, false)];
      }
      var writer := new AggregateWriter(schema, sourceName, !tabular && "name" in fields);
      return Some(writer);
    }
  }

  /** A further file fits if it is like the first. */
  lemma OneMore(files: seq<File>, f: File)
    ensures ChildMerge.SchemasOf(Present(files + [f])) == ChildMerge.SchemasOf(Present(files)) + [f.schema]
    ensures Compatible(ChildMerge.GeosOf(Present(files))) ==>
              (Compatible(ChildMerge.GeosOf(Present(files + [f]))) <==> files == [] || f.geo == files[0].geo)
  {
    var geos := ChildMerge.GeosOf(Present(files));
    assert ChildMerge.GeosOf(Present(files + [f])) == geos + [f.geo];
    if files != [] { assert geos[0] == files[0].geo && (geos + [f.geo])[|geos|] == f.geo && (geos + [f.geo])[0] == geos[0]; }
  }

  ghost function Present(files: seq<File>): seq<Option<File>> {
    seq(|files|, i requires 0 <= i < |files| => Some(files[i]))
  }

  /** The merged columns; `name` may be overwritten by the file name of the source. */
  function TargetsFor(schema: Schema, sourceName: Option<string>, replaceName: bool, source: string, fileName: string): seq<Target> {
    seq(|schema|, i requires 0 <= i < |schema| =>
      Target(schema[i].name, schema[i].dataType,
             if sourceName == Some(schema[i].name) then Some(source)
             else if replaceName && schema[i].name == "name" then Some(fileName) else None))
  }

  /** The source in the source column, the file name in a column `name` that is to be replaced, else the value of the column. */
  ghost predicate AppendedRow(out: seq<Cell>, schema: Schema, sourceName: Option<string>, replaceName: bool, source: string,
                              fileName: string, row: InRow, cast: Cast)
  {
    && |out| == |schema|
    && forall c :: 0 <= c < |schema| ==>
         Becomes(out[c],
                 if sourceName == Some(schema[c].name) then Some(source)
                 else if replaceName && schema[c].name == "name" then Some(fileName) else None,
                 schema[c].name, schema[c].dataType, row, cast)
  }

  /** The appended rows are those of the file, in order. */
  ghost predicate Appended(outs: seq<seq<Cell>>, schema: Schema, sourceName: Option<string>, replaceName: bool, source: string,
                           fileName: string, f: File, cast: Cast)
  {
    var rows := Flatten(f.batches);
    && |outs| == |rows|
    && forall r :: 0 <= r < |rows| ==> AppendedRow(outs[r], schema, sourceName, replaceName, source, fileName, rows[r], cast)
  }

  lemma TargetsMean(outs: seq<seq<Cell>>, schema: Schema, sourceName: Option<string>, replaceName: bool, source: string,
                    fileName: string, f: File, cast: Cast)
    requires RowsOut(outs, TargetsFor(schema, sourceName, replaceName, source, fileName), Flatten(f.batches), cast)
    ensures Appended(outs, schema, sourceName, replaceName, source, fileName, f, cast)
  {
    var targets, rows := TargetsFor(schema, sourceName, replaceName, source, fileName), Flatten(f.batches);
    forall r | 0 <= r < |rows| ensures AppendedRow(outs[r], schema, sourceName, replaceName, source, fileName, rows[r], cast) {
      assert RowOut(outs[r], targets, rows[r], cast);
    }
  }

  /** A batch can only be built if the overwritten column is text. */
  ghost predicate NameIsText(schema: Schema) {
    forall c :: c in schema && c.name == "name" ==> c.dataType == Utf8
  }

  class AggregateWriter {
    const schema: Schema
    const sourceName: Option<string>
    const replaceName: bool
    var rows: seq<seq<Cell>>

    constructor (schema: Schema, sourceName: Option<string>, replaceName: bool)
      ensures this.schema == schema && this.sourceName == sourceName && this.replaceName == replaceName && rows == []
    {
      this.schema, this.sourceName, this.replaceName, rows := schema, sourceName, replaceName, [];
    }

    /** Appends one of the files the schema was made from; `fileName` is the last part of `source`. */
    method Append(f: File, source: string, fileName: string, cast: Cast, ghost files: seq<File>, ghost tabular: bool) returns (ok: bool)
      requires f in files && FileConforms(f)
      requires ChildMerge.SchemaFor(schema, sourceName, UnionOf(ChildMerge.SchemasOf(Present(files))), tabular)
      modifies this
      ensures ok <==> f.batches == [] || !replaceName || NameIsText(schema)
      ensures !ok ==> rows == old(rows)
      ensures ok ==> old(rows) <= rows && Appended(rows[|old(rows)|..], schema, sourceName, replaceName, source, fileName, f, cast)
    {
      var textual := forall i :: 0 <= i < |schema| && schema[i].name == "name" ==> schema[i].dataType == Utf8;
      assert textual <==> NameIsText(schema);
      if f.batches != [] && replaceName && !textual {
        return false;
      }
      ghost var schemas := ChildMerge.SchemasOf(Present(files));
      assert f.schema in schemas by {
        var i :| 0 <= i < |files| && files[i] == f;
        assert schemas[i] == f.schema;
      }
      ChildMerge.TargetsAccept(schemas, schema, sourceName, tabular, source, f.schema);
      var targets := TargetsFor(schema, sourceName, replaceName, source, fileName);
      forall i | 0 <= i < |targets| ensures Accepts(targets[i], f.schema) {
        assert ChildMerge.TargetsFor(schema, sourceName, source)[i] in ChildMerge.TargetsFor(schema, sourceName, source);
      }
      var outs := WriteFile(f, targets, cast);
      TargetsMean(outs, schema, sourceName, replaceName, source, fileName, f, cast);
      rows := rows + outs;
      return true;
    }
  }

  // ----- A file that is accepted and cannot be appended -----

  /** One file of numbers under the column `name`. */
  function NumberedNames(t: ColumnType): File {
    File([Column("name", t, true)], None, [[map["name" := Cell(t, "1")]]], "file")
  }

  /** The file is accepted and a writer is made for it, but appending it fails as soon as its `name` is not text. */
  method NameConflict(t: ColumnType, cast: Cast) returns (accepted: bool, appended: bool)
    ensures accepted
    ensures appended <==> t == Utf8
  {
    var f := NumberedNames(t);
    ConflictFile(t);
    var accumulator := new SchemaAccumulator();
    accepted := accumulator.Add(f, []);
    var writer := accumulator.Build(false, [f]);
    ConflictSchema(t, writer.value.schema, writer.value.sourceName);
    appended := writer.value.Append(f, "file", "file", cast, [f], false);
  }

  lemma ConflictFile(t: ColumnType)
    ensures FileConforms(NumberedNames(t)) && Compatible(ChildMerge.GeosOf(Present([] + [NumberedNames(t)])))
    ensures "name" in UnionOf(ChildMerge.SchemasOf(Present([NumberedNames(t)])))
  {
    OnlyColumn(NumberedNames(t));
    assert RowConforms(map["name" := Cell(t, "1")], NumberedNames(t).schema);
  }

  lemma ConflictSchema(t: ColumnType, schema: Schema, sourceName: Option<string>)
    requires ChildMerge.SchemaFor(schema, sourceName, UnionOf(ChildMerge.SchemasOf(Present([NumberedNames(t)]))), false)
    ensures NameIsText(schema) <==> t == Utf8
  {
    OnlyColumn(NumberedNames(t));
    assert schema == [Column("name", t, true)];
  }

  lemma OnlyColumn(f: File)
    requires |f.schema| == 1
    ensures var u := UnionOf(ChildMerge.SchemasOf(Present([f])));
            u == map[f.schema[0].name := Kind(f.schema[0].dataType, true)] && Merged(u) == [Column(f.schema[0].name, f.schema[0].dataType, true)]
  {
    var c := f.schema[0];
    assert ChildMerge.SchemasOf(Present([f])) == [] + [f.schema];
    UnionNext([], f.schema);
    assert f.schema[..0] == [] && UnionOf([]) == map[];
    MergedOne(c.name, Kind(c.dataType, true));
  }

  lemma MergedOne(name: string, k: Kind)
    ensures Merged(map[name := k]) == [Column(name, k.dataType, k.nullable)]
  {
    var m := map[name := k];
    assert m.Keys == {name};
    OrderedLists({name});
    assert Ordered({name})[0] in Ordered({name});
  }
}
