/** The append-only table of child results and the verdict read back from it
    (ckan-ingestor-rs/ckan-worker-coordinator/src/child_jobs.rs). */
module ChildJobs {
  import opened Common

  datatype JobStatus = PENDING | PROCESSING | SUCCESS | FAILED | DELETED

  datatype Artifact = Artifact(uri: string, numRows: nat)

  datatype JobResult = JobResult(
    jobId: string, resourceId: string,
    parentJobId: Option<string>, parentResourceId: Option<string>,
    childIndex: Option<nat>, totalChildCount: Option<nat>,
    status: JobStatus, artifact: Option<Artifact>, rowsProcessed: Option<int>,
    resourceName: Option<string>, resourceFormat: Option<string>,
    sourceVersion: Option<string>, errorMessage: Option<string>)

  /** One row of `child_jobs`; absent numbers and texts are stored as zero and "". */
  datatype Row = Row(
    parentJobId: string, parentResourceId: string, childJobId: string,
    index: nat, total: nat, status: JobStatus, artifact: Option<Artifact>,
    rowsProcessed: int, source: string, sourceVersion: string, format: string)

  datatype ChildRecord = ChildRecord(
    index: nat, status: JobStatus, artifact: Option<Artifact>, rows: int, source: string, format: string)

  datatype ChildGroup = ChildGroup(records: map<nat, ChildRecord>, total: nat, failed: bool)

  /** What the store may do to one `record` call. */
  datatype StoreFault = NoFault | WriteFails | ScanFails

  predicate Terminal(s: JobStatus) { s == SUCCESS || s == FAILED || s == DELETED }

  function GetOr<T>(o: Option<T>, default: T): T { if o.Some? then o.value else default }

  predicate Recordable(r: JobResult) {
    && r.parentJobId.Some? && r.parentResourceId.Some?
    && r.childIndex.Some? && r.totalChildCount.Some?
    && r.totalChildCount.value > 1 && r.childIndex.value < r.totalChildCount.value
    && Terminal(r.status)
  }

  function RowOf(r: JobResult): Row
    requires Recordable(r)
  {
    Row(r.parentJobId.value, r.parentResourceId.value, r.jobId, r.childIndex.value, r.totalChildCount.value,
        r.status, r.artifact, GetOr(r.rowsProcessed, 0), GetOr(r.resourceName, ""),
        GetOr(r.sourceVersion, ""), GetOr(r.resourceFormat, ""))
  }

  /** `DELETED` counts as a failure once read back. */
  function RecordOf(r: Row): ChildRecord {
    ChildRecord(r.index, if r.status == SUCCESS then SUCCESS else FAILED, r.artifact, r.rowsProcessed, r.source, r.format)
  }

  /** The row holds the result: the columns read back, and those that are only stored. */
  predicate Holds(row: Row, r: JobResult) {
    && r.parentJobId == Some(row.parentJobId) && r.parentResourceId == Some(row.parentResourceId)
    && row.childJobId == r.jobId && r.childIndex == Some(row.index) && r.totalChildCount == Some(row.total)
    && row.status == r.status && row.artifact == r.artifact
    && (r.rowsProcessed == Some(row.rowsProcessed) || (r.rowsProcessed.None? && row.rowsProcessed == 0))
    && (r.resourceName == Some(row.source) || (r.resourceName.None? && row.source == ""))
    && (r.sourceVersion == Some(row.sourceVersion) || (r.sourceVersion.None? && row.sourceVersion == ""))
    && (r.resourceFormat == Some(row.format) || (r.resourceFormat.None? && row.format == ""))
  }

  /** The record tells what the result of a child was. */
  predicate Tells(record: ChildRecord, r: JobResult) {
    && r.childIndex == Some(record.index) && record.artifact == r.artifact
    && record.status in {SUCCESS, FAILED} && (record.status == SUCCESS <==> r.status == SUCCESS)
    && (r.rowsProcessed == Some(record.rows) || (r.rowsProcessed.None? && record.rows == 0))
    && (r.resourceName == Some(record.source) || (r.resourceName.None? && record.source == ""))
    && (r.resourceFormat == Some(record.format) || (r.resourceFormat.None? && record.format == ""))
  }

  /** What is written for a result and read back tells the result. */
  lemma WrittenIsRead(r: JobResult)
    requires Recordable(r)
    ensures Holds(RowOf(r), r) && Tells(RecordOf(RowOf(r)), r)
  {}

  // ----- What a table says about one parent -----

  ghost predicate Fails(rows: seq<Row>, parent: string, k: int) {
    0 <= k < |rows| && rows[k].parentJobId == parent && rows[k].status != SUCCESS
  }

  ghost predicate HasFailure(rows: seq<Row>, parent: string) {
    exists k :: Fails(rows, parent, k)
  }

  ghost function Indices(rows: seq<Row>, parent: string): set<nat> {
    set k | 0 <= k < |rows| && rows[k].parentJobId == parent :: rows[k].index
  }

  /** Row `k` decides child `i`: it is the first failing row of the child, or the last row if none fails. */
  ghost predicate Decides(rows: seq<Row>, parent: string, i: nat, k: nat) {
    && k < |rows| && rows[k].parentJobId == parent && rows[k].index == i
    && (if rows[k].status == SUCCESS
        then forall j :: 0 <= j < |rows| && rows[j].parentJobId == parent && rows[j].index == i ==> j <= k && rows[j].status == SUCCESS
        else forall j :: 0 <= j < k && rows[j].parentJobId == parent && rows[j].index == i ==> rows[j].status == SUCCESS)
  }

  ghost predicate Backed(rows: seq<Row>, parent: string, i: nat, record: ChildRecord) {
    exists k: nat :: Decides(rows, parent, i, k) && record == RecordOf(rows[k])
  }

  ghost predicate AllBacked(rows: seq<Row>, parent: string, records: map<nat, ChildRecord>) {
    forall i :: i in records ==> Backed(rows, parent, i, records[i])
  }

  ghost predicate LastTotal(rows: seq<Row>, parent: string, total: nat) {
    || (total == 0 && forall k :: 0 <= k < |rows| ==> rows[k].parentJobId != parent)
    || (exists k :: 0 <= k < |rows| && rows[k].parentJobId == parent && rows[k].total == total
          && forall j :: k < j < |rows| ==> rows[j].parentJobId != parent)
  }

  /** `g` is the verdict of the whole table for `parent`. */
  ghost predicate GroupOf(g: ChildGroup, rows: seq<Row>, parent: string) {
    && g.records.Keys == Indices(rows, parent)
    && AllBacked(rows, parent, g.records)
    && LastTotal(rows, parent, g.total)
    && (g.failed <==> HasFailure(rows, parent))
  }

  /** The table determines the verdict. */
  lemma GroupUnique(g: ChildGroup, h: ChildGroup, rows: seq<Row>, parent: string)
    requires GroupOf(g, rows, parent) && GroupOf(h, rows, parent)
    ensures g == h
  {
    forall i | i in g.records ensures g.records[i] == h.records[i] {
      assert Backed(rows, parent, i, g.records[i]) && Backed(rows, parent, i, h.records[i]);
      var k: nat :| Decides(rows, parent, i, k) && g.records[i] == RecordOf(rows[k]);
      var l: nat :| Decides(rows, parent, i, l) && h.records[i] == RecordOf(rows[l]);
    }
    assert g.records == h.records;
  }

  /** One more row of the parent either takes over its child or loses to an earlier failure. */
  lemma BackedNext(rows: seq<Row>, r: Row, parent: string, i: nat, record: ChildRecord)
    requires Backed(rows, parent, i, record)
    ensures Backed(rows + [r], parent, i,
                   if r.parentJobId == parent && r.index == i && record.status != FAILED then RecordOf(r) else record)
  {
    var k: nat :| Decides(rows, parent, i, k) && record == RecordOf(rows[k]);
    var l := if r.parentJobId == parent && r.index == i && record.status != FAILED then |rows| else k;
    assert Decides(rows + [r], parent, i, l);
  }

  lemma FirstRowDecides(rows: seq<Row>, r: Row, parent: string)
    requires r.parentJobId == parent && r.index !in Indices(rows, parent)
    ensures Backed(rows + [r], parent, r.index, RecordOf(r))
  {
    assert Decides(rows + [r], parent, r.index, |rows|) && (rows + [r])[|rows|] == r by {
      IndexAbsent(rows, r, parent);
    }
  }

  lemma IndexAbsent(rows: seq<Row>, r: Row, parent: string)
    requires r.index !in Indices(rows, parent)
    ensures forall j :: 0 <= j < |rows| && rows[j].parentJobId == parent ==> rows[j].index != r.index
  {
    assert forall j :: 0 <= j < |rows| && rows[j].parentJobId == parent ==> rows[j].index in Indices(rows, parent);
  }

  /** The records gathered by a scan of `rows`. */
  function Fold(rows: seq<Row>, parent: string): map<nat, ChildRecord> {
    if rows == [] then map[]
    else Absorb(Fold(rows[..|rows| - 1], parent), rows[|rows| - 1], parent)
  }

  function Absorb(records: map<nat, ChildRecord>, r: Row, parent: string): map<nat, ChildRecord> {
    if r.parentJobId == parent && (r.index !in records || records[r.index].status != FAILED)
    then records[r.index := RecordOf(r)] else records
  }

  lemma {:induction false} FoldKeys(rows: seq<Row>, parent: string)
    ensures Fold(rows, parent).Keys == Indices(rows, parent)
  {
    if rows != [] {
      var before, r := rows[..|rows| - 1], rows[|rows| - 1];
      assert rows == before + [r];
      FoldKeys(before, parent);
      if r.parentJobId == parent {
        IndicesNext(before, r, parent);
      } else {
        assert Indices(rows, parent) == Indices(before, parent);
      }
    }
  }

  lemma {:induction false} FoldBacked(rows: seq<Row>, parent: string, i: nat)
    requires i in Fold(rows, parent)
    ensures Backed(rows, parent, i, Fold(rows, parent)[i])
  {
    var before, r := rows[..|rows| - 1], rows[|rows| - 1];
    assert rows == before + [r];
    if i in Fold(before, parent) {
      FoldBacked(before, parent, i);
      BackedNext(before, r, parent, i, Fold(before, parent)[i]);
    } else {
      FoldKeys(before, parent);
      FirstRowDecides(before, r, parent);
    }
  }

  lemma FoldRecords(rows: seq<Row>, parent: string)
    ensures Fold(rows, parent).Keys == Indices(rows, parent) && AllBacked(rows, parent, Fold(rows, parent))
  {
    FoldKeys(rows, parent);
    forall i | i in Fold(rows, parent) ensures Backed(rows, parent, i, Fold(rows, parent)[i]) {
      FoldBacked(rows, parent, i);
    }
  }

  lemma LastTotalNext(rows: seq<Row>, r: Row, parent: string, total: nat)
    requires LastTotal(rows, parent, total)
    ensures LastTotal(rows + [r], parent, if r.parentJobId == parent then r.total else total)
  {
    var all := rows + [r];
    assert all[|rows|] == r;
    if r.parentJobId != parent {
      if k :| 0 <= k < |rows| && rows[k].parentJobId == parent && rows[k].total == total
              && forall j :: k < j < |rows| ==> rows[j].parentJobId != parent {
        assert all[k] == rows[k];
      }
    }
  }

  lemma IndicesNext(rows: seq<Row>, r: Row, parent: string)
    requires r.parentJobId == parent
    ensures Indices(rows + [r], parent) == Indices(rows, parent) + {r.index}
  {
    var all := rows + [r];
    assert all[|rows|] == r;
    forall i | i in Indices(rows, parent) ensures i in Indices(all, parent) {
      var k :| 0 <= k < |rows| && rows[k].parentJobId == parent && rows[k].index == i;
      assert all[k] == rows[k];
    }
  }

  lemma FoldNext(rows: seq<Row>, r: Row, parent: string)
    ensures Fold(rows + [r], parent) == Absorb(Fold(rows, parent), r, parent)
  {
    assert (rows + [r])[..|rows|] == rows;
  }

  lemma Gathered(rows: seq<Row>, parent: string, records: map<nat, ChildRecord>, total: nat, failed: bool)
    requires records == Fold(rows, parent) && LastTotal(rows, parent, total)
    requires failed <==> exists i :: i in records && records[i].status == FAILED
    ensures GroupOf(ChildGroup(records, total, failed), rows, parent)
  {
    FoldRecords(rows, parent);
    FailedRecords(rows, parent, records);
  }

  class ChildJobs {
    var rows: seq<Row>

    constructor ()
      ensures rows == []
    {
      rows := [];
    }

    /** Reads the whole table back and folds the parent's rows, failures being sticky. */
    method Group(parent: string) returns (r: Result<ChildGroup>)
      ensures r.Success? <==> forall k :: 0 <= k < |rows| && rows[k].parentJobId == parent ==> Terminal(rows[k].status)
      ensures r.Success? ==> GroupOf(r.value, rows, parent)
    {
      var records: map<nat, ChildRecord> := map[];
      var total := 0;
      var row := 0;
      while row < |rows|
        invariant 0 <= row <= |rows|
        invariant forall k :: 0 <= k < row && rows[k].parentJobId == parent ==> Terminal(rows[k].status)
        invariant records == Fold(rows[..row], parent)
        invariant LastTotal(rows[..row], parent, total)
      {
        var r := rows[row];
        assert rows[..row + 1] == rows[..row] + [r];
        LastTotalNext(rows[..row], r, parent, total);
        FoldNext(rows[..row], r, parent);
        if r.parentJobId == parent {
          total := r.total;
          if !Terminal(r.status) {
            return Failure("unexpected child status");
          }
          if r.index !in records || records[r.index].status != FAILED {
            records := records[r.index := RecordOf(r)];
          }
        }
        row := row + 1;
      }
      assert rows[..row] == rows;
      var failed := exists i :: i in records && records[i].status == FAILED;
      Gathered(rows, parent, records, total, failed);
      return Success(ChildGroup(records, total, failed));
    }

    /** Appends the result and returns the parent's verdict. */
    method Record(result: JobResult, fault: StoreFault) returns (r: Result<ChildGroup>)
      requires forall k :: 0 <= k < |rows| ==> Terminal(rows[k].status)
      modifies this
      ensures !Recordable(result) || fault == WriteFails ==> r.Failure? && rows == old(rows)
      ensures Recordable(result) && fault != WriteFails ==> rows == old(rows) + [RowOf(result)] && Holds(RowOf(result), result)
      ensures Recordable(result) && fault == ScanFails ==> r.Failure?
      ensures Recordable(result) && fault == NoFault ==> r.Success? && GroupOf(r.value, rows, result.parentJobId.value)
    {
      if !Recordable(result) {
        return Failure("invalid child result");
      }
      if fault == WriteFails {
        return Failure("child row was not written");
      }
      rows := rows + [RowOf(result)];
      if fault == ScanFails {
        return Failure("child rows were not read");
      }
      r := Group(result.parentJobId.value);
    }
  }

  lemma FailedRecords(rows: seq<Row>, parent: string, records: map<nat, ChildRecord>)
    requires records.Keys == Indices(rows, parent)
    requires AllBacked(rows, parent, records)
    ensures (exists i :: i in records && records[i].status == FAILED) <==> HasFailure(rows, parent)
  {
    if i :| i in records && records[i].status == FAILED {
      assert Backed(rows, parent, i, records[i]);
      var k: nat :| Decides(rows, parent, i, k) && records[i] == RecordOf(rows[k]);
      assert Fails(rows, parent, k);
    }
    if HasFailure(rows, parent) {
      var k :| Fails(rows, parent, k);
      var i := rows[k].index;
      assert i in records && Backed(rows, parent, i, records[i]);
    }
  }
}
