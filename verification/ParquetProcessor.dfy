/** Handling of one delivered job result
    (ckan-ingestor-rs/ckan-worker-coordinator/src/parquet_message_processor.rs). */
module ParquetProcessor {
  import opened Common
  import opened ChildJobs

  const REGISTRATION_ATTEMPTS := 3

  /** What the surroundings do during one delivery: the store, the merge of the children
      (its row count, or an error) and the outcome of each registration attempt. */
  datatype Environment = Environment(fault: StoreFault, merged: Option<nat>, attempts: nat -> bool)

  predicate IsChildResult(r: JobResult) {
    r.parentJobId.Some? && r.parentResourceId.Some? && Terminal(r.status)
  }

  /** A child success must carry its file. */
  function Checked(r: JobResult): JobResult {
    if r.status == SUCCESS && r.artifact.None?
    then r.(status := FAILED, errorMessage := Some("child success is missing its Parquet artifact")) else r
  }

  function ParentResult(child: JobResult, status: JobStatus, error: Option<string>, rows: Option<int>): JobResult
    requires child.parentJobId.Some? && child.parentResourceId.Some?
  {
    child.(jobId := child.parentJobId.value, resourceId := child.parentResourceId.value,
           parentJobId := None, parentResourceId := None, childIndex := None, totalChildCount := None,
           status := status, rowsProcessed := rows, errorMessage := error,
           resourceName := None, resourceFormat := None, artifact := None)
  }

  /** The message about a child: as it was delivered, without its file; a success without a file is a failure. */
  predicate Announces(m: JobResult, r: JobResult) {
    && m.jobId == r.jobId && m.resourceId == r.resourceId
    && m.parentJobId == r.parentJobId && m.parentResourceId == r.parentResourceId
    && m.childIndex == r.childIndex && m.totalChildCount == r.totalChildCount
    && m.rowsProcessed == r.rowsProcessed && m.artifact == None
    && m.resourceName == r.resourceName && m.resourceFormat == r.resourceFormat && m.sourceVersion == r.sourceVersion
    && if r.status == SUCCESS && r.artifact.None? then m.status == FAILED && m.errorMessage.Some?
       else m.status == r.status && m.errorMessage == r.errorMessage
  }

  /** The message about the parent of a child. */
  predicate Concludes(m: JobResult, r: JobResult) {
    && Some(m.jobId) == r.parentJobId && Some(m.resourceId) == r.parentResourceId && m.sourceVersion == r.sourceVersion
    && m.parentJobId == None && m.parentResourceId == None && m.childIndex == None && m.totalChildCount == None
    && m.artifact == None && m.resourceName == None && m.resourceFormat == None
    && (if m.status == SUCCESS then m.errorMessage == None && m.rowsProcessed.Some?
        else m.status == FAILED && m.errorMessage.Some? && m.rowsProcessed == None)
  }

  // ----- Values of a map in key order -----

  ghost predicate IsGreatest(k: nat, s: set<nat>) { k in s && forall j :: j in s ==> j <= k }

  lemma GreatestExists(s: set<nat>)
    requires s != {}
    ensures exists k :: IsGreatest(k, s)
    decreases |s|
  {
    var x :| x in s;
    if s == {x} {
      assert IsGreatest(x, s);
    } else {
      assert |s - {x}| < |s| && s - {x} != {};
      GreatestExists(s - {x});
      var k :| IsGreatest(k, s - {x});
      var greatest := if x > k then x else k;
      forall j | j in s ensures j <= greatest { if j != x { assert j in s - {x}; } }
      assert IsGreatest(greatest, s);
    }
  }

  /** `BTreeMap::into_values`. */
  function ValuesInOrder<V>(m: map<nat, V>): seq<V>
    decreases |m|
  {
    if m == map[] then []
    else
      GreatestExists(m.Keys);
      assert exists k :: IsGreatest(k, m.Keys);
      var k :| k in m && forall j :: j in m ==> j <= k;
      assert (m - {k}).Keys == m.Keys - {k};
      ValuesInOrder(m - {k}) + [m[k]]
  }

  lemma {:induction false} ValuesOfPrefixKeys<V>(m: map<nat, V>, n: nat)
    requires forall i: nat :: i in m <==> i < n
    ensures ValuesInOrder(m) == seq(n, i requires 0 <= i < n => m[i])
    decreases n
  {
    if n > 0 {
      assert n - 1 in m;
      var rest := m - {n - 1};
      ValuesOfPrefixKeys(rest, n - 1);
      assert ValuesInOrder(m) == ValuesInOrder(rest) + [m[n - 1]];
    }
  }

  function Below(n: nat): (s: set<nat>)
    ensures |s| == n && forall i: nat :: i < n <==> i in s
  {
    if n == 0 then {} else Below(n - 1) + {n - 1}
  }

  /** A set of numbers below `n` has `n` members exactly when it has them all. */
  lemma FullSubset(s: set<nat>, n: nat)
    requires forall i :: i in s ==> i < n
    ensures |s| == n <==> forall i: nat :: i < n ==> i in s
  {
    var all := Below(n);
    assert s <= all && |all - s| == |all| - |all * s| && all * s == s;
    if |s| == n {
      assert all == s + (all - s) && all - s == {};
    } else {
      assert all - s != {};
      var i :| i in all - s;
    }
  }

  // ----- The verdict of a delivery -----

  /** The total of the last row of the parent. */
  function Total(rows: seq<Row>, parent: string): nat {
    if rows == [] then 0
    else if rows[|rows| - 1].parentJobId == parent then rows[|rows| - 1].total
    else Total(rows[..|rows| - 1], parent)
  }

  lemma {:induction false} TotalIsLast(rows: seq<Row>, parent: string)
    ensures LastTotal(rows, parent, Total(rows, parent))
  {
    if rows != [] {
      var before, r := rows[..|rows| - 1], rows[|rows| - 1];
      assert rows == before + [r];
      TotalIsLast(before, parent);
      LastTotalNext(before, r, parent, Total(before, parent));
    }
  }

  /** The group read from a table. */
  ghost function GroupFor(rows: seq<Row>, parent: string): ChildGroup {
    ChildGroup(Fold(rows, parent), Total(rows, parent), HasFailure(rows, parent))
  }

  lemma GroupIsFor(rows: seq<Row>, parent: string)
    ensures GroupOf(GroupFor(rows, parent), rows, parent)
  {
    TotalIsLast(rows, parent);
    FoldRecords(rows, parent);
  }

  ghost predicate Written(r: JobResult, fault: StoreFault) { Recordable(r) && fault != WriteFails }

  ghost function RowsAfter(rows: seq<Row>, r: JobResult, fault: StoreFault): seq<Row> {
    if Written(r, fault) then rows + [RowOf(r)] else rows
  }

  /** The group the processor sees, or nothing when recording failed. */
  ghost function Seen(rows: seq<Row>, r: JobResult, fault: StoreFault): Option<ChildGroup>
    requires r.parentJobId.Some?
  {
    if Written(r, fault) && fault == NoFault then Some(GroupFor(rows, r.parentJobId.value)) else None
  }

  ghost function ParentVerdict(r: JobResult, group: Option<ChildGroup>, merged: Option<nat>): Option<JobResult>
    requires IsChildResult(r)
  {
    if group.None? then Some(ParentResult(r, FAILED, Some("child state failed"), None))
    else if group.value.failed then Some(ParentResult(r, FAILED, Some("one or more child jobs failed"), None))
    else if |group.value.records| == group.value.total then
      Some(if merged.Some? then ParentResult(r, SUCCESS, None, Some(merged.value))
           else ParentResult(r, FAILED, Some("child merge failed"), None))
    else None
  }

  ghost function ChildOutputs(r: JobResult, group: Option<ChildGroup>, merged: Option<nat>): seq<JobResult>
    requires IsChildResult(r)
  {
    var verdict := ParentVerdict(r, group, merged);
    [r.(artifact := None)] + if verdict.Some? then [verdict.value] else []
  }

  lemma OwnMessage(r: JobResult)
    ensures Announces(Checked(r).(artifact := None), r)
  {}

  lemma ParentMessage(r: JobResult, status: JobStatus, error: Option<string>, rows: Option<int>)
    requires IsChildResult(r)
    requires (status == SUCCESS && error.None? && rows.Some?) || (status == FAILED && error.Some? && rows.None?)
    ensures Concludes(ParentResult(Checked(r), status, error, rows), r)
  {}

  lemma VerdictConcludes(r: JobResult, group: Option<ChildGroup>, merged: Option<nat>)
    requires IsChildResult(r)
    ensures var v := ParentVerdict(Checked(r), group, merged); v.Some? ==> Concludes(v.value, r)
  {
    ParentMessage(r, FAILED, Some("child state failed"), None);
    ParentMessage(r, FAILED, Some("one or more child jobs failed"), None);
    ParentMessage(r, FAILED, Some("child merge failed"), None);
    if merged.Some? { ParentMessage(r, SUCCESS, None, Some(merged.value)); }
  }

  /** First the child, then at most one message about its parent. */
  lemma OutputsSay(r: JobResult, group: Option<ChildGroup>, merged: Option<nat>)
    requires IsChildResult(r)
    ensures var ms := ChildOutputs(Checked(r), group, merged);
            1 <= |ms| <= 2 && Announces(ms[0], r) && (|ms| == 2 ==> Concludes(ms[1], r))
  {
    OwnMessage(r);
    VerdictConcludes(r, group, merged);
  }

  /** The children handed to the merge, if it is started. */
  ghost function MergeRequest(group: Option<ChildGroup>): Option<seq<ChildRecord>> {
    if group.Some? && !group.value.failed && |group.value.records| == group.value.total
    then Some(ValuesInOrder(group.value.records)) else None
  }

  // ----- What the verdict means when the number of children is fixed -----

  ghost predicate Succeeded(rows: seq<Row>, parent: string, i: nat) {
    exists k :: 0 <= k < |rows| && rows[k].parentJobId == parent && rows[k].index == i && rows[k].status == SUCCESS
  }

  /** Every child has a success row and nothing failed. */
  ghost predicate AllSucceeded(rows: seq<Row>, parent: string, n: nat) {
    !HasFailure(rows, parent) && forall i: nat :: i < n ==> Succeeded(rows, parent, i)
  }

  ghost predicate FixedCount(rows: seq<Row>, parent: string, n: nat) {
    n > 1 && forall k :: 0 <= k < |rows| && rows[k].parentJobId == parent ==> rows[k].total == n && rows[k].index < n
  }

  ghost predicate FilesPresent(rows: seq<Row>) {
    forall k :: 0 <= k < |rows| && rows[k].status == SUCCESS ==> rows[k].artifact.Some?
  }

  lemma GroupTotal(rows: seq<Row>, parent: string, n: nat)
    requires FixedCount(rows, parent, n)
    ensures GroupFor(rows, parent).total == (if Indices(rows, parent) == {} then 0 else n)
  {
    TotalIsLast(rows, parent);
    assert forall k :: 0 <= k < |rows| && rows[k].parentJobId == parent ==> rows[k].index in Indices(rows, parent);
  }

  /** The count test succeeds exactly when every index has arrived. */
  lemma CountTest(rows: seq<Row>, parent: string, n: nat)
    requires FixedCount(rows, parent, n) && Indices(rows, parent) != {}
    ensures var g := GroupFor(rows, parent);
            |g.records| == g.total <==> forall i: nat :: i < n ==> i in Indices(rows, parent)
  {
    GroupTotal(rows, parent, n);
    FoldKeys(rows, parent);
    var g := GroupFor(rows, parent);
    assert |g.records| == |g.records.Keys|;
    FullSubset(g.records.Keys, n);
  }

  lemma ArrivedCleanMeansSucceeded(rows: seq<Row>, parent: string, i: nat)
    requires !HasFailure(rows, parent)
    ensures i in Indices(rows, parent) <==> Succeeded(rows, parent, i)
  {
    if i in Indices(rows, parent) {
      var k :| 0 <= k < |rows| && rows[k].parentJobId == parent && rows[k].index == i;
      assert !Fails(rows, parent, k);
    }
  }

  /** A parent success is produced exactly when all children succeeded, none failed, and the
      merge went through; some verdict is produced exactly when a failure or every index has arrived. */
  lemma VerdictMeaning(rows: seq<Row>, r: JobResult, n: nat, merged: Option<nat>)
    requires IsChildResult(r) && FixedCount(rows, r.parentJobId.value, n)
    requires Indices(rows, r.parentJobId.value) != {}
    ensures var parent, v := r.parentJobId.value, ParentVerdict(r, Some(GroupFor(rows, r.parentJobId.value)), merged);
            && (v.Some? && v.value.status == SUCCESS <==> AllSucceeded(rows, parent, n) && merged.Some?)
            && (v.Some? <==> HasFailure(rows, parent) || forall i: nat :: i < n ==> i in Indices(rows, parent))
            && (v.Some? ==> v.value.jobId == parent && v.value.parentJobId.None? && v.value.status in {SUCCESS, FAILED})
  {
    var parent := r.parentJobId.value;
    CountTest(rows, parent, n);
    if !HasFailure(rows, parent) {
      forall i: nat ensures i in Indices(rows, parent) <==> Succeeded(rows, parent, i) {
        ArrivedCleanMeansSucceeded(rows, parent, i);
      }
    }
  }

  lemma MergeStarts(rows: seq<Row>, parent: string, n: nat)
    requires FixedCount(rows, parent, n) && AllSucceeded(rows, parent, n)
    ensures var g := GroupFor(rows, parent);
            !g.failed && |g.records| == g.total && forall i: nat :: i in g.records <==> i < n
  {
    forall i: nat ensures i in Indices(rows, parent) <==> Succeeded(rows, parent, i) {
      ArrivedCleanMeansSucceeded(rows, parent, i);
    }
    assert Succeeded(rows, parent, 0);
    FoldKeys(rows, parent);
    CountTest(rows, parent, n);
  }

  /** The merge receives one success record per child, in index order, each with its file. */
  lemma MergeInputs(rows: seq<Row>, parent: string, n: nat)
    requires FixedCount(rows, parent, n) && FilesPresent(rows) && AllSucceeded(rows, parent, n)
    ensures var request := MergeRequest(Some(GroupFor(rows, parent)));
            && request.Some? && |request.value| == n
            && forall i: nat :: i < n ==> request.value[i].index == i && request.value[i].status == SUCCESS && request.value[i].artifact.Some?
  {
    var g := GroupFor(rows, parent);
    MergeStarts(rows, parent, n);
    GroupIsFor(rows, parent);
    ValuesOfPrefixKeys(g.records, n);
    var request := ValuesInOrder(g.records);
    forall i: nat | i < n
      ensures request[i].index == i && request[i].status == SUCCESS && request[i].artifact.Some?
    {
      CleanRecord(rows, parent, g, i);
    }
  }

  lemma CleanRecord(rows: seq<Row>, parent: string, g: ChildGroup, i: nat)
    requires GroupOf(g, rows, parent) && FilesPresent(rows) && !HasFailure(rows, parent) && i in g.records
    ensures g.records[i].index == i && g.records[i].status == SUCCESS && g.records[i].artifact.Some?
  {
    assert Backed(rows, parent, i, g.records[i]);
    var k: nat :| Decides(rows, parent, i, k) && g.records[i] == RecordOf(rows[k]);
    assert !Fails(rows, parent, k);
  }

  /** The status published for a result that is not a child: a success with a file needs a job
      identity and one good registration among three attempts. */
  ghost predicate RegistrationHolds(r: JobResult, attempts: nat -> bool) {
    r.artifact.None? || (r.jobId != "" && (attempts(0) || attempts(1) || attempts(2)))
  }

  class Processor {
    const childJobs: ChildJobs

    constructor (childJobs: ChildJobs)
      ensures this.childJobs == childJobs
    {
      this.childJobs := childJobs;
    }

    /** The branch for child results: record, then answer for the child and perhaps for its parent. */
    method ProcessChild(incoming: JobResult, env: Environment)
      returns (messages: seq<JobResult>, merge: Option<seq<ChildRecord>>)
      requires IsChildResult(incoming)
      requires forall k :: 0 <= k < |childJobs.rows| ==> Terminal(childJobs.rows[k].status)
      modifies childJobs
      ensures childJobs.rows == RowsAfter(old(childJobs.rows), Checked(incoming), env.fault)
      ensures messages == ChildOutputs(Checked(incoming), Seen(childJobs.rows, Checked(incoming), env.fault), env.merged)
      ensures 1 <= |messages| <= 2 && Announces(messages[0], incoming) && (|messages| == 2 ==> Concludes(messages[1], incoming))
      ensures merge == MergeRequest(Seen(childJobs.rows, Checked(incoming), env.fault))
    {
      var result := incoming;
      if result.status == SUCCESS && result.artifact.None? {
        result := result.(status := FAILED, errorMessage := Some("child success is missing its Parquet artifact"));
      }
      var group := childJobs.Record(result, env.fault);
      if group.Success? {
        GroupIsFor(childJobs.rows, result.parentJobId.value);
        GroupUnique(group.value, GroupFor(childJobs.rows, result.parentJobId.value), childJobs.rows, result.parentJobId.value);
      }
      messages, merge := Answer(result, if group.Success? then Some(group.value) else None, env.merged);
      OutputsSay(incoming, Seen(childJobs.rows, result, env.fault), env.merged);
    }

    /** The message about the child, and the one about its parent if the group leads to it. */
    static method Answer(result: JobResult, group: Option<ChildGroup>, merged: Option<nat>)
      returns (messages: seq<JobResult>, merge: Option<seq<ChildRecord>>)
      requires IsChildResult(result)
      ensures messages == ChildOutputs(result, group, merged) && merge == MergeRequest(group)
    {
      messages, merge := [result.(artifact := None)], None;
      match group {
        case Some(g) =>
          if g.failed {
            messages := messages + [ParentResult(result, FAILED, Some("one or more child jobs failed"), None)];
          } else if |g.records| == g.total {
            merge := Some(ValuesInOrder(g.records));
            var parent := if merged.Some?
              then ParentResult(result, SUCCESS, None, Some(merged.value))
              else ParentResult(result, FAILED, Some("child merge failed"), None);
            messages := messages + [parent];
          }
        case None =>
          messages := messages + [ParentResult(result, FAILED, Some("child state failed"), None)];
      }
    }

    /** Up to three registration attempts, stopping at the first that works. */
    method Register(result: JobResult, attempts: nat -> bool) returns (registered: bool, tried: nat)
      ensures registered <==> RegistrationHolds(result, attempts)
      ensures result.artifact.Some? ==> (registered <==> result.jobId != "" && exists a: nat :: a < 3 && attempts(a))
      ensures tried <= REGISTRATION_ATTEMPTS && forall a: nat :: a + 1 < tried ==> !attempts(a)
    {
      registered, tried := result.artifact.None?, 0;
      if registered || result.jobId == "" {
        return;
      }
      while tried < REGISTRATION_ATTEMPTS && !registered
        invariant tried <= REGISTRATION_ATTEMPTS
        invariant registered <==> exists a: nat :: a < tried && attempts(a)
        invariant forall a: nat :: a + 1 < tried ==> !attempts(a)
      {
        registered := attempts(tried);
        tried := tried + 1;
      }
    }

    /** One delivery: a child result goes through the table, any other result is registered and passed on. */
    method Process(incoming: JobResult, env: Environment)
      returns (messages: seq<JobResult>, merge: Option<seq<ChildRecord>>)
      requires forall k :: 0 <= k < |childJobs.rows| ==> Terminal(childJobs.rows[k].status)
      modifies childJobs
      ensures IsChildResult(incoming) ==>
                && childJobs.rows == RowsAfter(old(childJobs.rows), Checked(incoming), env.fault)
                && messages == ChildOutputs(Checked(incoming), Seen(childJobs.rows, Checked(incoming), env.fault), env.merged)
                && Announces(messages[0], incoming) && (|messages| == 2 ==> Concludes(messages[1], incoming))
                && merge == MergeRequest(Seen(childJobs.rows, Checked(incoming), env.fault))
      ensures !IsChildResult(incoming) ==>
                && childJobs.rows == old(childJobs.rows) && merge == None
                && messages == [if incoming.status == SUCCESS && !RegistrationHolds(incoming, env.attempts)
                                then incoming.(status := FAILED, errorMessage := Some("DuckLake registration failed"), artifact := None)
                                else incoming.(artifact := None)]
    {
      if IsChildResult(incoming) {
        messages, merge := ProcessChild(incoming, env);
        return;
      }
      var result := incoming;
      if result.status == SUCCESS {
        var registered, _ := Register(result, env.attempts);
        if !registered {
          result := result.(status := FAILED, errorMessage := Some("DuckLake registration failed"));
        }
      }
      messages, merge := [result.(artifact := None)], None;
    }
  }
}
