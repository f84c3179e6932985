/** What a published success of a parent says about the table of its resource
    (ckan-ingestor-rs/ckan-worker-coordinator/src/parquet_message_processor.rs, parquet_registrar.rs). */
module CoordinatorTables {
  import opened Common
  import opened ChildJobs
  import opened ParquetProcessor
  import opened CoordinatorRuns
  import Registrar = ParquetRegistrar

  /** The table in place after `k` creations has this version or a newer one, or comes from this job. */
  ghost predicate Covered(created: seq<Created>, k: nat, resource: string, version: string, job: string) {
    k <= |created| && Registrar.Skipped(Current(created[..k], resource), version, job)
  }

  /** The `k`-th creation is a table of this job in this version, and its files have so many rows. */
  ghost predicate WrittenAs(created: seq<Created>, k: nat, resource: string, version: string, job: string, rows: nat) {
    && 0 < k <= |created| && created[k - 1].resource == resource
    && created[k - 1].table.version == Some(version) && created[k - 1].table.job == Some(job)
    && rows == Registrar.FileRows(created[k - 1].table.files)
  }

  /** The rows are those that the children of a clean and complete state of the table of results report. */
  ghost predicate ReportedBy(rows: seq<Row>, job: string, n: nat) {
    exists table :: table <= rows && FromChildren(table, job, n)
  }

  ghost predicate FromChildren(table: seq<Row>, job: string, n: nat) {
    var request := MergeRequest(Some(GroupFor(table, job)));
    request.Some? && n == Registrar.ReportedRows(request.value)
  }

  /** A table covers the job, and the rows are those of the table that the job wrote then, or of the children. */
  ghost predicate Registered(s: System, resource: string, version: string, job: string, n: nat) {
    exists k: nat :: Covered(s.created, k, resource, version, job) &&
                     (WrittenAs(s.created, k, resource, version, job, n) || ReportedBy(s.rows, job, n))
  }

  ghost predicate MergeRegistered(log: seq<JobResult>, s: System, h: Handling) {
    h.merge.Done? && h.merge.rows.Some? && Delivered(log, h.offset) ==>
      var r := log[h.offset];
      Registered(s, r.parentResourceId.value, Version(r), r.parentJobId.value, h.merge.rows.value)
  }

  predicate ParentSuccess(m: JobResult) { m.parentJobId.None? && m.status == SUCCESS }

  ghost predicate SuccessRegistered(s: System, m: JobResult) {
    ParentSuccess(m) ==>
      m.rowsProcessed.Some? && m.rowsProcessed.value >= 0
      && Registered(s, m.resourceId, GetOr(m.sourceVersion, m.jobId), m.jobId, m.rowsProcessed.value)
  }

  ghost predicate MergesInv(log: seq<JobResult>, s: System) { forall h :: h in s.open ==> MergeRegistered(log, s, h) }

  ghost predicate PublishedInv(s: System) { forall m :: m in s.published ==> SuccessRegistered(s, m) }

  lemma RegisteredStays(s: System, t: System, resource: string, version: string, job: string, n: nat)
    requires Registered(s, resource, version, job, n) && s.rows <= t.rows && s.created <= t.created
    ensures Registered(t, resource, version, job, n)
  {
    var k: nat :| Covered(s.created, k, resource, version, job) &&
                  (WrittenAs(s.created, k, resource, version, job, n) || ReportedBy(s.rows, job, n));
    assert t.created[..k] == s.created[..k];
    assert Covered(t.created, k, resource, version, job);
    if ReportedBy(s.rows, job, n) {
      var table :| table <= s.rows && FromChildren(table, job, n);
      assert table <= t.rows;
    }
  }

  lemma SystemGrows(log: seq<JobResult>, s: System, step: Step)
    requires Enabled(log, s, step)
    ensures s.rows <= Next(log, s, step).rows && s.created <= Next(log, s, step).created
  {}

  lemma MergeStaysRegistered(log: seq<JobResult>, s: System, t: System, h: Handling)
    requires MergeRegistered(log, s, h) && s.rows <= t.rows && s.created <= t.created
    ensures MergeRegistered(log, t, h)
  {
    if h.merge.Done? && h.merge.rows.Some? && Delivered(log, h.offset) {
      var r := log[h.offset];
      RegisteredStays(s, t, r.parentResourceId.value, Version(r), r.parentJobId.value, h.merge.rows.value);
    }
  }

  lemma SuccessStaysRegistered(s: System, t: System, m: JobResult)
    requires SuccessRegistered(s, m) && s.rows <= t.rows && s.created <= t.created
    ensures SuccessRegistered(t, m)
  {
    if ParentSuccess(m) {
      RegisteredStays(s, t, m.resourceId, GetOr(m.sourceVersion, m.jobId), m.jobId, m.rowsProcessed.value);
    }
  }

  // ----- The two ways in which a merge goes through -----

  lemma SkippedIsRegistered(log: seq<JobResult>, s: System, h: Handling)
    requires Enabled(log, s, CheckTags(h)) && ReadBack(log, s.rows, h)
    ensures MergeRegistered(log, Next(log, s, CheckTags(h)), h.(merge := TagsChecked(log, s, h)))
  {
    var r, t := log[h.offset], Next(log, s, CheckTags(h));
    if Registrar.Skipped(Current(s.created, r.parentResourceId.value), Version(r), r.parentJobId.value) {
      assert s.created[..|s.created|] == s.created;
      assert Covered(t.created, |s.created|, r.parentResourceId.value, Version(r), r.parentJobId.value);
      assert FromChildren(h.table.value, r.parentJobId.value, Registrar.ReportedRows(Merging(log, h).value));
    }
  }

  lemma WrittenIsRegistered(log: seq<JobResult>, s: System, h: Handling, files: seq<Artifact>)
    requires Enabled(log, s, Register(h, files))
    ensures MergeRegistered(log, Next(log, s, Register(h, files)), h.(merge := Done(Some(Registrar.FileRows(files)))))
  {
    var r, t := log[h.offset], Next(log, s, Register(h, files));
    var k := |t.created|;
    StrLessTotal(Version(r), Version(r));
    assert t.created[..k] == t.created;
    assert Covered(t.created, k, r.parentResourceId.value, Version(r), r.parentJobId.value);
    assert WrittenAs(t.created, k, r.parentResourceId.value, Version(r), r.parentJobId.value, Registrar.FileRows(files));
  }

  /** The delivery that a step puts in place of another, or takes up. */
  lemma OpenedBy(log: seq<JobResult>, s: System, step: Step, h: Handling)
    requires Enabled(log, s, step) && h in Next(log, s, step).open && h !in s.open
    ensures step.Send? ==> step.h in s.open && h == step.h.(sent := step.h.sent + 1)
    ensures step.CheckTags? ==> step.h in s.open && h == step.h.(merge := TagsChecked(log, s, step.h))
    ensures step.Register? ==> h == step.h.(merge := Done(Some(Registrar.FileRows(step.files))))
    ensures !step.Send? && !step.CheckTags? && !step.Register? ==> h.merge in {Unstarted, Done(None)}
  {}

  lemma OpenedIsRegistered(log: seq<JobResult>, s: System, step: Step, h: Handling)
    requires Enabled(log, s, step) && AllReadBack(log, s) && MergesInv(log, s)
    requires h in Next(log, s, step).open && h !in s.open
    ensures MergeRegistered(log, Next(log, s, step), h)
  {
    OpenedBy(log, s, step, h);
    if step.Send? {
      MergeStaysRegistered(log, s, Next(log, s, step), step.h);
    } else if step.CheckTags? {
      SkippedIsRegistered(log, s, step.h);
    } else if step.Register? {
      WrittenIsRegistered(log, s, step.h, step.files);
    }
  }

  lemma MergesKept(log: seq<JobResult>, s: System, step: Step)
    requires Enabled(log, s, step) && AllReadBack(log, s) && MergesInv(log, s)
    ensures MergesInv(log, Next(log, s, step))
  {
    var t := Next(log, s, step);
    SystemGrows(log, s, step);
    forall h | h in t.open ensures MergeRegistered(log, t, h) {
      if h in s.open { MergeStaysRegistered(log, s, t, h); } else { OpenedIsRegistered(log, s, step, h); }
    }
  }

  // ----- What is published -----

  lemma OutputRegistered(s: System, r: JobResult, group: Option<ChildGroup>, merged: Option<nat>, i: nat)
    requires IsChildResult(r) && i < |ChildOutputs(r, group, merged)|
    requires merged.Some? ==> Registered(s, r.parentResourceId.value, Version(r), r.parentJobId.value, merged.value)
    ensures SuccessRegistered(s, ChildOutputs(r, group, merged)[i])
  {}

  lemma MessageRegistered(log: seq<JobResult>, s: System, h: Handling)
    requires Enabled(log, s, Send(h)) && MergeRegistered(log, s, h)
    ensures SuccessRegistered(s, Messages(log, h)[h.sent])
  {
    OutputRegistered(s, Checked(log[h.offset]), Group(log, h), if h.merge.Done? then h.merge.rows else None, h.sent);
  }

  lemma PublishedKept(log: seq<JobResult>, s: System, step: Step)
    requires Enabled(log, s, step) && MergesInv(log, s) && PublishedInv(s)
    ensures PublishedInv(Next(log, s, step))
  {
    var t := Next(log, s, step);
    SystemGrows(log, s, step);
    if step.Send? { MessageRegistered(log, s, step.h); }
    forall m | m in t.published ensures SuccessRegistered(t, m) {
      assert m in s.published || (step.Send? && m == Messages(log, step.h)[step.h.sent]);
      SuccessStaysRegistered(s, t, m);
    }
  }

  lemma {:induction false} RunRegisters(log: seq<JobResult>, s: System, steps: seq<Step>, t: System)
    requires Run(log, s, steps, t) && Inv(log, s) && MergesInv(log, s) && PublishedInv(s)
    ensures PublishedInv(t)
    decreases |steps|
  {
    if steps != [] {
      StepKeeps(log, s, steps[0]);
      MergesKept(log, s, steps[0]);
      PublishedKept(log, s, steps[0]);
      RunRegisters(log, Next(log, s, steps[0]), steps[1..], t);
    }
  }

  /** Over all runs, a published success of a parent means that the table of its resource has been in place, in its
      version, in a newer one or from its own job. The published number of rows is that of the very table written for
      it, or, if the registration was skipped, the sum that the children report. */
  lemma SuccessIsRegistered(log: seq<JobResult>, steps: seq<Step>, t: System, m: JobResult)
    requires Run(log, START, steps, t) && m in t.published && ParentSuccess(m)
    ensures m.rowsProcessed.Some? && m.rowsProcessed.value >= 0
    ensures Registered(t, m.resourceId, GetOr(m.sourceVersion, m.jobId), m.jobId, m.rowsProcessed.value)
  {
    assert Inv(log, START);
    RunRegisters(log, START, steps, t);
  }

  // ----- When the table is still there at the end -----

  /** The tables of the resource, one after the other, have greater and greater versions. */
  ghost predicate VersionsGrow(created: seq<Created>, resource: string) {
    && (forall i :: 0 <= i < |created| && created[i].resource == resource ==> created[i].table.version.Some?)
    && (forall i, j :: 0 <= i < j < |created| && created[i].resource == resource && created[j].resource == resource ==>
          StrLess(created[i].table.version.value, created[j].table.version.value))
  }

  /** The tables that the job wrote for the resource are not of an older version. */
  ghost predicate OneVersion(created: seq<Created>, resource: string, version: string, job: string) {
    forall i :: 0 <= i < |created| && created[i].resource == resource && created[i].table.job == Some(job) ==>
      created[i].table.version.Some? && !StrLess(created[i].table.version.value, version)
  }

  lemma {:induction false} CurrentIs(created: seq<Created>, resource: string)
    ensures Current(created, resource).Some? ==>
              exists i :: 0 <= i < |created| && created[i] == Created(resource, Current(created, resource).value)
                          && forall j :: i < j < |created| ==> created[j].resource != resource
    ensures Current(created, resource).None? ==> forall i :: 0 <= i < |created| ==> created[i].resource != resource
  {
    if created != [] {
      var n := |created| - 1;
      CurrentIs(created[..n], resource);
      if created[n].resource != resource && Current(created[..n], resource).Some? {
        var i :| 0 <= i < n && created[..n][i] == Created(resource, Current(created, resource).value)
                 && forall j :: i < j < n ==> created[..n][j].resource != resource;
        assert created[i] == Created(resource, Current(created, resource).value);
        assert forall j :: i < j < n ==> created[j] == created[..n][j];
      }
    }
  }

  lemma LaterNotOlder(v: string, current: string, version: string)
    requires !StrLess(v, version) && (v == current || StrLess(v, current))
    ensures !StrLess(current, version)
  {
    if StrLess(current, version) && v != current { StrLessTransitive(v, current, version); }
  }

  lemma CoveredStays(created: seq<Created>, k: nat, resource: string, version: string, job: string)
    requires Covered(created, k, resource, version, job)
    requires VersionsGrow(created, resource) && OneVersion(created, resource, version, job)
    ensures var now := Current(created, resource);
            now.Some? && now.value.version.Some? && !StrLess(now.value.version.value, version)
  {
    CurrentIs(created[..k], resource);
    var i :| 0 <= i < k && created[..k][i] == Created(resource, Current(created[..k], resource).value);
    assert created[i] == created[..k][i];
    CurrentIs(created, resource);
    var j :| 0 <= j < |created| && created[j] == Created(resource, Current(created, resource).value)
             && forall l :: j < l < |created| ==> created[l].resource != resource;
    LaterNotOlder(created[i].table.version.value, created[j].table.version.value, version);
  }

  /** If the versions of the resource grow and the job has one version, the table in place at the end of any run is
      not older than any success that was published for the resource. */
  lemma SuccessStaysCurrent(log: seq<JobResult>, steps: seq<Step>, t: System, m: JobResult)
    requires Run(log, START, steps, t) && m in t.published && ParentSuccess(m)
    requires VersionsGrow(t.created, m.resourceId)
    requires OneVersion(t.created, m.resourceId, GetOr(m.sourceVersion, m.jobId), m.jobId)
    ensures var now := Current(t.created, m.resourceId);
            now.Some? && now.value.version.Some? && !StrLess(now.value.version.value, GetOr(m.sourceVersion, m.jobId))
  {
    SuccessIsRegistered(log, steps, t, m);
    var version := GetOr(m.sourceVersion, m.jobId);
    var k: nat :| Covered(t.created, k, m.resourceId, version, m.jobId);
    CoveredStays(t.created, k, m.resourceId, version, m.jobId);
  }

  /** Without the second condition it need not be: a skipped newer version of the same job leaves no trace, and an older
      version of another job can follow. */
  lemma SkippedVersionLost()
    ensures exists created ::
              && VersionsGrow(created, "r") && Covered(created, 1, "r", "3", "a")
              && Current(created, "r") == Some(Registrar.TableOf(Registrar.Delivery("2", "b", []))) && StrLess("2", "3")
  {
    var first, second := Registrar.Delivery("1", "a", []), Registrar.Delivery("2", "b", []);
    var created := [Created("r", Registrar.TableOf(first)), Created("r", Registrar.TableOf(second))];
    assert created[..1] == [Created("r", Registrar.TableOf(first))];
    assert Covered(created, 1, "r", "3", "a");
  }

  // ----- When the two numbers of rows agree -----

  /** The children report the rows of their files. */
  ghost predicate Faithful(children: seq<ChildRecord>, files: seq<Artifact>) {
    |children| == |files| && forall i :: 0 <= i < |children| ==> children[i].rows == files[i].numRows < Registrar.U64_MODULUS
  }

  /** A skipped registration then reports the rows of the table that an earlier merge of the same files wrote. */
  lemma {:induction false} FaithfulRows(children: seq<ChildRecord>, files: seq<Artifact>)
    requires Faithful(children, files)
    ensures Registrar.ReportedRows(children) == Registrar.FileRows(files)
  {
    if children != [] { FaithfulRows(children[..|children| - 1], files[..|files| - 1]); }
  }
}
