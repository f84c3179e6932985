/** What a failed child means for the results of its parent that are published later. A worker that has read the table
    does not look again before it publishes (ckan-ingestor-rs/ckan-worker-coordinator/src/parquet_message_processor.rs). */
module CoordinatorFailures {
  import opened Common
  import opened ChildJobs
  import opened ParquetProcessor
  import opened CoordinatorRuns
  import Registrar = ParquetRegistrar

  /** A delivery that read a clean and complete table, and has neither published about the parent nor failed to merge. */
  ghost predicate Promising(log: seq<JobResult>, h: Handling, parent: string) {
    ChildOf(log, h.offset, parent) && Merging(log, h).Some? && h.sent < 2 && h.merge != Done(None)
  }

  ghost predicate NonePromising(log: seq<JobResult>, s: System, parent: string) {
    forall h :: h in s.open ==> !Promising(log, h, parent)
  }

  // ----- Nothing else leads to a success -----

  lemma FailureStays(rows: seq<Row>, more: seq<Row>, parent: string)
    requires HasFailure(rows, parent)
    ensures HasFailure(rows + more, parent)
  {
    var k :| Fails(rows, parent, k);
    assert Fails(rows + more, parent, k);
  }

  lemma FailedNotMerging(log: seq<JobResult>, h: Handling, parent: string)
    requires ChildOf(log, h.offset, parent) && h.table.Some? && HasFailure(h.table.value, parent)
    ensures Merging(log, h).None?
  {}

  /** What a delivery merges is decided by the table it read. */
  lemma SameTable(log: seq<JobResult>, h: Handling, next: Handling, parent: string)
    requires next.offset == h.offset && next.table == h.table
    ensures Merging(log, next) == Merging(log, h)
    ensures Promising(log, next, parent) && h.sent <= next.sent && (h.merge == Done(None) ==> next.merge == h.merge) ==>
              Promising(log, h, parent)
    ensures Promising(log, h, parent) && next.sent < 2 && next.merge != Done(None) ==> Promising(log, next, parent)
  {}

  lemma PromisedBefore(log: seq<JobResult>, s: System, x: Handling, h: Handling, parent: string)
    requires x in s.open && h.offset == x.offset && h.table == x.table && Promising(log, h, parent)
    requires x.sent <= h.sent && (x.merge == Done(None) ==> h.merge == x.merge)
    ensures !NonePromising(log, s, parent)
  {
    SameTable(log, x, h, parent);
  }

  /** A delivery that becomes promising was so before, or has just read the table. */
  lemma PromiseKept(log: seq<JobResult>, s: System, step: Step, h: Handling, parent: string)
    requires Enabled(log, s, step) && h in Next(log, s, step).open && Promising(log, h, parent)
    ensures (step.Scan? && h.table == Some(s.rows)) || !NonePromising(log, s, parent)
  {
    if h !in s.open {
      match step
      case Send(x) => PromisedBefore(log, s, x, h, parent);
      case CheckTags(x) => PromisedBefore(log, s, x, h, parent);
      case Register(x, _) => PromisedBefore(log, s, x, h, parent);
      case _ =>
    }
  }

  lemma StayHopeless(log: seq<JobResult>, s: System, step: Step, parent: string)
    requires Enabled(log, s, step) && HasFailure(s.rows, parent) && NonePromising(log, s, parent)
    ensures HasFailure(Next(log, s, step).rows, parent) && NonePromising(log, Next(log, s, step), parent)
  {
    var t := Next(log, s, step);
    FailureStays(s.rows, t.rows[|s.rows|..], parent);
    assert t.rows == s.rows + t.rows[|s.rows|..];
    forall h | h in t.open ensures !Promising(log, h, parent) {
      if Promising(log, h, parent) {
        PromiseKept(log, s, step, h, parent);
        FailedNotMerging(log, h, parent);
      }
    }
  }

  /** A success of the parent comes from a merge that went through. */
  lemma SuccessIsMerged(log: seq<JobResult>, h: Handling, parent: string)
    requires Delivered(log, h.offset) && h.sent < |Messages(log, h)|
    requires Verdict(Messages(log, h)[h.sent], parent) && Messages(log, h)[h.sent].status == SUCCESS
    ensures Promising(log, h, parent) && h.merge.Done?
  {
    MessageAbout(log, h, h.sent, parent);
  }

  lemma SendSilent(log: seq<JobResult>, s: System, h: Handling, parent: string)
    requires Enabled(log, s, Send(h)) && NonePromising(log, s, parent)
    ensures !SuccessOut([Messages(log, h)[h.sent]], parent)
  {
    var m := Messages(log, h)[h.sent];
    if Verdict(m, parent) && m.status == SUCCESS { SuccessIsMerged(log, h, parent); }
  }

  lemma OneStepSilent(log: seq<JobResult>, s: System, step: Step, parent: string)
    requires Enabled(log, s, step) && NonePromising(log, s, parent)
    ensures s.published <= Next(log, s, step).published
    ensures !SuccessOut(Next(log, s, step).published[|s.published|..], parent)
  {
    var more := Next(log, s, step).published[|s.published|..];
    if step.Send? {
      assert more == [Messages(log, step.h)[step.h.sent]];
      SendSilent(log, s, step.h, parent);
    } else {
      assert more == [];
    }
  }

  lemma {:induction false} PublishedGrows(log: seq<JobResult>, s: System, steps: seq<Step>, t: System)
    requires Run(log, s, steps, t)
    ensures s.published <= t.published
    decreases |steps|
  {
    if steps != [] { PublishedGrows(log, Next(log, s, steps[0]), steps[1..], t); }
  }

  lemma Tails(a: seq<JobResult>, b: seq<JobResult>, c: seq<JobResult>, parent: string)
    requires a <= b <= c
    ensures SuccessOut(c[|a|..], parent) <==> SuccessOut(b[|a|..], parent) || SuccessOut(c[|b|..], parent)
  {
    var all, left, right := c[|a|..], b[|a|..], c[|b|..];
    assert all == left + right;
    assert forall i :: 0 <= i < |left| ==> all[i] == left[i];
    assert forall i :: 0 <= i < |right| ==> all[|left| + i] == right[i];
  }

  lemma {:induction false} HopelessRun(log: seq<JobResult>, s: System, steps: seq<Step>, t: System, parent: string)
    requires Run(log, s, steps, t) && HasFailure(s.rows, parent) && NonePromising(log, s, parent)
    ensures s.published <= t.published && !SuccessOut(t.published[|s.published|..], parent)
    decreases |steps|
  {
    if steps != [] {
      var u := Next(log, s, steps[0]);
      OneStepSilent(log, s, steps[0], parent);
      StayHopeless(log, s, steps[0], parent);
      HopelessRun(log, u, steps[1..], t, parent);
      Tails(s.published, u.published, t.published, parent);
    }
  }

  // ----- A promising delivery can always get through -----

  ghost predicate CanSucceed(log: seq<JobResult>, s: System, parent: string) {
    exists steps, t ::
      Run(log, s, steps, t) && s.published <= t.published && SuccessOut(t.published[|s.published|..], parent)
  }

  lemma First(log: seq<JobResult>, s: System, step: Step, rest: seq<Step>, t: System)
    requires Enabled(log, s, step) && Run(log, Next(log, s, step), rest, t)
    ensures Run(log, s, [step] + rest, t)
  {
    assert ([step] + rest)[1..] == rest;
  }

  lemma StepThenSucceed(log: seq<JobResult>, s: System, step: Step, parent: string)
    requires Enabled(log, s, step) && s.published <= Next(log, s, step).published && CanSucceed(log, Next(log, s, step), parent)
    ensures CanSucceed(log, s, parent)
  {
    var u := Next(log, s, step);
    var rest, t :| Run(log, u, rest, t) && u.published <= t.published && SuccessOut(t.published[|u.published|..], parent);
    First(log, s, step, rest, t);
    Tails(s.published, u.published, t.published, parent);
  }

  lemma SendSuccess(log: seq<JobResult>, s: System, h: Handling, parent: string)
    requires h in s.open && Promising(log, h, parent) && h.sent == 1 && h.merge.Done?
    ensures CanSucceed(log, s, parent)
  {
    MergedSays(log, h, parent);
    var t := Next(log, s, Send(h));
    First(log, s, Send(h), [], t);
    var more := t.published[|s.published|..];
    assert more == [Messages(log, h)[1]];
    assert more[0] == Messages(log, h)[1];
  }

  lemma MergedSays(log: seq<JobResult>, h: Handling, parent: string)
    requires Promising(log, h, parent) && h.merge.Done?
    ensures |Messages(log, h)| == 2 && Verdict(Messages(log, h)[1], parent) && Messages(log, h)[1].status == SUCCESS
  {}

  function Rank(h: Handling): nat {
    (if h.sent == 0 then 1 else 0) + (match h.merge case Unstarted => 2 case Due => 1 case Done(_) => 0)
  }

  lemma SendFirst(log: seq<JobResult>, s: System, h: Handling, parent: string)
    requires h in s.open && Promising(log, h, parent) && h.sent == 0
    ensures Enabled(log, s, Send(h)) && s.published <= Next(log, s, Send(h)).published
    ensures h.(sent := 1) in Next(log, s, Send(h)).open && Promising(log, h.(sent := 1), parent)
  {
    SameTable(log, h, h.(sent := 1), parent);
  }

  lemma TagsRead(log: seq<JobResult>, s: System, h: Handling, parent: string)
    requires h in s.open && Promising(log, h, parent) && h.sent == 1 && h.merge.Unstarted? && Merging(log, h).value != []
    ensures Enabled(log, s, CheckTags(h))
    ensures var next := h.(merge := TagsChecked(log, s, h));
            next in Next(log, s, CheckTags(h)).open && Promising(log, next, parent) && Rank(next) < Rank(h)
  {
    SameTable(log, h, h.(merge := TagsChecked(log, s, h)), parent);
  }

  lemma FilesRegistered(log: seq<JobResult>, s: System, h: Handling, files: seq<Artifact>, parent: string)
    requires h in s.open && Promising(log, h, parent) && h.merge.Due? && |files| == |Merging(log, h).value|
    ensures Enabled(log, s, Register(h, files))
    ensures var next := h.(merge := Done(Some(Registrar.FileRows(files))));
            next in Next(log, s, Register(h, files)).open && Promising(log, next, parent)
  {
    SameTable(log, h, h.(merge := Done(Some(Registrar.FileRows(files)))), parent);
  }

  lemma {:induction false} PromiseSucceeds(log: seq<JobResult>, s: System, h: Handling, parent: string)
    requires h in s.open && Promising(log, h, parent) && Merging(log, h).value != []
    ensures CanSucceed(log, s, parent)
    decreases Rank(h)
  {
    if h.sent == 0 {
      SendFirst(log, s, h, parent);
      SameTable(log, h, h.(sent := 1), parent);
      PromiseSucceeds(log, Next(log, s, Send(h)), h.(sent := 1), parent);
      StepThenSucceed(log, s, Send(h), parent);
    } else if h.merge.Done? {
      SendSuccess(log, s, h, parent);
    } else {
      MergeSucceeds(log, s, h, parent);
    }
  }

  lemma {:induction false} MergeSucceeds(log: seq<JobResult>, s: System, h: Handling, parent: string)
    requires h in s.open && Promising(log, h, parent) && Merging(log, h).value != [] && h.sent == 1 && !h.merge.Done?
    ensures CanSucceed(log, s, parent)
    decreases Rank(h), 0
  {
    if h.merge.Unstarted? {
      var next := h.(merge := TagsChecked(log, s, h));
      TagsRead(log, s, h, parent);
      SameTable(log, h, next, parent);
      PromiseSucceeds(log, Next(log, s, CheckTags(h)), next, parent);
      StepThenSucceed(log, s, CheckTags(h), parent);
    } else {
      var files := seq(|Merging(log, h).value|, _ => Artifact("", 0));
      var next := h.(merge := Done(Some(Registrar.FileRows(files))));
      FilesRegistered(log, s, h, files, parent);
      SameTable(log, h, next, parent);
      PromiseSucceeds(log, Next(log, s, Register(h, files)), next, parent);
      StepThenSucceed(log, s, Register(h, files), parent);
    }
  }

  lemma ChildrenPresent(log: seq<JobResult>, rows: seq<Row>, h: Handling)
    requires ReadBack(log, rows, h) && Merging(log, h).Some?
    ensures Merging(log, h).value != []
  {
    var g := Group(log, h).value;
    FoldKeys(h.table.value, log[h.offset].parentJobId.value);
    assert log[h.offset].childIndex.value in g.records;
    ValuesPresent(g.records);
  }

  lemma ValuesPresent<V>(m: map<nat, V>)
    requires m != map[]
    ensures ValuesInOrder(m) != []
  {}

  /** Failures are not always the last word: in a reachable state with a failed row, some way in which the run can go on
      publishes a success of the parent if and only if a delivery that read the table before, clean and complete, is
      still on its way. */
  lemma SuccessAfterFailureExact(log: seq<JobResult>, before: seq<Step>, s: System, parent: string)
    requires Run(log, START, before, s) && HasFailure(s.rows, parent)
    ensures CanSucceed(log, s, parent) <==> !NonePromising(log, s, parent)
  {
    assert Inv(log, START);
    RunKeeps(log, START, before, s);
    if !NonePromising(log, s, parent) {
      var h :| h in s.open && Promising(log, h, parent);
      ChildrenPresent(log, s.rows, h);
      PromiseSucceeds(log, s, h, parent);
    } else if CanSucceed(log, s, parent) {
      var steps, t :| Run(log, s, steps, t) && s.published <= t.published && SuccessOut(t.published[|s.published|..], parent);
      HopelessRun(log, s, steps, t, parent);
    }
  }

  /** With an agreed number of children, clean and complete means that every child succeeded and nothing failed. */
  lemma PromiseMeaning(log: seq<JobResult>, before: seq<Step>, s: System, h: Handling, parent: string, n: nat)
    requires CountAgreed(log, parent, n) && Run(log, START, before, s) && h in s.open && ChildOf(log, h.offset, parent)
    ensures Merging(log, h).Some? <==> h.table.Some? && AllSucceeded(h.table.value, parent, n)
  {
    ReachedReading(log, before, s, h, parent, n);
    if h.table.Some? {
      WrittenCounts(log, s.rows, h.table.value, parent, n);
      if AllSucceeded(h.table.value, parent, n) { MergeStarts(h.table.value, parent, n); }
      if Merging(log, h).Some? { MergingIsComplete(log, s.rows, h, parent, n); }
    }
  }

  lemma MergingIsComplete(log: seq<JobResult>, rows: seq<Row>, h: Handling, parent: string, n: nat)
    requires RowsWritten(log, rows) && CountAgreed(log, parent, n) && ChildOf(log, h.offset, parent)
    requires ReadBack(log, rows, h) && Merging(log, h).Some?
    ensures AllSucceeded(h.table.value, parent, n)
  {
    var merged := h.(sent := 0, merge := Done(Some(0)));
    MergedSays(log, merged, parent);
    AnswerOf(log, rows, merged, parent, n);
  }

  // ----- Deliveries that do not overlap -----

  /** No child of the parent writes its row while another one that has read the table is being answered. */
  ghost predicate Apart(log: seq<JobResult>, s: System, steps: seq<Step>, parent: string)
    decreases |steps|
  {
    steps != [] && Enabled(log, s, steps[0]) ==>
      && (steps[0].Append? && ChildOf(log, steps[0].offset, parent) ==>
            forall h :: h in s.open ==> !ChildOf(log, h.offset, parent))
      && Apart(log, Next(log, s, steps[0]), steps[1..], parent)
  }

  lemma OtherRow(rows: seq<Row>, r: Row, parent: string)
    requires r.parentJobId != parent && HasFailure(rows + [r], parent)
    ensures HasFailure(rows, parent)
  {
    var k :| Fails(rows + [r], parent, k);
    assert Fails(rows, parent, k);
  }

  lemma ApartStep(log: seq<JobResult>, s: System, step: Step, parent: string)
    requires Enabled(log, s, step) && (HasFailure(s.rows, parent) ==> NonePromising(log, s, parent))
    requires step.Append? && ChildOf(log, step.offset, parent) ==> forall h :: h in s.open ==> !ChildOf(log, h.offset, parent)
    ensures HasFailure(Next(log, s, step).rows, parent) ==> NonePromising(log, Next(log, s, step), parent)
  {
    if HasFailure(s.rows, parent) {
      StayHopeless(log, s, step, parent);
    } else if step.Append? && HasFailure(Next(log, s, step).rows, parent) && !ChildOf(log, step.offset, parent) {
      OtherRow(s.rows, RowOf(Checked(log[step.offset])), parent);
    }
  }

  lemma {:induction false} ApartRun(log: seq<JobResult>, s: System, steps: seq<Step>, t: System, parent: string)
    requires Run(log, s, steps, t) && Apart(log, s, steps, parent)
    requires HasFailure(s.rows, parent) ==> NonePromising(log, s, parent)
    ensures HasFailure(t.rows, parent) ==> NonePromising(log, t, parent)
    decreases |steps|
  {
    if steps != [] {
      ApartStep(log, s, steps[0], parent);
      ApartRun(log, Next(log, s, steps[0]), steps[1..], t, parent);
    }
  }

  /** Failures are sticky if deliveries of the parent's children do not overlap: whatever happens after a failed row is
      there, overlapping or not, no success of the parent is published any more. */
  lemma NoSuccessAfterFailure(log: seq<JobResult>, before: seq<Step>, s: System, after: seq<Step>, t: System,
                              parent: string)
    requires Run(log, START, before, s) && Apart(log, START, before, parent) && HasFailure(s.rows, parent)
    requires Run(log, s, after, t)
    ensures s.published <= t.published && !SuccessOut(t.published[|s.published|..], parent)
  {
    ApartRun(log, START, before, s, parent);
    HopelessRun(log, s, after, t, parent);
  }

  // ----- Deliveries that do -----

  function Child(index: nat, status: JobStatus): JobResult {
    JobResult("job", "resource", Some("p"), Some("parent"), Some(index), Some(2), status, Some(Artifact("file", 1)),
              Some(1), None, None, None, None)
  }

  function LateLog(): seq<JobResult> { [Child(0, SUCCESS), Child(1, SUCCESS), Child(1, FAILED)] }

  function CleanTable(): seq<Row> { [RowOf(Child(0, SUCCESS)), RowOf(Child(1, SUCCESS))] }

  lemma CleanTablePromises()
    ensures Promising(LateLog(), Handling(1, Some(CleanTable()), 0, Unstarted), "p")
  {
    var rows := CleanTable();
    assert FixedCount(rows, "p", 2);
    assert rows[0].index == 0 && rows[1].index == 1;
    assert AllSucceeded(rows, "p", 2);
    MergeStarts(rows, "p", 2);
  }

  lemma LateCount()
    ensures CountAgreed(LateLog(), "p", 2)
  {}

  /** Both children arrive, the second reads the table, and then a repetition of it fails. */
  lemma LateRun()
    ensures exists before, s ::
              && Run(LateLog(), START, before, s) && HasFailure(s.rows, "p")
              && Handling(1, Some(CleanTable()), 0, Unstarted) in s.open
  {
    var log := LateLog();
    var s1 := Next(log, START, Append(0));
    var s2 := Next(log, s1, Append(1));
    assert s2.rows == CleanTable();
    var s3 := Next(log, s2, Scan(1, true));
    var s := Next(log, s3, Append(2));
    First(log, s3, Append(2), [], s);
    First(log, s2, Scan(1, true), [Append(2)] + [], s);
    First(log, s1, Append(1), [Scan(1, true)] + ([Append(2)] + []), s);
    First(log, START, Append(0), [Append(1)] + ([Scan(1, true)] + ([Append(2)] + [])), s);
    assert Fails(s.rows, "p", 2);
  }

  lemma PromiseAround(log: seq<JobResult>, s: System, h: Handling, parent: string)
    requires h in s.open && Promising(log, h, parent)
    ensures !NonePromising(log, s, parent)
  {}

  /** A second worker appends the failure of a repeated child between another worker's reading and publishing. */
  lemma LateFailureExample()
    ensures CountAgreed(LateLog(), "p", 2)
    ensures exists before, s :: Run(LateLog(), START, before, s) && HasFailure(s.rows, "p") && CanSucceed(LateLog(), s, "p")
  {
    LateRun();
    LateCount();
    var before, s :| Run(LateLog(), START, before, s) && HasFailure(s.rows, "p")
                     && Handling(1, Some(CleanTable()), 0, Unstarted) in s.open;
    CleanTablePromises();
    PromiseAround(LateLog(), s, Handling(1, Some(CleanTable()), 0, Unstarted), "p");
    SuccessAfterFailureExact(LateLog(), before, s, "p");
  }
}
