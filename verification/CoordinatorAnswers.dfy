/** What the messages of all runs say, and what a merge is given: each goes back to a result that was delivered
    (ckan-ingestor-rs/ckan-worker-coordinator/src/parquet_message_processor.rs, child_jobs.rs). */
module CoordinatorAnswers {
  import opened Common
  import opened ChildJobs
  import opened ParquetProcessor
  import opened CoordinatorRuns

  // ----- Messages -----

  /** The message is about the child of a delivered result, or about its parent. */
  ghost predicate Founded(log: seq<JobResult>, m: JobResult) {
    exists o: nat :: Delivered(log, o) && (if m.parentJobId.Some? then Announces(m, log[o]) else Concludes(m, log[o]))
  }

  ghost predicate Announced(log: seq<JobResult>, published: seq<JobResult>, o: nat) {
    exists m :: m in published && Delivered(log, o) && Announces(m, log[o])
  }

  ghost predicate AllFounded(log: seq<JobResult>, s: System) { forall m :: m in s.published ==> Founded(log, m) }

  ghost predicate AllAnnounced(log: seq<JobResult>, s: System) {
    && (forall h :: h in s.open && h.sent > 0 ==> Announced(log, s.published, h.offset))
    && (forall o :: o in s.handled ==> Announced(log, s.published, o))
  }

  lemma MessageSays(log: seq<JobResult>, h: Handling)
    requires Delivered(log, h.offset) && h.sent < |Messages(log, h)|
    ensures Founded(log, Messages(log, h)[h.sent])
    ensures h.sent == 0 ==> Announces(Messages(log, h)[0], log[h.offset])
  {
    OutputsSay(log[h.offset], Group(log, h), if h.merge.Done? then h.merge.rows else None);
  }

  lemma Grown(log: seq<JobResult>, s: System, t: System)
    requires s.published <= t.published
    ensures forall o :: Announced(log, s.published, o) ==> Announced(log, t.published, o)
  {
    assert forall m :: m in s.published ==> m in t.published;
  }

  lemma SendAnswers(log: seq<JobResult>, s: System, h: Handling)
    requires Enabled(log, s, Send(h)) && AllFounded(log, s) && AllAnnounced(log, s)
    ensures AllFounded(log, Next(log, s, Send(h))) && AllAnnounced(log, Next(log, s, Send(h)))
  {
    var t, m := Next(log, s, Send(h)), Messages(log, h)[h.sent];
    MessageSays(log, h);
    Sent(log, s, t, h, m);
  }

  lemma Sent(log: seq<JobResult>, s: System, t: System, h: Handling, m: JobResult)
    requires AllFounded(log, s) && AllAnnounced(log, s) && h in s.open && Delivered(log, h.offset)
    requires t.published == s.published + [m] && t.handled == s.handled
    requires t.open == s.open - multiset{h} + multiset{h.(sent := h.sent + 1)}
    requires Founded(log, m) && (h.sent == 0 ==> Announces(m, log[h.offset]))
    ensures AllFounded(log, t) && AllAnnounced(log, t)
  {
    assert m in t.published && forall x :: x in t.published <==> x in s.published || x == m;
    Grown(log, s, t);
    if h.sent == 0 { assert Announced(log, t.published, h.offset); }
    assert forall x :: x in t.open ==> x in s.open || x == h.(sent := h.sent + 1);
  }

  /** A delivery that has sent something before a step that sends nothing. */
  lemma StartedBefore(log: seq<JobResult>, s: System, step: Step, h: Handling)
    requires Enabled(log, s, step) && !step.Send? && h in Next(log, s, step).open && h.sent > 0
    ensures exists x :: x in s.open && x.sent > 0 && x.offset == h.offset
  {
    if h !in s.open { assert (step.CheckTags? || step.Register? || step.MergeFails?) && step.h in s.open; }
  }

  lemma GivenBackBefore(log: seq<JobResult>, s: System, step: Step, o: nat)
    requires Enabled(log, s, step) && o in Next(log, s, step).handled && o !in s.handled
    ensures exists x :: x in s.open && x.sent > 0 && x.offset == o
  {
    assert step.GiveBack? && step.h in s.open;
  }

  lemma OthersAnswer(log: seq<JobResult>, s: System, step: Step)
    requires Enabled(log, s, step) && !step.Send? && AllAnnounced(log, s)
    ensures AllAnnounced(log, Next(log, s, step))
  {
    var t := Next(log, s, step);
    forall h | h in t.open && h.sent > 0 ensures Announced(log, t.published, h.offset) {
      StartedBefore(log, s, step, h);
    }
    forall o | o in t.handled ensures Announced(log, t.published, o) {
      if o !in s.handled { GivenBackBefore(log, s, step, o); }
    }
  }

  lemma StepAnswers(log: seq<JobResult>, s: System, step: Step)
    requires Enabled(log, s, step) && AllFounded(log, s) && AllAnnounced(log, s)
    ensures AllFounded(log, Next(log, s, step)) && AllAnnounced(log, Next(log, s, step))
  {
    if step.Send? { SendAnswers(log, s, step.h); } else { OthersAnswer(log, s, step); }
  }

  lemma {:induction false} RunAnswers(log: seq<JobResult>, s: System, steps: seq<Step>, t: System)
    requires Run(log, s, steps, t) && AllFounded(log, s) && AllAnnounced(log, s)
    ensures AllFounded(log, t) && AllAnnounced(log, t)
    decreases |steps|
  {
    if steps != [] {
      StepAnswers(log, s, steps[0]);
      RunAnswers(log, Next(log, s, steps[0]), steps[1..], t);
    }
  }

  /** Over all runs, a published message about a child tells what was delivered for that child, a message about a parent
      belongs to a delivered child of it, and no offset is given back without the message about its child. */
  lemma ChildrenAnswered(log: seq<JobResult>, steps: seq<Step>, t: System)
    requires Run(log, START, steps, t)
    ensures forall m :: m in t.published && m.parentJobId.Some? ==> exists o: nat :: Delivered(log, o) && Announces(m, log[o])
    ensures forall m :: m in t.published && m.parentJobId.None? ==> exists o: nat :: Delivered(log, o) && Concludes(m, log[o])
    ensures forall o :: o in t.handled ==> Delivered(log, o) && exists m :: m in t.published && Announces(m, log[o])
  {
    RunAnswers(log, START, steps, t);
    forall m | m in t.published
      ensures exists o: nat :: Delivered(log, o) && (if m.parentJobId.Some? then Announces(m, log[o]) else Concludes(m, log[o]))
    {
      assert Founded(log, m);
    }
    forall o | o in t.handled ensures Delivered(log, o) && exists m :: m in t.published && Announces(m, log[o]) {
      assert Announced(log, t.published, o);
    }
  }

  // ----- What a merge is given -----

  /** A child of the parent was delivered with this index, as a success with its file, and the record tells it. */
  ghost predicate GivenBy(log: seq<JobResult>, o: nat, parent: string, i: nat, record: ChildRecord) {
    && ChildOf(log, o, parent) && log[o].childIndex == Some(i) && log[o].status == SUCCESS && log[o].artifact.Some?
    && Tells(record, log[o])
  }

  ghost predicate Given(log: seq<JobResult>, parent: string, i: nat, record: ChildRecord) {
    exists o: nat :: GivenBy(log, o, parent, i, record)
  }

  lemma RowTellsResult(log: seq<JobResult>, row: Row, o: nat)
    requires Writes(log, o, row) && row.status == SUCCESS
    ensures GivenBy(log, o, row.parentJobId, row.index, RecordOf(row))
  {
    WrittenIsRead(Checked(log[o]));
  }

  lemma RecordGiven(log: seq<JobResult>, table: seq<Row>, parent: string, i: nat)
    requires RowsWritten(log, table) && !HasFailure(table, parent) && i in Fold(table, parent)
    ensures Given(log, parent, i, Fold(table, parent)[i])
  {
    FoldBacked(table, parent, i);
    var k: nat :| Decides(table, parent, i, k) && Fold(table, parent)[i] == RecordOf(table[k]);
    assert !Fails(table, parent, k) && table[k] in table;
    var o: nat :| Writes(log, o, table[k]);
    RowTellsResult(log, table[k], o);
  }

  lemma RequestGiven(log: seq<JobResult>, table: seq<Row>, parent: string, n: nat)
    requires RowsWritten(log, table) && FixedCount(table, parent, n) && AllSucceeded(table, parent, n)
    ensures var request := MergeRequest(Some(GroupFor(table, parent)));
            request.Some? && |request.value| == n && forall i: nat :: i < n ==> Given(log, parent, i, request.value[i])
  {
    var records := GroupFor(table, parent).records;
    MergeStarts(table, parent, n);
    ValuesOfPrefixKeys(records, n);
    forall i: nat | i < n ensures Given(log, parent, i, ValuesInOrder(records)[i]) {
      RecordGiven(log, table, parent, i);
    }
  }

  /** Over all runs, what a delivery merges is, for each index in order, a success that was delivered with this index. */
  lemma MergeGetsDelivered(log: seq<JobResult>, steps: seq<Step>, t: System, h: Handling, parent: string, n: nat)
    requires CountAgreed(log, parent, n) && Run(log, START, steps, t)
    requires h in t.open && ChildOf(log, h.offset, parent) && h.table.Some? && AllSucceeded(h.table.value, parent, n)
    ensures Merging(log, h).Some? && |Merging(log, h).value| == n
    ensures forall i: nat :: i < n ==> Given(log, parent, i, Merging(log, h).value[i])
  {
    ReachedReading(log, steps, t, h, parent, n);
    WrittenCounts(log, t.rows, h.table.value, parent, n);
    PrefixWritten(log, t.rows, h.table.value);
    RequestGiven(log, h.table.value, parent, n);
  }

  lemma PrefixWritten(log: seq<JobResult>, rows: seq<Row>, table: seq<Row>)
    requires RowsWritten(log, rows) && table <= rows
    ensures RowsWritten(log, table)
  {
    forall row | row in table ensures exists o: nat :: Writes(log, o, row) { assert row in rows; }
  }
}
