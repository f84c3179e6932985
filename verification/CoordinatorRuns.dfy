/** Runs of several coordinator workers over one log of child results. A worker publishes every message
    before it gives the offset back (ckan-ingestor-rs/message-processor/src/worker_handler.rs), so a crash
    leads to another delivery. Writing the row, reading the table back, publishing for the child, merging and
    publishing for the parent are separate steps, between which any other worker may act
    (ckan-ingestor-rs/ckan-worker-coordinator/src/parquet_message_processor.rs). */
module CoordinatorRuns {
  import opened Common
  import opened ChildJobs
  import opened ParquetProcessor
  import Registrar = ParquetRegistrar

  /** A table that was put in place for a resource. */
  datatype Created = Created(resource: string, table: Registrar.Table)

  datatype Merge = Unstarted | Due | Done(rows: Option<nat>)

  /** A delivery that is being answered: the table it read back, if it could, the messages it has sent,
      and how far its merge has come. */
  datatype Handling = Handling(offset: nat, table: Option<seq<Row>>, sent: nat, merge: Merge)

  /** `written`: one entry for each row whose table is yet to be read back; `handled`: offsets given back. */
  datatype System = System(rows: seq<Row>, written: multiset<nat>, open: multiset<Handling>, handled: set<nat>,
                           published: seq<JobResult>, created: seq<Created>)

  const START := System([], multiset{}, multiset{}, {}, [], [])

  /** Every offset may be taken any number of times and in any order. `Lose` and `Abandon` are crashes;
      `Elsewhere` is a table from another kind of result. */
  datatype Step =
    | Append(offset: nat)
    | Refuse(offset: nat)
    | Scan(offset: nat, works: bool)
    | Send(h: Handling)
    | CheckTags(h: Handling)
    | Register(h: Handling, files: seq<Artifact>)
    | MergeFails(h: Handling)
    | GiveBack(h: Handling)
    | Lose(offset: nat)
    | Abandon(h: Handling)
    | Elsewhere(other: Created)

  ghost predicate Delivered(log: seq<JobResult>, o: nat) { o < |log| && IsChildResult(log[o]) }

  ghost predicate Writable(log: seq<JobResult>, o: nat) { Delivered(log, o) && Recordable(Checked(log[o])) }

  /** The group that the delivery folded from its table. */
  ghost function Group(log: seq<JobResult>, h: Handling): Option<ChildGroup>
    requires Delivered(log, h.offset)
  {
    if h.table.Some? then Some(GroupFor(h.table.value, log[h.offset].parentJobId.value)) else None
  }

  /** The messages of a delivery, the second of which, if there is one, is about the parent. */
  ghost function Messages(log: seq<JobResult>, h: Handling): (ms: seq<JobResult>)
    requires Delivered(log, h.offset)
    ensures 1 <= |ms| <= 2
  {
    ChildOutputs(Checked(log[h.offset]), Group(log, h), if h.merge.Done? then h.merge.rows else None)
  }

  /** The children that the delivery merges, if it does. */
  ghost function Merging(log: seq<JobResult>, h: Handling): Option<seq<ChildRecord>> {
    if Delivered(log, h.offset) then MergeRequest(Group(log, h)) else None
  }

  function Version(r: JobResult): string
    requires IsChildResult(r)
  {
    GetOr(r.sourceVersion, r.parentJobId.value)
  }

  /** The table of a resource: the one created last. */
  function Current(created: seq<Created>, resource: string): Option<Registrar.Table> {
    if created == [] then None
    else if created[|created| - 1].resource == resource then Some(created[|created| - 1].table)
    else Current(created[..|created| - 1], resource)
  }

  ghost function TagsChecked(log: seq<JobResult>, s: System, h: Handling): Merge
    requires Merging(log, h).Some?
  {
    var r := log[h.offset];
    if Registrar.Skipped(Current(s.created, r.parentResourceId.value), Version(r), r.parentJobId.value)
    then Done(Some(Registrar.ReportedRows(Merging(log, h).value))) else Due
  }

  function Merged(r: JobResult, files: seq<Artifact>): Created
    requires IsChildResult(r)
  {
    Created(r.parentResourceId.value, Registrar.TableOf(Registrar.Delivery(Version(r), r.parentJobId.value, files)))
  }

  ghost predicate Enabled(log: seq<JobResult>, s: System, step: Step) {
    match step
    case Append(o) => Writable(log, o)
    case Refuse(o) => Delivered(log, o)
    case Scan(o, _) => o in s.written && Writable(log, o)
    case Send(h) =>
      && h in s.open && Delivered(log, h.offset) && h.sent < |Messages(log, h)|
      && (h.sent == 1 && Merging(log, h).Some? ==> h.merge.Done?)
    case CheckTags(h) =>
      h in s.open && h.sent == 1 && h.merge.Unstarted? && Merging(log, h).Some? && Merging(log, h).value != []
    case Register(h, files) =>
      h in s.open && h.merge.Due? && Merging(log, h).Some? && |files| == |Merging(log, h).value|
    case MergeFails(h) => h in s.open && h.sent == 1 && !h.merge.Done? && Merging(log, h).Some?
    case GiveBack(h) => h in s.open && Delivered(log, h.offset) && h.sent == |Messages(log, h)|
    case Lose(o) => o in s.written
    case Abandon(h) => h in s.open
    case Elsewhere(_) => true
  }

  function Moved(s: System, h: Handling, next: Handling): System {
    s.(open := s.open - multiset{h} + multiset{next})
  }

  ghost function Next(log: seq<JobResult>, s: System, step: Step): System
    requires Enabled(log, s, step)
  {
    match step
    case Append(o) => s.(rows := s.rows + [RowOf(Checked(log[o]))], written := s.written + multiset{o})
    case Refuse(o) => s.(open := s.open + multiset{Handling(o, None, 0, Unstarted)})
    case Scan(o, works) =>
      var h := Handling(o, if works then Some(s.rows) else None, 0, Unstarted);
      s.(written := s.written - multiset{o}, open := s.open + multiset{h})
    case Send(h) => Moved(s, h, h.(sent := h.sent + 1)).(published := s.published + [Messages(log, h)[h.sent]])
    case CheckTags(h) => Moved(s, h, h.(merge := TagsChecked(log, s, h)))
    case Register(h, files) =>
      Moved(s, h, h.(merge := Done(Some(Registrar.FileRows(files)))))
        .(created := s.created + [Merged(log[h.offset], files)])
    case MergeFails(h) => Moved(s, h, h.(merge := Done(None)))
    case GiveBack(h) => s.(open := s.open - multiset{h}, handled := s.handled + {h.offset})
    case Lose(o) => s.(written := s.written - multiset{o})
    case Abandon(h) => s.(open := s.open - multiset{h})
    case Elsewhere(other) => s.(created := s.created + [other])
  }

  ghost predicate Run(log: seq<JobResult>, s: System, steps: seq<Step>, t: System)
    decreases |steps|
  {
    if steps == [] then s == t
    else Enabled(log, s, steps[0]) && Run(log, Next(log, s, steps[0]), steps[1..], t)
  }

  // ----- What every run keeps -----

  ghost predicate Writes(log: seq<JobResult>, o: nat, row: Row) { Writable(log, o) && row == RowOf(Checked(log[o])) }

  ghost predicate RowsWritten(log: seq<JobResult>, rows: seq<Row>) {
    forall row :: row in rows ==> exists o: nat :: Writes(log, o, row)
  }

  ghost predicate InTable(log: seq<JobResult>, rows: seq<Row>, o: nat) {
    Writable(log, o) && log[o].childIndex.value in Indices(rows, log[o].parentJobId.value)
  }

  ghost predicate AllInTable(log: seq<JobResult>, s: System) {
    forall o :: o in s.written ==> InTable(log, s.rows, o)
  }

  /** A table that was read back is an earlier state of the table, and has the row of the delivery. */
  ghost predicate ReadBack(log: seq<JobResult>, rows: seq<Row>, h: Handling) {
    Delivered(log, h.offset) && (h.table.Some? ==> h.table.value <= rows && InTable(log, h.table.value, h.offset))
  }

  ghost predicate AllReadBack(log: seq<JobResult>, s: System) {
    forall h :: h in s.open ==> ReadBack(log, s.rows, h)
  }

  ghost predicate Inv(log: seq<JobResult>, s: System) {
    RowsWritten(log, s.rows) && AllInTable(log, s) && AllReadBack(log, s)
  }

  lemma IndicesGrow(rows: seq<Row>, more: seq<Row>, p: string)
    ensures Indices(rows, p) <= Indices(rows + more, p)
  {
    forall i | i in Indices(rows, p) ensures i in Indices(rows + more, p) {
      var k :| 0 <= k < |rows| && rows[k].parentJobId == p && rows[k].index == i;
      assert (rows + more)[k] == rows[k];
    }
  }

  lemma OwnRow(log: seq<JobResult>, rows: seq<Row>, o: nat)
    requires Writable(log, o)
    ensures InTable(log, rows + [RowOf(Checked(log[o]))], o)
  {
    var all := rows + [RowOf(Checked(log[o]))];
    assert all[|rows|] == RowOf(Checked(log[o]));
  }

  lemma AppendKeeps(log: seq<JobResult>, s: System, o: nat)
    requires Inv(log, s) && Enabled(log, s, Append(o))
    ensures Inv(log, Next(log, s, Append(o)))
  {
    var t, r := Next(log, s, Append(o)), RowOf(Checked(log[o]));
    assert Writes(log, o, r);
    forall q | q in t.written ensures InTable(log, t.rows, q) {
      if q in s.written { IndicesGrow(s.rows, [r], log[q].parentJobId.value); } else { OwnRow(log, s.rows, o); }
    }
  }

  /** One delivery goes from `gone` to `come`. */
  lemma OpenChanges(log: seq<JobResult>, s: System, t: System, gone: multiset<Handling>, come: multiset<Handling>)
    requires AllReadBack(log, s) && t.rows == s.rows && t.open == s.open - gone + come
    requires forall h :: h in come ==> ReadBack(log, s.rows, h)
    ensures AllReadBack(log, t)
  {
    assert forall h :: h in t.open ==> h in s.open || h in come;
  }

  lemma WrittenShrinks(log: seq<JobResult>, s: System, t: System)
    requires AllInTable(log, s) && t.rows == s.rows && t.written <= s.written
    ensures AllInTable(log, t)
  {
    assert forall o :: o in t.written ==> o in s.written;
  }

  lemma ScanKeeps(log: seq<JobResult>, s: System, t: System, o: nat, table: Option<seq<Row>>)
    requires AllInTable(log, s) && AllReadBack(log, s) && o in s.written && table in {None, Some(s.rows)}
    requires t.rows == s.rows && t.written == s.written - multiset{o}
    requires t.open == s.open + multiset{Handling(o, table, 0, Unstarted)}
    ensures AllInTable(log, t) && AllReadBack(log, t)
  {
    WrittenShrinks(log, s, t);
    OpenChanges(log, s, t, multiset{}, multiset{Handling(o, table, 0, Unstarted)});
  }

  lemma MovedKeeps(log: seq<JobResult>, s: System, t: System, h: Handling, next: Handling)
    requires Inv(log, s) && h in s.open && next.offset == h.offset && next.table == h.table
    requires t.rows == s.rows && t.written == s.written && t.open == s.open - multiset{h} + multiset{next}
    ensures Inv(log, t)
  {
    assert ReadBack(log, s.rows, h);
    OpenChanges(log, s, t, multiset{h}, multiset{next});
  }

  lemma AnsweringKeeps(log: seq<JobResult>, s: System, step: Step)
    requires Inv(log, s) && Enabled(log, s, step) && (step.Send? || step.CheckTags? || step.Register? || step.MergeFails?)
    ensures Inv(log, Next(log, s, step))
  {
    var t, h := Next(log, s, step), step.h;
    if step.Send? {
      MovedKeeps(log, s, t, h, h.(sent := h.sent + 1));
    } else if step.CheckTags? {
      MovedKeeps(log, s, t, h, h.(merge := TagsChecked(log, s, h)));
    } else if step.Register? {
      MovedKeeps(log, s, t, h, h.(merge := Done(Some(Registrar.FileRows(step.files)))));
    } else {
      MovedKeeps(log, s, t, h, h.(merge := Done(None)));
    }
  }

  lemma DeliveryKeeps(log: seq<JobResult>, s: System, step: Step)
    requires Inv(log, s) && Enabled(log, s, step) && (step.Refuse? || step.Scan? || step.GiveBack? || step.Abandon?)
    ensures Inv(log, Next(log, s, step))
  {
    var t := Next(log, s, step);
    if step.Refuse? {
      OpenChanges(log, s, t, multiset{}, multiset{Handling(step.offset, None, 0, Unstarted)});
    } else if step.Scan? {
      ScanKeeps(log, s, t, step.offset, if step.works then Some(s.rows) else None);
    } else {
      OpenChanges(log, s, t, multiset{step.h}, multiset{});
    }
  }

  lemma StepKeeps(log: seq<JobResult>, s: System, step: Step)
    requires Inv(log, s) && Enabled(log, s, step)
    ensures Inv(log, Next(log, s, step))
  {
    if step.Append? {
      AppendKeeps(log, s, step.offset);
    } else if step.Lose? {
      WrittenShrinks(log, s, Next(log, s, step));
    } else if step.Refuse? || step.Scan? || step.GiveBack? || step.Abandon? {
      DeliveryKeeps(log, s, step);
    } else if !step.Elsewhere? {
      AnsweringKeeps(log, s, step);
    }
  }

  lemma {:induction false} RunKeeps(log: seq<JobResult>, s: System, steps: seq<Step>, t: System)
    requires Inv(log, s) && Run(log, s, steps, t)
    ensures Inv(log, t)
    decreases |steps|
  {
    if steps != [] {
      StepKeeps(log, s, steps[0]);
      RunKeeps(log, Next(log, s, steps[0]), steps[1..], t);
    }
  }

  // ----- One parent -----

  ghost predicate ChildOf(log: seq<JobResult>, o: nat, parent: string) {
    Delivered(log, o) && log[o].parentJobId.value == parent
  }

  /** All children of the parent name the same number of siblings. */
  ghost predicate CountAgreed(log: seq<JobResult>, parent: string, n: nat) {
    n > 1 && forall o: nat :: ChildOf(log, o, parent) ==>
      log[o].totalChildCount == Some(n) && log[o].childIndex.Some? && log[o].childIndex.value < n
  }

  ghost predicate Verdict(m: JobResult, parent: string) {
    m.jobId == parent && m.parentJobId.None? && m.status in {SUCCESS, FAILED}
  }

  ghost predicate VerdictOut(ms: seq<JobResult>, parent: string) {
    exists i :: 0 <= i < |ms| && Verdict(ms[i], parent)
  }

  ghost predicate SuccessOut(ms: seq<JobResult>, parent: string) {
    exists i :: 0 <= i < |ms| && Verdict(ms[i], parent) && ms[i].status == SUCCESS
  }

  /** Some table of the run had a success for every child and no failure. */
  ghost predicate WasComplete(rows: seq<Row>, parent: string, n: nat) {
    exists table :: table <= rows && AllSucceeded(table, parent, n)
  }

  ghost predicate Full(rows: seq<Row>, parent: string, n: nat) {
    forall i: nat :: i < n ==> i in Indices(rows, parent)
  }

  /** Every child index has been handled by somebody. */
  ghost predicate AllHandled(log: seq<JobResult>, s: System, parent: string, n: nat) {
    forall i: nat :: i < n ==> IndexHandled(log, s, parent, i)
  }

  ghost predicate IndexHandled(log: seq<JobResult>, s: System, parent: string, i: nat) {
    exists o: nat :: o in s.handled && ChildOf(log, o, parent) && log[o].childIndex == Some(i)
  }

  /** An earlier table held all indices that have been handled until now, but not all there are. */
  ghost predicate GapIn(log: seq<JobResult>, s: System, parent: string, n: nat, table: seq<Row>) {
    && table <= s.rows && !Full(table, parent, n)
    && forall o :: o in s.handled && ChildOf(log, o, parent) ==> InTable(log, table, o)
  }

  ghost predicate HasGap(log: seq<JobResult>, s: System, parent: string, n: nat) {
    exists table :: GapIn(log, s, parent, n, table)
  }

  ghost predicate SecondIsVerdict(log: seq<JobResult>, s: System, parent: string) {
    forall h :: h in s.open && h.sent == 2 && ChildOf(log, h.offset, parent) ==> VerdictOut(s.published, parent)
  }

  ghost predicate ParentInv(log: seq<JobResult>, s: System, parent: string, n: nat) {
    && SecondIsVerdict(log, s, parent)
    && (VerdictOut(s.published, parent) || HasGap(log, s, parent, n))
    && (SuccessOut(s.published, parent) ==> WasComplete(s.rows, parent, n))
  }

  lemma WrittenCounts(log: seq<JobResult>, rows: seq<Row>, table: seq<Row>, parent: string, n: nat)
    requires RowsWritten(log, rows) && CountAgreed(log, parent, n) && table <= rows
    ensures FixedCount(table, parent, n) && FilesPresent(table)
  {
    forall i | 0 <= i < |table|
      ensures table[i].parentJobId == parent ==> table[i].total == n && table[i].index < n
      ensures table[i].status == SUCCESS ==> table[i].artifact.Some?
    {
      assert table[i] == rows[i] && rows[i] in rows;
      var o: nat :| Writes(log, o, rows[i]);
      assert log[o].parentJobId.value == parent ==> ChildOf(log, o, parent);
    }
  }

  /** What a delivery that read the table says about its parent. */
  lemma AnswerOf(log: seq<JobResult>, rows: seq<Row>, h: Handling, parent: string, n: nat)
    requires RowsWritten(log, rows) && CountAgreed(log, parent, n) && ChildOf(log, h.offset, parent)
    requires ReadBack(log, rows, h) && h.table.Some?
    ensures |Messages(log, h)| == 2 <==> HasFailure(h.table.value, parent) || Full(h.table.value, parent, n)
    ensures |Messages(log, h)| == 2 && Messages(log, h)[1].status == SUCCESS ==> AllSucceeded(h.table.value, parent, n)
  {
    WrittenCounts(log, rows, h.table.value, parent, n);
    VerdictMeaning(h.table.value, Checked(log[h.offset]), n, if h.merge.Done? then h.merge.rows else None);
  }

  /** Without a table there is always a verdict, a failure. */
  lemma NoTable(log: seq<JobResult>, h: Handling)
    requires Delivered(log, h.offset) && h.table.None?
    ensures |Messages(log, h)| == 2 && Messages(log, h)[1].status == FAILED
  {}

  lemma OneMore(ms: seq<JobResult>, m: JobResult, parent: string)
    ensures VerdictOut(ms + [m], parent) <==> VerdictOut(ms, parent) || Verdict(m, parent)
    ensures SuccessOut(ms + [m], parent) <==> SuccessOut(ms, parent) || (Verdict(m, parent) && m.status == SUCCESS)
  {
    var all := ms + [m];
    assert forall i :: 0 <= i < |ms| ==> all[i] == ms[i];
    assert all[|ms|] == m;
  }

  /** Only the second message can be a verdict, and only about its own parent. */
  lemma OutputAbout(r: JobResult, group: Option<ChildGroup>, merged: Option<nat>, i: nat, parent: string)
    requires IsChildResult(r) && i < |ChildOutputs(r, group, merged)|
    ensures Verdict(ChildOutputs(r, group, merged)[i], parent) <==> i == 1 && r.parentJobId.value == parent
  {}

  lemma MessageAbout(log: seq<JobResult>, h: Handling, i: nat, parent: string)
    requires Delivered(log, h.offset) && i < |Messages(log, h)|
    ensures Verdict(Messages(log, h)[i], parent) <==> i == 1 && ChildOf(log, h.offset, parent)
  {
    OutputAbout(Checked(log[h.offset]), Group(log, h), if h.merge.Done? then h.merge.rows else None, i, parent);
  }

  lemma SentSuccess(log: seq<JobResult>, s: System, h: Handling, parent: string, n: nat)
    requires CountAgreed(log, parent, n) && RowsWritten(log, s.rows)
    requires ReadBack(log, s.rows, h) && ChildOf(log, h.offset, parent)
    requires |Messages(log, h)| == 2 && Messages(log, h)[1].status == SUCCESS
    ensures WasComplete(s.rows, parent, n)
  {
    if h.table.None? { NoTable(log, h); }
    AnswerOf(log, s.rows, h, parent, n);
  }

  lemma SentSecond(log: seq<JobResult>, s: System, t: System, h: Handling, parent: string)
    requires SecondIsVerdict(log, s, parent) && t.open == s.open - multiset{h} + multiset{h.(sent := h.sent + 1)}
    requires VerdictOut(s.published, parent) ==> VerdictOut(t.published, parent)
    requires h.sent == 1 && ChildOf(log, h.offset, parent) ==> VerdictOut(t.published, parent)
    ensures SecondIsVerdict(log, t, parent)
  {
    assert forall x :: x in t.open ==> x in s.open || x == h.(sent := h.sent + 1);
  }

  lemma GapStays(log: seq<JobResult>, s: System, t: System, parent: string, n: nat)
    requires HasGap(log, s, parent, n) && s.rows <= t.rows
    requires forall o :: o in t.handled && ChildOf(log, o, parent) ==> o in s.handled
    ensures HasGap(log, t, parent, n)
  {
    var table :| GapIn(log, s, parent, n, table);
    assert GapIn(log, t, parent, n, table);
  }

  /** Publishing one message of a delivery. */
  lemma PublishKeeps(log: seq<JobResult>, s: System, t: System, h: Handling, m: JobResult, parent: string, n: nat)
    requires ParentInv(log, s, parent, n) && t.rows == s.rows && t.handled == s.handled && t.published == s.published + [m]
    requires t.open == s.open - multiset{h} + multiset{h.(sent := h.sent + 1)}
    requires h.sent == 1 && ChildOf(log, h.offset, parent) ==> Verdict(m, parent)
    requires Verdict(m, parent) && m.status == SUCCESS ==> WasComplete(s.rows, parent, n)
    ensures ParentInv(log, t, parent, n)
  {
    OneMore(s.published, m, parent);
    SentSecond(log, s, t, h, parent);
    if HasGap(log, s, parent, n) { GapStays(log, s, t, parent, n); }
  }

  lemma SendKeeps(log: seq<JobResult>, s: System, h: Handling, parent: string, n: nat)
    requires CountAgreed(log, parent, n) && RowsWritten(log, s.rows) && ReadBack(log, s.rows, h)
    requires ParentInv(log, s, parent, n) && Enabled(log, s, Send(h))
    ensures ParentInv(log, Next(log, s, Send(h)), parent, n)
  {
    var m := Messages(log, h)[h.sent];
    MessageAbout(log, h, h.sent, parent);
    if Verdict(m, parent) && m.status == SUCCESS { SentSuccess(log, s, h, parent, n); }
    PublishKeeps(log, s, Next(log, s, Send(h)), h, m, parent, n);
  }

  lemma InLaterTable(log: seq<JobResult>, table: seq<Row>, later: seq<Row>, o: nat)
    requires table <= later && InTable(log, table, o)
    ensures InTable(log, later, o)
  {
    assert later == table + later[|table|..];
    IndicesGrow(table, later[|table|..], log[o].parentJobId.value);
  }

  /** A delivery of the parent that is given back without a verdict read a table that had a gap. */
  lemma GivenBackGap(log: seq<JobResult>, s: System, t: System, h: Handling, parent: string, n: nat)
    requires HasGap(log, s, parent, n) && ChildOf(log, h.offset, parent) && ReadBack(log, s.rows, h)
    requires h.table.Some? && !Full(h.table.value, parent, n)
    requires t.rows == s.rows && t.handled == s.handled + {h.offset}
    ensures HasGap(log, t, parent, n)
  {
    var table :| GapIn(log, s, parent, n, table);
    var last := if |table| < |h.table.value| then h.table.value else table;
    assert table <= last && h.table.value <= last;
    forall o | o in t.handled && ChildOf(log, o, parent) ensures InTable(log, last, o) {
      InLaterTable(log, if o == h.offset then h.table.value else table, last, o);
    }
    assert GapIn(log, t, parent, n, last);
  }

  lemma GiveBackKeeps(log: seq<JobResult>, s: System, h: Handling, parent: string, n: nat)
    requires CountAgreed(log, parent, n) && Inv(log, s) && ParentInv(log, s, parent, n) && Enabled(log, s, GiveBack(h))
    ensures ParentInv(log, Next(log, s, GiveBack(h)), parent, n)
  {
    var t := Next(log, s, GiveBack(h));
    assert forall x :: x in t.open ==> x in s.open;
    if !VerdictOut(s.published, parent) {
      if ChildOf(log, h.offset, parent) {
        assert ReadBack(log, s.rows, h);
        if h.table.None? { NoTable(log, h); }
        AnswerOf(log, s.rows, h, parent, n);
        GivenBackGap(log, s, t, h, parent, n);
      } else {
        GapStays(log, s, t, parent, n);
      }
    }
  }

  /** Any other step publishes nothing and gives nothing back. */
  lemma QuietKeeps(log: seq<JobResult>, s: System, t: System, parent: string, n: nat)
    requires ParentInv(log, s, parent, n) && s.rows <= t.rows && t.published == s.published && t.handled == s.handled
    requires forall h :: h in t.open && h.sent == 2 ==> exists x :: x in s.open && x.sent == 2 && x.offset == h.offset
    ensures ParentInv(log, t, parent, n)
  {
    if HasGap(log, s, parent, n) { GapStays(log, s, t, parent, n); }
  }

  lemma QuietStep(log: seq<JobResult>, s: System, step: Step)
    requires Enabled(log, s, step) && !step.Send? && !step.GiveBack?
    ensures var t := Next(log, s, step);
            && s.rows <= t.rows && t.published == s.published && t.handled == s.handled
            && forall h :: h in t.open && h.sent == 2 ==> exists x :: x in s.open && x.sent == 2 && x.offset == h.offset
  {
    var t := Next(log, s, step);
    forall h | h in t.open && h.sent == 2 ensures exists x :: x in s.open && x.sent == 2 && x.offset == h.offset {
      if h !in s.open { assert (step.CheckTags? || step.Register? || step.MergeFails?) && step.h in s.open; }
    }
  }

  lemma StepKeepsParent(log: seq<JobResult>, s: System, step: Step, parent: string, n: nat)
    requires CountAgreed(log, parent, n) && Inv(log, s) && ParentInv(log, s, parent, n) && Enabled(log, s, step)
    ensures ParentInv(log, Next(log, s, step), parent, n)
  {
    if step.Send? {
      assert ReadBack(log, s.rows, step.h);
      SendKeeps(log, s, step.h, parent, n);
    } else if step.GiveBack? {
      GiveBackKeeps(log, s, step.h, parent, n);
    } else {
      QuietStep(log, s, step);
      QuietKeeps(log, s, Next(log, s, step), parent, n);
    }
  }

  lemma {:induction false} RunKeepsParent(log: seq<JobResult>, s: System, steps: seq<Step>, t: System, parent: string, n: nat)
    requires CountAgreed(log, parent, n) && Inv(log, s) && ParentInv(log, s, parent, n) && Run(log, s, steps, t)
    ensures Inv(log, t) && ParentInv(log, t, parent, n)
    decreases |steps|
  {
    if steps != [] {
      StepKeeps(log, s, steps[0]);
      StepKeepsParent(log, s, steps[0], parent, n);
      RunKeepsParent(log, Next(log, s, steps[0]), steps[1..], t, parent, n);
    }
  }

  lemma Reached(log: seq<JobResult>, steps: seq<Step>, t: System, parent: string, n: nat)
    requires CountAgreed(log, parent, n) && Run(log, START, steps, t)
    ensures Inv(log, t) && ParentInv(log, t, parent, n)
  {
    assert 0 !in Indices([], parent);
    assert GapIn(log, START, parent, n, []);
    RunKeepsParent(log, START, steps, t, parent, n);
  }

  /** Safety: over all runs, a parent success has only been published if the table at some moment of the run, which is
      a prefix of the final table, held a success of every child and no failure. */
  lemma SuccessOnlyWhenComplete(log: seq<JobResult>, steps: seq<Step>, t: System, parent: string, n: nat)
    requires CountAgreed(log, parent, n) && Run(log, START, steps, t)
    requires SuccessOut(t.published, parent)
    ensures WasComplete(t.rows, parent, n)
  {
    Reached(log, steps, t, parent, n);
  }

  /** No result is lost: once every child index has been handled, a verdict for the parent is out,
      however deliveries were repeated, reordered, interleaved or cut off. */
  lemma HandledChildrenGetVerdict(log: seq<JobResult>, steps: seq<Step>, t: System, parent: string, n: nat)
    requires CountAgreed(log, parent, n) && Run(log, START, steps, t)
    requires AllHandled(log, t, parent, n)
    ensures VerdictOut(t.published, parent)
  {
    Reached(log, steps, t, parent, n);
    if !VerdictOut(t.published, parent) {
      var table :| GapIn(log, t, parent, n, table);
      forall i: nat | i < n ensures i in Indices(table, parent) { assert IndexHandled(log, t, parent, i); }
    }
  }

  lemma ReachedReading(log: seq<JobResult>, steps: seq<Step>, t: System, h: Handling, parent: string, n: nat)
    requires CountAgreed(log, parent, n) && Run(log, START, steps, t) && h in t.open
    ensures RowsWritten(log, t.rows) && ReadBack(log, t.rows, h) && SecondIsVerdict(log, t, parent)
  {
    Reached(log, steps, t, parent, n);
  }

  lemma SecondIsOut(log: seq<JobResult>, t: System, h: Handling, parent: string)
    requires SecondIsVerdict(log, t, parent) && ChildOf(log, h.offset, parent)
    requires |Messages(log, h)| == 2 && Enabled(log, t, GiveBack(h))
    ensures VerdictOut(t.published, parent)
  {}

  /** A delivery has a verdict to publish if and only if the table it read had every index or a failure; it has
      published it when it gives its offset back. */
  lemma GapFillerAnswers(log: seq<JobResult>, steps: seq<Step>, t: System, h: Handling, parent: string, n: nat)
    requires CountAgreed(log, parent, n) && Run(log, START, steps, t)
    requires h in t.open && h.table.Some? && ChildOf(log, h.offset, parent)
    ensures |Messages(log, h)| == 2 <==> HasFailure(h.table.value, parent) || Full(h.table.value, parent, n)
    ensures |Messages(log, h)| == 2 ==> Verdict(Messages(log, h)[1], parent)
    ensures |Messages(log, h)| == 2 && Enabled(log, t, GiveBack(h)) ==> VerdictOut(t.published, parent)
  {
    ReachedReading(log, steps, t, h, parent, n);
    AnswerOf(log, t.rows, h, parent, n);
    if |Messages(log, h)| == 2 {
      MessageAbout(log, h, 1, parent);
      if Enabled(log, t, GiveBack(h)) { SecondIsOut(log, t, h, parent); }
    }
  }
}
