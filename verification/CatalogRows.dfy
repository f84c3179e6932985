/** The rows of `source_resource` and the two transactions that move them
    (ingestor_orchestrator/mysql-repositories/mysql_source_resource_catalog_repository.go). */
module CatalogRows {
  import opened Common

  const BATCH := 200
  const COLLECTION := "collection"

  /** The fields a discovery provides; an absent parent is "". */
  datatype Details = Details(
    parent: string, kind: string, title: string, description: string, pageUrl: string, url: string,
    format: string, version: string, dataset: string, datastoreActive: bool)

  datatype Resource = Resource(source: string, id: string, details: Details)

  datatype Key = Key(source: string, id: string)

  datatype Row = Row(details: Details, firstSeen: string, lastChanged: string, lastSeen: string, deleted: bool)

  type Rows = map<Key, Row>

  function KeyOf(r: Resource): Key { Key(r.source, r.id) }

  /** `INSERT … ON DUPLICATE KEY UPDATE`: the change mark moves when the version differs or a tombstone revives. */
  function Observed(rows: Rows, r: Resource, sync: string): Row {
    if KeyOf(r) !in rows then Row(r.details, sync, sync, sync, false)
    else
      var row := rows[KeyOf(r)];
      Row(r.details, row.firstSeen,
          if row.details.version != r.details.version || row.deleted then sync else row.lastChanged, sync, false)
  }

  function ObserveSeq(rows: Rows, values: seq<Resource>, sync: string): Rows {
    if values == [] then rows
    else
      var before, last := ObserveSeq(rows, values[..|values| - 1], sync), values[|values| - 1];
      before[KeyOf(last) := Observed(before, last, sync)]
  }

  // ----- What completion reads -----

  ghost function SeenIds(rows: Rows, source: string, sync: string): set<string> {
    set k | k in rows && k.source == source && rows[k].lastSeen == sync && !rows[k].deleted :: k.id
  }

  /** Rows this sync did not see: live ones, and the tombstones it made itself on an earlier attempt. */
  ghost function MissingIds(rows: Rows, source: string, sync: string): set<string> {
    set k | k in rows && k.source == source && rows[k].lastSeen != sync && (!rows[k].deleted || rows[k].lastChanged == sync) :: k.id
  }

  predicate RootCollection(row: Row) { row.details.kind == COLLECTION && row.details.parent == "" }

  predicate Content(row: Row) { row.details.kind != COLLECTION }

  ghost function ContentIds(rows: Rows, source: string, ids: set<string>): set<string>
    requires forall id :: id in ids ==> Key(source, id) in rows
  {
    set id | id in ids && Content(rows[Key(source, id)])
  }

  ghost function CollectionIds(rows: Rows, source: string, ids: set<string>): set<string>
    requires forall id :: id in ids ==> Key(source, id) in rows
  {
    set id | id in ids && !Content(rows[Key(source, id)])
  }

  ghost function RootIds(rows: Rows, source: string, ids: set<string>): set<string>
    requires forall id :: id in ids ==> Key(source, id) in rows
  {
    set id | id in ids && RootCollection(rows[Key(source, id)])
  }

  ghost function FirstSeenIn(rows: Rows, source: string, ids: set<string>, sync: string): set<string>
    requires forall id :: id in ids ==> Key(source, id) in rows
  {
    set id | id in ids && rows[Key(source, id)].firstSeen == sync
  }

  ghost function ChangedIn(rows: Rows, source: string, ids: set<string>, sync: string): set<string>
    requires forall id :: id in ids ==> Key(source, id) in rows
  {
    set id | id in ids && rows[Key(source, id)].lastChanged == sync && rows[Key(source, id)].firstSeen != sync
  }

  datatype Counts = Counts(
    datasets: nat, resources: nat, newDatasets: nat, newResources: nat, updatedDatasets: nat, updatedResources: nat,
    planned: nat, deletedDatasets: nat, deletedResources: nat)

  /** Published messages. Message and job identities are name-based UUIDs of these arguments. */
  datatype Outgoing =
    | PendingJob(sync: string, resource: Resource)
    | ResourceJob(sync: string, resource: Resource)
    | PendingDeletion(sync: string, source: string, id: string, dataset: string, title: string)
    | Deletion(sync: string, source: string, id: string, dataset: string, title: string)
    | SyncSuccess(sync: string, source: string, counts: Counts)

  datatype Finished = Finished(source: string, id: string, version: string)

  /** A resource gets a job when it has content and a version the job ledger has not finished. */
  predicate Due(r: Resource, ledger: set<Finished>) {
    r.details.url != "" && r.details.version != "" && Finished(r.source, r.id, r.details.version) !in ledger
  }

  ghost function JobMessages(rows: Rows, source: string, ids: seq<string>, sync: string, ledger: set<Finished>): seq<Outgoing>
    requires forall id :: id in ids ==> Key(source, id) in rows
  {
    if ids == [] then []
    else
      var id := ids[|ids| - 1];
      var r := Resource(source, id, rows[Key(source, id)].details);
      JobMessages(rows, source, ids[..|ids| - 1], sync, ledger)
        + if Due(r, ledger) then [PendingJob(sync, r), ResourceJob(sync, r)] else []
  }

  ghost function PlannedCount(rows: Rows, source: string, ids: seq<string>, ledger: set<Finished>): nat
    requires forall id :: id in ids ==> Key(source, id) in rows
  {
    if ids == [] then 0
    else
      var id := ids[|ids| - 1];
      PlannedCount(rows, source, ids[..|ids| - 1], ledger)
        + if Due(Resource(source, id, rows[Key(source, id)].details), ledger) then 1 else 0
  }

  ghost function DeletionMessages(rows: Rows, source: string, ids: seq<string>, sync: string): seq<Outgoing>
    requires forall id :: id in ids ==> Key(source, id) in rows
  {
    if ids == [] then []
    else
      var id := ids[|ids| - 1];
      var d := rows[Key(source, id)].details;
      DeletionMessages(rows, source, ids[..|ids| - 1], sync)
        + if d.kind == COLLECTION then []
          else [PendingDeletion(sync, source, id, d.dataset, d.title), Deletion(sync, source, id, d.dataset, d.title)]
  }

  ghost function CountsOf(rows: Rows, source: string, sync: string, ledger: set<Finished>): Counts {
    var seen, missing := SeenIds(rows, source, sync), MissingIds(rows, source, sync);
    var content, roots := ContentIds(rows, source, seen), RootIds(rows, source, seen);
    OrderedLists(content);
    Counts(|roots|, |content|,
           |FirstSeenIn(rows, source, roots, sync)|, |FirstSeenIn(rows, source, content, sync)|,
           |ChangedIn(rows, source, roots, sync)|, |ChangedIn(rows, source, content, sync)|,
           PlannedCount(rows, source, Ordered(content), ledger),
           |CollectionIds(rows, source, missing)|, |ContentIds(rows, source, missing)|)
  }

  ghost function MessagesOf(rows: Rows, source: string, sync: string, ledger: set<Finished>): seq<Outgoing> {
    var content, missing := ContentIds(rows, source, SeenIds(rows, source, sync)), MissingIds(rows, source, sync);
    OrderedLists(content);
    OrderedLists(missing);
    JobMessages(rows, source, Ordered(content), sync, ledger)
      + DeletionMessages(rows, source, Ordered(missing), sync)
      + [SyncSuccess(sync, source, CountsOf(rows, source, sync, ledger))]
  }

  // ----- What the messages say -----

  /** The resource is content that this sync has seen, as it is stored, with an address and a version that no finished job has. */
  ghost predicate Wanted(rows: Rows, source: string, sync: string, ledger: set<Finished>, r: Resource) {
    && r.source == source && Key(source, r.id) in rows && rows[Key(source, r.id)].details == r.details
    && rows[Key(source, r.id)].lastSeen == sync && !rows[Key(source, r.id)].deleted
    && r.details.kind != "collection" && r.details.url != "" && r.details.version != ""
    && Finished(source, r.id, r.details.version) !in ledger
  }

  /** Content that this sync has not seen, and that is live or was deleted by an earlier attempt of it. */
  ghost predicate Gone(rows: Rows, source: string, sync: string, id: string) {
    && Key(source, id) in rows && rows[Key(source, id)].lastSeen != sync && rows[Key(source, id)].details.kind != "collection"
    && (!rows[Key(source, id)].deleted || rows[Key(source, id)].lastChanged == sync)
  }

  ghost predicate JobsFor(messages: seq<Outgoing>, sync: string, wanted: seq<Resource>) {
    && |messages| == 2 * |wanted|
    && forall i :: 0 <= i < |wanted| ==>
         messages[2 * i] == PendingJob(sync, wanted[i]) && messages[2 * i + 1] == ResourceJob(sync, wanted[i])
  }

  ghost predicate DeletionsFor(messages: seq<Outgoing>, rows: Rows, source: string, sync: string, gone: seq<string>) {
    && |messages| == 2 * |gone|
    && forall i :: 0 <= i < |gone| ==>
         && Key(source, gone[i]) in rows
         && var d := rows[Key(source, gone[i])].details;
            && messages[2 * i] == PendingDeletion(sync, source, gone[i], d.dataset, d.title)
            && messages[2 * i + 1] == Deletion(sync, source, gone[i], d.dataset, d.title)
  }

  ghost predicate Ascending(ids: seq<string>) { forall i, j :: 0 <= i < j < |ids| ==> StrLess(ids[i], ids[j]) }

  ghost function IdsOf(resources: seq<Resource>): seq<string> {
    seq(|resources|, i requires 0 <= i < |resources| => resources[i].id)
  }

  /** A pending result and a job for each wanted resource, an announcement and a deletion for each that is gone, both in
      the order of their ids, and the success with the numbers of both. */
  ghost predicate Announces(messages: seq<Outgoing>, rows: Rows, source: string, sync: string, ledger: set<Finished>,
                            wanted: seq<Resource>, gone: seq<string>, counts: Counts)
  {
    && Ascending(IdsOf(wanted)) && (forall r :: r in wanted <==> Wanted(rows, source, sync, ledger, r))
    && Ascending(gone) && (forall id :: id in gone <==> Gone(rows, source, sync, id))
    && |messages| == 2 * |wanted| + 2 * |gone| + 1
    && JobsFor(messages[..2 * |wanted|], sync, wanted)
    && DeletionsFor(messages[2 * |wanted|..|messages| - 1], rows, source, sync, gone)
    && messages[|messages| - 1] == SyncSuccess(sync, source, counts)
    && counts.planned == |wanted| && counts.deletedResources == |gone|
  }

  ghost predicate Says(messages: seq<Outgoing>, rows: Rows, source: string, sync: string, ledger: set<Finished>, counts: Counts) {
    exists wanted, gone :: Announces(messages, rows, source, sync, ledger, wanted, gone, counts)
  }

  lemma LastAbove(before: seq<string>, id: string)
    requires Ascending(before + [id])
    ensures Ascending(before) && forall x :: x in before ==> StrLess(x, id)
  {
    var ids := before + [id];
    assert ids[|before|] == id && forall i :: 0 <= i < |before| ==> ids[i] == before[i];
  }

  lemma AscendingNext(ids: seq<string>, id: string)
    requires Ascending(ids) && forall x :: x in ids ==> StrLess(x, id)
    ensures Ascending(ids + [id])
  {}

  lemma JobsNext(messages: seq<Outgoing>, sync: string, wanted: seq<Resource>, r: Resource)
    requires JobsFor(messages, sync, wanted)
    ensures JobsFor(messages + [PendingJob(sync, r), ResourceJob(sync, r)], sync, wanted + [r])
  {}

  lemma DeletionsNext(messages: seq<Outgoing>, rows: Rows, source: string, sync: string, gone: seq<string>, id: string)
    requires DeletionsFor(messages, rows, source, sync, gone) && Key(source, id) in rows
    ensures var d := rows[Key(source, id)].details;
            var more := [PendingDeletion(sync, source, id, d.dataset, d.title), Deletion(sync, source, id, d.dataset, d.title)];
            DeletionsFor(messages + more, rows, source, sync, gone + [id])
  {}

  /** The resources among these that get a job. */
  ghost function DueAmong(rows: Rows, source: string, ids: seq<string>, ledger: set<Finished>): seq<Resource>
    requires forall id :: id in ids ==> Key(source, id) in rows
  {
    if ids == [] then []
    else
      var id := ids[|ids| - 1];
      var r := Resource(source, id, rows[Key(source, id)].details);
      DueAmong(rows, source, ids[..|ids| - 1], ledger) + if Due(r, ledger) then [r] else []
  }

  lemma {:induction false} DueMember(rows: Rows, source: string, ids: seq<string>, ledger: set<Finished>, r: Resource)
    requires forall id :: id in ids ==> Key(source, id) in rows
    ensures r in DueAmong(rows, source, ids, ledger) <==>
            r.source == source && r.id in ids && r.details == rows[Key(source, r.id)].details && Due(r, ledger)
  {
    if ids != [] {
      var before, id := ids[..|ids| - 1], ids[|ids| - 1];
      assert ids == before + [id];
      DueMember(rows, source, before, ledger, r);
    }
  }

  lemma {:induction false} DueAscends(rows: Rows, source: string, ids: seq<string>, ledger: set<Finished>)
    requires Ascending(ids) && forall id :: id in ids ==> Key(source, id) in rows
    ensures Ascending(IdsOf(DueAmong(rows, source, ids, ledger)))
  {
    if ids != [] {
      var before, id := ids[..|ids| - 1], ids[|ids| - 1];
      assert ids == before + [id];
      LastAbove(before, id);
      DueAscends(rows, source, before, ledger);
      var due, r := DueAmong(rows, source, before, ledger), Resource(source, id, rows[Key(source, id)].details);
      if Due(r, ledger) {
        forall x | x in IdsOf(due) ensures StrLess(x, id) {
          var i :| 0 <= i < |due| && due[i].id == x;
          DueMember(rows, source, before, ledger, due[i]);
        }
        AscendingNext(IdsOf(due), id);
        assert IdsOf(due + [r]) == IdsOf(due) + [id];
      } else {
        assert DueAmong(rows, source, ids, ledger) == due;
      }
    }
  }

  lemma {:induction false} DueJobs(rows: Rows, source: string, ids: seq<string>, sync: string, ledger: set<Finished>)
    requires forall id :: id in ids ==> Key(source, id) in rows
    ensures JobsFor(JobMessages(rows, source, ids, sync, ledger), sync, DueAmong(rows, source, ids, ledger))
    ensures PlannedCount(rows, source, ids, ledger) == |DueAmong(rows, source, ids, ledger)|
  {
    if ids != [] {
      var before, id := ids[..|ids| - 1], ids[|ids| - 1];
      DueJobs(rows, source, before, sync, ledger);
      JobsNext(JobMessages(rows, source, before, sync, ledger), sync, DueAmong(rows, source, before, ledger),
               Resource(source, id, rows[Key(source, id)].details));
    }
  }

  lemma {:induction false} DeletionsListed(rows: Rows, source: string, ids: seq<string>, sync: string) returns (gone: seq<string>)
    requires Ascending(ids) && forall id :: id in ids ==> Key(source, id) in rows
    ensures DeletionsFor(DeletionMessages(rows, source, ids, sync), rows, source, sync, gone) && Ascending(gone)
    ensures forall id :: id in gone <==> id in ids && rows[Key(source, id)].details.kind != "collection"
  {
    if ids == [] {
      gone := [];
    } else {
      var before, id := ids[..|ids| - 1], ids[|ids| - 1];
      assert ids == before + [id];
      LastAbove(before, id);
      gone := DeletionsListed(rows, source, before, sync);
      if rows[Key(source, id)].details.kind != "collection" {
        AscendingNext(gone, id);
        DeletionsNext(DeletionMessages(rows, source, before, sync), rows, source, sync, gone, id);
        gone := gone + [id];
      }
    }
  }

  lemma SameMembers(gone: seq<string>, ids: set<string>)
    requires Ascending(gone) && forall id :: id in gone <==> id in ids
    ensures |gone| == |ids|
  {
    StrictOrderDistinct(gone);
    DistinctSize(gone, ids);
  }

  lemma {:induction false} DistinctSize(gone: seq<string>, ids: set<string>)
    requires forall i, j :: 0 <= i < j < |gone| ==> gone[i] != gone[j]
    requires forall id :: id in gone <==> id in ids
    ensures |gone| == |ids|
  {
    if gone == [] {
      assert ids == {};
    } else {
      var n := |gone| - 1;
      assert gone == gone[..n] + [gone[n]];
      DistinctSize(gone[..n], ids - {gone[n]});
    }
  }

  /** The messages of completion, in full. */
  lemma MessagesExact(rows: Rows, source: string, sync: string, ledger: set<Finished>)
    ensures Says(MessagesOf(rows, source, sync, ledger), rows, source, sync, ledger, CountsOf(rows, source, sync, ledger))
  {
    var content, missing := ContentIds(rows, source, SeenIds(rows, source, sync)), MissingIds(rows, source, sync);
    OrderedLists(content);
    OrderedLists(missing);
    var wanted := DueAmong(rows, source, Ordered(content), ledger);
    DueJobs(rows, source, Ordered(content), sync, ledger);
    DueAscends(rows, source, Ordered(content), ledger);
    var gone := DeletionsListed(rows, source, Ordered(missing), sync);
    SameMembers(gone, ContentIds(rows, source, missing));
    var jobs, deletions := JobMessages(rows, source, Ordered(content), sync, ledger), DeletionMessages(rows, source, Ordered(missing), sync);
    var messages := MessagesOf(rows, source, sync, ledger);
    assert messages[..2 * |wanted|] == jobs && messages[2 * |wanted|..|messages| - 1] == deletions;
    forall r ensures r in wanted <==> Wanted(rows, source, sync, ledger, r) {
      DueMember(rows, source, Ordered(content), ledger, r);
      assert r.id in Ordered(content) <==> r.id in content;
    }
    forall id ensures id in gone <==> Gone(rows, source, sync, id) { assert id in Ordered(missing) <==> id in missing; }
    assert Announces(messages, rows, source, sync, ledger, wanted, gone, CountsOf(rows, source, sync, ledger));
  }

  ghost predicate SeenRow(rows: Rows, source: string, sync: string, k: Key) {
    k in rows && k.source == source && rows[k].lastSeen == sync && !rows[k].deleted
  }

  /** A top collection, or content, that this sync has seen. */
  ghost predicate SeenOf(rows: Rows, source: string, sync: string, content: bool, k: Key) {
    && SeenRow(rows, source, sync, k)
    && if content then rows[k].details.kind != "collection"
       else rows[k].details.kind == "collection" && rows[k].details.parent == ""
  }

  ghost predicate GoneRow(rows: Rows, source: string, sync: string, k: Key) {
    k in rows && k.source == source && rows[k].lastSeen != sync && (!rows[k].deleted || rows[k].lastChanged == sync)
  }

  lemma SeenCounts(rows: Rows, source: string, sync: string, content: bool, ids: set<string>)
    requires ids == if content then ContentIds(rows, source, SeenIds(rows, source, sync)) else RootIds(rows, source, SeenIds(rows, source, sync))
    ensures |ids| == |set k | k in rows && SeenOf(rows, source, sync, content, k)|
    ensures |FirstSeenIn(rows, source, ids, sync)| ==
            |set k | k in rows && SeenOf(rows, source, sync, content, k) && rows[k].firstSeen == sync|
    ensures |ChangedIn(rows, source, ids, sync)| ==
            |set k | k in rows && SeenOf(rows, source, sync, content, k) && rows[k].firstSeen != sync && rows[k].lastChanged == sync|
  {
    var all := set k | k in rows && SeenOf(rows, source, sync, content, k);
    var first := set k | k in rows && SeenOf(rows, source, sync, content, k) && rows[k].firstSeen == sync;
    var changed := set k | k in rows && SeenOf(rows, source, sync, content, k) && rows[k].firstSeen != sync && rows[k].lastChanged == sync;
    KeysCount(source, all, ids);
    KeysCount(source, first, FirstSeenIn(rows, source, ids, sync));
    KeysCount(source, changed, ChangedIn(rows, source, ids, sync));
  }

  lemma GoneCounts(rows: Rows, source: string, sync: string)
    ensures |CollectionIds(rows, source, MissingIds(rows, source, sync))| ==
            |set k | k in rows && GoneRow(rows, source, sync, k) && rows[k].details.kind == "collection"|
    ensures |ContentIds(rows, source, MissingIds(rows, source, sync))| ==
            |set k | k in rows && GoneRow(rows, source, sync, k) && rows[k].details.kind != "collection"|
  {
    var collections := set k | k in rows && GoneRow(rows, source, sync, k) && rows[k].details.kind == "collection";
    var content := set k | k in rows && GoneRow(rows, source, sync, k) && rows[k].details.kind != "collection";
    KeysCount(source, collections, CollectionIds(rows, source, MissingIds(rows, source, sync)));
    KeysCount(source, content, ContentIds(rows, source, MissingIds(rows, source, sync)));
  }

  /** The counts, read off the rows. */
  lemma CountsExact(rows: Rows, source: string, sync: string, ledger: set<Finished>)
    ensures var c := CountsOf(rows, source, sync, ledger);
            && c.datasets == |set k | k in rows && SeenOf(rows, source, sync, false, k)|
            && c.resources == |set k | k in rows && SeenOf(rows, source, sync, true, k)|
            && c.newDatasets == |set k | k in rows && SeenOf(rows, source, sync, false, k) && rows[k].firstSeen == sync|
            && c.newResources == |set k | k in rows && SeenOf(rows, source, sync, true, k) && rows[k].firstSeen == sync|
            && c.updatedDatasets ==
               |set k | k in rows && SeenOf(rows, source, sync, false, k) && rows[k].firstSeen != sync && rows[k].lastChanged == sync|
            && c.updatedResources ==
               |set k | k in rows && SeenOf(rows, source, sync, true, k) && rows[k].firstSeen != sync && rows[k].lastChanged == sync|
            && c.deletedDatasets == |set k | k in rows && GoneRow(rows, source, sync, k) && rows[k].details.kind == "collection"|
            && c.deletedResources == |set k | k in rows && GoneRow(rows, source, sync, k) && rows[k].details.kind != "collection"|
  {
    var seen := SeenIds(rows, source, sync);
    SeenCounts(rows, source, sync, true, ContentIds(rows, source, seen));
    SeenCounts(rows, source, sync, false, RootIds(rows, source, seen));
    GoneCounts(rows, source, sync);
  }

  /** Keys of one source are as many as their ids. */
  lemma {:induction false} KeysCount(source: string, keys: set<Key>, ids: set<string>)
    requires forall k :: k in keys ==> k.source == source
    requires forall id :: id in ids <==> Key(source, id) in keys
    ensures |keys| == |ids|
    decreases |ids|
  {
    if ids != {} {
      var id :| id in ids;
      KeysCount(source, keys - {Key(source, id)}, ids - {id});
    }
  }

  function Tombstoned(rows: Rows, source: string, sync: string): Rows {
    map k | k in rows ::
      if k.source == source && rows[k].lastSeen != sync && !rows[k].deleted
      then rows[k].(deleted := true, lastChanged := sync) else rows[k]
  }

  // ----- The repository -----

  class Catalog {
    var rows: Rows
    var ledger: set<Finished>

    constructor (ledger: set<Finished>)
      ensures rows == map[] && this.ledger == ledger
    {
      rows, this.ledger := map[], ledger;
    }

    /** One transaction for one batch. */
    method ObserveBatch(sync: string, values: seq<Resource>, commits: bool)
      modifies this`rows
      ensures rows == if commits then ObserveSeq(old(rows), values, sync) else old(rows)
    {
      var working := rows;
      var i := 0;
      while i < |values|
        invariant 0 <= i <= |values| && working == ObserveSeq(rows, values[..i], sync)
      {
        assert values[..i + 1][..i] == values[..i];
        working := working[KeyOf(values[i]) := Observed(working, values[i], sync)];
        i := i + 1;
      }
      assert values[..i] == values;
      if commits {
        rows := working;
      }
    }

    /** Which of these resources have a finished job for their current version; the ledger is asked in batches. */
    method VersionStatuses(resources: seq<Resource>) returns (completed: set<Resource>)
      ensures completed == set r | r in resources && r.details.url != "" && r.details.version != ""
                                   && Finished(r.source, r.id, r.details.version) in ledger
    {
      completed := {};
      var start := 0;
      while start < |resources|
        invariant 0 <= start <= |resources|
        invariant completed == set r | r in resources[..start] && r.details.url != "" && r.details.version != ""
                                       && Finished(r.source, r.id, r.details.version) in ledger
      {
        var end := if start + BATCH > |resources| then |resources| else start + BATCH;
        var asked := resources[start..end];
        assert resources[..end] == resources[..start] + asked;
        completed := completed + set r | r in asked && r.details.url != "" && r.details.version != ""
                                         && Finished(r.source, r.id, r.details.version) in ledger;
        start := end;
      }
      assert resources[..start] == resources;
    }

    /** The first query of the closing transaction. */
    method CountSeen(sync: string, source: string) returns (c: Counts)
      ensures c == CountsOf(rows, source, sync, ledger).(planned := 0, deletedDatasets := 0, deletedResources := 0)
    {
      var seen := set k | k in rows && k.source == source && rows[k].lastSeen == sync && !rows[k].deleted :: k.id;
      var content := set id | id in seen && Content(rows[Key(source, id)]);
      var roots := set id | id in seen && RootCollection(rows[Key(source, id)]);
      var newRoots := set id | id in roots && rows[Key(source, id)].firstSeen == sync;
      var newContent := set id | id in content && rows[Key(source, id)].firstSeen == sync;
      var changedRoots := set id | id in roots && rows[Key(source, id)].lastChanged == sync && rows[Key(source, id)].firstSeen != sync;
      var changedContent := set id | id in content && rows[Key(source, id)].lastChanged == sync && rows[Key(source, id)].firstSeen != sync;
      c := Counts(|roots|, |content|, |newRoots|, |newContent|, |changedRoots|, |changedContent|, 0, 0, 0);
    }

    method SelectContent(sync: string, source: string) returns (ids: seq<string>)
      ensures ids == Ordered(ContentIds(rows, source, SeenIds(rows, source, sync)))
    {
      var content := set k | k in rows && k.source == source && rows[k].lastSeen == sync && !rows[k].deleted && Content(rows[k]) :: k.id;
      assert content == ContentIds(rows, source, SeenIds(rows, source, sync));
      ids := ListOrdered(content);
    }

    method SelectMissing(sync: string, source: string) returns (ids: seq<string>)
      ensures ids == Ordered(MissingIds(rows, source, sync))
    {
      var missing := set k | k in rows && k.source == source && rows[k].lastSeen != sync && (!rows[k].deleted || rows[k].lastChanged == sync) :: k.id;
      assert missing == MissingIds(rows, source, sync);
      ids := ListOrdered(missing);
    }

    /** The closing transaction: counts, jobs for outdated content, deletions, tombstones. */
    method Complete(sync: string, source: string, commits: bool) returns (counts: Counts, messages: seq<Outgoing>)
      modifies this`rows
      ensures rows == if commits then Tombstoned(old(rows), source, sync) else old(rows)
      ensures counts == CountsOf(old(rows), source, sync, ledger)
      ensures messages == MessagesOf(old(rows), source, sync, ledger)
      ensures Says(messages, old(rows), source, sync, ledger, counts)
    {
      counts, messages := Report(sync, source);
      MessagesExact(rows, source, sync, ledger);
      if commits {
        DeleteMissing(sync, source);
      }
    }

    /** What the transaction counts and announces before it changes anything. */
    method Report(sync: string, source: string) returns (counts: Counts, messages: seq<Outgoing>)
      ensures counts == CountsOf(rows, source, sync, ledger)
      ensures messages == MessagesOf(rows, source, sync, ledger)
    {
      counts := CountSeen(sync, source);
      var content := SelectContent(sync, source);
      OrderedLists(ContentIds(rows, source, SeenIds(rows, source, sync)));
      var jobs, planned := PlanJobs(sync, source, content);
      var absent := SelectMissing(sync, source);
      OrderedLists(MissingIds(rows, source, sync));
      var announcements, deletedDatasets, deletedResources := AnnounceDeletions(sync, source, absent);
      StrictOrderDistinct(absent);
      CountKinds(rows, source, absent, MissingIds(rows, source, sync));
      counts := counts.(planned := planned, deletedDatasets := deletedDatasets, deletedResources := deletedResources);
      messages := jobs + announcements + [SyncSuccess(sync, source, counts)];
    }

    /** The update that closes the transaction. */
    method DeleteMissing(sync: string, source: string)
      modifies this`rows
      ensures rows == Tombstoned(old(rows), source, sync)
    {
      rows := map k | k in rows ::
        if k.source == source && rows[k].lastSeen != sync && !rows[k].deleted
        then rows[k].(deleted := true, lastChanged := sync) else rows[k];
    }

    method PlanJobs(sync: string, source: string, ids: seq<string>) returns (messages: seq<Outgoing>, planned: nat)
      requires forall id :: id in ids ==> Key(source, id) in rows
      ensures messages == JobMessages(rows, source, ids, sync, ledger)
      ensures planned == PlannedCount(rows, source, ids, ledger)
    {
      var resources: seq<Resource> := [];
      var i := 0;
      while i < |ids|
        invariant 0 <= i <= |ids| && |resources| == i
        invariant forall j :: 0 <= j < i ==> resources[j] == Resource(source, ids[j], rows[Key(source, ids[j])].details)
      {
        resources := resources + [Resource(source, ids[i], rows[Key(source, ids[i])].details)];
        i := i + 1;
      }
      var completed := VersionStatuses(resources);
      messages, planned, i := [], 0, 0;
      while i < |ids|
        invariant 0 <= i <= |ids|
        invariant messages == JobMessages(rows, source, ids[..i], sync, ledger)
        invariant planned == PlannedCount(rows, source, ids[..i], ledger)
      {
        assert ids[..i + 1][..i] == ids[..i];
        var r := resources[i];
        if r.details.url != "" && r.details.version != "" && r !in completed {
          messages := messages + [PendingJob(sync, r)];
          messages := messages + [ResourceJob(sync, r)];
          planned := planned + 1;
        }
        i := i + 1;
      }
      assert ids[..i] == ids;
    }

    method AnnounceDeletions(sync: string, source: string, ids: seq<string>)
      returns (messages: seq<Outgoing>, datasets: nat, resources: nat)
      requires forall id :: id in ids ==> Key(source, id) in rows
      ensures messages == DeletionMessages(rows, source, ids, sync)
      ensures datasets == CountKind(rows, source, ids, false) && resources == CountKind(rows, source, ids, true)
    {
      messages, datasets, resources := [], 0, 0;
      var i := 0;
      while i < |ids|
        invariant 0 <= i <= |ids|
        invariant messages == DeletionMessages(rows, source, ids[..i], sync)
        invariant datasets == CountKind(rows, source, ids[..i], false) && resources == CountKind(rows, source, ids[..i], true)
      {
        assert ids[..i + 1][..i] == ids[..i];
        var d := rows[Key(source, ids[i])].details;
        if d.kind == COLLECTION {
          datasets := datasets + 1;
        } else {
          resources := resources + 1;
          messages := messages + [PendingDeletion(sync, source, ids[i], d.dataset, d.title)];
          messages := messages + [Deletion(sync, source, ids[i], d.dataset, d.title)];
        }
        i := i + 1;
      }
      assert ids[..i] == ids;
    }
  }

  ghost function CountKind(rows: Rows, source: string, ids: seq<string>, content: bool): nat
    requires forall id :: id in ids ==> Key(source, id) in rows
  {
    if ids == [] then 0
    else
      CountKind(rows, source, ids[..|ids| - 1], content)
        + if Content(rows[Key(source, ids[|ids| - 1])]) == content then 1 else 0
  }

  lemma StrictOrderDistinct(ids: seq<string>)
    requires forall i, j :: 0 <= i < j < |ids| ==> StrLess(ids[i], ids[j])
    ensures forall i, j :: 0 <= i < j < |ids| ==> ids[i] != ids[j]
  {
    forall i, j | 0 <= i < j < |ids| ensures ids[i] != ids[j] { StrLessTotal(ids[i], ids[j]); }
  }

  /** Taking one identifier away takes it from the set of its own kind. */
  lemma KindsLess(rows: Rows, source: string, all: set<string>, id: string)
    requires id in all && forall x :: x in all ==> Key(source, x) in rows
    ensures if Content(rows[Key(source, id)])
            then ContentIds(rows, source, all) == ContentIds(rows, source, all - {id}) + {id}
                 && CollectionIds(rows, source, all) == CollectionIds(rows, source, all - {id})
            else CollectionIds(rows, source, all) == CollectionIds(rows, source, all - {id}) + {id}
                 && ContentIds(rows, source, all) == ContentIds(rows, source, all - {id})
  {
  }

  lemma {:induction false} CountKinds(rows: Rows, source: string, ids: seq<string>, all: set<string>)
    requires forall id :: id in ids <==> id in all
    requires forall i, j :: 0 <= i < j < |ids| ==> ids[i] != ids[j]
    requires forall id :: id in all ==> Key(source, id) in rows
    ensures CountKind(rows, source, ids, true) == |ContentIds(rows, source, all)|
    ensures CountKind(rows, source, ids, false) == |CollectionIds(rows, source, all)|
  {
    if ids == [] {
      assert all == {};
    } else {
      var last, before := ids[|ids| - 1], ids[..|ids| - 1];
      assert ids == before + [last];
      CountKinds(rows, source, before, all - {last});
      KindsLess(rows, source, all, last);
    }
  }
}
