/** One synchronisation of a source, and what happens when it is cut off and repeated
    (ingestor_orchestrator/source-resource-catalog/resource.go). */
module SourceSync {
  import opened Common
  import opened CatalogRows
  import ResourceForest

  // ----- Discovery -----

  /** Identities are present, not repeated, and not from another source. */
  ghost predicate Identified(discovered: seq<Resource>, source: string) {
    && (forall i :: 0 <= i < |discovered| ==> discovered[i].id != "" && (discovered[i].source == "" || discovered[i].source == source))
    && (forall i, j :: 0 <= i < j < |discovered| ==> discovered[i].id != discovered[j].id)
  }

  ghost function ParentsOf(discovered: seq<Resource>): ResourceForest.Parents {
    if discovered == [] then map[]
    else ParentsOf(discovered[..|discovered| - 1])[discovered[|discovered| - 1].id := discovered[|discovered| - 1].details.parent]
  }

  ghost function Spooled(discovered: seq<Resource>, source: string): seq<Resource> {
    seq(|discovered|, i requires 0 <= i < |discovered| => discovered[i].(source := source))
  }

  lemma {:induction false} ParentKeys(discovered: seq<Resource>, id: string)
    ensures id in ParentsOf(discovered) <==> exists i :: 0 <= i < |discovered| && discovered[i].id == id
  {
    if discovered != [] {
      var n := |discovered| - 1;
      assert discovered == discovered[..n] + [discovered[n]];
      ParentKeys(discovered[..n], id);
    }
  }

  /** Each resource has the parent that it was discovered with. */
  lemma {:induction false} ParentsAre(discovered: seq<Resource>, source: string, i: nat)
    requires Identified(discovered, source) && i < |discovered|
    ensures discovered[i].id in ParentsOf(discovered) && ParentsOf(discovered)[discovered[i].id] == discovered[i].details.parent
  {
    var n := |discovered| - 1;
    if i < n {
      assert discovered[..n][i] == discovered[i];
      PrefixIdentified(discovered, n, source);
      ParentsAre(discovered[..n], source, i);
    }
  }

  lemma SpoolNext(discovered: seq<Resource>, i: nat, source: string)
    requires i < |discovered| && Identified(discovered[..i], source)
    ensures var r := discovered[i];
            && (Identified(discovered[..i + 1], source) <==>
                r.id != "" && (r.source == "" || r.source == source) && r.id !in ParentsOf(discovered[..i]))
            && ParentsOf(discovered[..i + 1]) == ParentsOf(discovered[..i])[r.id := r.details.parent]
            && Spooled(discovered[..i + 1], source) == Spooled(discovered[..i], source) + [r.(source := source)]
  {
    var before, all := discovered[..i], discovered[..i + 1];
    assert all[..i] == before && all[i] == discovered[i];
    assert forall j :: 0 <= j < i ==> all[j] == before[j];
    ParentKeys(before, discovered[i].id);
  }

  lemma PrefixIdentified(discovered: seq<Resource>, k: nat, source: string)
    requires k <= |discovered| && Identified(discovered, source)
    ensures Identified(discovered[..k], source)
  {}

  datatype Outcome =
    | Rejected                        // discovery refused; a failure result is published, rows are untouched
    | CutOff(observed: nat)           // the worker died after observing this many resources
    | Done(messages: seq<Outgoing>)

  class Worker {
    const catalog: Catalog

    constructor (catalog: Catalog)
      ensures this.catalog == catalog
    {
      this.catalog := catalog;
    }

    /** Checks identities while spooling, then the tree. */
    method Spool(discovered: seq<Resource>, source: string, discoverable: bool) returns (r: Option<seq<Resource>>)
      ensures r.Some? <==> discoverable && Identified(discovered, source) && ResourceForest.Forest(ParentsOf(discovered))
      ensures r.Some? ==> r.value == Spooled(discovered, source) && |r.value| == |discovered|
      ensures r.Some? ==> forall i :: 0 <= i < |discovered| ==>
                r.value[i].source == source && r.value[i].id == discovered[i].id && r.value[i].details == discovered[i].details
    {
      var parents: ResourceForest.Parents := map[];
      var spool: seq<Resource> := [];
      var i := 0;
      while i < |discovered|
        invariant 0 <= i <= |discovered|
        invariant Identified(discovered[..i], source)
        invariant parents == ParentsOf(discovered[..i])
        invariant spool == Spooled(discovered[..i], source)
      {
        var r := discovered[i];
        SpoolNext(discovered, i, source);
        if Identified(discovered, source) { PrefixIdentified(discovered, i + 1, source); }
        if (r.source != "" && r.source != source) || r.id == "" {
          return None;
        }
        if r.id in parents {
          return None;
        }
        parents := parents[r.id := r.details.parent];
        spool := spool + [r.(source := source)];
        i := i + 1;
      }
      assert discovered[..i] == discovered;
      var forest := ResourceForest.ValidateTree(parents);
      return if discoverable && forest then Some(spool) else None;
    }

    /** Fills batches from the spool and commits them one by one, as long as the worker lives. */
    method ObserveInBatches(sync: string, spool: seq<Resource>, budget: nat) returns (observed: nat, left: nat)
      modifies catalog`rows
      ensures observed <= |spool| && catalog.rows == ObserveSeq(old(catalog.rows), spool[..observed], sync)
      ensures observed < |spool| ==> left == 0
      ensures left <= budget && budget <= left + |spool|
    {
      var batch: seq<Resource> := [];
      var i := 0;
      observed, left := 0, budget;
      while i < |spool|
        invariant 0 <= observed <= i <= |spool| && |batch| <= BATCH
        invariant i > 0 ==> batch != []
        invariant batch == spool[observed..i]
        invariant catalog.rows == ObserveSeq(old(catalog.rows), spool[..observed], sync)
        invariant left <= budget && budget <= left + observed
      {
        if |batch| == BATCH {
          if left == 0 {
            return;
          }
          ObserveSplit(old(catalog.rows), spool[..observed], batch, sync);
          assert spool[..observed] + batch == spool[..i];
          catalog.ObserveBatch(sync, batch, true);
          left, batch, observed := left - 1, [], i;
        }
        batch := batch + [spool[i]];
        i := i + 1;
      }
      if batch != [] {
        if left == 0 {
          return;
        }
        ObserveSplit(old(catalog.rows), spool[..observed], batch, sync);
        assert spool[..observed] + batch == spool[..i];
        catalog.ObserveBatch(sync, batch, true);
        left, observed := left - 1, i;
      }
    }

    /** `budget` transactions commit before the worker dies. */
    method Sync(sync: string, source: string, discovered: seq<Resource>, discoverable: bool, budget: nat)
      returns (outcome: Outcome)
      modifies catalog`rows
      ensures outcome.Rejected? <==>
              !(discoverable && Identified(discovered, source) && ResourceForest.Forest(ParentsOf(discovered)))
      ensures outcome.Rejected? ==> catalog.rows == old(catalog.rows)
      ensures outcome.CutOff? ==>
                && outcome.observed <= |discovered|
                && catalog.rows == ObserveSeq(old(catalog.rows), Spooled(discovered, source)[..outcome.observed], sync)
      ensures outcome.Done? ==>
                var full := ObserveSeq(old(catalog.rows), Spooled(discovered, source), sync);
                && catalog.rows == Tombstoned(full, source, sync) && outcome.messages == MessagesOf(full, source, sync, catalog.ledger)
                && Says(outcome.messages, full, source, sync, catalog.ledger, CountsOf(full, source, sync, catalog.ledger))
      ensures outcome.Done? && Fresh(old(catalog.rows), source, sync) ==>
                LeavesDiscovery(old(catalog.rows), catalog.rows, Spooled(discovered, source), source)
      ensures budget > |discovered| ==> !outcome.CutOff?
    {
      var spooled := Spool(discovered, source, discoverable);
      if spooled.None? {
        return Rejected;
      }
      var observed, left := ObserveInBatches(sync, spooled.value, budget);
      if left == 0 {
        return CutOff(observed);
      }
      assert spooled.value[..observed] == spooled.value;
      var _, messages := catalog.Complete(sync, source, true);
      SpooledIsOfSource(discovered, source);
      if Fresh(old(catalog.rows), source, sync) {
        SyncLeavesDiscovery(old(catalog.rows), spooled.value, source, sync);
      }
      return Done(messages);
    }
  }

  lemma {:induction false} ObserveSplit(rows: Rows, a: seq<Resource>, b: seq<Resource>, sync: string)
    ensures ObserveSeq(rows, a + b, sync) == ObserveSeq(ObserveSeq(rows, a, sync), b, sync)
  {
    if b == [] {
      assert a + b == a;
    } else {
      assert (a + b)[..|a + b| - 1] == a + b[..|b| - 1];
      ObserveSplit(rows, a, b[..|b| - 1], sync);
    }
  }

  // ----- What observing does to one row -----

  ghost predicate Distinct(values: seq<Resource>) {
    forall i, j :: 0 <= i < j < |values| ==> KeyOf(values[i]) != KeyOf(values[j])
  }

  ghost function Keys(values: seq<Resource>): set<Key> {
    set i | 0 <= i < |values| :: KeyOf(values[i])
  }

  lemma {:induction false} ObserveOther(rows: Rows, values: seq<Resource>, sync: string, k: Key)
    requires forall i :: 0 <= i < |values| ==> KeyOf(values[i]) != k
    ensures k in ObserveSeq(rows, values, sync) <==> k in rows
    ensures k in rows ==> ObserveSeq(rows, values, sync)[k] == rows[k]
  {
    if values != [] { ObserveOther(rows, values[..|values| - 1], sync, k); }
  }

  lemma {:induction false} ObserveOne(rows: Rows, values: seq<Resource>, sync: string, i: nat)
    requires Distinct(values) && i < |values|
    ensures KeyOf(values[i]) in ObserveSeq(rows, values, sync)
    ensures ObserveSeq(rows, values, sync)[KeyOf(values[i])] == Observed(rows, values[i], sync)
  {
    var n := |values| - 1;
    if i < n {
      ObserveOne(rows, values[..n], sync, i);
    } else {
      ObserveOther(rows, values[..n], sync, KeyOf(values[n]));
    }
  }

  /** Observing part of a discovery first changes nothing about observing all of it. */
  lemma PrefixAbsorbed(rows: Rows, values: seq<Resource>, p: nat, sync: string)
    requires Distinct(values) && p <= |values|
    ensures ObserveSeq(ObserveSeq(rows, values[..p], sync), values, sync) == ObserveSeq(rows, values, sync)
  {
    var part := ObserveSeq(rows, values[..p], sync);
    var again, once := ObserveSeq(part, values, sync), ObserveSeq(rows, values, sync);
    forall k ensures k in again <==> k in once
             ensures k in once ==> again[k] == once[k]
    {
      if i :| 0 <= i < |values| && KeyOf(values[i]) == k {
        ObserveOne(part, values, sync, i);
        ObserveOne(rows, values, sync, i);
        if i < p {
          ObserveOne(rows, values[..p], sync, i);
        } else {
          ObserveOther(rows, values[..p], sync, k);
        }
      } else {
        ObserveOther(rows, values[..p], sync, k);
        ObserveOther(part, values, sync, k);
        ObserveOther(rows, values, sync, k);
      }
    }
  }

  /** After completion, observing the same discovery again changes nothing. */
  lemma CompletedAbsorbed(rows: Rows, values: seq<Resource>, source: string, sync: string)
    requires Distinct(values)
    ensures var closed := Tombstoned(ObserveSeq(rows, values, sync), source, sync);
            ObserveSeq(closed, values, sync) == closed && Tombstoned(closed, source, sync) == closed
  {
    var full := ObserveSeq(rows, values, sync);
    var closed := Tombstoned(full, source, sync);
    var again := ObserveSeq(closed, values, sync);
    forall k ensures k in again <==> k in closed
             ensures k in closed ==> again[k] == closed[k]
    {
      if i :| 0 <= i < |values| && KeyOf(values[i]) == k {
        ObserveOne(rows, values, sync, i);
        ObserveOne(closed, values, sync, i);
      } else {
        ObserveOther(closed, values, sync, k);
      }
    }
  }

  // ----- Repeating the closing transaction -----

  lemma {:induction false} JobMessagesSame(a: Rows, b: Rows, source: string, ids: seq<string>, sync: string, ledger: set<Finished>)
    requires forall id :: id in ids ==> Key(source, id) in a && Key(source, id) in b && a[Key(source, id)].details == b[Key(source, id)].details
    ensures JobMessages(a, source, ids, sync, ledger) == JobMessages(b, source, ids, sync, ledger)
    ensures PlannedCount(a, source, ids, ledger) == PlannedCount(b, source, ids, ledger)
    ensures DeletionMessages(a, source, ids, sync) == DeletionMessages(b, source, ids, sync)
  {
    if ids != [] { JobMessagesSame(a, b, source, ids[..|ids| - 1], sync, ledger); }
  }

  lemma SeenSame(rows: Rows, source: string, sync: string)
    ensures SeenIds(Tombstoned(rows, source, sync), source, sync) == SeenIds(rows, source, sync)
    ensures MissingIds(Tombstoned(rows, source, sync), source, sync) == MissingIds(rows, source, sync)
    ensures forall id :: id in SeenIds(rows, source, sync) ==> Tombstoned(rows, source, sync)[Key(source, id)] == rows[Key(source, id)]
    ensures forall k :: k in rows ==> Tombstoned(rows, source, sync)[k].details == rows[k].details
  {
    var closed := Tombstoned(rows, source, sync);
    forall id ensures id in SeenIds(closed, source, sync) <==> id in SeenIds(rows, source, sync) {
      assert id in SeenIds(rows, source, sync) <==> Key(source, id) in rows && rows[Key(source, id)].lastSeen == sync && !rows[Key(source, id)].deleted;
      assert id in SeenIds(closed, source, sync) <==> Key(source, id) in closed && closed[Key(source, id)].lastSeen == sync && !closed[Key(source, id)].deleted;
    }
    forall id ensures id in MissingIds(closed, source, sync) <==> id in MissingIds(rows, source, sync) {
      var k := Key(source, id);
      assert id in MissingIds(rows, source, sync) <==> k in rows && rows[k].lastSeen != sync && (!rows[k].deleted || rows[k].lastChanged == sync);
      assert id in MissingIds(closed, source, sync) <==> k in closed && closed[k].lastSeen != sync && (!closed[k].deleted || closed[k].lastChanged == sync);
    }
  }

  /** Completion reports the same counts and the same messages, deletion announcements included,
      when it runs again on the rows it left behind. */
  lemma CompletionRepeats(rows: Rows, source: string, sync: string, ledger: set<Finished>)
    ensures CountsOf(Tombstoned(rows, source, sync), source, sync, ledger) == CountsOf(rows, source, sync, ledger)
    ensures MessagesOf(Tombstoned(rows, source, sync), source, sync, ledger) == MessagesOf(rows, source, sync, ledger)
  {
    var closed := Tombstoned(rows, source, sync);
    SeenSame(rows, source, sync);
    var seen, missing := SeenIds(rows, source, sync), MissingIds(rows, source, sync);
    var content := ContentIds(rows, source, seen);
    assert ContentIds(closed, source, seen) == content && RootIds(closed, source, seen) == RootIds(rows, source, seen);
    SetsSame(rows, closed, source, content, sync);
    SetsSame(rows, closed, source, RootIds(rows, source, seen), sync);
    assert ContentIds(closed, source, missing) == ContentIds(rows, source, missing);
    assert CollectionIds(closed, source, missing) == CollectionIds(rows, source, missing);
    OrderedLists(content);
    OrderedLists(missing);
    JobMessagesSame(closed, rows, source, Ordered(content), sync, ledger);
    JobMessagesSame(closed, rows, source, Ordered(missing), sync, ledger);
  }

  lemma SetsSame(a: Rows, b: Rows, source: string, ids: set<string>, sync: string)
    requires forall id :: id in ids ==> Key(source, id) in a && Key(source, id) in b && a[Key(source, id)] == b[Key(source, id)]
    ensures FirstSeenIn(a, source, ids, sync) == FirstSeenIn(b, source, ids, sync)
    ensures ChangedIn(a, source, ids, sync) == ChangedIn(b, source, ids, sync)
  {}

  // ----- Crash recovery -----

  /** An attempt that got through `observed` resources and, if it saw them all, perhaps through completion. */
  datatype Attempt = Attempt(observed: nat, completed: bool)

  ghost predicate Possible(a: Attempt, values: seq<Resource>) {
    a.observed <= |values| && (a.completed ==> a.observed == |values|)
  }

  ghost function AfterAttempt(rows: Rows, a: Attempt, values: seq<Resource>, source: string, sync: string): Rows
    requires Possible(a, values)
  {
    var seen := ObserveSeq(rows, values[..a.observed], sync);
    if a.completed then Tombstoned(seen, source, sync) else seen
  }

  ghost function AfterAttempts(rows: Rows, attempts: seq<Attempt>, values: seq<Resource>, source: string, sync: string): Rows
    requires forall a :: a in attempts ==> Possible(a, values)
  {
    if attempts == [] then rows
    else AfterAttempt(AfterAttempts(rows, attempts[..|attempts| - 1], values, source, sync), attempts[|attempts| - 1], values, source, sync)
  }

  lemma {:induction false} AttemptsLeave(rows: Rows, attempts: seq<Attempt>, values: seq<Resource>, source: string, sync: string)
    requires Distinct(values) && forall a :: a in attempts ==> Possible(a, values)
    ensures var full := ObserveSeq(rows, values, sync);
            ObserveSeq(AfterAttempts(rows, attempts, values, source, sync), values, sync) in {full, Tombstoned(full, source, sync)}
  {
    if attempts != [] {
      var n := |attempts| - 1;
      var before := AfterAttempts(rows, attempts[..n], values, source, sync);
      var a := attempts[n];
      assert a in attempts;
      AttemptsLeave(rows, attempts[..n], values, source, sync);
      PrefixAbsorbed(before, values, a.observed, sync);
      CompletedAbsorbed(rows, values, source, sync);
      if a.completed {
        assert values[..a.observed] == values;
        CompletedAbsorbed(before, values, source, sync);
      }
    }
  }

  /** Crash recovery: whatever was cut off before, one full run ends with the rows, the counts and the
      message list of a single clean run. */
  lemma CrashRecovery(rows: Rows, attempts: seq<Attempt>, values: seq<Resource>, source: string, sync: string, ledger: set<Finished>)
    requires Distinct(values) && forall a :: a in attempts ==> Possible(a, values)
    ensures var clean := ObserveSeq(rows, values, sync);
            var recovered := ObserveSeq(AfterAttempts(rows, attempts, values, source, sync), values, sync);
            && Tombstoned(recovered, source, sync) == Tombstoned(clean, source, sync)
            && CountsOf(recovered, source, sync, ledger) == CountsOf(clean, source, sync, ledger)
            && MessagesOf(recovered, source, sync, ledger) == MessagesOf(clean, source, sync, ledger)
  {
    var clean := ObserveSeq(rows, values, sync);
    AttemptsLeave(rows, attempts, values, source, sync);
    CompletionRepeats(clean, source, sync, ledger);
    CompletedAbsorbed(rows, values, source, sync);
  }

  // ----- What a finished sync leaves -----

  /** The sync identity has not been used on this source before. */
  ghost predicate Fresh(rows: Rows, source: string, sync: string) {
    forall k :: k in rows && k.source == source ==> rows[k].lastSeen != sync && rows[k].lastChanged != sync && rows[k].firstSeen != sync
  }

  ghost predicate OfSource(values: seq<Resource>, source: string) {
    Distinct(values) && forall i :: 0 <= i < |values| ==> values[i].source == source
  }

  /** A spooled discovery is what the results below ask for. */
  lemma SpooledIsOfSource(discovered: seq<Resource>, source: string)
    requires Identified(discovered, source)
    ensures OfSource(Spooled(discovered, source), source)
  {}

  ghost predicate Live(rows: Rows, k: Key) { k in rows && !rows[k].deleted }

  /** The live rows of the source are exactly the discovered resources, as discovered;
      no row is lost and rows of other sources are the same. */
  ghost predicate LeavesDiscovery(rows: Rows, after: Rows, values: seq<Resource>, source: string) {
    && (forall k: Key :: k.source == source ==> (Live(after, k) <==> k in Keys(values)))
    && (forall i :: 0 <= i < |values| ==> KeyOf(values[i]) in after && after[KeyOf(values[i])].details == values[i].details)
    && rows.Keys <= after.Keys
    && (forall k: Key :: k.source != source ==> (k in after <==> k in rows) && (k in rows ==> after[k] == rows[k]))
  }

  /** A finished sync under a new identity leaves what it discovered. */
  lemma SyncLeavesDiscovery(rows: Rows, values: seq<Resource>, source: string, sync: string)
    requires OfSource(values, source) && Fresh(rows, source, sync)
    ensures LeavesDiscovery(rows, Tombstoned(ObserveSeq(rows, values, sync), source, sync), values, source)
  {
    var full := ObserveSeq(rows, values, sync);
    var after := Tombstoned(full, source, sync);
    forall k ensures k in rows ==> k in after
             ensures k.source == source ==> (Live(after, k) <==> k in Keys(values))
             ensures k.source != source ==> (k in after <==> k in rows) && (k in rows ==> after[k] == rows[k])
    {
      if i :| 0 <= i < |values| && KeyOf(values[i]) == k {
        ObserveOne(rows, values, sync, i);
      } else {
        ObserveOther(rows, values, sync, k);
      }
    }
    forall i | 0 <= i < |values| ensures KeyOf(values[i]) in after && after[KeyOf(values[i])].details == values[i].details {
      ObserveOne(rows, values, sync, i);
    }
  }

  /** A finished sync under a new identity wants exactly the discovered content that no finished job has, and takes leave
      of exactly the content that was live and is not discovered any more. */
  lemma SyncAnnouncesDiscovery(rows: Rows, values: seq<Resource>, source: string, sync: string, ledger: set<Finished>)
    requires OfSource(values, source) && Fresh(rows, source, sync)
    ensures var full := ObserveSeq(rows, values, sync);
            && (forall r :: Wanted(full, source, sync, ledger, r) <==>
                  r in values && r.details.kind != "collection" && r.details.url != "" && r.details.version != ""
                  && Finished(source, r.id, r.details.version) !in ledger)
            && (forall id :: Gone(full, source, sync, id) <==>
                  Live(rows, Key(source, id)) && rows[Key(source, id)].details.kind != "collection" && Key(source, id) !in Keys(values))
  {
    var full := ObserveSeq(rows, values, sync);
    forall r
      ensures Wanted(full, source, sync, ledger, r) <==>
              r in values && r.details.kind != "collection" && r.details.url != "" && r.details.version != ""
              && Finished(source, r.id, r.details.version) !in ledger
    {
      if i :| 0 <= i < |values| && KeyOf(values[i]) == Key(source, r.id) {
        ObserveOne(rows, values, sync, i);
        assert r in values ==> r == values[i];
        assert r.source == source && values[i].details == r.details ==> values[i] == r;
      } else {
        ObserveOther(rows, values, sync, Key(source, r.id));
      }
    }
    forall id
      ensures Gone(full, source, sync, id) <==>
              Live(rows, Key(source, id)) && rows[Key(source, id)].details.kind != "collection" && Key(source, id) !in Keys(values)
    {
      if i :| 0 <= i < |values| && KeyOf(values[i]) == Key(source, id) {
        ObserveOne(rows, values, sync, i);
      } else {
        ObserveOther(rows, values, sync, Key(source, id));
      }
    }
  }

  /** The marks of an observed resource: new, changed in version, revived, or as they were. */
  lemma MarksExact(rows: Rows, values: seq<Resource>, source: string, sync: string, i: nat)
    requires OfSource(values, source) && Fresh(rows, source, sync) && i < |values|
    ensures var full, k := ObserveSeq(rows, values, sync), KeyOf(values[i]);
            && k in full && full[k].lastSeen == sync
            && (full[k].firstSeen == sync <==> k !in rows)
            && (full[k].lastChanged == sync <==> k !in rows || rows[k].deleted || rows[k].details.version != values[i].details.version)
            && (k in rows ==> full[k].firstSeen == rows[k].firstSeen && full[k].lastChanged in {sync, rows[k].lastChanged})
  {
    ObserveOne(rows, values, sync, i);
  }

  /** Content resources of a source that are live, by identifier. */
  ghost function LiveContent(rows: Rows, source: string): set<string> {
    set k | k in rows && k.source == source && !rows[k].deleted && Content(rows[k]) :: k.id
  }

  ghost function DeadContent(rows: Rows, source: string): set<string> {
    set k | k in rows && k.source == source && rows[k].deleted && Content(rows[k]) :: k.id
  }

  /** No known resource turns from a collection into content or back. */
  ghost predicate KindsKept(rows: Rows, values: seq<Resource>) {
    forall i :: 0 <= i < |values| && KeyOf(values[i]) in rows ==>
      (values[i].details.kind == COLLECTION <==> rows[KeyOf(values[i])].details.kind == COLLECTION)
  }

  /** Conservation of content: what is live afterwards is what was live, plus the new, plus the
      revived, less the deleted; the announced counts are these very numbers. */
  lemma ContentConserved(rows: Rows, values: seq<Resource>, source: string, sync: string, ledger: set<Finished>)
    requires OfSource(values, source) && Fresh(rows, source, sync) && KindsKept(rows, values)
    ensures var full := ObserveSeq(rows, values, sync);
            var c := CountsOf(full, source, sync, ledger);
            var seen := ContentIds(full, source, SeenIds(full, source, sync));
            var revived := seen * DeadContent(rows, source);
            c.resources + c.deletedResources == |LiveContent(rows, source)| + c.newResources + |revived|
            && |revived| <= c.updatedResources
  {
    var full := ObserveSeq(rows, values, sync);
    var seen := ContentIds(full, source, SeenIds(full, source, sync));
    var missing := ContentIds(full, source, MissingIds(full, source, sync));
    var live, dead := LiveContent(rows, source), DeadContent(rows, source);
    var added, changed := FirstSeenIn(full, source, seen, sync), ChangedIn(full, source, seen, sync);
    forall id
      ensures id in seen ==> id in live || id in dead || id in added
      ensures id in added ==> id !in live && id !in dead && id in seen
      ensures id in seen * dead ==> id in changed
      ensures id in missing <==> id in live && id !in seen
    {
      RowFate(rows, values, source, sync, id);
    }
    LiveNotDead(rows, source);
    ContentArithmetic(seen, missing, live, dead, added);
    SubsetSize(seen * dead, changed);
  }

  lemma ContentArithmetic(seen: set<string>, missing: set<string>, live: set<string>, dead: set<string>, added: set<string>)
    requires live !! dead && added !! live && added !! dead && added <= seen <= live + dead + added
    requires missing == live - seen
    ensures |seen| + |missing| == |live| + |added| + |seen * dead|
  {
    assert seen == added + (seen * live) + (seen * dead) && live == (seen * live) + missing;
    assert |added + (seen * live)| == |added| + |seen * live|;
    assert |added + (seen * live) + (seen * dead)| == |added + (seen * live)| + |seen * dead|;
    assert |(seen * live) + missing| == |seen * live| + |missing|;
  }

  lemma SubsetSize(a: set<string>, b: set<string>)
    requires a <= b
    ensures |a| <= |b|
  {
    assert b == a + (b - a);
  }

  lemma LiveNotDead(rows: Rows, source: string)
    ensures LiveContent(rows, source) !! DeadContent(rows, source)
  {}

  /** Where one identifier of the source ends up. */
  lemma RowFate(rows: Rows, values: seq<Resource>, source: string, sync: string, id: string)
    requires OfSource(values, source) && Fresh(rows, source, sync) && KindsKept(rows, values)
    ensures var full := ObserveSeq(rows, values, sync);
            var seen := ContentIds(full, source, SeenIds(full, source, sync));
            && (id in seen ==> id in LiveContent(rows, source) || id in DeadContent(rows, source) || id in FirstSeenIn(full, source, seen, sync))
            && (id in FirstSeenIn(full, source, seen, sync) ==> id !in LiveContent(rows, source) && id !in DeadContent(rows, source))
            && (id in seen * DeadContent(rows, source) ==> id in ChangedIn(full, source, seen, sync))
            && (id in ContentIds(full, source, MissingIds(full, source, sync)) <==> id in LiveContent(rows, source) && id !in seen)
  {
    var full, k := ObserveSeq(rows, values, sync), Key(source, id);
    var seen := ContentIds(full, source, SeenIds(full, source, sync));
    if i :| 0 <= i < |values| && KeyOf(values[i]) == k {
      ObserveOne(rows, values, sync, i);
    } else {
      ObserveOther(rows, values, sync, k);
    }
    assert id in LiveContent(rows, source) <==> k in rows && !rows[k].deleted && Content(rows[k]);
    assert id in DeadContent(rows, source) <==> k in rows && rows[k].deleted && Content(rows[k]);
    assert id in seen <==> k in full && full[k].lastSeen == sync && !full[k].deleted && Content(full[k]);
    assert id in MissingIds(full, source, sync) <==> k in full && full[k].lastSeen != sync && (!full[k].deleted || full[k].lastChanged == sync);
  }
}
