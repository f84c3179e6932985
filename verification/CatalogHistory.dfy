/** What holds of a source's catalogue over every sequence of snapshots
    (analytics/catalog_ingestion.py, analytics/publish_lake_snapshot.py). */
module CatalogHistory {
  import opened Common
  import opened CatalogIngestion
  import opened ResourceForest

  const NOTHING := SourceState(map[], {}, map[], {})

  ghost function After(st: SourceState, ds: seq<Snapshot>): SourceState {
    if ds == [] then st else Ingested(After(st, ds[..|ds| - 1]), ds[|ds| - 1])
  }

  // ----- The tree, tombstones included -----

  function RowParents(rows: map<string, Row>): Parents {
    map id | id in rows :: ParentName(rows[id].parent)
  }

  lemma {:induction false} SubtreeRooted(q: Parents, p: Parents, id: string, n: nat)
    requires forall x :: x in q ==> x in p && p[x] == q[x]
    requires ReachesRoot(q, id, n)
    ensures ReachesRoot(p, id, n)
    decreases n
  {
    if id != "" { SubtreeRooted(q, p, q[id], n - 1); }
  }

  /** A tombstone follows its old parents until it meets a listed resource, then the new tree. */
  lemma {:induction false} TombstoneRooted(prev: map<string, Row>, records: seq<Record>, id: string, n: nat)
    requires Forest(SnapshotParents(records)) && ReachesRoot(RowParents(prev), id, n)
    ensures Rooted(RowParents(MergedRows(prev, records)), id)
    decreases n
  {
    var p := RowParents(MergedRows(prev, records));
    if id == "" {
      RootMarkerRooted(p);
    } else {
      MergedRow(prev, records, id);
      if id in ById(records) {
        ListedRooted(prev, records, id);
      } else {
        TombstoneRooted(prev, records, RowParents(prev)[id], n - 1);
        RootedStep(p, id);
      }
    }
  }

  lemma ListedRooted(prev: map<string, Row>, records: seq<Record>, id: string)
    requires Forest(SnapshotParents(records)) && id in ById(records)
    ensures Rooted(RowParents(MergedRows(prev, records)), id)
  {
    var q, p := SnapshotParents(records), RowParents(MergedRows(prev, records));
    assert id in q && Rooted(q, id);
    var n: nat :| ReachesRoot(q, id, n);
    forall x | x in q ensures x in p && p[x] == q[x] { MergedRow(prev, records, x); }
    SubtreeRooted(q, p, id, n);
  }

  lemma IngestKeepsForest(st: SourceState, s: Snapshot)
    requires Forest(RowParents(st.rows))
    ensures Forest(RowParents(Ingested(st, s).rows))
  {
    if Acceptable(s) && !Refused(st.imports, s) {
      var p := RowParents(MergedRows(st.rows, s.records));
      forall id | id in p ensures Rooted(p, id) {
        MergedRow(st.rows, s.records, id);
        if id in ById(s.records) {
          ListedRooted(st.rows, s.records, id);
        } else {
          assert id in RowParents(st.rows);
          var n: nat :| ReachesRoot(RowParents(st.rows), id, n);
          TombstoneRooted(st.rows, s.records, id, n);
        }
      }
    }
  }

  /** Over every run the stored tree, tombstones included, is closed under parents and free of cycles. */
  lemma {:induction false} CatalogStaysForest(st: SourceState, ds: seq<Snapshot>)
    requires Forest(RowParents(st.rows)) && "" !in st.rows
    ensures var p := RowParents(After(st, ds).rows);
            Forest(p) && "" !in p && Closed(p) && Acyclic(p)
  {
    if ds != [] {
      var before, s := After(st, ds[..|ds| - 1]), ds[|ds| - 1];
      CatalogStaysForest(st, ds[..|ds| - 1]);
      IngestKeepsForest(before, s);
      if Acceptable(s) {
        MergedRow(before.rows, s.records, "");
        ByIdHolds(s.records, "");
      }
    }
    ForestIsClosedAndAcyclic(RowParents(After(st, ds).rows));
  }

  /** The tables that an import fills are never the catalogue's own: their names are words that do not start with `catalog_`. */
  lemma {:induction false} OwnTablesSafe(ds: seq<Snapshot>, name: string)
    requires name in After(NOTHING, ds).declared
    ensures name != "" && 'a' <= name[0] <= 'z' && !("catalog_" <= name)
    ensures forall c :: c in name ==> 'a' <= c <= 'z' || '0' <= c <= '9' || c == '_'
  {
    var before, s := After(NOTHING, ds[..|ds| - 1]), ds[|ds| - 1];
    if name in before.declared {
      OwnTablesSafe(ds[..|ds| - 1], name);
    } else {
      assert name in DeclaredBy(s.records) && CollectionName(name);
    }
  }

  // ----- The public path of a resource -----

  /** Titles from the root down to `id`, which is `n` steps away from it. */
  ghost function TitlePath(rows: map<string, Row>, id: string, n: nat): seq<string>
    requires ReachesRoot(RowParents(rows), id, n)
    decreases n
  {
    if id == "" then []
    else TitlePath(rows, ParentName(rows[id].parent), n - 1) + [if rows[id].title != "" then rows[id].title else "Recurso sem título"]
  }

  /** The path loop of `enrich_generic_catalog`; no path stands for the "catalog resource cycle" error. */
  method PublicPath(rows: map<string, Row>, id: string) returns (path: Option<seq<string>>)
    requires id in rows && "" !in rows
    ensures Rooted(RowParents(rows), id) ==>
              path.Some? && exists n: nat :: ReachesRoot(RowParents(rows), id, n) && path.value == TitlePath(rows, id, n)
    ensures Closed(RowParents(rows)) ==> (path.Some? <==> Rooted(RowParents(rows), id))
  {
    ghost var p := RowParents(rows);
    ghost var distance: nat :| Rooted(p, id) ==> ReachesRoot(p, id, distance);
    ghost var left: nat := distance;
    path := Some([]);
    var seen: set<string> := {};
    var current := Some(id);
    while current.Some? && current.value in rows
      invariant path.Some? && seen <= rows.Keys
      invariant Closed(p) && ParentName(current) != "" ==> ParentName(current) in rows
      invariant forall x :: x in seen ==> Below(p, x, ParentName(current))
      invariant Rooted(p, id) <==> Rooted(p, ParentName(current))
      invariant Rooted(p, id) ==> ReachesRoot(p, ParentName(current), left)
      invariant Rooted(p, id) ==> TitlePath(rows, id, distance) == TitlePath(rows, ParentName(current), left) + path.value
      decreases rows.Keys - seen
    {
      var node := current.value;
      if node in seen {
        CycleNeverRooted(p, node);
        return None;
      }
      RootedStep(p, node);
      forall x | x in seen || x == node ensures Below(p, x, p[node]) { BelowStep(p, x, node); }
      seen := seen + {node};
      path := Some([Or(rows[node].title, "Recurso sem título")] + path.value);
      current := rows[node].parent;
      left := if left > 0 then left - 1 else 0;
    }
    RootMarkerRooted(p);
  }

  // ----- Convergence of imports -----

  ghost predicate Live(rows: map<string, Row>, id: string) { id in rows && !rows[id].deleted }

  ghost predicate Tombstone(rows: map<string, Row>, id: string) { id in rows && rows[id].deleted }

  /** The catalogue shows exactly this snapshot; only statuses and tombstones remember older ones. */
  ghost predicate Shows(st: SourceState, m: Snapshot) {
    && (forall id :: Live(st.rows, id) <==> Lists(m, id))
    && (forall r :: r in m.records ==> r.id in st.rows && ListedAs(st.rows[r.id], r))
    && (forall name :: NamesCollection(m, name) ==> name in st.declared)
    && st.raw.Keys == st.declared && (forall name :: name in st.raw ==> CollectionOf(st.raw[name], m, name))
  }

  lemma IngestedShows(st: SourceState, m: Snapshot)
    requires Acceptable(m) && !Refused(st.imports, m)
    ensures Shows(Ingested(st, m), m)
  {
    ReplacedImports(st, m);
  }

  /** Among the snapshots considered, a sync identity names one snapshot. */
  ghost predicate SyncNamesSnapshot(ds: seq<Snapshot>) {
    forall a, b :: a in ds && b in ds && Acceptable(a) && Acceptable(b) && a.sync == b.sync ==> a == b
  }

  ghost predicate Recorded(st: SourceState, d: Snapshot) { Import(d.sync, d.at) in st.imports }

  /** `m` is the newest import, and what the catalogue shows. */
  ghost predicate Leads(st: SourceState, ds: seq<Snapshot>, m: Snapshot) {
    && m in ds && Acceptable(m) && Recorded(st, m) && Shows(st, m)
    && (forall i :: i in st.imports ==> i.at <= m.at)
    && (forall d :: d in ds && Acceptable(d) ==> d.at <= m.at)
  }

  ghost predicate FromHistory(st: SourceState, ds: seq<Snapshot>) {
    forall i :: i in st.imports ==> exists d :: d in ds && Acceptable(d) && i == Import(d.sync, d.at)
  }

  lemma {:induction false} NewestLeads(ds: seq<Snapshot>)
    requires SyncNamesSnapshot(ds)
    ensures FromHistory(After(NOTHING, ds), ds)
    ensures (exists d :: d in ds && Acceptable(d)) ==> exists m :: Leads(After(NOTHING, ds), ds, m)
  {
    if ds != [] {
      var before, s := ds[..|ds| - 1], ds[|ds| - 1];
      assert ds == before + [s];
      NewestLeads(before);
      var st := After(NOTHING, before);
      NewestStep(st, before, s);
    }
  }

  lemma HistoryStep(st: SourceState, before: seq<Snapshot>, s: Snapshot)
    requires FromHistory(st, before)
    ensures FromHistory(Ingested(st, s), before + [s])
  {
    var ds, after := before + [s], Ingested(st, s);
    forall i | i in after.imports ensures exists d :: d in ds && Acceptable(d) && i == Import(d.sync, d.at) {
      if i in st.imports {
        var d :| d in before && Acceptable(d) && i == Import(d.sync, d.at);
        assert d in ds;
      } else {
        assert s in ds;
      }
    }
  }

  lemma NewestStep(st: SourceState, before: seq<Snapshot>, s: Snapshot)
    requires SyncNamesSnapshot(before + [s]) && FromHistory(st, before)
    requires (exists d :: d in before && Acceptable(d)) ==> exists m :: Leads(st, before, m)
    ensures FromHistory(Ingested(st, s), before + [s])
    ensures (exists d :: d in before + [s] && Acceptable(d)) ==> exists m :: Leads(Ingested(st, s), before + [s], m)
  {
    var ds, after := before + [s], Ingested(st, s);
    HistoryStep(st, before, s);
    if Acceptable(s) && !Refused(st.imports, s) {
      NewLeads(st, before, s);
    } else if exists d :: d in ds && Acceptable(d) {
      OldLeads(st, before, s);
      var m :| Leads(st, before, m);
      assert Leads(after, ds, m);
    }
  }

  /** A snapshot that is let in is the newest so far. */
  lemma NewLeads(st: SourceState, before: seq<Snapshot>, s: Snapshot)
    requires SyncNamesSnapshot(before + [s]) && FromHistory(st, before) && Acceptable(s) && !Refused(st.imports, s)
    requires (exists d :: d in before && Acceptable(d)) ==> exists m :: Leads(st, before, m)
    ensures Leads(Ingested(st, s), before + [s], s)
  {
    var ds, after := before + [s], Ingested(st, s);
    IngestedShows(st, s);
    assert s in ds && Recorded(after, s);
    forall d | d in ds && Acceptable(d) ensures d.at <= s.at {
      if d != s {
        assert d in before;
        var m :| Leads(st, before, m);
        assert Import(m.sync, m.at) in st.imports;
      }
    }
  }

  /** A snapshot that is refused is not newer than what is there. */
  lemma OldLeads(st: SourceState, before: seq<Snapshot>, s: Snapshot)
    requires SyncNamesSnapshot(before + [s]) && FromHistory(st, before) && (Acceptable(s) ==> Refused(st.imports, s))
    requires exists d :: d in before + [s] && Acceptable(d)
    requires (exists d :: d in before && Acceptable(d)) ==> exists m :: Leads(st, before, m)
    ensures exists m :: Leads(st, before, m)
    ensures forall m :: Leads(st, before, m) ==> Leads(st, before + [s], m)
  {
    var ds := before + [s];
    if Acceptable(s) {
      var i :| i in st.imports && (i.sync == s.sync || i.at >= s.at);
      var d :| d in before && Acceptable(d) && i == Import(d.sync, d.at);
      assert d in ds && s in ds;
    }
    assert exists d :: d in before && Acceptable(d);
  }

  /** The delivery is newer than every acceptable one before it. */
  ghost predicate LetIn(ds: seq<Snapshot>, k: nat) {
    k < |ds| && Acceptable(ds[k]) && forall j :: 0 <= j < k && Acceptable(ds[j]) ==> ds[j].at < ds[k].at
  }

  ghost predicate ListedBy(ds: seq<Snapshot>, k: nat, id: string) { LetIn(ds, k) && Lists(ds[k], id) }

  ghost predicate EverListed(ds: seq<Snapshot>, id: string) { exists k: nat :: ListedBy(ds, k, id) }

  lemma RefusedIsOlder(st: SourceState, before: seq<Snapshot>, s: Snapshot)
    requires SyncNamesSnapshot(before + [s]) && Acceptable(s) && FromHistory(st, before) && Refused(st.imports, s)
    ensures !LetIn(before + [s], |before|)
  {
    var ds := before + [s];
    var i :| i in st.imports && (i.sync == s.sync || i.at >= s.at);
    var d :| d in before && Acceptable(d) && i == Import(d.sync, d.at);
    var j :| 0 <= j < |before| && before[j] == d;
    assert d in ds && s in ds && ds[j] == d;
  }

  lemma OlderIsRefused(st: SourceState, before: seq<Snapshot>, s: Snapshot)
    requires Acceptable(s) && !LetIn(before + [s], |before|)
    requires (exists d :: d in before && Acceptable(d)) ==> exists m :: Leads(st, before, m)
    ensures Refused(st.imports, s)
  {
    var ds := before + [s];
    var j :| 0 <= j < |before| && Acceptable(ds[j]) && ds[j].at >= s.at;
    assert ds[j] == before[j] && before[j] in before;
    var m :| Leads(st, before, m);
    assert Import(m.sync, m.at) in st.imports;
  }

  lemma LetInIsImported(before: seq<Snapshot>, s: Snapshot)
    requires SyncNamesSnapshot(before + [s])
    ensures LetIn(before + [s], |before|) <==> Acceptable(s) && !Refused(After(NOTHING, before).imports, s)
  {
    assert forall a :: a in before ==> a in before + [s];
    NewestLeads(before);
    if Acceptable(s) {
      if Refused(After(NOTHING, before).imports, s) {
        RefusedIsOlder(After(NOTHING, before), before, s);
      } else if !LetIn(before + [s], |before|) {
        OlderIsRefused(After(NOTHING, before), before, s);
      }
    }
  }

  lemma ListedLater(before: seq<Snapshot>, s: Snapshot, k: nat, id: string)
    requires k < |before|
    ensures ListedBy(before + [s], k, id) <==> ListedBy(before, k, id)
  {
    assert forall j :: 0 <= j <= k ==> (before + [s])[j] == before[j];
  }

  lemma ListedNext(before: seq<Snapshot>, s: Snapshot, id: string)
    ensures EverListed(before + [s], id) <==> EverListed(before, id) || (LetIn(before + [s], |before|) && Lists(s, id))
  {
    var ds, n := before + [s], |before|;
    assert ds[n] == s;
    forall k: nat | k < n ensures ListedBy(ds, k, id) <==> ListedBy(before, k, id) { ListedLater(before, s, k, id); }
    assert ListedBy(ds, n, id) <==> LetIn(ds, n) && Lists(s, id);
    if EverListed(before, id) {
      var k: nat :| ListedBy(before, k, id);
      assert ListedBy(ds, k, id);
    }
    if EverListed(ds, id) {
      var k: nat :| ListedBy(ds, k, id);
      assert k < n ==> ListedBy(before, k, id);
    }
  }

  /** The rows there are, in every order of delivery: those listed by some snapshot that was the newest when it came. */
  lemma {:induction false} RowsExact(ds: seq<Snapshot>, id: string)
    requires SyncNamesSnapshot(ds)
    ensures id in After(NOTHING, ds).rows <==> EverListed(ds, id)
    decreases |ds|
  {
    if ds != [] {
      var before, s := ds[..|ds| - 1], ds[|ds| - 1];
      assert ds == before + [s];
      RowsExact(before, id);
      LetInIsImported(before, s);
      MergedRow(After(NOTHING, before).rows, s.records, id);
      ListsById(s, id);
      ListedNext(before, s, id);
    }
  }

  /** Convergence: in every order of delivery, with repetitions and with refused snapshots in between,
      the catalogue ends up showing the newest acceptable snapshot; its tombstones are what snapshots listed
      that were the newest when they came. */
  lemma ImportsConverge(ds: seq<Snapshot>, m: Snapshot)
    requires SyncNamesSnapshot(ds)
    requires m in ds && Acceptable(m) && forall d :: d in ds && Acceptable(d) && d != m ==> d.at < m.at
    ensures Shows(After(NOTHING, ds), m)
    ensures forall id :: Tombstone(After(NOTHING, ds).rows, id) <==> !Lists(m, id) && EverListed(ds, id)
  {
    NewestLeads(ds);
    var x :| Leads(After(NOTHING, ds), ds, x);
    assert m.at <= x.at;
    forall id ensures Tombstone(After(NOTHING, ds).rows, id) <==> !Lists(m, id) && EverListed(ds, id) {
      RowsExact(ds, id);
      assert Live(After(NOTHING, ds).rows, id) <==> Lists(m, id);
    }
  }

  /** Two states that show one snapshot agree on its rows. */
  lemma RowsAlike(a: SourceState, b: SourceState, m: Snapshot, id: string)
    requires Shows(a, m) && Shows(b, m) && Live(b.rows, id)
    ensures Live(a.rows, id) && a.rows[id].(status := "") == b.rows[id].(status := "")
  {
    assert Lists(m, id) && Live(a.rows, id);
    var r :| r in m.records && r.id == id;
    assert ListedAs(a.rows[r.id], r) && ListedAs(b.rows[r.id], r);
  }

  lemma CollectionsAlike(a: map<string, RawRow>, b: map<string, RawRow>, m: Snapshot, name: string)
    requires CollectionOf(a, m, name) && CollectionOf(b, m, name)
    ensures a == b
  {
    forall id | id in a ensures id in b && a[id] == b[id] {
      var r :| r in m.records && r.id == id && r.collection == Some(name);
    }
    forall id | id in b ensures id in a {
      var r :| r in m.records && r.id == id && r.collection == Some(name);
    }
  }

  lemma OneImport(m: Snapshot)
    requires Acceptable(m)
    ensures forall name :: name in After(NOTHING, [m]).declared <==> NamesCollection(m, name)
  {
    assert [m][..0] == [] && After(NOTHING, [m][..0]) == NOTHING;
    ReplacedImports(NOTHING, m);
  }

  /** Importing only the newest snapshot agrees with importing a whole history that ends in it, on every live
      row except its status, and on every collection that snapshot declares. */
  lemma LatestIsEnough(ds: seq<Snapshot>, m: Snapshot)
    requires SyncNamesSnapshot(ds)
    requires m in ds && Acceptable(m) && forall d :: d in ds && Acceptable(d) && d != m ==> d.at < m.at
    ensures var all, only := After(NOTHING, ds), After(NOTHING, [m]);
            && (forall id :: Live(all.rows, id) <==> Live(only.rows, id))
            && (forall id :: Live(only.rows, id) ==> all.rows[id].(status := "") == only.rows[id].(status := ""))
            && (forall name :: name in only.declared ==> name in only.raw && name in all.raw && all.raw[name] == only.raw[name])
  {
    var all, only := After(NOTHING, ds), After(NOTHING, [m]);
    ImportsConverge(ds, m);
    ImportsConverge([m], m);
    OneImport(m);
    forall id | Live(only.rows, id) ensures Live(all.rows, id) && all.rows[id].(status := "") == only.rows[id].(status := "") {
      RowsAlike(all, only, m, id);
    }
    forall name | name in only.declared ensures name in only.raw && name in all.raw && all.raw[name] == only.raw[name] {
      CollectionsAlike(all.raw[name], only.raw[name], m, name);
    }
  }

  /** No identifier is ever lost. */
  lemma {:induction false} IdentifiersKept(st: SourceState, ds: seq<Snapshot>)
    ensures st.rows.Keys <= After(st, ds).rows.Keys
  {
    if ds != [] {
      IdentifiersKept(st, ds[..|ds| - 1]);
      var before := After(st, ds[..|ds| - 1]);
      forall id | id in before.rows ensures id in Ingested(before, ds[|ds| - 1]).rows {
        MergedRow(before.rows, ds[|ds| - 1].records, id);
      }
    }
  }

  // ----- The inbox -----

  datatype Artifact = Artifact(key: string, snapshot: Snapshot)

  predicate Later(a: Artifact, b: Artifact) {
    a.snapshot.at > b.snapshot.at || (a.snapshot.at == b.snapshot.at && StrLess(b.key, a.key))
  }

  /** The artifact selected for a source: the latest by collection time, then by key. */
  ghost predicate Latest(inbox: seq<Artifact>, source: string, a: Artifact) {
    && a in inbox && a.snapshot.source == source
    && forall b :: b in inbox && b.snapshot.source == source ==>
         b.snapshot.at < a.snapshot.at || (b.snapshot.at == a.snapshot.at && !StrLess(a.key, b.key))
  }

  method SelectLatest(inbox: seq<Artifact>) returns (latest: map<string, Artifact>)
    ensures latest.Keys == set a | a in inbox :: a.snapshot.source
    ensures forall source :: source in latest ==> Latest(inbox, source, latest[source])
  {
    latest := map[];
    var i := 0;
    while i < |inbox|
      invariant 0 <= i <= |inbox|
      invariant latest.Keys == set a | a in inbox[..i] :: a.snapshot.source
      invariant forall source :: source in latest ==> Latest(inbox[..i], source, latest[source])
    {
      var a := inbox[i];
      ghost var before := latest;
      assert inbox[..i + 1] == inbox[..i] + [a];
      StrLessTotal(a.key, a.key);
      if a.snapshot.source !in latest || Later(a, latest[a.snapshot.source]) {
        if a.snapshot.source in latest {
          forall b | b in inbox[..i] && b.snapshot.source == a.snapshot.source ensures !Later(b, a) {
            LaterOrder(b, latest[a.snapshot.source], a);
          }
        }
        latest := latest[a.snapshot.source := a];
      }
      i := i + 1;
    }
    assert inbox[..i] == inbox;
  }

  lemma LaterOrder(b: Artifact, older: Artifact, a: Artifact)
    requires !Later(b, older) && Later(a, older)
    ensures !Later(b, a)
  {
    if Later(b, a) && b.snapshot.at == older.snapshot.at {
      StrLessTransitive(older.key, a.key, b.key);
    }
  }

  /** `import_inbox`: the selected artifacts that are not yet imported go through `IngestSnapshot`; a snapshot
      that raises stops the import. */
  method ImportInbox(lake: Lake, inbox: seq<Artifact>) returns (raised: bool)
    modifies lake
    ensures !raised ==> forall source, a :: Latest(inbox, source, a) && (forall b :: Latest(inbox, source, b) ==> b == a) ==>
              lake.Of(source) == Ingested(old(lake.Of(source)), a.snapshot)
    ensures forall source :: (forall a :: a in inbox ==> a.snapshot.source != source) ==> lake.Of(source) == old(lake.Of(source))
  {
    var latest := SelectLatest(inbox);
    var pending := latest.Keys;
    while pending != {}
      invariant pending <= latest.Keys
      invariant forall source :: source in latest.Keys - pending ==>
                  lake.Of(source) == Ingested(old(lake.Of(source)), latest[source].snapshot)
      invariant forall source :: source in pending || source !in latest ==> lake.Of(source) == old(lake.Of(source))
      decreases pending
    {
      var source :| source in pending;
      pending := pending - {source};
      assert Latest(inbox, source, latest[source]);
      raised := ImportArtifact(lake, latest[source].snapshot);
      if raised {
        return;
      }
    }
    return false;
  }

  /** A snapshot whose sync is already imported is passed over. */
  method ImportArtifact(lake: Lake, s: Snapshot) returns (raised: bool)
    modifies lake
    ensures lake.Of(s.source) == Ingested(old(lake.Of(s.source)), s)
    ensures forall other :: other != s.source ==> lake.Of(other) == old(lake.Of(other))
    ensures raised ==> !Acceptable(s)
  {
    if exists i :: i in lake.ImportsOf(s.source) && i.sync == s.sync {
      assert Refused(lake.Of(s.source).imports, s);
      return false;
    }
    var verdict := lake.IngestSnapshot(s);
    return verdict.Raised?;
  }
}
