/** Registration of converted files as tables
    (ckan-ingestor-rs/ckan-worker-coordinator/src/parquet_registrar.rs). */
module ParquetRegistrar {
  import opened Common
  import opened ChildJobs

  /** A table with its two tags; a table made by other means may lack them. */
  datatype Table = Table(version: Option<string>, job: Option<string>, files: seq<Artifact>)

  datatype Delivery = Delivery(version: string, job: string, files: seq<Artifact>)

  datatype Update = Update(resource: string, version: string)

  function TableOf(d: Delivery): Table { Table(Some(d.version), Some(d.job), d.files) }

  /** The table in place is that of the delivery: its version, its job and its files. */
  predicate InPlace(table: Option<Table>, d: Delivery) {
    table.Some? && table.value.version == Some(d.version) && table.value.job == Some(d.job) && table.value.files == d.files
  }

  /** An existing table wins if its version is not smaller, or if it comes from the same job. */
  predicate Skipped(current: Option<Table>, version: string, job: string) {
    && current.Some?
    && ((current.value.version.Some? && !StrLess(current.value.version.value, version)) || current.value.job == Some(job))
  }

  function Lookup(tables: map<string, Table>, resource: string): Option<Table> {
    if resource in tables then Some(tables[resource]) else None
  }

  const U64_MODULUS := 0x1_0000_0000_0000_0000

  /** `child.rows as u64`, added up. */
  function ReportedRows(children: seq<ChildRecord>): nat {
    if children == [] then 0 else ReportedRows(children[..|children| - 1]) + children[|children| - 1].rows % U64_MODULUS
  }

  function FileRows(files: seq<Artifact>): nat {
    if files == [] then 0 else FileRows(files[..|files| - 1]) + files[|files| - 1].numRows
  }

  /** The rows of files add up, whatever their order and grouping. */
  lemma {:induction false} FileRowsAdd(a: seq<Artifact>, b: seq<Artifact>)
    ensures FileRows(a + b) == FileRows(a) + FileRows(b)
    ensures forall f :: FileRows([f]) == f.numRows
  {
    forall f ensures FileRows([f]) == f.numRows { assert [f][..0] == []; }
    if b == [] {
      assert a + b == a;
    } else {
      assert (a + b)[..|a + b| - 1] == a + b[..|b| - 1];
      FileRowsAdd(a, b[..|b| - 1]);
    }
  }

  datatype History = History(table: Option<Table>, updates: seq<string>)

  function Deliver(h: History, d: Delivery): History {
    if Skipped(h.table, d.version, d.job) then h else History(Some(TableOf(d)), h.updates + [d.version])
  }

  /** The update log of one resource. */
  function VersionsOf(updates: seq<Update>, resource: string): seq<string> {
    if updates == [] then []
    else
      var last := updates[|updates| - 1];
      VersionsOf(updates[..|updates| - 1], resource) + if last.resource == resource then [last.version] else []
  }

  class Registrar {
    var tables: map<string, Table>
    var lastUpdates: seq<Update>

    constructor ()
      ensures tables == map[] && lastUpdates == []
    {
      tables, lastUpdates := map[], [];
    }

    /** What there is for one resource. */
    function HistoryOf(resource: string): History
      reads this
    {
      History(Lookup(tables, resource), VersionsOf(lastUpdates, resource))
    }

    /** One transaction: replace the table and note the update, or nothing. */
    method Register(resource: string, d: Delivery, commits: bool) returns (ok: bool)
      modifies this
      ensures ok <==> Skipped(Lookup(old(tables), resource), d.version, d.job) || commits
      ensures if ok && !Skipped(Lookup(old(tables), resource), d.version, d.job)
              then && InPlace(Lookup(tables, resource), d) && tables == old(tables)[resource := tables[resource]]
                   && lastUpdates == old(lastUpdates) + [Update(resource, d.version)]
              else tables == old(tables) && lastUpdates == old(lastUpdates)
      ensures HistoryOf(resource) == if commits then Deliver(old(HistoryOf(resource)), d) else old(HistoryOf(resource))
      ensures forall other :: other != resource ==> HistoryOf(other) == old(HistoryOf(other))
    {
      if resource in tables {
        var current := tables[resource];
        if (current.version.Some? && !StrLess(current.version.value, d.version)) || current.job == Some(d.job) {
          return true;
        }
      }
      if !commits {
        return false;
      }
      var next := map k | k in tables && k != resource :: tables[k];
      next := next[resource := TableOf(d)];
      assert next == tables[resource := TableOf(d)];
      tables := next;
      lastUpdates := lastUpdates + [Update(resource, d.version)];
      assert lastUpdates[..|lastUpdates| - 1] == old(lastUpdates);
      return true;
    }

    /** The merged table of a parent; `normalized` is what rewriting the children produced. */
    method RegisterChildren(resource: string, version: string, job: string, children: seq<ChildRecord>,
                            normalized: Option<seq<Artifact>>, commits: bool)
      returns (rows: Option<nat>)
      modifies this
      ensures children == [] ==> rows.None?
      ensures children != [] && Skipped(Lookup(old(tables), resource), version, job) ==> rows == Some(ReportedRows(children))
      ensures children != [] && !Skipped(Lookup(old(tables), resource), version, job) ==>
                rows == (if normalized.Some? && commits then Some(FileRows(normalized.value)) else None)
      ensures children != [] && !Skipped(Lookup(old(tables), resource), version, job) && rows.Some? ==>
                resource in tables && rows.value == FileRows(tables[resource].files)
      ensures if children != [] && !Skipped(Lookup(old(tables), resource), version, job) && normalized.Some? && commits
              then && InPlace(Lookup(tables, resource), Delivery(version, job, normalized.value))
                   && tables == old(tables)[resource := tables[resource]]
                   && lastUpdates == old(lastUpdates) + [Update(resource, version)]
              else tables == old(tables) && lastUpdates == old(lastUpdates)
    {
      if children == [] {
        return None;
      }
      if Skipped(Lookup(tables, resource), version, job) {
        var sum, i := 0, 0;
        while i < |children|
          invariant 0 <= i <= |children| && sum == ReportedRows(children[..i])
        {
          assert children[..i + 1][..i] == children[..i];
          sum := sum + children[i].rows % U64_MODULUS;
          i := i + 1;
        }
        assert children[..i] == children;
        return Some(sum);
      }
      if normalized.None? {
        return None;
      }
      var ok := Register(resource, Delivery(version, job, normalized.value), commits);
      return if ok then Some(FileRows(normalized.value)) else None;
    }
  }

  // ----- Repeated, reordered deliveries for one resource -----

  function DeliverAll(h: History, ds: seq<Delivery>): History {
    if ds == [] then h else Deliver(DeliverAll(h, ds[..|ds| - 1]), ds[|ds| - 1])
  }

  function Elements(ds: seq<Delivery>): set<Delivery> { set d | d in ds }

  /** `m` has the greatest version, and its version determines it. */
  ghost predicate Newest(m: Delivery, all: set<Delivery>) {
    m in all && forall d :: d in all && d != m ==> StrLess(d.version, m.version)
  }

  /** No other delivered version shares the job of `m`. */
  ghost predicate OwnsItsJob(m: Delivery, all: set<Delivery>) {
    forall d :: d in all && d.job == m.job ==> d == m
  }

  const EMPTY := History(None, [])

  lemma {:induction false} NewestStays(ds: seq<Delivery>, m: Delivery)
    requires forall d :: d in ds && d != m ==> StrLess(d.version, m.version) && d.job != m.job
    ensures var t := DeliverAll(EMPTY, ds).table;
            && (m in ds ==> InPlace(t, m))
            && (t.Some? ==> exists d :: d in ds && InPlace(t, d))
  {
    if ds != [] {
      var before, d := ds[..|ds| - 1], ds[|ds| - 1];
      assert ds == before + [d];
      NewestStays(before, m);
      var h := DeliverAll(EMPTY, before);
      assert d in ds;
      if h.table.Some? {
        var x :| x in before && InPlace(h.table, x);
        assert x in ds;
        StrLessTotal(x.version, m.version);
        StrLessTotal(d.version, m.version);
      }
    }
  }

  /** An order of delivery that starts with a chosen prefix. */
  ghost function AnyOrder(all: set<Delivery>): (ds: seq<Delivery>)
    ensures Elements(ds) == all
    decreases |all|
  {
    if all == {} then []
    else
      var d :| d in all;
      assert |all - {d}| < |all|;
      var rest := AnyOrder(all - {d});
      assert Elements(rest + [d]) == all by {
        forall x ensures x in rest + [d] <==> x in all { assert x in rest <==> x in Elements(rest); }
      }
      rest + [d]
  }

  /** Once `m` was turned away because of its job, it only comes back if delivered again. */
  lemma {:induction false} OthersStay(d: Delivery, ds: seq<Delivery>, m: Delivery, updates: seq<string>)
    requires d != m && m !in ds && StrLess(d.version, m.version)
    requires forall x :: x in ds ==> StrLess(x.version, m.version)
    ensures var t := DeliverAll(History(Some(TableOf(d)), updates), ds).table;
            t.Some? && !InPlace(t, m)
  {
    if ds != [] {
      assert ds[|ds| - 1] in ds;
      OthersStay(d, ds[..|ds| - 1], m, updates);
      StrLessTotal(ds[|ds| - 1].version, m.version);
    } else {
      StrLessTotal(d.version, m.version);
    }
  }

  lemma {:induction false} DeliverAllSplit(h: History, a: seq<Delivery>, b: seq<Delivery>)
    ensures DeliverAll(h, a + b) == DeliverAll(DeliverAll(h, a), b)
  {
    if b == [] {
      assert a + b == a;
    } else {
      assert (a + b)[..|a + b| - 1] == a + b[..|b| - 1];
      DeliverAllSplit(h, a, b[..|b| - 1]);
    }
  }

  lemma SecondTurnedAway(d: Delivery, m: Delivery)
    requires d.job == m.job
    ensures DeliverAll(EMPTY, [d, m]) == History(Some(TableOf(d)), [d.version])
  {
    assert [d, m][..1] == [d] && [d][..0] == [];
    assert DeliverAll(EMPTY, [d]) == History(Some(TableOf(d)), [d.version]);
  }

  lemma SharedJobBlocks(all: set<Delivery>, m: Delivery, d: Delivery)
    requires Newest(m, all) && d in all && d != m && d.job == m.job
    ensures exists ds :: Elements(ds) == all && !InPlace(DeliverAll(EMPTY, ds).table, m)
  {
    var rest := AnyOrder(all - {d, m});
    var ds := [d, m] + rest;
    assert forall x :: x in rest <==> x in Elements(rest);
    assert Elements(ds) == all;
    DeliverAllSplit(EMPTY, [d, m], rest);
    SecondTurnedAway(d, m);
    OthersStay(d, rest, m, [d.version]);
  }

  /** Convergence, with its exact condition: every order and every repetition of the delivered versions
      leaves the newest one in place if and only if no older version came from the same job. */
  lemma RegistrationConverges(all: set<Delivery>, m: Delivery)
    requires Newest(m, all)
    ensures OwnsItsJob(m, all) <==>
            forall ds :: Elements(ds) == all ==> InPlace(DeliverAll(EMPTY, ds).table, m)
  {
    if OwnsItsJob(m, all) {
      forall ds | Elements(ds) == all ensures InPlace(DeliverAll(EMPTY, ds).table, m) {
        forall d ensures d in ds <==> d in all { assert d in ds <==> d in Elements(ds); }
        NewestStays(ds, m);
      }
    } else {
      var d :| d in all && d.job == m.job && d != m;
      SharedJobBlocks(all, m, d);
    }
  }

  /** A concrete pair of versions of one job for which the newer one is turned away. */
  lemma SameJobExample()
    ensures var a, b := Delivery("1", "job", []), Delivery("2", "job", []);
            StrLess(a.version, b.version) && InPlace(DeliverAll(EMPTY, [a, b]).table, a)
  {
    SecondTurnedAway(Delivery("1", "job", []), Delivery("2", "job", []));
  }

  ghost predicate Increasing(vs: seq<string>) {
    forall i, j :: 0 <= i < j < |vs| ==> StrLess(vs[i], vs[j])
  }

  /** Over any run the version tag only grows: the update log is strictly increasing, ends with the
      version of the table, and each delivery adds to it exactly when it changes the table. */
  lemma {:induction false} VersionsIncrease(ds: seq<Delivery>)
    ensures var h := DeliverAll(EMPTY, ds);
            && Increasing(h.updates)
            && (h.table.None? <==> h.updates == [])
            && (h.table.Some? ==> h.updates != [] && h.table.value.version == Some(h.updates[|h.updates| - 1]))
    ensures ds != [] ==> var before, after := DeliverAll(EMPTY, ds[..|ds| - 1]), DeliverAll(EMPTY, ds);
            if before.table == after.table then after.updates == before.updates
            else after.updates == before.updates + [ds[|ds| - 1].version]
  {
    if ds != [] {
      var before, d := ds[..|ds| - 1], ds[|ds| - 1];
      VersionsIncrease(before);
      var h := DeliverAll(EMPTY, before);
      if !Skipped(h.table, d.version, d.job) {
        StrLessTotal(d.version, d.version);
        forall i | 0 <= i < |h.updates| ensures StrLess(h.updates[i], d.version) {
          if i < |h.updates| - 1 {
            StrLessTransitive(h.updates[i], h.updates[|h.updates| - 1], d.version);
          }
        }
      }
    }
  }

  // ----- Several registrars: the tags are read before the transaction -----

  /** A registrar that found its delivery to be due, and the table it found. */
  datatype Due = Due(d: Delivery, found: Option<Table>)

  datatype Shared = Shared(history: History, due: multiset<Due>)

  datatype Step = Check(d: Delivery) | Commit(due: Due) | Drop(due: Due)

  ghost predicate Enabled(s: Shared, step: Step) { step.Check? || step.due in s.due }

  ghost function Next(s: Shared, step: Step): Shared
    requires Enabled(s, step)
  {
    match step
    case Check(d) =>
      if Skipped(s.history.table, d.version, d.job) then s else s.(due := s.due + multiset{Due(d, s.history.table)})
    case Commit(x) => Shared(History(Some(TableOf(x.d)), s.history.updates + [x.d.version]), s.due - multiset{x})
    case Drop(x) => s.(due := s.due - multiset{x})
  }

  ghost predicate Run(s: Shared, steps: seq<Step>, t: Shared)
    decreases |steps|
  {
    if steps == [] then s == t else Enabled(s, steps[0]) && Run(Next(s, steps[0]), steps[1..], t)
  }

  const NOBODY := Shared(EMPTY, multiset{})

  lemma First(s: Shared, step: Step, rest: seq<Step>, t: Shared)
    requires Enabled(s, step) && Run(Next(s, step), rest, t)
    ensures Run(s, [step] + rest, t)
  {
    assert ([step] + rest)[1..] == rest;
  }

  lemma Two(s: Shared, first: Step, second: Step)
    requires Enabled(s, first) && Enabled(Next(s, first), second)
    ensures Run(s, [first, second], Next(Next(s, first), second))
  {
    var t := Next(Next(s, first), second);
    First(Next(s, first), second, [], t);
    First(s, first, [second], t);
    assert [first] + [second] == [first, second];
  }

  /** The table carries the version that was noted last. */
  ghost predicate Noted(h: History) {
    && (h.table.None? <==> h.updates == [])
    && (h.table.Some? ==> h.table.value.version == Some(h.updates[|h.updates| - 1]))
  }

  lemma {:induction false} NotedStays(s: Shared, steps: seq<Step>, t: Shared)
    requires Run(s, steps, t) && Noted(s.history)
    ensures Noted(t.history)
    decreases |steps|
  {
    if steps != [] { NotedStays(Next(s, steps[0]), steps[1..], t); }
  }

  lemma IncreasingNext(vs: seq<string>, v: string)
    ensures Increasing(vs + [v]) <==> Increasing(vs) && (vs == [] || StrLess(vs[|vs| - 1], v))
  {
    var all := vs + [v];
    if Increasing(all) {
      assert vs != [] ==> StrLess(all[|vs| - 1], all[|vs|]);
      forall i, j | 0 <= i < j < |vs| ensures StrLess(vs[i], vs[j]) { assert StrLess(all[i], all[j]); }
    }
    if Increasing(vs) && (vs == [] || StrLess(vs[|vs| - 1], v)) {
      forall i, j | 0 <= i < j < |all| ensures StrLess(all[i], all[j]) {
        if j == |vs| && i < |vs| - 1 { StrLessTransitive(vs[i], vs[|vs| - 1], v); }
      }
    }
  }

  // ----- Which outstanding checks are safe -----

  /** A version that is not older has been committed. */
  ghost predicate Overtaken(h: History, d: Delivery) {
    h.table.Some? && h.table.value.version.Some? && !StrLess(h.table.value.version.value, d.version)
  }

  /** Steps that only finish outstanding registrations. */
  ghost predicate Closing(steps: seq<Step>) { forall i :: 0 <= i < |steps| ==> !steps[i].Check? }

  /** The versions increase in whatever order and part the outstanding registrations are committed. */
  ghost predicate SafeToClose(s: Shared) {
    forall steps, t :: Run(s, steps, t) && Closing(steps) ==> Increasing(t.history.updates)
  }

  lemma {:induction false} OneCloses(s: Shared, steps: seq<Step>, t: Shared)
    requires Run(s, steps, t) && Closing(steps) && Noted(s.history) && Increasing(s.history.updates)
    requires |s.due| <= 1 && forall x :: x in s.due ==> !Overtaken(s.history, x.d)
    ensures Increasing(t.history.updates)
    decreases |steps|
  {
    if steps != [] {
      var u := Next(s, steps[0]);
      IncreasingNext(s.history.updates, steps[0].due.d.version);
      assert |u.due| == |s.due| - 1;
      OneCloses(u, steps[1..], t);
    }
  }

  lemma TwoCommitted(s: Shared, x: Due, y: Due)
    requires x in s.due && y in s.due - multiset{x}
    ensures exists t :: Run(s, [Commit(x), Commit(y)], t) && t.history.updates == s.history.updates + [x.d.version, y.d.version]
  {
    Two(s, Commit(x), Commit(y));
    var t := Next(Next(s, Commit(x)), Commit(y));
    assert t.history.updates == s.history.updates + [x.d.version] + [y.d.version];
  }

  lemma WrongOrder(s: Shared, x: Due, y: Due)
    requires x in s.due && y in s.due - multiset{x} && !StrLess(x.d.version, y.d.version)
    ensures !SafeToClose(s)
  {
    TwoCommitted(s, x, y);
    var t :| Run(s, [Commit(x), Commit(y)], t) && t.history.updates == s.history.updates + [x.d.version, y.d.version];
    var n := |s.history.updates|;
    assert t.history.updates[n] == x.d.version && t.history.updates[n + 1] == y.d.version;
    assert Closing([Commit(x), Commit(y)]);
  }

  /** One of the two orders of two outstanding registrations ends with a version that is not newer. */
  lemma TwoUnsafe(s: Shared, x: Due, y: Due)
    requires x in s.due && y in s.due - multiset{x}
    ensures !SafeToClose(s)
  {
    StrLessTotal(x.d.version, y.d.version);
    if StrLess(x.d.version, y.d.version) { WrongOrder(s, y, x); } else { WrongOrder(s, x, y); }
  }

  lemma OvertakenUnsafe(s: Shared, x: Due)
    requires Noted(s.history) && x in s.due && Overtaken(s.history, x.d)
    ensures !SafeToClose(s)
  {
    var t := Next(s, Commit(x));
    assert Run(t, [], t);
    First(s, Commit(x), [], t);
    IncreasingNext(s.history.updates, x.d.version);
    assert Closing([Commit(x)] + []);
  }

  lemma SecondExists(m: multiset<Due>)
    requires |m| > 1
    ensures exists x, y :: x in m && y in m - multiset{x}
  {
    var x :| x in m;
    assert |m - multiset{x}| == |m| - 1;
    var y :| y in m - multiset{x};
  }

  /** Over all runs of registrars that check and commit separately: the versions stay increasing, in whatever order the
      outstanding checks are committed, if and only if they increase so far, at most one check is outstanding, and no
      version that is not older has been committed since. */
  lemma OvertakingExact(before: seq<Step>, s: Shared)
    requires Run(NOBODY, before, s)
    ensures SafeToClose(s) <==>
            Increasing(s.history.updates) && |s.due| <= 1 && forall x :: x in s.due ==> !Overtaken(s.history, x.d)
  {
    NotedStays(NOBODY, before, s);
    if Increasing(s.history.updates) && |s.due| <= 1 && forall x :: x in s.due ==> !Overtaken(s.history, x.d) {
      forall steps, t | Run(s, steps, t) && Closing(steps) ensures Increasing(t.history.updates) { OneCloses(s, steps, t); }
    } else if !Increasing(s.history.updates) {
      assert Run(s, [], s) && Closing([]);
    } else if |s.due| > 1 {
      SecondExists(s.due);
      var x, y :| x in s.due && y in s.due - multiset{x};
      TwoUnsafe(s, x, y);
    } else {
      var x :| x in s.due && Overtaken(s.history, x.d);
      OvertakenUnsafe(s, x);
    }
  }

  lemma {:induction false} Longer(v: string, w: string)
    requires w != []
    ensures StrLess(v, v + w)
    decreases |v|
  {
    if v == [] {
      assert v + w == w;
    } else {
      assert (v + w)[1..] == v[1..] + w;
      Longer(v[1..], w);
    }
  }

  lemma {:induction false} SameStart(v: string, a: string, b: string)
    requires StrLess(a, b)
    ensures StrLess(v + a, v + b)
    decreases |v|
  {
    if v == [] {
      assert v + a == a && v + b == b;
    } else {
      assert (v + a)[1..] == v[1..] + a && (v + b)[1..] == v[1..] + b;
      SameStart(v[1..], a, b);
    }
  }

  lemma CheckedTogether(s: Shared, a: Delivery, b: Delivery)
    requires !Skipped(s.history.table, a.version, a.job) && !Skipped(s.history.table, b.version, b.job)
    ensures exists steps, t :: Run(s, steps, t) && t.history.updates == s.history.updates + [b.version, a.version]
  {
    var x, y := Due(a, s.history.table), Due(b, s.history.table);
    var s1 := Next(s, Check(a));
    var s2 := Next(s1, Check(b));
    assert s2 == s.(due := s.due + multiset{x} + multiset{y});
    TwoCommitted(s2, y, x);
    var t :| Run(s2, [Commit(y), Commit(x)], t) && t.history.updates == s.history.updates + [b.version, a.version];
    First(s1, Check(b), [Commit(y), Commit(x)], t);
    First(s, Check(a), [Check(b)] + [Commit(y), Commit(x)], t);
  }

  /** From every state, two registrars that both check first can put an older version in the place of a newer one. */
  lemma AlwaysOvertakable(s: Shared)
    ensures exists steps, t, older, newer ::
              Run(s, steps, t) && t.history.updates == s.history.updates + [newer, older] && StrLess(older, newer)
  {
    var current := s.history.table;
    var v := if current.Some? then GetOr(current.value.version, "") else "";
    var j := if current.Some? then GetOr(current.value.job, "") else "";
    var a, b := Delivery(v + "0", j + "0", []), Delivery(v + "1", j + "0", []);
    assert |j + "0"| == |j| + 1;
    Longer(v, "0");
    Longer(v, "1");
    StrLessTotal(v, v + "0");
    StrLessTotal(v, v + "1");
    SameStart(v, "0", "1");
    CheckedTogether(s, a, b);
  }

  // ----- Disciplines under which interleaved registrars agree with registrations one after the other -----

  /** The deliveries that were skipped or committed, in the order in which that happened. */
  ghost function Settled(s: Shared, steps: seq<Step>): seq<Delivery>
    decreases |steps|
  {
    if steps == [] || !Enabled(s, steps[0]) then []
    else
      var rest := Settled(Next(s, steps[0]), steps[1..]);
      match steps[0]
      case Check(d) => if Skipped(s.history.table, d.version, d.job) then [d] + rest else rest
      case Commit(x) => [x.d] + rest
      case Drop(_) => rest
  }

  /** A store that refuses a commit when the table is not the one that was checked. */
  ghost predicate Guarded(s: Shared, steps: seq<Step>)
    decreases |steps|
  {
    steps != [] && Enabled(s, steps[0]) ==>
      && (steps[0].Commit? ==> steps[0].due.found == s.history.table)
      && Guarded(Next(s, steps[0]), steps[1..])
  }

  /** Nobody checks while another registration is outstanding. */
  ghost predicate OneAtATime(s: Shared, steps: seq<Step>)
    decreases |steps|
  {
    steps != [] && Enabled(s, steps[0]) ==>
      && (steps[0].Check? ==> s.due == multiset{})
      && OneAtATime(Next(s, steps[0]), steps[1..])
  }

  ghost predicate Checked(s: Shared) {
    forall x :: x in s.due ==> !Skipped(x.found, x.d.version, x.d.job)
  }

  lemma {:induction false} GuardedFrom(s: Shared, steps: seq<Step>, t: Shared)
    requires Run(s, steps, t) && Checked(s) && Guarded(s, steps)
    ensures t.history == DeliverAll(s.history, Settled(s, steps))
    decreases |steps|
  {
    if steps != [] {
      var u := Next(s, steps[0]);
      var rest := Settled(u, steps[1..]);
      assert forall x :: x in u.due ==> x in s.due || (steps[0].Check? && x == Due(steps[0].d, s.history.table));
      GuardedFrom(u, steps[1..], t);
      if steps[0].Commit? || (steps[0].Check? && Skipped(s.history.table, steps[0].d.version, steps[0].d.job)) {
        var d := if steps[0].Commit? then steps[0].due.d else steps[0].d;
        DeliverAllSplit(s.history, [d], rest);
        assert [d][..0] == [];
        assert DeliverAll(s.history, [d]) == Deliver(s.history, d);
      }
    }
  }

  lemma {:induction false} AloneIsGuarded(s: Shared, steps: seq<Step>, t: Shared)
    requires Run(s, steps, t) && OneAtATime(s, steps)
    requires |s.due| <= 1 && forall x :: x in s.due ==> x.found == s.history.table
    ensures Guarded(s, steps)
    decreases |steps|
  {
    if steps != [] {
      var u := Next(s, steps[0]);
      assert !steps[0].Check? ==> |u.due| == |s.due| - 1;
      AloneIsGuarded(u, steps[1..], t);
    }
  }

  /** With such a store, or with one registrar at a time, every interleaved run ends as if the settled deliveries had
      been registered one after the other: the versions increase, and the newest is in place if it owns its job. */
  lemma DisciplineConverges(steps: seq<Step>, t: Shared)
    requires Run(NOBODY, steps, t) && (Guarded(NOBODY, steps) || OneAtATime(NOBODY, steps))
    ensures t.history == DeliverAll(EMPTY, Settled(NOBODY, steps))
    ensures Increasing(t.history.updates)
    ensures forall m :: Newest(m, Elements(Settled(NOBODY, steps))) && OwnsItsJob(m, Elements(Settled(NOBODY, steps))) ==>
              InPlace(t.history.table, m)
  {
    if OneAtATime(NOBODY, steps) { AloneIsGuarded(NOBODY, steps, t); }
    GuardedFrom(NOBODY, steps, t);
    var ds := Settled(NOBODY, steps);
    VersionsIncrease(ds);
    forall m | Newest(m, Elements(ds)) && OwnsItsJob(m, Elements(ds)) ensures InPlace(t.history.table, m) {
      RegistrationConverges(Elements(ds), m);
    }
  }
}
