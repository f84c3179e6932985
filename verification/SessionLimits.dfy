/** When a session may lose its catalogue: the exact condition on the moment of its signature, and a run in which it
    does (analytics/publish_lake_snapshot.py, lake-explorer/worker/index.ts). */
module SessionLimits {
  import opened Common
  import opened Publication
  import opened ExplorerRuns

  // ----- Runs made of runs -----

  /** `timely`: in every state on the way the current and the previous publication are at most 48 hours old. */
  ghost predicate Reaches(w: World, timely: bool, s: System, t: System) {
    exists steps :: Run(w, s, steps, t) && (timely ==> TimelyRun(w, s, steps))
  }

  lemma Stay(w: World, timely: bool, s: System)
    requires timely ==> Timely(w, s)
    ensures Reaches(w, timely, s, s)
  {
    assert Run(w, s, [], s) && (timely ==> TimelyRun(w, s, []));
  }

  lemma StepThen(w: World, timely: bool, s: System, step: Step, t: System)
    requires Enabled(w, s, step) && (timely ==> Timely(w, s)) && Reaches(w, timely, Next(w, s, step), t)
    ensures Reaches(w, timely, s, t)
  {
    var steps :| Run(w, Next(w, s, step), steps, t) && (timely ==> TimelyRun(w, Next(w, s, step), steps));
    var all := [step] + steps;
    assert all[1..] == steps;
    assert Run(w, s, all, t) && (timely ==> TimelyRun(w, s, all));
  }

  lemma {:induction false} RunThen(w: World, timely: bool, s: System, steps: seq<Step>, t: System, u: System)
    requires Run(w, s, steps, t) && (timely ==> TimelyRun(w, s, steps)) && Reaches(w, timely, t, u)
    ensures Reaches(w, timely, s, u)
    decreases |steps|
  {
    if steps != [] {
      RunThen(w, timely, Next(w, s, steps[0]), steps[1..], t, u);
      StepThen(w, timely, s, steps[0], u);
    }
  }

  lemma Then(w: World, timely: bool, s: System, t: System, u: System)
    requires Reaches(w, timely, s, t) && Reaches(w, timely, t, u)
    ensures Reaches(w, timely, s, u)
  {
    var steps :| Run(w, s, steps, t) && (timely ==> TimelyRun(w, s, steps));
    RunThen(w, timely, s, steps, t, u);
  }

  /** The writes of a plan, one after the other. */
  lemma {:induction false} WritesReach(w: World, timely: bool, s: System)
    requires timely ==> forall k :: 0 <= k <= |s.plan| ==> Timely(w, s.(objects := ApplyAll(s.objects, s.plan[..k])))
    ensures Reaches(w, timely, s, s.(objects := ApplyAll(s.objects, s.plan), plan := []))
    decreases |s.plan|
  {
    if timely { assert s.(objects := ApplyAll(s.objects, s.plan[..0])) == s; }
    if s.plan == [] {
      assert s.(objects := ApplyAll(s.objects, s.plan), plan := []) == s;
      Stay(w, timely, s);
    } else {
      var u := Next(w, s, WriteNext);
      if timely {
        forall k | 0 <= k <= |u.plan| ensures Timely(w, u.(objects := ApplyAll(u.objects, u.plan[..k]))) {
          assert s.plan[..k + 1][1..] == u.plan[..k];
          assert Timely(w, s.(objects := ApplyAll(s.objects, s.plan[..k + 1])));
        }
      }
      WritesReach(w, timely, u);
      StepThen(w, timely, s, WriteNext, s.(objects := ApplyAll(s.objects, s.plan), plan := []));
    }
  }

  const NO_FILES: set<string> := {}

  ghost function AfterPublish(w: World, s: System, id: string): System {
    s.(objects := ApplyAll(s.objects, PublishPlan(s.objects, id, w.birth(id), NO_FILES)))
  }

  lemma PublishPrefix(o: Objects, id: string, createdAt: int, k: nat)
    requires k <= |PublishPlan(o, id, createdAt, NO_FILES)|
    ensures k < 4 ==> Latest(ApplyAll(o, PublishPlan(o, id, createdAt, NO_FILES)[..k])) == Latest(o)
    ensures k == 4 ==> Latest(ApplyAll(o, PublishPlan(o, id, createdAt, NO_FILES)[..k])) == Some(Published(id, createdAt, PreviousId(o, id)))
  {
    var plan := PublishPlan(o, id, createdAt, NO_FILES);
    assert plan[..0] == [];
    if k >= 1 { ApplyNext(o, plan, 0); }
    if k >= 2 { ApplyNext(o, plan, 1); }
    if k >= 3 { ApplyNext(o, plan, 2); }
    if k >= 4 { ApplyNext(o, plan, 3); }
  }

  lemma PublishReach(w: World, timely: bool, s: System, id: string)
    requires s.plan == [] && w.birth(id) <= s.now + w.skew
    requires timely ==> Timely(w, s) && Timely(w, AfterPublish(w, s, id))
    ensures Reaches(w, timely, s, AfterPublish(w, s, id))
    ensures Latest(AfterPublish(w, s, id).objects) == Some(Published(id, w.birth(id), PreviousId(s.objects, id)))
  {
    var plan := PublishPlan(s.objects, id, w.birth(id), NO_FILES);
    var u := Next(w, s, StartPublish(id, NO_FILES));
    assert u == s.(plan := plan) && plan[..4] == plan;
    PublishPrefix(s.objects, id, w.birth(id), 4);
    if timely {
      forall k | 0 <= k <= |plan| ensures Timely(w, u.(objects := ApplyAll(u.objects, plan[..k]))) {
        PublishPrefix(s.objects, id, w.birth(id), k);
      }
    }
    WritesReach(w, timely, u);
    assert u.(objects := ApplyAll(u.objects, plan), plan := []) == AfterPublish(w, s, id);
    StepThen(w, timely, s, StartPublish(id, NO_FILES), AfterPublish(w, s, id));
  }

  lemma {:induction false} DeletesKeep(o: Objects, plan: seq<Write>, key: Key)
    requires forall i :: 0 <= i < |plan| ==> plan[i].Delete?
    ensures Delete(key) in plan ==> key !in ApplyAll(o, plan)
    ensures Delete(key) !in plan ==> (key in ApplyAll(o, plan) <==> key in o) && (key in o ==> ApplyAll(o, plan)[key] == o[key])
    ensures key !in o ==> key !in ApplyAll(o, plan)
    decreases |plan|
  {
    if plan != [] {
      DeletesKeep(Apply(o, plan[0]), plan[1..], key);
      assert plan == [plan[0]] + plan[1..];
    }
  }

  lemma {:induction false} DeletePlanIs(ids: seq<string>)
    ensures forall i :: 0 <= i < |DeletePlan(ids)| ==> DeletePlan(ids)[i].Delete? && !DeletePlan(ids)[i].key.LatestKey?
    ensures forall id :: id in ids ==> Delete(CatalogKey(id)) in DeletePlan(ids)
  {
    if ids != [] {
      DeletePlanIs(ids[1..]);
      var first: seq<Write>, rest := [Delete(CatalogKey(ids[0])), Delete(ManifestKey(ids[0])), Delete(ProtectionKey(ids[0]))], DeletePlan(ids[1..]);
      assert DeletePlan(ids) == first + rest;
      forall i | 0 <= i < |first + rest| ensures (first + rest)[i].Delete? && !(first + rest)[i].key.LatestKey? {
        if i >= 3 { assert (first + rest)[i] == rest[i - 3]; }
      }
      assert first[0] in first + rest;
    }
  }

  ghost function AfterPrune(s: System, clock: int): System
    requires Latest(s.objects).Some?
  {
    s.(objects := ApplyAll(s.objects, PrunePlan(s.objects, Latest(s.objects).value, clock)))
  }

  /** A pruning takes the catalogues of all expendable publications. */
  lemma PruneReach(w: World, timely: bool, s: System, clock: int)
    requires s.plan == [] && Latest(s.objects).Some? && Reading(w, s, clock) && (timely ==> Timely(w, s))
    ensures Reaches(w, timely, s, AfterPrune(s, clock))
    ensures forall id :: id in Expendable(s.objects, Latest(s.objects).value, clock) ==> CatalogKey(id) !in AfterPrune(s, clock).objects
  {
    var doomed := Expendable(s.objects, Latest(s.objects).value, clock);
    var plan := PrunePlan(s.objects, Latest(s.objects).value, clock);
    OrderedLists(doomed);
    DeletePlanIs(Ordered(doomed));
    forall id | id in doomed ensures CatalogKey(id) !in ApplyAll(s.objects, plan) { DeletesKeep(s.objects, plan, CatalogKey(id)); }
    var u := Next(w, s, StartPrune(clock));
    forall k | 0 <= k <= |plan| ensures Latest(ApplyAll(u.objects, plan[..k])) == Latest(s.objects) { DeletesKeep(s.objects, plan[..k], LatestKey); }
    WritesReach(w, timely, u);
    assert u.(objects := ApplyAll(u.objects, u.plan), plan := []) == AfterPrune(s, clock);
    StepThen(w, timely, s, StartPrune(clock), AfterPrune(s, clock));
  }

  // ----- The condition is exact -----

  lemma PublishOther(o: Objects, id: string, createdAt: int, x: string)
    requires x != id && ManifestKey(x) in o
    ensures var after := ApplyAll(o, PublishPlan(o, id, createdAt, NO_FILES));
            ManifestKey(x) in after && after[ManifestKey(x)] == o[ManifestKey(x)]
  {
    var plan := PublishPlan(o, id, createdAt, NO_FILES);
    assert plan[..0] == [] && plan[..4] == plan;
    ApplyNext(o, plan, 0);
    ApplyNext(o, plan, 1);
    ApplyNext(o, plan, 2);
    ApplyNext(o, plan, 3);
  }

  lemma {:induction false} SessionsGrow(w: World, s: System, steps: seq<Step>, t: System)
    requires Run(w, s, steps, t)
    ensures s.sessions <= t.sessions && s.now <= t.now
    decreases |steps|
  {
    if steps != [] { SessionsGrow(w, Next(w, s, steps[0]), steps[1..], t); }
  }

  /** Two later publications displace this one. */
  lemma Displaced(w: World, timely: bool, s: System, a: string, b: string, x: string)
    requires s.plan == [] && a != b && a != x && b != x && w.birth(a) <= s.now + w.skew && w.birth(b) <= s.now + w.skew
    requires x in Visible(s.objects)
    requires timely ==> Timely(w, s) && Timely(w, AfterPublish(w, s, a)) && Timely(w, AfterPublish(w, AfterPublish(w, s, a), b))
    ensures var v := AfterPublish(w, AfterPublish(w, s, a), b);
            && Reaches(w, timely, s, v)
            && Latest(v.objects) == Some(Published(b, w.birth(b), Some(a)))
            && x in Visible(v.objects) && v.objects[ManifestKey(x)] == s.objects[ManifestKey(x)]
  {
    var u := AfterPublish(w, s, a);
    var v := AfterPublish(w, u, b);
    VisibleIff(s.objects, x);
    PublishReach(w, timely, s, a);
    PublishOther(s.objects, a, w.birth(a), x);
    PublishReach(w, timely, u, b);
    PublishOther(u.objects, b, w.birth(b), x);
    Then(w, timely, s, u, v);
    VisibleIff(v.objects, x);
  }

  /** Once its retention is over, a displaced publication can be pruned. */
  lemma OverIsPruned(w: World, timely: bool, s: System, x: string, later: int)
    requires s.plan == [] && Latest(s.objects).Some? && !Named(Latest(s.objects).value, x)
    requires x in Visible(s.objects) && s.objects[ManifestKey(x)].p.createdAt == w.birth(x)
    requires s.now <= later && Over(w, x, later)
    requires timely ==> Timely(w, s) && Timely(w, s.(now := later))
    ensures exists t :: Reaches(w, timely, s, t) && t.now == later && t.sessions == s.sessions && CatalogKey(x) !in t.objects
  {
    var y := s.(now := later);
    TickReach(w, timely, s, later);
    PruneReach(w, timely, y, later + w.skew);
    assert x in Expendable(y.objects, Latest(y.objects).value, later + w.skew);
    Then(w, timely, s, y, AfterPrune(y, later + w.skew));
  }

  lemma TickReach(w: World, timely: bool, s: System, later: int)
    requires s.now <= later && (timely ==> Timely(w, s) && Timely(w, s.(now := later)))
    ensures Reaches(w, timely, s, s.(now := later))
  {
    Stay(w, timely, s.(now := later));
    StepThen(w, timely, s, Tick(later - s.now), s.(now := later));
  }

  /** A session that is not in time can lose its catalogue while it is valid. */
  lemma LateSessionLosesCatalog(w: World, s: System, x: Session, a: string, b: string)
    requires Inv(w, s) && x.id in Visible(s.objects) && s.now < x.expires && !InTime(w, x)
    requires a != b && a != x.id && b != x.id && w.birth(a) <= s.now + w.skew && w.birth(b) <= s.now + w.skew
    ensures exists t :: Reaches(w, false, s, t) && t.now < x.expires && CatalogKey(x.id) !in t.objects
  {
    var over := w.birth(x.id) + RETENTION + 1 - w.skew;
    var u := s.(plan := []);
    Displaced(w, false, u, a, b, x.id);
    var v := AfterPublish(w, AfterPublish(w, u, a), b);
    OverIsPruned(w, false, v, x.id, if s.now < over then over else s.now);
    var t :| Reaches(w, false, v, t) && t.now < x.expires && CatalogKey(x.id) !in t.objects;
    Then(w, false, u, v, t);
    StepThen(w, false, s, Crash, t);
  }

  /** In time is exactly what a session needs: as long as it is valid and its manifest visible, its catalogue stays over
      all ways in which a run can go on if and only if it is in time. Two other publications can be made meanwhile. */
  lemma SessionExact(w: World, now: int, steps: seq<Step>, s: System, x: Session, a: string, b: string)
    requires Run(w, Start(now), steps, s) && x in s.sessions && x.id in Visible(s.objects) && s.now < x.expires
    requires a != b && a != x.id && b != x.id && w.birth(a) <= s.now + w.skew && w.birth(b) <= s.now + w.skew
    ensures InTime(w, x) <==> forall t :: Reaches(w, false, s, t) && t.now < x.expires ==> CatalogKey(x.id) in t.objects
  {
    StartHolds(w, now);
    RunKeeps(w, Start(now), steps, s);
    if InTime(w, x) {
      forall t | Reaches(w, false, s, t) && t.now < x.expires ensures CatalogKey(x.id) in t.objects {
        var more :| Run(w, s, more, t);
        RunKeeps(w, s, more, t);
        SessionsGrow(w, s, more, t);
        assert Kept(w, t, x.id);
      }
    } else {
      LateSessionLosesCatalog(w, s, x, a, b);
    }
  }

  // ----- A run in which a session outlives its catalogue -----

  /** One clock; `a` is created late in a second, its successors come 48 hours afterwards. */
  function GapWorld(): World { World(id => if id == "a" then 999_000 else 999_000 + ADMISSION, 0) }

  const CHECKED: int := 999_000 + ADMISSION

  /** `a` is published, and 48 hours later a request for it passes the age test and finds the index. */
  ghost predicate GapReady(s: System) {
    && s.plan == [] && s.now == CHECKED && s.sessions == {}
    && Latest(s.objects) == Some(Published("a", 999_000, None))
    && "a" in Visible(s.objects) && s.objects[ManifestKey("a")].p.createdAt == 999_000
    && s.handlers == map[0 := Ready(Published("a", 999_000, None), CHECKED)]
  }

  lemma PublishedWhole(id: string, createdAt: int)
    ensures var o := ApplyAll(map[], PublishPlan(map[], id, createdAt, NO_FILES));
            && HasIndex(o, id) && Latest(o) == Some(Published(id, createdAt, None))
            && ManifestKey(id) in o && o[ManifestKey(id)] == Manifest(Published(id, createdAt, None))
  {
    var plan := PublishPlan(map[], id, createdAt, NO_FILES);
    assert plan[..0] == [] && plan[..4] == plan;
    ApplyNext(map[], plan, 0);
    ApplyNext(map[], plan, 1);
    ApplyNext(map[], plan, 2);
    ApplyNext(map[], plan, 3);
  }

  lemma GapRead(s: System)
    requires s.plan == [] && s.now == CHECKED && s.sessions == {} && s.handlers == map[] && HasIndex(s.objects, "a")
    requires Latest(s.objects) == Some(Published("a", 999_000, None))
    requires ManifestKey("a") in s.objects && s.objects[ManifestKey("a")] == Manifest(Published("a", 999_000, None))
    ensures exists t :: Reaches(GapWorld(), true, s, t) && GapReady(t)
  {
    var w := GapWorld();
    VisibleIff(s.objects, "a");
    var p := Published("a", 999_000, None);
    var fetched := Next(w, s, Read(0, Some("a")));
    assert fetched == s.(handlers := map[0 := Fetched(p)]);
    assert Young(999_000, CHECKED);
    var admitted := Next(w, fetched, CheckAge(0, CHECKED));
    assert admitted == s.(handlers := map[0 := Admitted(p, CHECKED)]);
    var ready := Next(w, admitted, ReadIndex(0));
    assert ready == s.(handlers := map[0 := Ready(p, CHECKED)]);
    Stay(w, true, ready);
    StepThen(w, true, admitted, ReadIndex(0), ready);
    StepThen(w, true, fetched, CheckAge(0, CHECKED), ready);
    StepThen(w, true, s, Read(0, Some("a")), ready);
  }

  /** `a` has been displaced twice and can still be found. */
  ghost predicate GapDisplaced(s: System) {
    && s.plan == [] && s.now == CHECKED + 1000
    && Latest(s.objects) == Some(Published("c", CHECKED, Some("b")))
    && "a" in Visible(s.objects) && s.objects[ManifestKey("a")].p.createdAt == 999_000
  }

  lemma GapPublished(s: System)
    requires GapReady(s)
    ensures exists t :: Reaches(GapWorld(), true, s, t) && GapDisplaced(t) && t.sessions == {} && t.handlers == s.handlers
  {
    var w := GapWorld();
    PublishPrefix(s.objects, "b", CHECKED, 4);
    assert PublishPlan(s.objects, "b", CHECKED, NO_FILES)[..4] == PublishPlan(s.objects, "b", CHECKED, NO_FILES);
    var u := AfterPublish(w, s, "b");
    PublishPrefix(u.objects, "c", CHECKED, 4);
    assert PublishPlan(u.objects, "c", CHECKED, NO_FILES)[..4] == PublishPlan(u.objects, "c", CHECKED, NO_FILES);
    Displaced(w, true, s, "b", "c", "a");
    var v := AfterPublish(w, u, "c");
    var y := v.(now := CHECKED + 1000);
    TickReach(w, true, v, CHECKED + 1000);
    Then(w, true, s, v, y);
  }

  /** A millisecond later, `a` being displaced by then, the request is signed; the session is late. */
  lemma GapSigned(s: System)
    requires GapReady(s)
    ensures exists t :: Reaches(GapWorld(), true, s, t) && GapDisplaced(t) && t.sessions == {Session("a", RETENTION + SECOND)}
  {
    var w := GapWorld();
    GapPublished(s);
    var y :| Reaches(w, true, s, y) && GapDisplaced(y) && y.sessions == {} && y.handlers == s.handlers;
    var t := Next(w, y, Sign(0, CHECKED + 1000));
    assert t.sessions == {Session("a", RETENTION + SECOND)};
    Stay(w, true, t);
    StepThen(w, true, y, Sign(0, CHECKED + 1000), t);
    Then(w, true, s, y, t);
  }

  /** One millisecond between the age test and the signature is enough: all publications are current or previous for
      at most 48 hours, and still a catalogue is gone while a session for it is valid. */
  lemma SessionOutlivesCatalog()
    ensures exists t, x :: Reaches(GapWorld(), true, Start(999_000), t) && x in t.sessions && t.now < x.expires && CatalogKey(x.id) !in t.objects
  {
    var w, s := GapWorld(), Start(999_000);
    PublishedWhole("a", 999_000);
    var u := AfterPublish(w, s, "a");
    PublishReach(w, true, s, "a");
    var v := u.(now := CHECKED);
    TickReach(w, true, u, CHECKED);
    Then(w, true, s, u, v);
    GapRead(v);
    var ready :| Reaches(w, true, v, ready) && GapReady(ready);
    Then(w, true, s, v, ready);
    GapSigned(ready);
    var y :| Reaches(w, true, ready, y) && GapDisplaced(y) && y.sessions == {Session("a", RETENTION + SECOND)};
    Then(w, true, s, ready, y);
    OverIsPruned(w, true, y, "a", RETENTION + 999_500);
    var t :| Reaches(w, true, y, t) && t.now == RETENTION + 999_500 && t.sessions == y.sessions && CatalogKey("a") !in t.objects;
    Then(w, true, s, y, t);
    assert Session("a", RETENTION + SECOND) in t.sessions;
  }
}
