/** Publishing and pruning (analytics/publish_lake_snapshot.py) while sessions are issued
    (lake-explorer/worker/index.ts), in any interleaving. A request is answered in several steps, with time and
    other steps in between; the publisher and the worker each read a clock of their own. */
module ExplorerRuns {
  import opened Common
  import opened Publication

  const ADMISSION: int := 48 * 3600 * SECOND
  const VALIDITY: int := 900 * SECOND

  /** `birth`: the creation time that belongs to a name; `skew`: how far a clock may be from the true time. */
  datatype World = World(birth: string -> int, skew: nat)

  datatype Session = Session(id: string, expires: int)

  /** How far a request has come: manifest read, found too old, admitted at some moment, index read. */
  datatype Handler =
    | Fetched(p: Published)
    | Stale(p: Published)
    | Admitted(p: Published, at: int)
    | Ready(p: Published, at: int)

  /** `plan`: writes the running publisher still has to make; `now`: the true time. */
  datatype System = System(objects: Objects, plan: seq<Write>, now: int, handlers: map<nat, Handler>, sessions: set<Session>)

  datatype Step =
    | StartPublish(id: string, files: set<string>)
    | StartPrune(clock: int)
    | WriteNext
    | Crash
    | Tick(elapsed: nat)
    | Read(h: nat, requested: Option<string>)
    | CheckAge(h: nat, clock: int)
    | CheckCurrent(h: nat)
    | ReadIndex(h: nat)
    | Sign(h: nat, clock: int)

  function FloorMillis(t: int): int { t / 1000 }

  /** The age test of the worker, in whole milliseconds. */
  predicate Young(created: int, clock: int) { FloorMillis(clock) - FloorMillis(created) <= ADMISSION / 1000 }

  function Expiry(clock: int): int { clock / SECOND * SECOND + VALIDITY }

  predicate Reading(w: World, s: System, clock: int) { s.now - w.skew <= clock <= s.now + w.skew }

  /** What a request for a named publication, or for the latest, finds. */
  function Found(o: Objects, requested: Option<string>): Option<Published> {
    match requested
    case None => Latest(o)
    case Some(id) => if id in Visible(o) then Some(o[ManifestKey(id)].p) else None
  }

  /** One publisher at a time; it prunes after the publication it has just made. */
  ghost predicate Enabled(w: World, s: System, step: Step) {
    match step
    case StartPublish(id, _) => s.plan == [] && w.birth(id) <= s.now + w.skew
    case StartPrune(clock) => s.plan == [] && Latest(s.objects).Some? && Reading(w, s, clock)
    case WriteNext => s.plan != []
    case Crash => true
    case Tick(_) => true
    case Read(h, requested) => h !in s.handlers && Found(s.objects, requested).Some?
    case CheckAge(h, clock) => h in s.handlers && s.handlers[h].Fetched? && Reading(w, s, clock)
    case CheckCurrent(h) => h in s.handlers && s.handlers[h].Stale?
    case ReadIndex(h) => h in s.handlers && s.handlers[h].Admitted?
    case Sign(h, clock) => h in s.handlers && s.handlers[h].Ready? && Reading(w, s, clock)
  }

  ghost function Next(w: World, s: System, step: Step): System
    requires Enabled(w, s, step)
  {
    match step
    case StartPublish(id, files) => s.(plan := PublishPlan(s.objects, id, w.birth(id), files))
    case StartPrune(clock) => s.(plan := PrunePlan(s.objects, Latest(s.objects).value, clock))
    case WriteNext => s.(objects := Apply(s.objects, s.plan[0]), plan := s.plan[1..])
    case Crash => s.(plan := [])
    case Tick(elapsed) => s.(now := s.now + elapsed)
    case Read(h, requested) =>
      var p := Found(s.objects, requested).value;
      s.(handlers := s.handlers[h := if requested.Some? then Fetched(p) else Admitted(p, s.now)])
    case CheckAge(h, clock) =>
      var p := s.handlers[h].p;
      s.(handlers := s.handlers[h := if Young(p.createdAt, clock) then Admitted(p, s.now) else Stale(p)])
    case CheckCurrent(h) =>
      var p := s.handlers[h].p;
      if Latest(s.objects).Some? && Named(Latest(s.objects).value, p.id)
      then s.(handlers := s.handlers[h := Admitted(p, s.now)]) else s.(handlers := s.handlers - {h})
    case ReadIndex(h) =>
      var Admitted(p, at) := s.handlers[h];
      if HasIndex(s.objects, p.id) then s.(handlers := s.handlers[h := Ready(p, at)]) else s.(handlers := s.handlers - {h})
    case Sign(h, clock) =>
      s.(handlers := s.handlers - {h}, sessions := s.sessions + {Session(s.handlers[h].p.id, Expiry(clock))})
  }

  ghost predicate Run(w: World, s: System, steps: seq<Step>, t: System)
    decreases |steps|
  {
    if steps == [] then s == t
    else Enabled(w, s, steps[0]) && Run(w, Next(w, s, steps[0]), steps[1..], t)
  }

  ghost function Start(now: int): System { System(map[], [], now, map[], {}) }

  // ----- What is always there -----

  lemma {:induction false} RunStaysConsistent(w: World, s: System, steps: seq<Step>, t: System)
    requires SafePlan(s.objects, s.plan) && Run(w, s, steps, t)
    ensures SafePlan(t.objects, t.plan)
    decreases |steps|
  {
    if steps != [] {
      var u := Next(w, s, steps[0]);
      match steps[0] {
        case StartPublish(id, files) => PublishPlanSafe(s.objects, id, w.birth(id), files);
        case StartPrune(clock) => PrunePlanSafe(s.objects, clock);
        case _ =>
      }
      RunStaysConsistent(w, u, steps[1..], t);
    }
  }

  /** In every reachable state, whatever was cut off between two writes, each visible manifest has its
      index, and the latest publication and its predecessor are whole. */
  lemma AlwaysConsistent(w: World, now: int, steps: seq<Step>, t: System)
    requires Run(w, Start(now), steps, t)
    ensures forall id :: id in Visible(t.objects) ==> HasIndex(t.objects, id)
    ensures Latest(t.objects).Some? ==> forall id :: Named(Latest(t.objects).value, id) ==> Whole(t.objects, id)
    ensures LatestKey in t.objects <==> Latest(t.objects).Some?
  {
    assert Visible(map[]) == {};
    RunStaysConsistent(w, Start(now), steps, t);
    forall id | id in Visible(t.objects) ensures HasIndex(t.objects, id) { VisibleIff(t.objects, id); }
  }

  // ----- Sessions that end in time keep their catalogue -----

  /** The retention of the publication is over, on some clock. */
  predicate Over(w: World, id: string, now: int) { w.birth(id) + RETENTION < now + w.skew }

  /** The session ends no later than the retention can be over. */
  predicate InTime(w: World, x: Session) { x.expires <= w.birth(x.id) + RETENTION + 1 - w.skew }

  /** Manifests tell the creation time that belongs to their name. */
  ghost predicate Dated(w: World, o: Objects) {
    forall id :: id in Visible(o) ==> o[ManifestKey(id)].p.createdAt == w.birth(id)
  }

  ghost predicate Deletes(w: World, plan: seq<Write>, now: int) {
    forall i :: 0 <= i < |plan| ==> plan[i].Delete? && (plan[i].key.CatalogKey? ==> Over(w, plan[i].key.id, now))
  }

  /** The rest of a publication: the catalogue is the first thing written. */
  ghost predicate Publishes(w: World, s: System, id: string, p: Published, files: set<string>, done: nat) {
    && done <= 4 && p.id == id && p.createdAt == w.birth(id)
    && s.plan == [Put(CatalogKey(id), Catalog), Put(ProtectionKey(id), Index(files)), Put(ManifestKey(id), Manifest(p)), Put(LatestKey, Manifest(p))][done..]
    && (done > 0 ==> CatalogKey(id) in s.objects)
  }

  ghost predicate PlanHolds(w: World, s: System) {
    Deletes(w, s.plan, s.now) || exists id, p, files, done :: Publishes(w, s, id, p, files, done)
  }

  /** A catalogue is missing only when the retention is over. */
  ghost predicate Kept(w: World, s: System, id: string) { CatalogKey(id) in s.objects || Over(w, id, s.now) }

  ghost predicate CatalogsHold(w: World, s: System) {
    && (forall id :: id in Visible(s.objects) ==> Kept(w, s, id))
    && (forall h :: h in s.handlers ==> Kept(w, s, s.handlers[h].p.id))
    && (forall x :: x in s.sessions ==> Kept(w, s, x.id))
  }

  ghost predicate Inv(w: World, s: System) {
    SafePlan(s.objects, s.plan) && Dated(w, s.objects) && PlanHolds(w, s) && CatalogsHold(w, s)
  }

  lemma {:induction false} DeletesOf(w: World, ids: seq<string>, now: int)
    requires forall i :: 0 <= i < |ids| ==> Over(w, ids[i], now)
    ensures Deletes(w, DeletePlan(ids), now)
  {
    if ids != [] {
      DeletesOf(w, ids[1..], now);
      var rest := DeletePlan(ids[1..]);
      forall i | 0 <= i < |DeletePlan(ids)|
        ensures DeletePlan(ids)[i].Delete? && (DeletePlan(ids)[i].key.CatalogKey? ==> Over(w, DeletePlan(ids)[i].key.id, now)) {
        if i >= 3 { assert DeletePlan(ids)[i] == rest[i - 3]; }
      }
    }
  }

  lemma PruneStarts(w: World, s: System, clock: int)
    requires Inv(w, s) && Enabled(w, s, StartPrune(clock))
    ensures Inv(w, Next(w, s, StartPrune(clock)))
  {
    PrunePlanSafe(s.objects, clock);
    var doomed := Expendable(s.objects, Latest(s.objects).value, clock);
    OrderedLists(doomed);
    forall i | 0 <= i < |Ordered(doomed)| ensures Over(w, Ordered(doomed)[i], s.now) {
      assert Ordered(doomed)[i] in Ordered(doomed);
    }
    DeletesOf(w, Ordered(doomed), s.now);
  }

  lemma PublishWriteKeeps(w: World, s: System, id: string, p: Published, files: set<string>, done: nat)
    requires Inv(w, s) && s.plan != [] && Publishes(w, s, id, p, files, done)
    ensures Inv(w, Next(w, s, WriteNext))
  {
    var t := Next(w, s, WriteNext);
    assert Publishes(w, t, id, p, files, done + 1);
    assert forall x :: Kept(w, s, x) ==> Kept(w, t, x);
    forall x ensures x in Visible(t.objects) ==> t.objects[ManifestKey(x)].p.createdAt == w.birth(x) && Kept(w, t, x) {
      VisibleIff(s.objects, x);
      VisibleIff(t.objects, x);
    }
  }

  lemma DeleteKeeps(w: World, s: System)
    requires Inv(w, s) && s.plan != [] && Deletes(w, s.plan, s.now)
    ensures Inv(w, Next(w, s, WriteNext))
  {
    var t := Next(w, s, WriteNext);
    assert forall i :: 0 <= i < |t.plan| ==> t.plan[i] == s.plan[i + 1];
    assert Deletes(w, t.plan, t.now);
    assert forall x :: Kept(w, s, x) ==> Kept(w, t, x);
    forall x ensures x in Visible(t.objects) ==> t.objects[ManifestKey(x)].p.createdAt == w.birth(x) && Kept(w, t, x) {
      VisibleIff(s.objects, x);
      VisibleIff(t.objects, x);
    }
  }

  /** The plan is the same, and time has not gone back. */
  lemma PlanStays(w: World, s: System, t: System)
    requires PlanHolds(w, s) && t.plan == s.plan && t.objects == s.objects && s.now <= t.now
    ensures PlanHolds(w, t)
  {
    if !Deletes(w, s.plan, s.now) {
      var id, p, files, done :| Publishes(w, s, id, p, files, done);
      assert Publishes(w, t, id, p, files, done);
    }
  }

  lemma FoundKept(w: World, s: System, requested: Option<string>)
    requires Inv(w, s) && Found(s.objects, requested).Some?
    ensures Kept(w, s, Found(s.objects, requested).value.id)
    ensures requested.Some? ==> Found(s.objects, requested).value.createdAt == w.birth(Found(s.objects, requested).value.id)
  {
    match requested
    case None => assert Named(Latest(s.objects).value, Latest(s.objects).value.id);
    case Some(id) => VisibleIff(s.objects, id);
  }

  lemma HandlerStepKeeps(w: World, s: System, step: Step)
    requires Inv(w, s) && Enabled(w, s, step)
    requires step.Read? || step.CheckAge? || step.CheckCurrent? || step.ReadIndex? || step.Sign?
    ensures Inv(w, Next(w, s, step))
  {
    var t := Next(w, s, step);
    PlanStays(w, s, t);
    assert forall id :: Kept(w, s, id) ==> Kept(w, t, id);
    if step.Read? { FoundKept(w, s, step.requested); }
  }

  lemma StepKeeps(w: World, s: System, step: Step)
    requires Inv(w, s) && Enabled(w, s, step)
    ensures Inv(w, Next(w, s, step))
  {
    var t := Next(w, s, step);
    match step
    case StartPublish(id, files) =>
      PublishPlanSafe(s.objects, id, w.birth(id), files);
      assert Publishes(w, t, id, Published(id, w.birth(id), PreviousId(s.objects, id)), files, 0);
    case StartPrune(clock) => PruneStarts(w, s, clock);
    case WriteNext =>
      if Deletes(w, s.plan, s.now) {
        DeleteKeeps(w, s);
      } else {
        var id, p, files, done :| Publishes(w, s, id, p, files, done);
        PublishWriteKeeps(w, s, id, p, files, done);
      }
    case Crash => assert Deletes(w, t.plan, t.now);
    case Tick(elapsed) =>
      PlanStays(w, s, t);
      assert forall id :: Kept(w, s, id) ==> Kept(w, t, id);
    case _ => HandlerStepKeeps(w, s, step);
  }

  lemma {:induction false} RunKeeps(w: World, s: System, steps: seq<Step>, t: System)
    requires Inv(w, s) && Run(w, s, steps, t)
    ensures Inv(w, t)
    decreases |steps|
  {
    if steps != [] {
      StepKeeps(w, s, steps[0]);
      RunKeeps(w, Next(w, s, steps[0]), steps[1..], t);
    }
  }

  lemma StartHolds(w: World, now: int)
    ensures Inv(w, Start(now))
  {
    assert Visible(map[]) == {};
    assert Deletes(w, [], now);
  }

  /** Over all runs, with any time and any steps between reading a manifest, admitting the request and signing:
      a session that ends in time has its catalogue as long as it is valid. */
  lemma SessionsKeepTheirCatalog(w: World, now: int, steps: seq<Step>, t: System)
    requires Run(w, Start(now), steps, t)
    ensures forall x :: x in t.sessions && InTime(w, x) && t.now < x.expires ==> CatalogKey(x.id) in t.objects
  {
    StartHolds(w, now);
    RunKeeps(w, Start(now), steps, t);
    forall x | x in t.sessions && InTime(w, x) && t.now < x.expires ensures CatalogKey(x.id) in t.objects {
      assert Kept(w, t, x.id);
    }
  }

  /** The worker can tell when it signs: in time means that the reading, cut to whole seconds, is at most 48 hours and
      a microsecond after the creation, less the skew. */
  lemma SigningTime(w: World, id: string, clock: int)
    ensures InTime(w, Session(id, Expiry(clock))) <==> clock / SECOND * SECOND <= w.birth(id) + ADMISSION + 1 - w.skew
  {
  }

  // ----- A handler that signs in the instant of its admission -----

  /** A publication is current or previous for at most 48 hours after its creation. */
  ghost predicate Timely(w: World, s: System) {
    Latest(s.objects).Some? ==> forall id :: Named(Latest(s.objects).value, id) ==> s.now <= w.birth(id) + ADMISSION
  }

  ghost predicate TimelyRun(w: World, s: System, steps: seq<Step>)
    decreases |steps|
  {
    Timely(w, s) && (steps != [] && Enabled(w, s, steps[0]) ==> TimelyRun(w, Next(w, s, steps[0]), steps[1..]))
  }

  /** No time passes between the admission of a request and its signature. */
  ghost predicate PromptRun(w: World, s: System, steps: seq<Step>)
    decreases |steps|
  {
    steps != [] && Enabled(w, s, steps[0]) ==>
      && (steps[0].Sign? ==> s.handlers[steps[0].h].at == s.now)
      && PromptRun(w, Next(w, s, steps[0]), steps[1..])
  }

  /** A session signed while the age test holds ends within the retention. */
  lemma ExpiryWithinRetention(created: int, clock: int)
    requires Young(created, clock)
    ensures Expiry(clock) <= created + RETENTION
  {
    var late := created / 1000 + ADMISSION / 1000;
    assert clock / 1000 <= late;
    assert clock / SECOND == clock / 1000 / 1000;
    assert clock / SECOND <= late / 1000;
    assert late / 1000 * SECOND <= late * 1000;
  }

  lemma TimelyAge(created: int, now: int)
    requires now <= created + ADMISSION
    ensures Young(created, now)
  {
    assert (created + ADMISSION) / 1000 == created / 1000 + ADMISSION / 1000;
  }

  ghost predicate HandlerPunctual(w: World, x: Handler) {
    match x
    case Fetched(p) => p.createdAt == w.birth(p.id)
    case Stale(_) => true
    case Admitted(p, at) => Young(w.birth(p.id), at)
    case Ready(p, at) => Young(w.birth(p.id), at)
  }

  ghost predicate Punctual(w: World, s: System) {
    && (forall h :: h in s.handlers ==> HandlerPunctual(w, s.handlers[h]))
    && (forall x :: x in s.sessions ==> InTime(w, x))
  }

  lemma PromptStep(w: World, s: System, step: Step)
    requires w.skew == 0 && Inv(w, s) && Timely(w, s) && Punctual(w, s) && Enabled(w, s, step)
    requires step.Sign? ==> s.handlers[step.h].at == s.now
    ensures Punctual(w, Next(w, s, step))
  {
    match step
    case Read(h, requested) =>
      FoundKept(w, s, requested);
      if requested.None? { TimelyAge(w.birth(Latest(s.objects).value.id), s.now); }
    case CheckCurrent(h) =>
      if Latest(s.objects).Some? && Named(Latest(s.objects).value, s.handlers[h].p.id) { TimelyAge(w.birth(s.handlers[h].p.id), s.now); }
    case Sign(h, clock) => ExpiryWithinRetention(w.birth(s.handlers[h].p.id), clock);
    case _ =>
  }

  lemma {:induction false} PromptRunKeeps(w: World, s: System, steps: seq<Step>, t: System)
    requires w.skew == 0 && Inv(w, s) && Punctual(w, s) && Run(w, s, steps, t) && TimelyRun(w, s, steps) && PromptRun(w, s, steps)
    ensures Punctual(w, t)
    decreases |steps|
  {
    if steps != [] {
      StepKeeps(w, s, steps[0]);
      PromptStep(w, s, steps[0]);
      PromptRunKeeps(w, Next(w, s, steps[0]), steps[1..], t);
    }
  }

  /** With one clock, publications that stop being current or previous within 48 hours, and requests signed in the
      instant of their admission, every session is in time. */
  lemma PromptSessionsInTime(w: World, now: int, steps: seq<Step>, t: System)
    requires w.skew == 0 && Run(w, Start(now), steps, t) && TimelyRun(w, Start(now), steps) && PromptRun(w, Start(now), steps)
    ensures forall x :: x in t.sessions ==> InTime(w, x) && (t.now < x.expires ==> CatalogKey(x.id) in t.objects)
  {
    StartHolds(w, now);
    PromptRunKeeps(w, Start(now), steps, t);
    SessionsKeepTheirCatalog(w, now, steps, t);
  }

  /** No other delay is safe: even one microsecond between the age test and the signature can make a session late. */
  lemma LatencyExact(latency: nat)
    ensures latency == 0 <==>
            (forall created, check, clock :: Young(created, check) && check <= clock <= check + latency ==> Expiry(clock) <= created + RETENTION + 1)
  {
    if latency == 0 {
      forall created, clock | Young(created, clock) ensures Expiry(clock) <= created + RETENTION { ExpiryWithinRetention(created, clock); }
    } else {
      var created, check := 999_998, ADMISSION + 999_999;
      assert Young(created, check) && check <= check + 1 <= check + latency;
      assert Expiry(check + 1) > created + RETENTION + 1;
    }
  }

  /** A publication created at `created` is current or previous until just before `left`; a request is admitted and
      signed in the same instant. */
  ghost predicate Issuable(created: int, left: int, t: int) {
    created <= t && (t < left || Young(created, t))
  }

  ghost predicate Prunable(created: int, left: int, t: int) {
    left <= t && created < t - RETENTION
  }

  ghost predicate SafeUntil(created: int, left: int) {
    forall issued, pruned :: Issuable(created, left, issued) && Prunable(created, left, pruned) && issued <= pruned ==> Expiry(issued) <= pruned
  }

  /** For such requests and one clock: no session can outlive a pruning exactly when the last moment as current or
      previous, cut to whole seconds, is at most 48 hours and one microsecond after the creation. */
  lemma RetentionExact(created: int, left: int)
    requires created < left
    ensures SafeUntil(created, left) <==> (left - 1) / SECOND * SECOND <= created + ADMISSION + 1
  {
    var last := left - 1;
    if last / SECOND * SECOND <= created + ADMISSION + 1 {
      forall issued, pruned | Issuable(created, left, issued) && Prunable(created, left, pruned) ensures Expiry(issued) <= pruned {
        if issued < left {
          assert issued / SECOND <= last / SECOND;
        } else {
          ExpiryWithinRetention(created, issued);
        }
      }
    } else {
      var pruned := if left > created + RETENTION + 1 then left else created + RETENTION + 1;
      assert Issuable(created, left, last) && Prunable(created, left, pruned) && last <= pruned;
      assert Expiry(last) > pruned;
    }
  }
}
