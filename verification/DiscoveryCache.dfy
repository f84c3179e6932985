/** The discovery cache of the crawler: three partitions and a manifest per discovery
    (ckan-ingestor-rs/ckan-ingestor-lib/src/readers/external_resource_crawler_reader.rs). */
module DiscoveryCache {
  import opened Common

  datatype Kind = HTTP | ZIP | DRIVE

  datatype Source = Http(url: string) | Zip(url: string) | Drive(id: string, name: string)

  function KindOf(s: Source): Kind {
    match s
    case Http(_) => HTTP
    case Zip(_) => ZIP
    case Drive(_, _) => DRIVE
  }

  const KINDS: seq<Kind> := [HTTP, ZIP, DRIVE]

  datatype Key = ManifestKey(base: string) | GroupKey(kind: Kind, base: string, generation: string)

  datatype Object = Manifest(generation: string, order: seq<Kind>) | Group(sources: seq<Source>)

  function Part(sources: seq<Source>, kind: Kind): seq<Source> {
    if sources == [] then []
    else Part(sources[..|sources| - 1], kind) + if KindOf(sources[|sources| - 1]) == kind then [sources[|sources| - 1]] else []
  }

  function Order(sources: seq<Source>): seq<Kind> { seq(|sources|, i requires 0 <= i < |sources| => KindOf(sources[i])) }

  /** The partitions hold the web pages, the archives and the drive files, each once and in their order. */
  lemma {:induction false} PartsExact(sources: seq<Source>)
    ensures forall s :: s in Part(sources, HTTP) <==> s in sources && s.Http?
    ensures forall s :: s in Part(sources, ZIP) <==> s in sources && s.Zip?
    ensures forall s :: s in Part(sources, DRIVE) <==> s in sources && s.Drive?
    ensures |Part(sources, HTTP)| + |Part(sources, ZIP)| + |Part(sources, DRIVE)| == |sources|
    ensures forall i :: 0 <= i < |sources| ==>
              Order(sources)[i] == if sources[i].Http? then HTTP else if sources[i].Zip? then ZIP else DRIVE
  {
    if sources != [] {
      var n := |sources| - 1;
      PartsExact(sources[..n]);
      assert sources == sources[..n] + [sources[n]];
    }
  }

  // ----- Putting the partitions together again -----

  datatype Queues = Queues(http: seq<Source>, zip: seq<Source>, drive: seq<Source>)

  function Queue(q: Queues, kind: Kind): seq<Source> {
    match kind
    case HTTP => q.http
    case ZIP => q.zip
    case DRIVE => q.drive
  }

  function Pop(q: Queues, kind: Kind): Queues
    requires Queue(q, kind) != []
  {
    match kind
    case HTTP => q.(http := q.http[1..])
    case ZIP => q.(zip := q.zip[1..])
    case DRIVE => q.(drive := q.drive[1..])
  }

  const NO_QUEUES := Queues([], [], [])

  /** Takes the sources in the stored order; a missing or a left-over source spoils the result. */
  function Deal(order: seq<Kind>, q: Queues): Option<seq<Source>> {
    if order == [] then if q == NO_QUEUES then Some([]) else None
    else if Queue(q, order[0]) == [] then None
    else
      var rest := Deal(order[1..], Pop(q, order[0]));
      if rest.Some? then Some([Queue(q, order[0])[0]] + rest.value) else None
  }

  lemma {:induction false} PartFront(sources: seq<Source>, kind: Kind)
    requires sources != []
    ensures Part(sources, kind) == (if KindOf(sources[0]) == kind then [sources[0]] else []) + Part(sources[1..], kind)
  {
    var n := |sources| - 1;
    if n > 0 {
      PartFront(sources[..n], kind);
      assert sources[..n][1..] == sources[1..][..n - 1];
      assert sources[1..][n - 1] == sources[n];
    } else {
      assert sources[1..] == [] && sources[..n] == [];
    }
  }

  function QueuesOf(sources: seq<Source>): Queues { Queues(Part(sources, HTTP), Part(sources, ZIP), Part(sources, DRIVE)) }

  lemma QueuesFront(sources: seq<Source>)
    requires sources != []
    ensures var kind := KindOf(sources[0]);
            && Queue(QueuesOf(sources), kind) != [] && Queue(QueuesOf(sources), kind)[0] == sources[0]
            && Pop(QueuesOf(sources), kind) == QueuesOf(sources[1..])
  {
    PartFront(sources, HTTP);
    PartFront(sources, ZIP);
    PartFront(sources, DRIVE);
  }

  lemma OrderFront(sources: seq<Source>)
    requires sources != []
    ensures Order(sources) != [] && Order(sources)[0] == KindOf(sources[0]) && Order(sources)[1..] == Order(sources[1..])
  {
  }

  /** Dealing out the partitions in the original order gives the original mixed list. */
  lemma {:induction false} DealInverts(sources: seq<Source>)
    ensures Deal(Order(sources), QueuesOf(sources)) == Some(sources)
  {
    if sources != [] {
      QueuesFront(sources);
      OrderFront(sources);
      DealInverts(sources[1..]);
      assert sources == [sources[0]] + sources[1..];
    }
  }

  ghost predicate Sorted(q: Queues) {
    forall kind, s :: s in Queue(q, kind) ==> KindOf(s) == kind
  }

  lemma PopSorted(q: Queues, kind: Kind)
    requires Sorted(q) && Queue(q, kind) != []
    ensures Sorted(Pop(q, kind)) && KindOf(Queue(q, kind)[0]) == kind
  {
    assert Queue(q, kind)[0] in Queue(q, kind);
    assert forall k, s :: s in Queue(Pop(q, kind), k) ==> s in Queue(q, k);
  }

  /** A list that was dealt out has exactly these partitions: nothing is dropped, added or mixed up. */
  lemma {:induction false} DealDeterminesParts(order: seq<Kind>, q: Queues)
    requires Deal(order, q).Some? && Sorted(q)
    ensures Order(Deal(order, q).value) == order && QueuesOf(Deal(order, q).value) == q
    decreases |order|
  {
    if order != [] {
      PopSorted(q, order[0]);
      DealDeterminesParts(order[1..], Pop(q, order[0]));
      var sources := Deal(order, q).value;
      assert sources[1..] == Deal(order[1..], Pop(q, order[0])).value;
      QueuesFront(sources);
      assert Order(sources) == [order[0]] + Order(sources[1..]);
    }
  }

  // ----- The two operations -----

  class Storage {
    var objects: map<Key, Object>

    constructor ()
      ensures objects == map[]
    {
      objects := map[];
    }

    /** Writes the partitions, then the manifest; the process may die after `puts` of the four writes. */
    method StoreDiscovery(base: string, generation: string, sources: seq<Source>, puts: nat)
      modifies this
      ensures objects == AfterPuts(old(objects), Writer(base, generation, sources), if puts < 4 then puts else 4)
      ensures StoredUpTo(old(objects), objects, Writer(base, generation, sources), puts)
    {
      StoredAfter(objects, Writer(base, generation, sources), puts);
      var k := 0;
      while k < |KINDS|
        invariant 0 <= k <= 3 && k <= puts
        invariant objects == AfterPuts(old(objects), Writer(base, generation, sources), k)
      {
        if k == puts {
          return;
        }
        var group: seq<Source> := [];
        var i := 0;
        while i < |sources|
          invariant 0 <= i <= |sources| && group == Part(sources[..i], KINDS[k])
        {
          assert sources[..i + 1][..i] == sources[..i];
          if KindOf(sources[i]) == KINDS[k] {
            group := group + [sources[i]];
          }
          i := i + 1;
        }
        assert sources[..i] == sources;
        objects := objects[GroupKey(KINDS[k], base, generation) := Group(group)];
        k := k + 1;
      }
      if k < puts {
        objects := objects[ManifestKey(base) := Manifest(generation, Order(sources))];
      }
    }

    /** Reads the manifest, its three partitions, and deals them out. */
    method CachedDiscovery(base: string) returns (r: Option<seq<Source>>)
      ensures r == ReadAll(objects, base)
    {
      if ManifestKey(base) !in objects || !objects[ManifestKey(base)].Manifest? {
        return None;
      }
      var manifest := objects[ManifestKey(base)];
      var groups: map<Kind, seq<Source>> := map[];
      var k := 0;
      while k < |KINDS|
        invariant 0 <= k <= 3 && groups.Keys == set j | 0 <= j < k :: KINDS[j]
        invariant forall j :: 0 <= j < k ==>
                    GroupAt(objects, KINDS[j], base, manifest.generation) == Some(groups[KINDS[j]])
      {
        var key := GroupKey(KINDS[k], base, manifest.generation);
        if key !in objects || !objects[key].Group? {
          assert GroupAt(objects, KINDS[k], base, manifest.generation).None?;
          return None;
        }
        groups := groups[KINDS[k] := objects[key].sources];
        k := k + 1;
      }
      assert KINDS[0] == HTTP && KINDS[1] == ZIP && KINDS[2] == DRIVE;
      var queues := Queues(groups[HTTP], groups[ZIP], groups[DRIVE]);
      ghost var all := queues;
      var sources: seq<Source> := [];
      var i := 0;
      assert manifest.order[0..] == manifest.order;
      PrefixedTwice([], Http(""), Deal(manifest.order, all));
      while i < |manifest.order|
        invariant 0 <= i <= |manifest.order|
        invariant Deal(manifest.order, all) == Prefixed(sources, Deal(manifest.order[i..], queues))
      {
        var kind := manifest.order[i];
        assert manifest.order[i..][1..] == manifest.order[i + 1..];
        if Queue(queues, kind) == [] {
          return None;
        }
        PrefixedTwice(sources, Queue(queues, kind)[0], Deal(manifest.order[i + 1..], Pop(queues, kind)));
        sources := sources + [Queue(queues, kind)[0]];
        queues := Pop(queues, kind);
        i := i + 1;
      }
      assert manifest.order[i..] == [] && sources + [] == sources;
      return if queues == NO_QUEUES then Some(sources) else None;
    }
  }

  function Prefixed(a: seq<Source>, r: Option<seq<Source>>): Option<seq<Source>> {
    if r.Some? then Some(a + r.value) else None
  }

  lemma PrefixedTwice(a: seq<Source>, s: Source, r: Option<seq<Source>>)
    ensures Prefixed(a, Prefixed([s], r)) == Prefixed(a + [s], r) && Prefixed([], r) == r
  {
    if r.Some? {
      assert [] + r.value == r.value;
      assert a + ([s] + r.value) == a + [s] + r.value;
    }
  }

  // ----- Interleaved writers and a reader -----

  datatype Writer = Writer(base: string, generation: string, sources: seq<Source>)

  function PutAt(objects: map<Key, Object>, w: Writer, k: nat): map<Key, Object>
    requires k < 4
  {
    if k < 3 then objects[GroupKey(KINDS[k], w.base, w.generation) := Group(Part(w.sources, KINDS[k]))]
    else objects[ManifestKey(w.base) := Manifest(w.generation, Order(w.sources))]
  }

  function AfterPuts(objects: map<Key, Object>, w: Writer, puts: nat): map<Key, Object>
    requires puts <= 4
  {
    if puts == 0 then objects else PutAt(AfterPuts(objects, w, puts - 1), w, puts - 1)
  }

  /** The four objects of a discovery, as far as that many puts go. */
  ghost predicate Wrote(w: Writer, puts: nat, key: Key) {
    match key
    case ManifestKey(base) => base == w.base && puts >= 4
    case GroupKey(kind, base, generation) =>
      base == w.base && generation == w.generation && puts >= if kind == HTTP then 1 else if kind == ZIP then 2 else 3
  }

  /** They hold the partitions and the order, and no other object changed. */
  ghost predicate StoredUpTo(o: map<Key, Object>, t: map<Key, Object>, w: Writer, puts: nat) {
    && (forall key :: key in t <==> key in o || Wrote(w, puts, key))
    && (forall key :: key in t ==>
          t[key] == if !Wrote(w, puts, key) then o[key]
                    else if key.GroupKey? then Group(Part(w.sources, key.kind))
                    else Manifest(w.generation, Order(w.sources)))
  }

  lemma {:induction false} AfterPutsExact(o: map<Key, Object>, w: Writer, puts: nat)
    requires puts <= 4
    ensures StoredUpTo(o, AfterPuts(o, w, puts), w, puts)
  {
    if puts > 0 {
      AfterPutsExact(o, w, puts - 1);
      assert KINDS[0] == HTTP && KINDS[1] == ZIP && KINDS[2] == DRIVE;
    }
  }

  lemma StoredAfter(o: map<Key, Object>, w: Writer, puts: nat)
    ensures StoredUpTo(o, AfterPuts(o, w, if puts < 4 then puts else 4), w, puts)
  {
    AfterPutsExact(o, w, if puts < 4 then puts else 4);
    forall key ensures Wrote(w, puts, key) <==> Wrote(w, if puts < 4 then puts else 4, key) {}
  }

  function GroupAt(objects: map<Key, Object>, kind: Kind, base: string, generation: string): Option<seq<Source>> {
    var key := GroupKey(kind, base, generation);
    if key in objects && objects[key].Group? then Some(objects[key].sources) else None
  }

  function ReadAll(objects: map<Key, Object>, base: string): Option<seq<Source>> {
    if ManifestKey(base) in objects && objects[ManifestKey(base)].Manifest? then
      var m := objects[ManifestKey(base)];
      var h, z, d := GroupAt(objects, HTTP, base, m.generation), GroupAt(objects, ZIP, base, m.generation),
                     GroupAt(objects, DRIVE, base, m.generation);
      if h.Some? && z.Some? && d.Some? then Deal(m.order, Queues(h.value, z.value, d.value)) else None
    else None
  }

  /** Every partition holds sources of its kind only. */
  ghost predicate SortedGroups(objects: map<Key, Object>) {
    forall key, i :: key in objects && objects[key].Group? && key.GroupKey? && 0 <= i < |objects[key].sources| ==>
      KindOf(objects[key].sources[i]) == key.kind
  }

  ghost predicate HasGroup(objects: map<Key, Object>, key: Key, sources: seq<Source>) {
    key in objects && objects[key] == Group(sources)
  }

  /** A list is read if and only if the manifest holds its order and the three partitions of that generation are its own. */
  lemma ReadExact(objects: map<Key, Object>, base: string, sources: seq<Source>)
    requires SortedGroups(objects)
    ensures ReadAll(objects, base) == Some(sources) <==>
            && ManifestKey(base) in objects && objects[ManifestKey(base)].Manifest?
            && var m := objects[ManifestKey(base)];
            && m.order == Order(sources)
            && HasGroup(objects, GroupKey(HTTP, base, m.generation), Part(sources, HTTP))
            && HasGroup(objects, GroupKey(ZIP, base, m.generation), Part(sources, ZIP))
            && HasGroup(objects, GroupKey(DRIVE, base, m.generation), Part(sources, DRIVE))
  {
    if ManifestKey(base) in objects && objects[ManifestKey(base)].Manifest? {
      DealInverts(sources);
      var m := objects[ManifestKey(base)];
      var h, z, d := GroupAt(objects, HTTP, base, m.generation), GroupAt(objects, ZIP, base, m.generation),
                     GroupAt(objects, DRIVE, base, m.generation);
      if h.Some? && z.Some? && d.Some? && Deal(m.order, Queues(h.value, z.value, d.value)) == Some(sources) {
        DealDeterminesParts(m.order, Queues(h.value, z.value, d.value));
      }
    }
  }

  /** The reader's four reads are separate steps too. `Broken` stands for an incomplete or inconsistent cache. */
  datatype Reader =
    | Idle
    | Absent
    | Reading(generation: string, order: seq<Kind>, got: seq<seq<Source>>)
    | Broken
    | Complete(generation: string, sources: seq<Source>)

  /** How far each writer got; a writer that crashed never moves again. */
  datatype System = System(objects: map<Key, Object>, puts: seq<nat>, reader: Reader)

  datatype Step = Put(writer: nat) | Read

  function ReaderNext(objects: map<Key, Object>, base: string, r: Reader): Reader {
    match r
    case Idle =>
      if ManifestKey(base) !in objects then Absent
      else if objects[ManifestKey(base)].Manifest? then
        Reading(objects[ManifestKey(base)].generation, objects[ManifestKey(base)].order, [])
      else Absent
    case Reading(generation, order, got) =>
      if |got| < 3 then
        var g := GroupAt(objects, KINDS[|got|], base, generation);
        if g.Some? then Reading(generation, order, got + [g.value]) else Broken
      else
        var sources := Deal(order, Queues(got[0], got[1], got[2]));
        if sources.Some? then Complete(generation, sources.value) else Broken
    case _ => r
  }

  predicate Enabled(ws: seq<Writer>, s: System, step: Step) {
    |s.puts| == |ws| && (step.Put? ==> step.writer < |ws| && s.puts[step.writer] < 4)
  }

  function Next(ws: seq<Writer>, base: string, s: System, step: Step): System
    requires Enabled(ws, s, step)
  {
    match step
    case Put(i) => s.(objects := PutAt(s.objects, ws[i], s.puts[i]), puts := s.puts[i := s.puts[i] + 1])
    case Read => s.(reader := ReaderNext(s.objects, base, s.reader))
  }

  ghost predicate Run(ws: seq<Writer>, base: string, s: System, steps: seq<Step>, t: System)
    decreases |steps|
  {
    if steps == [] then s == t
    else Enabled(ws, s, steps[0]) && Run(ws, base, Next(ws, base, s, steps[0]), steps[1..], t)
  }

  function Start(ws: seq<Writer>): System { System(map[], seq(|ws|, i => 0), Idle) }

  ghost predicate FreshGenerations(ws: seq<Writer>) {
    forall i, j :: 0 <= i < j < |ws| ==> ws[i].generation != ws[j].generation
  }

  /** Writer `i` has stored everything, under this base and generation. */
  ghost predicate Finished(ws: seq<Writer>, s: System, i: int, base: string, generation: string) {
    0 <= i < |ws| && |s.puts| == |ws| && s.puts[i] == 4 && ws[i].base == base && ws[i].generation == generation
  }

  ghost predicate ObjectsHold(ws: seq<Writer>, s: System) {
    && |s.puts| == |ws|
    && (forall i :: 0 <= i < |ws| ==> s.puts[i] <= 4)
    && (forall i, k :: 0 <= i < |ws| && 0 <= k < 3 && k < s.puts[i] ==>
          GroupAt(s.objects, KINDS[k], ws[i].base, ws[i].generation) == Some(Part(ws[i].sources, KINDS[k])))
    && (forall base :: ManifestKey(base) in s.objects ==> ManifestHolds(ws, s, base, s.objects[ManifestKey(base)]))
  }

  /** A visible manifest belongs to a writer that has finished. */
  ghost predicate ManifestHolds(ws: seq<Writer>, s: System, base: string, m: Object) {
    m.Manifest? && exists i :: Finished(ws, s, i, base, m.generation) && m.order == Order(ws[i].sources)
  }

  ghost predicate GotFrom(w: Writer, order: seq<Kind>, got: seq<seq<Source>>) {
    order == Order(w.sources) && |got| <= 3 && forall k :: 0 <= k < |got| ==> got[k] == Part(w.sources, KINDS[k])
  }

  ghost predicate ReaderHolds(ws: seq<Writer>, base: string, s: System) {
    match s.reader
    case Broken => false
    case Reading(generation, order, got) =>
      exists i :: Finished(ws, s, i, base, generation) && GotFrom(ws[i], order, got)
    case Complete(generation, sources) => exists i :: Finished(ws, s, i, base, generation) && sources == ws[i].sources
    case _ => true
  }

  lemma PutKeeps(ws: seq<Writer>, base: string, s: System, i: nat)
    requires FreshGenerations(ws) && Enabled(ws, s, Put(i)) && ObjectsHold(ws, s) && ReaderHolds(ws, base, s)
    ensures var t := Next(ws, base, s, Put(i));
            ObjectsHold(ws, t) && ReaderHolds(ws, base, t)
  {
    var t := Next(ws, base, s, Put(i));
    forall j, b, g | Finished(ws, s, j, b, g) ensures Finished(ws, t, j, b, g) {}
    forall j, k | 0 <= j < |ws| && 0 <= k < 3 && k < t.puts[j]
      ensures GroupAt(t.objects, KINDS[k], ws[j].base, ws[j].generation) == Some(Part(ws[j].sources, KINDS[k]))
    {
      assert j != i ==> GroupKey(KINDS[k], ws[j].base, ws[j].generation).generation != ws[i].generation;
      assert KINDS[0] != KINDS[1] && KINDS[1] != KINDS[2] && KINDS[0] != KINDS[2];
    }
    forall b | ManifestKey(b) in t.objects
      ensures ManifestHolds(ws, t, b, t.objects[ManifestKey(b)])
    {
      if s.puts[i] == 3 && ws[i].base == b {
        assert Finished(ws, t, i, b, ws[i].generation);
      } else {
        assert t.objects[ManifestKey(b)] == s.objects[ManifestKey(b)];
        var j :| Finished(ws, s, j, b, s.objects[ManifestKey(b)].generation) && s.objects[ManifestKey(b)].order == Order(ws[j].sources);
        assert Finished(ws, t, j, b, t.objects[ManifestKey(b)].generation);
      }
    }
  }

  lemma ReadKeeps(ws: seq<Writer>, base: string, s: System)
    requires FreshGenerations(ws) && Enabled(ws, s, Read) && ObjectsHold(ws, s) && ReaderHolds(ws, base, s)
    ensures ReaderHolds(ws, base, Next(ws, base, s, Read))
  {
    var t := Next(ws, base, s, Read);
    match s.reader
    case Idle =>
      if ManifestKey(base) in s.objects {
        var i :| Finished(ws, s, i, base, s.objects[ManifestKey(base)].generation) && s.objects[ManifestKey(base)].order == Order(ws[i].sources);
        assert Finished(ws, t, i, base, s.objects[ManifestKey(base)].generation);
      }
    case Reading(generation, order, got) =>
      var i :| Finished(ws, s, i, base, generation) && GotFrom(ws[i], order, got);
      assert Finished(ws, t, i, base, generation);
      if |got| < 3 {
        assert GroupAt(s.objects, KINDS[|got|], ws[i].base, ws[i].generation) == Some(Part(ws[i].sources, KINDS[|got|]));
      } else {
        assert KINDS[0] == HTTP && KINDS[1] == ZIP && KINDS[2] == DRIVE;
        DealInverts(ws[i].sources);
      }
    case Complete(generation, sources) =>
      var i :| Finished(ws, s, i, base, generation) && sources == ws[i].sources;
      assert Finished(ws, t, i, base, generation);
    case _ =>
  }

  lemma {:induction false} RunKeeps(ws: seq<Writer>, base: string, s: System, steps: seq<Step>, t: System)
    requires FreshGenerations(ws) && ObjectsHold(ws, s) && ReaderHolds(ws, base, s) && Run(ws, base, s, steps, t)
    ensures ObjectsHold(ws, t) && ReaderHolds(ws, base, t)
    decreases |steps|
  {
    if steps != [] {
      match steps[0] {
        case Put(i) => PutKeeps(ws, base, s, i);
        case Read => ReadKeeps(ws, base, s);
      }
      RunKeeps(ws, base, Next(ws, base, s, steps[0]), steps[1..], t);
    }
  }

  /** Under every interleaving of writers that may crash after any write, a reader never meets a broken cache,
      and what it returns is the complete list of the writer whose manifest it read. */
  lemma ReaderSeesOneWriter(ws: seq<Writer>, base: string, steps: seq<Step>, t: System)
    requires FreshGenerations(ws) && Run(ws, base, Start(ws), steps, t)
    ensures !t.reader.Broken?
    ensures t.reader.Complete? ==>
              exists i :: Finished(ws, t, i, base, t.reader.generation) && t.reader.sources == ws[i].sources
  {
    RunKeeps(ws, base, Start(ws), steps, t);
  }

  /** A discovery that was stored completely is read back as it was, whatever was in the store. */
  lemma StoreThenRead(objects: map<Key, Object>, w: Writer)
    ensures ReadAll(AfterPuts(objects, w, 4), w.base) == Some(w.sources)
  {
    var o1, o2, o3, o4 := AfterPuts(objects, w, 1), AfterPuts(objects, w, 2), AfterPuts(objects, w, 3), AfterPuts(objects, w, 4);
    assert o4 == o3[ManifestKey(w.base) := Manifest(w.generation, Order(w.sources))];
    assert GroupAt(o4, HTTP, w.base, w.generation) == GroupAt(o1, HTTP, w.base, w.generation) == Some(Part(w.sources, HTTP));
    assert GroupAt(o4, ZIP, w.base, w.generation) == GroupAt(o2, ZIP, w.base, w.generation) == Some(Part(w.sources, ZIP));
    assert GroupAt(o4, DRIVE, w.base, w.generation) == GroupAt(o3, DRIVE, w.base, w.generation) == Some(Part(w.sources, DRIVE));
    DealInverts(w.sources);
  }
}
