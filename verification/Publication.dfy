/** Publishing and pruning lake snapshots (analytics/publish_lake_snapshot.py). Times are in microseconds. */
module Publication {
  import opened Common

  const SECOND: int := 1_000_000
  const RETENTION: int := (48 * 60 + 15) * 60 * SECOND

  datatype Published = Published(id: string, createdAt: int, previousId: Option<string>)

  datatype Key = CatalogKey(id: string) | ManifestKey(id: string) | ProtectionKey(id: string) | LatestKey

  datatype Object = Catalog | Manifest(p: Published) | Index(files: set<string>)

  type Objects = map<Key, Object>

  datatype Write = Put(key: Key, value: Object) | Delete(key: Key)

  function Apply(o: Objects, w: Write): Objects {
    match w
    case Put(k, x) => o[k := x]
    case Delete(k) => o - {k}
  }

  function ApplyAll(o: Objects, plan: seq<Write>): Objects
    decreases |plan|
  {
    if plan == [] then o else ApplyAll(Apply(o, plan[0]), plan[1..])
  }

  function Latest(o: Objects): Option<Published> {
    if LatestKey in o && o[LatestKey].Manifest? then Some(o[LatestKey].p) else None
  }

  // ----- The writes of one publication and of one pruning -----

  /** A repeated publication keeps the predecessor it already had. */
  function PreviousId(o: Objects, id: string): Option<string> {
    if Latest(o).None? then None
    else if Latest(o).value.id == id then Latest(o).value.previousId
    else Some(Latest(o).value.id)
  }

  function PublishPlan(o: Objects, id: string, createdAt: int, files: set<string>): seq<Write> {
    var p := Published(id, createdAt, PreviousId(o, id));
    [Put(CatalogKey(id), Catalog), Put(ProtectionKey(id), Index(files)), Put(ManifestKey(id), Manifest(p)), Put(LatestKey, Manifest(p))]
  }

  /** The catalogue, then the index of its files, then the manifest, then `latest.json`, as far as the budget goes; no other object. */
  ghost predicate WrittenUpTo(o: Objects, t: Objects, p: Published, files: set<string>, budget: nat) {
    && (forall k :: k in t <==> || k in o || (k == CatalogKey(p.id) && budget >= 1) || (k == ProtectionKey(p.id) && budget >= 2)
                                || (k == ManifestKey(p.id) && budget >= 3) || (k == LatestKey && budget >= 4))
    && (forall k :: k in t ==>
          t[k] == if k == CatalogKey(p.id) && budget >= 1 then Catalog
                  else if k == ProtectionKey(p.id) && budget >= 2 then Index(files)
                  else if (k == ManifestKey(p.id) && budget >= 3) || (k == LatestKey && budget >= 4) then Manifest(p)
                  else o[k])
  }

  predicate Named(p: Published, id: string) { id == p.id || Some(id) == p.previousId }

  /** Publications with a visible manifest. */
  function Visible(o: Objects): set<string> {
    set k | k in o && k.ManifestKey? && o[k].Manifest? :: k.id
  }

  /** Visible, old enough, and neither current nor previous. */
  function Expendable(o: Objects, current: Published, now: int): set<string> {
    set id | id in Visible(o) && !Named(current, id) && o[ManifestKey(id)].p.createdAt < now - RETENTION
  }

  function DeletePlan(ids: seq<string>): seq<Write> {
    if ids == [] then []
    else [Delete(CatalogKey(ids[0])), Delete(ManifestKey(ids[0])), Delete(ProtectionKey(ids[0]))] + DeletePlan(ids[1..])
  }

  ghost function PrunePlan(o: Objects, current: Published, now: int): seq<Write> {
    DeletePlan(Ordered(Expendable(o, current, now)))
  }

  /** Old enough, with a manifest, and neither current nor the one before. */
  ghost predicate Outdated(o: Objects, current: Published, now: int, id: string) {
    && ManifestKey(id) in o && o[ManifestKey(id)].Manifest? && o[ManifestKey(id)].p.createdAt < now - RETENTION
    && id != current.id && current.previousId != Some(id)
  }

  /** The catalogue, manifest and index of the outdated publications are gone, and everything else is as it was. */
  ghost predicate Pruned(o: Objects, t: Objects, current: Published, now: int) {
    && (forall k :: k in t <==> k in o && (k != LatestKey ==> !Outdated(o, current, now, k.id)))
    && (forall k :: k in t ==> t[k] == o[k])
  }

  class Bucket {
    var objects: Objects

    constructor ()
      ensures objects == map[]
    {
      objects := map[];
    }

    /** `publish_snapshot`; the process may die after `budget` writes. */
    method PublishSnapshot(id: string, createdAt: int, files: set<string>, budget: nat) returns (p: Published)
      modifies this
      ensures p.id == id && p.createdAt == createdAt
      ensures Latest(old(objects)).None? ==> p.previousId == None
      ensures Latest(old(objects)).Some? ==>
                var latest := Latest(old(objects)).value;
                p.previousId == if latest.id == id then latest.previousId else Some(latest.id)
      ensures WrittenUpTo(old(objects), objects, p, files, budget)
      ensures objects == ApplyAll(old(objects), PublishPlan(old(objects), id, createdAt, files)[..if budget < 4 then budget else 4])
    {
      p := Published(id, createdAt, PreviousId(objects, id));
      ghost var before, plan := objects, PublishPlan(objects, id, createdAt, files);
      if budget == 0 { return; }
      ApplyNext(before, plan, 0);
      objects := objects[CatalogKey(id) := Catalog];
      if budget == 1 { return; }
      ApplyNext(before, plan, 1);
      objects := objects[ProtectionKey(id) := Index(files)];
      if budget == 2 { return; }
      ApplyNext(before, plan, 2);
      objects := objects[ManifestKey(id) := Manifest(p)];
      if budget == 3 { return; }
      ApplyNext(before, plan, 3);
      objects := objects[LatestKey := Manifest(p)];
    }

    /** `prune_publications`; the process may die after `budget` deletions. */
    method PrunePublications(current: Published, now: int, budget: nat)
      modifies this
      ensures var plan := PrunePlan(old(objects), current, now);
              objects == ApplyAll(old(objects), plan[..if budget < |plan| then budget else |plan|])
    {
      ghost var plan := PrunePlan(objects, current, now);
      var names := ListOrdered(Expendable(objects, current, now));
      ghost var before := objects;
      ghost var made := 0;
      var left := budget;
      var i := 0;
      assert names[0..] == names;
      while i < |names|
        invariant 0 <= i <= |names| && made == 3 * i && left == budget - made
        invariant made <= |plan| && plan[made..] == DeletePlan(names[i..])
        invariant objects == ApplyAll(before, plan[..made])
      {
        assert names[i..][1..] == names[i + 1..];
        PruneStep(before, plan, made, names[i..], if left < 3 then left else 3);
        DeletePublication(names[i], left);
        if left < 3 { return; }
        made, left, i := made + 3, left - 3, i + 1;
      }
    }

    /** The three objects of a publication, as far as the process lives. */
    method DeletePublication(id: string, budget: nat)
      modifies this
      ensures objects == ApplyAll(old(objects), DeletePlan([id])[..if budget < 3 then budget else 3])
    {
      ghost var before, plan := objects, DeletePlan([id]);
      if budget == 0 { return; }
      ApplyNext(before, plan, 0);
      objects := objects - {CatalogKey(id)};
      if budget == 1 { return; }
      ApplyNext(before, plan, 1);
      objects := objects - {ManifestKey(id)};
      if budget == 2 { return; }
      ApplyNext(before, plan, 2);
      objects := objects - {ProtectionKey(id)};
    }

    /** `protected_files`: the union over the visible publications; a missing index is an error. */
    method ProtectedFiles() returns (files: Option<set<string>>)
      ensures files.Some? <==> forall id :: id in Visible(objects) ==> ProtectionKey(id) in objects && objects[ProtectionKey(id)].Index?
      ensures files.Some? ==> forall f :: f in files.value <==> exists id :: id in Visible(objects) && f in objects[ProtectionKey(id)].files
    {
      var pending := Visible(objects);
      var all: set<string> := {};
      while pending != {}
        invariant pending <= Visible(objects)
        invariant forall id :: id in Visible(objects) - pending ==> ProtectionKey(id) in objects && objects[ProtectionKey(id)].Index?
        invariant forall f :: f in all <==> exists id :: id in Visible(objects) - pending && f in objects[ProtectionKey(id)].files
        decreases pending
      {
        var id :| id in pending;
        if ProtectionKey(id) !in objects || !objects[ProtectionKey(id)].Index? {
          return None;
        }
        pending := pending - {id};
        all := all + objects[ProtectionKey(id)].files;
      }
      return Some(all);
    }
  }

  lemma {:induction false} ApplyNext(o: Objects, plan: seq<Write>, k: nat)
    requires k < |plan|
    ensures ApplyAll(o, plan[..k + 1]) == Apply(ApplyAll(o, plan[..k]), plan[k])
    decreases k
  {
    if k > 0 {
      assert plan[..k + 1][1..] == plan[1..][..k] && plan[..k][1..] == plan[1..][..k - 1];
      ApplyNext(Apply(o, plan[0]), plan[1..], k - 1);
    } else {
      assert plan[..1][1..] == [];
    }
  }

  lemma {:induction false} ApplyMore(o: Objects, plan: seq<Write>, k: nat, more: nat)
    requires k + more <= |plan|
    ensures ApplyAll(o, plan[..k + more]) == ApplyAll(ApplyAll(o, plan[..k]), plan[k..k + more])
    decreases k
  {
    if k > 0 {
      assert plan[..k + more][1..] == plan[1..][..k - 1 + more] && plan[..k][1..] == plan[1..][..k - 1];
      assert plan[1..][k - 1..k - 1 + more] == plan[k..k + more];
      ApplyMore(Apply(o, plan[0]), plan[1..], k - 1, more);
    } else {
      assert plan[..more] == plan[0..more];
    }
  }

  /** Publication after publication, and of each the catalogue, the manifest and then the index. */
  lemma {:induction false} DeletePlanOrder(ids: seq<string>, i: nat)
    requires i < |ids|
    ensures |DeletePlan(ids)| >= 3 * i + 3
    ensures DeletePlan(ids)[3 * i] == Delete(CatalogKey(ids[i])) && DeletePlan(ids)[3 * i + 1] == Delete(ManifestKey(ids[i]))
    ensures DeletePlan(ids)[3 * i + 2] == Delete(ProtectionKey(ids[i]))
    decreases |ids|
  {
    if i > 0 {
      DeletePlanOrder(ids[1..], i - 1);
    }
  }

  lemma {:induction false} DeletePlanEffect(o: Objects, ids: seq<string>)
    ensures var t := ApplyAll(o, DeletePlan(ids));
            && (forall k :: k in t <==> k in o && (k != LatestKey ==> k.id !in ids))
            && (forall k :: k in t ==> t[k] == o[k])
    decreases |ids|
  {
    if ids != [] {
      var plan := DeletePlan(ids);
      DeletePlanFront(ids, plan);
      DeletePlanOrder(ids, 0);
      var o1 := Apply(o, Delete(CatalogKey(ids[0])));
      var o2 := Apply(o1, Delete(ManifestKey(ids[0])));
      var o3 := Apply(o2, Delete(ProtectionKey(ids[0])));
      assert plan[1..][0] == plan[1] && plan[1..][1..] == plan[2..] && plan[2..][0] == plan[2] && plan[2..][1..] == plan[3..];
      assert ApplyAll(o1, plan[1..]) == ApplyAll(o2, plan[2..]);
      assert ApplyAll(o2, plan[2..]) == ApplyAll(o3, plan[3..]);
      assert ApplyAll(o, plan) == ApplyAll(o3, DeletePlan(ids[1..]));
      DeletePlanEffect(o3, ids[1..]);
      forall k: Key | k != LatestKey ensures k.id in ids <==> k.id == ids[0] || k.id in ids[1..] {}
    }
  }

  /** The deletions of a pruning that is not cut off. */
  lemma PruneExact(o: Objects, current: Published, now: int)
    ensures Pruned(o, ApplyAll(o, PrunePlan(o, current, now)), current, now)
  {
    var doomed := Expendable(o, current, now);
    OrderedLists(doomed);
    DeletePlanEffect(o, Ordered(doomed));
    forall id ensures id in Ordered(doomed) <==> Outdated(o, current, now, id) {
      VisibleIff(o, id);
    }
  }

  lemma PruneStep(o: Objects, plan: seq<Write>, made: nat, ids: seq<string>, count: nat)
    requires made <= |plan| && ids != [] && plan[made..] == DeletePlan(ids) && count <= 3
    ensures made + 3 <= |plan| && plan[made + 3..] == DeletePlan(ids[1..])
    ensures ApplyAll(o, plan[..made + count]) == ApplyAll(ApplyAll(o, plan[..made]), DeletePlan([ids[0]])[..count])
  {
    DeletePlanFront(ids, plan[made..]);
    assert plan[made..][..count] == plan[made..made + count] && plan[made..][3..] == plan[made + 3..];
    ApplyMore(o, plan, made, count);
  }

  lemma DeletePlanFront(ids: seq<string>, plan: seq<Write>)
    requires ids != [] && plan == DeletePlan(ids)
    ensures |plan| >= 3 && plan[3..] == DeletePlan(ids[1..])
    ensures forall k :: 0 <= k <= 3 ==> plan[..k] == DeletePlan([ids[0]])[..k]
  {
    assert DeletePlan([ids[0]]) == plan[..3];
  }

  // ----- What every crash point keeps -----

  ghost predicate HasIndex(o: Objects, id: string) { ProtectionKey(id) in o && o[ProtectionKey(id)].Index? }

  /** Catalogue, manifest and protection index of one publication. */
  ghost predicate Whole(o: Objects, id: string) {
    CatalogKey(id) in o && id in Visible(o) && HasIndex(o, id)
  }

  /** A visible manifest has its protection index; `latest.json` and the publication before it are whole. */
  ghost predicate Consistent(o: Objects) {
    && (forall id :: ManifestKey(id) in o ==> id in Visible(o) && o[ManifestKey(id)].p.id == id && HasIndex(o, id))
    && (LatestKey in o ==> o[LatestKey].Manifest? && forall id :: Named(o[LatestKey].p, id) ==> Whole(o, id))
  }

  /** Consistent now and after every further write of the plan. */
  ghost predicate SafePlan(o: Objects, plan: seq<Write>)
    decreases |plan|
  {
    Consistent(o) && (plan != [] ==> SafePlan(Apply(o, plan[0]), plan[1..]))
  }

  lemma VisibleIff(o: Objects, id: string)
    ensures id in Visible(o) <==> ManifestKey(id) in o && o[ManifestKey(id)].Manifest?
  {}

  lemma WholeKept(o: Objects, k: Key, x: Object, id: string)
    requires (k.ManifestKey? ==> x.Manifest?) && (k.ProtectionKey? ==> x.Index?)
    ensures id in Visible(o) ==> id in Visible(o[k := x])
    ensures Whole(o, id) ==> Whole(o[k := x], id)
  {
    VisibleIff(o, id);
    VisibleIff(o[k := x], id);
  }

  /** Writing a catalogue, an index, or a manifest that already has its index. */
  lemma PutKeeps(o: Objects, k: Key, x: Object)
    requires Consistent(o) && !k.LatestKey?
    requires k.ManifestKey? ==> x.Manifest? && x.p.id == k.id && HasIndex(o, k.id)
    requires k.ProtectionKey? ==> x.Index?
    ensures Consistent(o[k := x])
  {
    var t := o[k := x];
    forall id
      ensures Whole(o, id) ==> Whole(t, id)
      ensures ManifestKey(id) in t ==> id in Visible(t) && t[ManifestKey(id)].p.id == id && HasIndex(t, id)
    {
      WholeKept(o, k, x, id);
      VisibleIff(t, id);
    }
  }

  lemma PutLatestKeeps(o: Objects, p: Published)
    requires Consistent(o) && forall id :: Named(p, id) ==> Whole(o, id)
    ensures Consistent(o[LatestKey := Manifest(p)])
  {
    forall id ensures Whole(o, id) ==> Whole(o[LatestKey := Manifest(p)], id)
              ensures id in Visible(o) ==> id in Visible(o[LatestKey := Manifest(p)]) {
      WholeKept(o, LatestKey, Manifest(p), id);
    }
  }

  lemma SafePlanOfFour(o: Objects, a: Write, b: Write, c: Write, d: Write)
    requires Consistent(o) && Consistent(Apply(o, a)) && Consistent(Apply(Apply(o, a), b))
    requires Consistent(Apply(Apply(Apply(o, a), b), c)) && Consistent(Apply(Apply(Apply(Apply(o, a), b), c), d))
    ensures SafePlan(o, [a, b, c, d])
  {
    assert [a, b, c, d][1..] == [b, c, d] && [b, c, d][1..] == [c, d] && [c, d][1..] == [d] && [d][1..] == [];
    var o3 := Apply(Apply(Apply(o, a), b), c);
    assert SafePlan(Apply(o3, d), []);
    assert SafePlan(o3, [d]);
    assert SafePlan(Apply(Apply(o, a), b), [c, d]);
    assert SafePlan(Apply(o, a), [b, c, d]);
  }

  lemma PublishPlanSafe(o: Objects, id: string, createdAt: int, files: set<string>)
    requires Consistent(o)
    ensures SafePlan(o, PublishPlan(o, id, createdAt, files))
  {
    var p := Published(id, createdAt, PreviousId(o, id));
    var o1 := o[CatalogKey(id) := Catalog];
    var o2 := o1[ProtectionKey(id) := Index(files)];
    var o3 := o2[ManifestKey(id) := Manifest(p)];
    PutKeeps(o, CatalogKey(id), Catalog);
    PutKeeps(o1, ProtectionKey(id), Index(files));
    PutKeeps(o2, ManifestKey(id), Manifest(p));
    forall x | Named(p, x) ensures Whole(o3, x) {
      if x == id {
        VisibleIff(o3, id);
      } else {
        assert Whole(o, x);
        WholeKept(o, CatalogKey(id), Catalog, x);
        WholeKept(o1, ProtectionKey(id), Index(files), x);
        WholeKept(o2, ManifestKey(id), Manifest(p), x);
      }
    }
    PutLatestKeeps(o3, p);
    SafePlanOfFour(o, Put(CatalogKey(id), Catalog), Put(ProtectionKey(id), Index(files)),
                   Put(ManifestKey(id), Manifest(p)), Put(LatestKey, Manifest(p)));
  }

  /** None of these is current or previous. */
  ghost predicate Replaceable(o: Objects, ids: seq<string>) {
    forall i :: 0 <= i < |ids| ==> Latest(o).None? || !Named(Latest(o).value, ids[i])
  }

  /** Taking the manifest before the index keeps every visible manifest protected. */
  lemma {:induction false} DeletePlanSafe(o: Objects, ids: seq<string>)
    requires Consistent(o) && Replaceable(o, ids)
    ensures SafePlan(o, DeletePlan(ids))
    decreases |ids|
  {
    if ids != [] {
      var id, rest := ids[0], DeletePlan(ids[1..]);
      var o1 := Apply(o, Delete(CatalogKey(id)));
      var o2 := Apply(o1, Delete(ManifestKey(id)));
      var o3 := Apply(o2, Delete(ProtectionKey(id)));
      DeleteOneSafe(o, id);
      DeletePlanSafe(o3, ids[1..]);
      assert DeletePlan(ids) == [Delete(CatalogKey(id))] + ([Delete(ManifestKey(id))] + ([Delete(ProtectionKey(id))] + rest));
    }
  }

  lemma DeleteOneSafe(o: Objects, id: string)
    requires Consistent(o) && (Latest(o).Some? ==> !Named(Latest(o).value, id))
    ensures var o1 := Apply(o, Delete(CatalogKey(id)));
            var o2 := Apply(o1, Delete(ManifestKey(id)));
            var o3 := Apply(o2, Delete(ProtectionKey(id)));
            Consistent(o1) && Consistent(o2) && Consistent(o3) && Latest(o3) == Latest(o)
  {
    var o1 := Apply(o, Delete(CatalogKey(id)));
    var o2 := Apply(o1, Delete(ManifestKey(id)));
    var o3 := Apply(o2, Delete(ProtectionKey(id)));
    forall x
      ensures x in Visible(o1) <==> x in Visible(o)
      ensures x in Visible(o2) <==> x in Visible(o) && x != id
      ensures x in Visible(o3) <==> x in Visible(o2)
    {
      VisibleIff(o, x); VisibleIff(o1, x); VisibleIff(o2, x); VisibleIff(o3, x);
    }
  }

  lemma PrunePlanSafe(o: Objects, now: int)
    requires Consistent(o) && Latest(o).Some?
    ensures SafePlan(o, PrunePlan(o, Latest(o).value, now))
  {
    var doomed := Expendable(o, Latest(o).value, now);
    OrderedLists(doomed);
    forall i | 0 <= i < |Ordered(doomed)| ensures !Named(Latest(o).value, Ordered(doomed)[i]) {
      assert Ordered(doomed)[i] in Ordered(doomed);
    }
    DeletePlanSafe(o, Ordered(doomed));
  }
}
