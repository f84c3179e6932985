/** Splitting a parent job into child jobs (ckan-ingestor-rs/ckan-ingestor-consumer/src/job_processor.rs and the
    ordering of the discovered children in ckan-ingestor-lib/src/readers/external_resource_crawler_reader.rs). */
module JobFanout {
  import opened Common

  datatype Child = Child(id: string, url: string, source: string, format: string)

  datatype Parent = Parent(jobId: string, resourceId: string, sourceVersion: string)

  datatype Job = Job(jobId: string, resourceId: string, parentJobId: string, parentResourceId: string,
                     index: nat, total: nat, sourceVersion: string, url: string, format: string, source: string)

  /** Messages of the fan-out: the parent's number of children, then a pending result and a job for each child. */
  datatype Output = Manifest(jobId: string, total: nat) | Pending(job: Job) | Start(job: Job)

  /** Text of a name-based UUID: injective on names (section 5.5 of RFC 9562), and without a colon. */
  ghost predicate NameBased(uuid: string -> string) {
    && (forall a, b :: uuid(a) == uuid(b) ==> a == b)
    && (forall a :: ':' !in uuid(a))
  }

  function ChildResource(p: Parent, c: Child, uuid: string -> string): string {
    uuid(p.resourceId + ":" + c.id)
  }

  function ChildJob(p: Parent, c: Child, index: nat, total: nat, uuid: string -> string): Job {
    var resource := ChildResource(p, c, uuid);
    Job(uuid(p.jobId + ":" + resource), resource, p.jobId, p.resourceId, index, total, p.sourceVersion, c.url, c.format, c.source)
  }

  /** The job of the `i`-th of `n` children: named by the parent and the child, placed among its siblings, with the address,
      the format and the source that were found. */
  predicate Describes(job: Job, p: Parent, c: Child, i: nat, n: nat, uuid: string -> string) {
    && job.resourceId == uuid(p.resourceId + ":" + c.id) && job.jobId == uuid(p.jobId + ":" + job.resourceId)
    && job.parentJobId == p.jobId && job.parentResourceId == p.resourceId && job.index == i && job.total == n
    && job.sourceVersion == p.sourceVersion && job.url == c.url && job.format == c.format && job.source == c.source
  }

  /** First the number of children, then for each child a pending result followed by its job. */
  ghost predicate SplitsInto(p: Parent, children: seq<Child>, uuid: string -> string, out: seq<Output>) {
    && |out| == 1 + 2 * |children|
    && out[0] == Manifest(p.jobId, |children|)
    && forall i :: 0 <= i < |children| ==> StartsChild(out, i, p, children[i], |children|, uuid)
  }

  ghost predicate StartsChild(out: seq<Output>, i: nat, p: Parent, c: Child, n: nat, uuid: string -> string) {
    2 * i + 2 < |out| && out[2 * i + 2].Start? && out[2 * i + 1] == Pending(out[2 * i + 2].job)
    && Describes(out[2 * i + 2].job, p, c, i, n, uuid)
  }

  method FanOut(p: Parent, children: seq<Child>, uuid: string -> string) returns (out: seq<Output>)
    ensures SplitsInto(p, children, uuid, out)
  {
    out := [Manifest(p.jobId, |children|)];
    for i := 0 to |children|
      invariant |out| == 1 + 2 * i && out[0] == Manifest(p.jobId, |children|)
      invariant forall k :: 0 <= k < i ==> StartsChild(out, k, p, children[k], |children|, uuid)
    {
      var job := ChildJob(p, children[i], i, |children|, uuid);
      ghost var before := out;
      out := out + [Pending(job)];
      out := out + [Start(job)];
      assert out[..|before|] == before;
      forall k | 0 <= k < i ensures StartsChild(out, k, p, children[k], |children|, uuid) {
        assert StartsChild(before, k, p, children[k], |children|, uuid);
      }
    }
  }

  // ----- Identities -----

  lemma AfterColon(a: string, b: string, x: string, y: string)
    requires a + ":" + x == b + ":" + y && ':' !in x && ':' !in y
    ensures a == b && x == y
  {
    var s := a + ":" + x;
    assert s == b + ":" + y;
    assert forall i :: |a| < i < |s| ==> s[i] == x[i - |a| - 1];
    assert forall i :: |b| < i < |s| ==> s[i] == y[i - |b| - 1];
    assert s[|a|] == ':' && s[|b|] == ':';
    assert a == s[..|a|] && b == s[..|b|];
    assert x == s[|a| + 1..] && y == s[|b| + 1..];
  }

  lemma SamePrefix(a: string, x: string, y: string)
    requires a + ":" + x == a + ":" + y
    ensures x == y
  {
    assert x == (a + ":" + x)[|a| + 1..] && y == (a + ":" + y)[|a| + 1..];
  }

  /** Two child jobs share their id only if they are the same child of the same parent job:
      the id does not depend on the place among the children. */
  lemma JobIdentity(a: Job, p: Parent, c: Child, i: nat, m: nat, b: Job, q: Parent, d: Child, j: nat, n: nat, uuid: string -> string)
    requires NameBased(uuid) && (p.jobId == q.jobId ==> p.resourceId == q.resourceId)
    requires Describes(a, p, c, i, m, uuid) && Describes(b, q, d, j, n, uuid)
    ensures a.jobId == b.jobId <==> p.jobId == q.jobId && c.id == d.id
  {
    var x, y := a.resourceId, b.resourceId;
    if a.jobId == b.jobId {
      AfterColon(p.jobId, q.jobId, x, y);
      SamePrefix(p.resourceId, c.id, d.id);
    }
  }

  // ----- Order -----

  ghost predicate DistinctIds(children: seq<Child>) {
    forall i, j :: 0 <= i < j < |children| ==> children[i].id != children[j].id
  }

  /** The children as sorted by their ids. */
  ghost predicate Sorts(found: seq<Child>, sorted: seq<Child>) {
    multiset(found) == multiset(sorted) && forall i, j :: 0 <= i < j < |sorted| ==> !StrLess(sorted[j].id, sorted[i].id)
  }

  ghost predicate Increasing(children: seq<Child>) {
    forall i, j :: 0 <= i < j < |children| ==> StrLess(children[i].id, children[j].id)
  }

  /** A strictly increasing list is determined by its members. */
  lemma {:induction false} IncreasingUnique(a: seq<Child>, b: seq<Child>)
    requires Increasing(a) && Increasing(b) && forall c :: c in a <==> c in b
    ensures a == b
    decreases |a|
  {
    assert b != [] ==> b[0] in b;
    if a != [] {
      assert a[0] in a && a[0] in b;
      var i :| 0 <= i < |b| && b[i] == a[0];
      assert b[0] in a;
      var j :| 0 <= j < |a| && a[j] == b[0];
      StrLessTotal(a[0].id, b[0].id);
      assert a[0] == b[0];
      forall c ensures c in a[1..] <==> c in b[1..] {
        TailMembers(a, c);
        TailMembers(b, c);
      }
      IncreasingUnique(a[1..], b[1..]);
      assert a == [a[0]] + a[1..] && b == [b[0]] + b[1..];
    }
  }

  lemma TailMembers(a: seq<Child>, c: Child)
    requires Increasing(a) && a != []
    ensures c in a[1..] <==> c in a && c != a[0]
  {
    if c in a[1..] {
      var i :| 0 <= i < |a[1..]| && a[1..][i] == c;
      assert StrLess(a[0].id, a[i + 1].id);
      StrLessTotal(a[0].id, a[i + 1].id);
    }
    if c in a && c != a[0] {
      var i :| 0 <= i < |a| && a[i] == c;
      assert a[1..][i - 1] == c;
    }
  }

  lemma SortedIncreases(found: seq<Child>, sorted: seq<Child>)
    requires Sorts(found, sorted) && DistinctIds(sorted)
    ensures Increasing(sorted)
  {
    forall i, j | 0 <= i < j < |sorted| ensures StrLess(sorted[i].id, sorted[j].id) {
      StrLessTotal(sorted[i].id, sorted[j].id);
    }
  }

  lemma SortedSame(found: seq<Child>, again: seq<Child>, sorted: seq<Child>, resorted: seq<Child>)
    requires Sorts(found, sorted) && Sorts(again, resorted) && DistinctIds(sorted)
    requires multiset(found) == multiset(again)
    ensures sorted == resorted
  {
    assert multiset(sorted) == multiset(resorted);
    DistinctStays(sorted, resorted);
    SortedIncreases(found, sorted);
    SortedIncreases(again, resorted);
    forall c ensures c in sorted <==> c in resorted {
      assert c in multiset(sorted) <==> c in multiset(resorted);
    }
    IncreasingUnique(sorted, resorted);
  }

  /** The children determine the messages. */
  lemma SplitUnique(p: Parent, children: seq<Child>, uuid: string -> string, a: seq<Output>, b: seq<Output>)
    requires SplitsInto(p, children, uuid, a) && SplitsInto(p, children, uuid, b)
    ensures a == b
  {
    forall k | 0 <= k < |a| ensures a[k] == b[k] {
      if k > 0 {
        var i := (k - 1) / 2;
        assert k == 2 * i + 1 || k == 2 * i + 2;
        assert StartsChild(a, i, p, children[i], |children|, uuid) && StartsChild(b, i, p, children[i], |children|, uuid);
      }
    }
  }

  /** A redelivered parent publishes the very same messages, in whatever order its children are found: the same jobs,
      with the same ids, at the same places. */
  lemma FanOutStable(p: Parent, uuid: string -> string, found: seq<Child>, sorted: seq<Child>, out: seq<Output>,
                     again: seq<Child>, resorted: seq<Child>, repeated: seq<Output>)
    requires Sorts(found, sorted) && Sorts(again, resorted) && DistinctIds(sorted)
    requires multiset(found) == multiset(again)
    requires SplitsInto(p, sorted, uuid, out) && SplitsInto(p, resorted, uuid, repeated)
    ensures out == repeated
  {
    SortedSame(found, again, sorted, resorted);
    SplitUnique(p, sorted, uuid, out, repeated);
  }

  lemma DistinctStays(a: seq<Child>, b: seq<Child>)
    requires DistinctIds(a) && multiset(a) == multiset(b)
    ensures DistinctIds(b)
  {
    forall i, j | 0 <= i < j < |b| ensures b[i].id != b[j].id {
      if b[i].id == b[j].id { SameIdTwice(a, b, i, j); }
    }
  }

  lemma SameIdTwice(a: seq<Child>, b: seq<Child>, i: nat, j: nat)
    requires multiset(a) == multiset(b) && i < j < |b| && b[i].id == b[j].id
    ensures !DistinctIds(a)
  {
    assert b[i] in multiset(b) && b[j] in multiset(b);
    var k :| 0 <= k < |a| && a[k] == b[i];
    if b[i] != b[j] {
      var l :| 0 <= l < |a| && a[l] == b[j];
    } else {
      TwiceAt(b, i, j);
      TwiceMeansTwo(a, b[i]);
    }
  }

  lemma TwiceAt(b: seq<Child>, i: nat, j: nat)
    requires i < j < |b| && b[i] == b[j]
    ensures multiset(b)[b[i]] >= 2
  {
    assert b == b[..j] + b[j..] && b[..j][i] == b[i] && b[j..][0] == b[j];
    assert multiset(b) == multiset(b[..j]) + multiset(b[j..]);
    assert b[i] in multiset(b[..j]) && b[i] in multiset(b[j..]);
  }

  lemma {:induction false} TwiceMeansTwo(a: seq<Child>, c: Child)
    requires multiset(a)[c] >= 2
    ensures !DistinctIds(a)
    decreases |a|
  {
    var n := |a| - 1;
    assert a == a[..n] + [a[n]];
    if a[n] == c {
      assert c in multiset(a[..n]);
      var k :| 0 <= k < n && a[..n][k] == c;
      assert a[k].id == a[n].id;
    } else {
      TwiceMeansTwo(a[..n], c);
      var i, j :| 0 <= i < j < n && a[..n][i].id == a[..n][j].id;
      assert a[i].id == a[j].id;
    }
  }
}
