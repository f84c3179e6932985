/** Validation of a discovered resource tree (ingestor_orchestrator/source-resource-catalog/resource.go,
    analytics/catalog_ingestion.py). A map gives each resource its parent; "" stands for no parent. */
module ResourceForest {

  type Parents = map<string, string>

  /** Following parents from `node` arrives at the root marker after exactly `n` steps. */
  ghost predicate ReachesRoot(p: Parents, node: string, n: nat)
    decreases n
  {
    if node == "" then n == 0 else n > 0 && node in p && ReachesRoot(p, p[node], n - 1)
  }

  ghost predicate Rooted(p: Parents, node: string) {
    exists n: nat :: ReachesRoot(p, node, n)
  }

  /** Every chain of parents stays inside the map and ends at a root. */
  ghost predicate Forest(p: Parents) {
    forall id :: id in p ==> Rooted(p, id)
  }

  /** `k` parent steps lead from `a` to `b`. */
  ghost predicate Leads(p: Parents, a: string, k: nat, b: string)
    decreases k
  {
    if k == 0 then a == b else a != "" && a in p && Leads(p, p[a], k - 1, b)
  }

  /** `b` is a proper ancestor of `a`. */
  ghost predicate Below(p: Parents, a: string, b: string) {
    exists k: nat :: k > 0 && Leads(p, a, k, b)
  }

  ghost predicate Closed(p: Parents) {
    forall id :: id in p && id != "" && p[id] != "" ==> p[id] in p
  }

  ghost predicate Acyclic(p: Parents) {
    forall id :: !Below(p, id, id)
  }

  lemma {:induction false} RootDistanceUnique(p: Parents, a: string, m: nat, n: nat)
    requires ReachesRoot(p, a, m) && ReachesRoot(p, a, n)
    ensures m == n
    decreases m
  {
    if a != "" { RootDistanceUnique(p, p[a], m - 1, n - 1); }
  }

  lemma {:induction false} LeadsShortensChain(p: Parents, a: string, k: nat, b: string, n: nat)
    requires Leads(p, a, k, b) && ReachesRoot(p, a, n)
    ensures n >= k && ReachesRoot(p, b, n - k)
    decreases k
  {
    if k > 0 { LeadsShortensChain(p, p[a], k - 1, b, n - 1); }
  }

  lemma {:induction false} LeadsOneMore(p: Parents, a: string, k: nat, b: string)
    requires Leads(p, a, k, b) && b != "" && b in p
    ensures Leads(p, a, k + 1, p[b])
    decreases k
  {
    if k > 0 { LeadsOneMore(p, p[a], k - 1, b); }
  }

  /** Stepping from `b` to its parent keeps it an ancestor of everything below it, and of `b`. */
  lemma BelowStep(p: Parents, a: string, b: string)
    requires a == b || Below(p, a, b)
    requires b != "" && b in p
    ensures Below(p, a, p[b])
  {
    assert Leads(p, b, 0, b);
    var k: nat :| Leads(p, a, k, b);
    LeadsOneMore(p, a, k, b);
    assert k + 1 > 0 && Leads(p, a, k + 1, p[b]);
  }

  /** A resource on a cycle never reaches a root. */
  lemma CycleNeverRooted(p: Parents, a: string)
    requires Below(p, a, a)
    ensures !Rooted(p, a)
  {
    if Rooted(p, a) {
      var k: nat :| k > 0 && Leads(p, a, k, a);
      var n: nat :| ReachesRoot(p, a, n);
      LeadsShortensChain(p, a, k, a, n);
      RootDistanceUnique(p, a, n, n - k);
    }
  }

  lemma RootedStep(p: Parents, a: string)
    requires a != "" && a in p
    ensures Rooted(p, a) <==> Rooted(p, p[a])
  {
    if Rooted(p, a) {
      var n: nat :| ReachesRoot(p, a, n);
      assert ReachesRoot(p, p[a], n - 1);
    }
    if Rooted(p, p[a]) {
      var n: nat :| ReachesRoot(p, p[a], n);
      assert ReachesRoot(p, a, n + 1);
    }
  }

  lemma RootMarkerRooted(p: Parents)
    ensures Rooted(p, "")
  {
    assert ReachesRoot(p, "", 0);
  }

  /** In a closed map without cycles a walk cannot go on forever: `seen` collects distinct keys. */
  lemma {:induction false} WalkEnds(p: Parents, node: string, seen: set<string>)
    requires Closed(p) && Acyclic(p)
    requires node == "" || node in p
    requires seen <= p.Keys
    requires forall x :: x in seen ==> Below(p, x, node)
    ensures Rooted(p, node)
    decreases |p.Keys - seen|
  {
    if node == "" {
      RootMarkerRooted(p);
    } else {
      assert node !in seen;
      forall x | x in seen || x == node ensures Below(p, x, p[node]) { BelowStep(p, x, node); }
      assert p.Keys - (seen + {node}) < p.Keys - seen;
      WalkEnds(p, p[node], seen + {node});
      RootedStep(p, node);
    }
  }

  /** The chain condition is exactly: no missing parent and no cycle. */
  lemma ForestIsClosedAndAcyclic(p: Parents)
    requires "" !in p
    ensures Forest(p) <==> Closed(p) && Acyclic(p)
  {
    if Forest(p) {
      forall id | id in p && p[id] != "" ensures p[id] in p {
        var n: nat :| ReachesRoot(p, id, n);
        assert ReachesRoot(p, p[id], n - 1);
      }
      forall id ensures !Below(p, id, id) {
        if Below(p, id, id) { CycleNeverRooted(p, id); }
      }
    }
    if Closed(p) && Acyclic(p) {
      forall id | id in p ensures Rooted(p, id) { WalkEnds(p, id, {}); }
    }
  }

  /** `validateTree`: one visited set is shared by the walks from all resources, which are
      taken in whatever order the map is iterated. */
  method ValidateTree(parents: Parents) returns (ok: bool)
    ensures ok <==> Forest(parents)
  {
    var visited: set<string> := {};
    var pending := parents.Keys;
    while pending != {}
      invariant pending <= parents.Keys
      invariant forall id :: id in visited ==> Rooted(parents, id)
      invariant forall id :: id in parents.Keys - pending ==> Rooted(parents, id)
      decreases pending
    {
      var id :| id in pending;
      pending := pending - {id};
      var path: set<string> := {};
      var node := id;
      while node != "" && node !in visited
        invariant path <= parents.Keys
        invariant Rooted(parents, id) <==> Rooted(parents, node)
        invariant forall x :: x in path ==> (Rooted(parents, x) <==> Rooted(parents, node))
        invariant forall x :: x in path ==> Below(parents, x, node)
        decreases parents.Keys - path
      {
        if node !in parents {
          return false;
        }
        if node in path {
          CycleNeverRooted(parents, node);
          return false;
        }
        forall x | x in path || x == node ensures Below(parents, x, parents[node]) { BelowStep(parents, x, node); }
        RootedStep(parents, node);
        path := path + {node};
        node := parents[node];
      }
      RootMarkerRooted(parents);
      visited := visited + path;
    }
    return true;
  }
}
