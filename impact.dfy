/**
 * Impact analysis: the services that depend, directly or through other
 * services, on a given service, and so are affected when it changes or
 * fails.
 */
module Impact {
  import opened Graph
  import opened Seqs

  /** `p` is a path from v to the target. */
  predicate LeadsTo(adj: Adjacency, p: seq<string>, v: string, target: string)
  {
    IsPath(adj, p) && p[0] == v && p[|p| - 1] == target
  }

  /** A set that holds every node with an edge into one of its nodes. */
  ghost predicate DependentClosed(adj: Adjacency, s: set<string>)
  {
    forall u, x :: x in s && HasEdge(adj, u, x) ==> u in s
  }

  /** A dependent-closed set holding the end of a path holds all of it. */
  lemma {:induction false} ClosedHoldsPathBack(adj: Adjacency, s: set<string>, p: seq<string>)
    requires DependentClosed(adj, s) && IsPath(adj, p) && p[|p| - 1] in s
    ensures p[0] in s
  {
    if |p| > 1 {
      var q := p[1..];
      assert IsPath(adj, q);
      ClosedHoldsPathBack(adj, s, q);
      assert HasEdge(adj, p[0], p[1]);
    }
  }

  /**
   * The worklist state of the impact search: `seen` is the target plus the
   * impacted services found so far, each with a path to the target, and
   * every dependent of a seen node that is no longer queued is seen.
   */
  ghost predicate ImpactState(adj: Adjacency, target: string, seen: set<string>, impacted: seq<string>,
                              queue: seq<string>, via: map<string, seq<string>>)
  {
    && NoDup(impacted) && target !in impacted
    && seen == Elems(impacted) + {target}
    && Elems(queue) <= seen
    && (forall v :: v in seen ==> v in via && LeadsTo(adj, via[v], v, target))
    && (forall u, x :: x in seen && x !in queue && HasEdge(adj, u, x) ==> u in seen)
  }

  /** Records the unseen dependents of the front node, in any order. */
  method AddDependents(adj: Adjacency, target: string, seen0: set<string>, impacted0: seq<string>,
                       queue0: seq<string>, ghost via0: map<string, seq<string>>, x: string)
    returns (seen: set<string>, impacted: seq<string>, queue: seq<string>, ghost via: map<string, seq<string>>)
    requires ImpactState(adj, target, seen0, impacted0, [x] + queue0, via0)
    ensures ImpactState(adj, target, seen, impacted, queue, via)
    ensures seen0 <= seen <= seen0 + adj.Keys
    ensures seen == seen0 ==> queue == queue0
    ensures seen != seen0 ==> seen0 < seen
  {
    assert x in Elems([x] + queue0);
    seen, impacted, queue, via := seen0, impacted0, queue0, via0;
    var unseen := Dependents(adj, x) - seen0;
    while unseen != {}
      invariant unseen <= Dependents(adj, x) && unseen !! seen
      invariant seen == seen0 + (Dependents(adj, x) - seen0 - unseen)
      invariant NoDup(impacted) && target !in impacted
      invariant seen == Elems(impacted) + {target}
      invariant Elems(queue) <= seen && Elems(queue0) <= Elems(queue)
      invariant |queue| >= |queue0| && queue[..|queue0|] == queue0
      invariant forall v :: v in seen && v !in seen0 ==> v in queue
      invariant forall v :: v in seen ==> v in via && LeadsTo(adj, via[v], v, target)
      invariant seen == seen0 ==> queue == queue0
      decreases unseen
    {
      var u :| u in unseen;
      SeeDependent(adj, target, x, seen, impacted, via, u);
      via := via[u := [u] + via[x]];
      impacted := impacted + [u];
      queue := queue + [u];
      seen := seen + {u};
      unseen := unseen - {u};
    }
    FrontDone(adj, target, x, seen0, queue0, seen, queue);
  }

  /** A path from x to the target, preceded by an edge u -> x, is a path from u. */
  lemma LeadsBack(adj: Adjacency, p: seq<string>, u: string, x: string, target: string)
    requires LeadsTo(adj, p, x, target) && HasEdge(adj, u, x)
    ensures LeadsTo(adj, [u] + p, u, target)
  {
    var q := [u] + p;
    forall i | 0 <= i < |q| - 1 ensures HasEdge(adj, q[i], q[i + 1]) {
      if i > 0 {
        assert q[i] == p[i - 1] && q[i + 1] == p[i];
      }
    }
  }

  /** Seeing a new dependent u of x records it once, with a path through x to the target. */
  lemma SeeDependent(adj: Adjacency, target: string, x: string, seen: set<string>, impacted: seq<string>,
                     via: map<string, seq<string>>, u: string)
    requires u !in seen && HasEdge(adj, u, x) && x in seen
    requires NoDup(impacted) && target !in impacted && seen == Elems(impacted) + {target}
    requires forall v :: v in seen ==> v in via && LeadsTo(adj, via[v], v, target)
    ensures NoDup(impacted + [u]) && target !in impacted + [u]
    ensures seen + {u} == Elems(impacted + [u]) + {target}
    ensures forall v :: v in seen + {u} ==> v in via[u := [u] + via[x]] && LeadsTo(adj, via[u := [u] + via[x]][v], v, target)
  {
    LeadsBack(adj, via[x], u, x, target);
    NoDupConcat(impacted, [u]);
    assert Elems(impacted + [u]) == Elems(impacted) + {u};
  }

  /** Once x's dependents are all seen, every dependent of a seen node that is no longer queued is seen. */
  lemma FrontDone(adj: Adjacency, target: string, x: string, seen0: set<string>, queue0: seq<string>,
                  seen: set<string>, queue: seq<string>)
    requires forall u, y :: y in seen0 && y !in [x] + queue0 && HasEdge(adj, u, y) ==> u in seen0
    requires Dependents(adj, x) <= seen && seen0 <= seen
    requires forall v :: v in seen && v !in seen0 ==> v in queue
    requires Elems(queue0) <= Elems(queue)
    ensures forall u, y :: y in seen && y !in queue && HasEdge(adj, u, y) ==> u in seen
  {
    forall u, y | y in seen && y !in queue && HasEdge(adj, u, y) ensures u in seen {
      if y == x {
        assert u in Dependents(adj, x);
      } else {
        assert y !in Elems(queue) && y !in Elems(queue0);
        assert y in seen0 && y !in queue0;
        assert y !in [x] + queue0;
      }
    }
  }

  /**
   * The services affected by a change to `target`: every service that
   * depends on it directly or through other services, the target itself
   * excluded, each listed once.
   */
  ghost predicate ImpactSpec(adj: Adjacency, target: string, impacted: seq<string>)
  {
    && NoDup(impacted) && target !in impacted
    && forall v :: v in impacted <==> v != target && Reaches(adj, v, target)
  }

  /** Reverse breadth-first search from the target along "depends on" edges. */
  method FindImpact(adj: Adjacency, target: string) returns (impacted: seq<string>)
    ensures ImpactSpec(adj, target, impacted)
  {
    impacted := [];
    var seen := {target};
    var queue := [target];
    ghost var via: map<string, seq<string>> := map[target := [target]];
    while queue != []
      invariant ImpactState(adj, target, seen, impacted, queue, via)
      invariant seen <= adj.Keys + {target}
      decreases adj.Keys + {target} - seen, |queue|
    {
      var x := queue[0];
      assert queue == [x] + queue[1..];
      seen, impacted, queue, via := AddDependents(adj, target, seen, impacted, queue[1..], via, x);
    }
    forall v | Reaches(adj, v, target) ensures v in seen {
      var p :| IsPath(adj, p) && p[0] == v && p[|p| - 1] == target;
      ClosedHoldsPathBack(adj, seen, p);
    }
    forall v | v in seen ensures Reaches(adj, v, target) {
      assert LeadsTo(adj, via[v], v, target);
    }
  }
}
