/**
 * Dependency ordering: the topological sort (Kahn's loop, then reversed so
 * that dependencies come first), cycle detection and cycle extraction, and
 * the dependency resolution that orders the transitive closure of a set of
 * services.
 */
module Ordering {
  import opened Wrappers
  import opened Messages
  import opened Graph
  import opened Seqs
  import opened Kahn

  /** No node of `order` depends, directly, on itself or on a node placed after it. */
  predicate DepsFirst(adj: Adjacency, order: seq<string>)
  {
    forall i, j :: 0 <= i <= j < |order| ==> !HasEdge(adj, order[i], order[j])
  }

  /** What the topological sort promises about its output. */
  ghost predicate SortSpec(adj: Adjacency, order: seq<string>)
  {
    && NoDup(order)
    && Elems(order) <= adj.Keys
    && DepsFirst(adj, order)
    && forall v :: v in adj && v !in order ==> Dependents(adj, v) - Elems(order) != {}
  }

  /** Reversing an output in which sources come first puts dependencies first. */
  lemma ReversedDepsFirst(adj: Adjacency, resolved: seq<string>)
    requires NoDup(resolved) && SourcesFirst(adj, resolved)
    ensures DepsFirst(adj, Reverse(resolved))
  {
    var n := |resolved|;
    var order := Reverse(resolved);
    forall i, j | 0 <= i <= j < n ensures !HasEdge(adj, order[i], order[j]) {
      var a, b := n - 1 - i, n - 1 - j;
      assert order[i] == resolved[a] && order[j] == resolved[b];
      assert forall k :: 0 <= k < b ==> resolved[..b][k] != resolved[a];
    }
  }

  /**
   * Kahn's loop followed by the reversal. Each node appears at most once, no
   * node precedes one of its dependencies, and a node is left out only when
   * another node left out depends on it.
   */
  method TopologicalSort(adj: Adjacency) returns (order: seq<string>)
    requires Closed(adj)
    ensures SortSpec(adj, order)
    ensures Elems(order) == adj.Keys <==> !HasCycle(adj)
  {
    var resolved := KahnOrder(adj);
    order := Reverse(resolved);
    ReverseElems(resolved);
    ReversedDepsFirst(adj, resolved);
    assert forall v :: v in order <==> v in resolved by {
      assert forall v :: v in order <==> v in Elems(order);
      assert forall v :: v in resolved <==> v in Elems(resolved);
    }
    assert Elems(order) == Elems(resolved);
    SortComplete(adj, order);
  }

  /** An edge between two ordered nodes goes from a later node to an earlier one. */
  lemma EdgeDescends(adj: Adjacency, order: seq<string>, u: string, v: string)
    requires DepsFirst(adj, order) && u in order && v in order && HasEdge(adj, u, v)
    ensures IndexOf(order, v) < IndexOf(order, u)
  {
    var i, j := IndexOf(order, u), IndexOf(order, v);
    assert !HasEdge(adj, order[i], order[j]) || j < i;
  }

  /** Along a path whose nodes are all ordered, positions strictly decrease. */
  lemma {:induction false} PathDescends(adj: Adjacency, order: seq<string>, p: seq<string>, k: nat)
    requires DepsFirst(adj, order) && IsPath(adj, p) && Elems(p) <= Elems(order)
    requires 1 <= k < |p|
    ensures p[0] in order && p[k] in order && IndexOf(order, p[k]) < IndexOf(order, p[0])
  {
    assert p[0] in Elems(p) && p[k - 1] in Elems(p) && p[k] in Elems(p);
    EdgeDescends(adj, order, p[k - 1], p[k]);
    if k > 1 {
      PathDescends(adj, order, p, k - 1);
    }
  }

  /** Every node of a path starting at an edge source is a node of a closed graph. */
  lemma PathNodes(adj: Adjacency, p: seq<string>)
    requires Closed(adj) && IsPath(adj, p) && |p| >= 2
    ensures Elems(p) <= adj.Keys
  {
    forall x | x in Elems(p) ensures x in adj {
      var i :| 0 <= i < |p| && p[i] == x;
      if i < |p| - 1 {
        assert HasEdge(adj, p[i], p[i + 1]);
      } else {
        assert HasEdge(adj, p[i - 1], p[i]);
        var k :| 0 <= k < |adj[p[i - 1]]| && adj[p[i - 1]][k].target == x;
      }
    }
  }

  /** A graph with an order that holds every node and puts dependencies first has no cycle. */
  lemma OrderedAcyclic(adj: Adjacency, order: seq<string>)
    requires Closed(adj) && DepsFirst(adj, order) && Elems(order) == adj.Keys
    ensures !HasCycle(adj)
  {
    forall p | IsCycle(adj, p) ensures false {
      PathNodes(adj, p);
      PathDescends(adj, order, p, |p| - 1);
    }
  }

  /**
   * A backward walk (each node has an edge into the one before it) closed by
   * a node `u` with an edge into its last node, where `u` already occurs at
   * position `i`: from `u` forwards through the walk in reverse is a cycle.
   */
  lemma CycleFromWalk(adj: Adjacency, walk: seq<string>, u: string, i: nat)
    requires |walk| >= 1 && i < |walk| && walk[i] == u
    requires forall k :: 0 <= k < |walk| - 1 ==> HasEdge(adj, walk[k + 1], walk[k])
    requires HasEdge(adj, u, walk[|walk| - 1])
    ensures IsCycle(adj, [u] + Reverse(walk[i..]))
    ensures Elems([u] + Reverse(walk[i..])) <= Elems(walk)
  {
    var cycle := [u] + Reverse(walk[i..]);
    forall m | 0 <= m < |cycle| - 1 ensures HasEdge(adj, cycle[m], cycle[m + 1]) {
      if m > 0 {
        assert cycle[m] == walk[|walk| - m] && cycle[m + 1] == walk[|walk| - m - 1];
      }
    }
    ReverseElems(walk[i..]);
    assert Elems(walk[i..]) <= Elems(walk);
  }

  /** Stepping back to a new dependent keeps the walk a duplicate-free backward walk inside the set. */
  lemma WalkExtends(adj: Adjacency, stuck: set<string>, walk: seq<string>, u: string)
    requires |walk| >= 1 && NoDup(walk) && Elems(walk) <= stuck && u !in walk
    requires forall k :: 0 <= k < |walk| - 1 ==> HasEdge(adj, walk[k + 1], walk[k])
    requires u in stuck && HasEdge(adj, u, walk[|walk| - 1])
    ensures NoDup(walk + [u]) && Elems(walk + [u]) <= stuck
    ensures stuck - Elems(walk + [u]) < stuck - Elems(walk)
    ensures forall k :: 0 <= k < |walk + [u]| - 1 ==> HasEdge(adj, (walk + [u])[k + 1], (walk + [u])[k])
  {
    NoDupConcat(walk, [u]);
    assert Elems(walk + [u]) == Elems(walk) + {u};
  }

  /**
   * Walks dependents backwards inside a set where every node has a
   * dependent, until a node repeats; the repeated stretch, read forwards,
   * is a cycle.
   */
  method FindCycle(adj: Adjacency, stuck: set<string>) returns (cycle: seq<string>)
    requires stuck != {}
    requires forall v :: v in stuck ==> Dependents(adj, v) * stuck != {}
    ensures IsCycle(adj, cycle) && Elems(cycle) <= stuck
  {
    var start :| start in stuck;
    var walk := [start];
    var u :| u in Dependents(adj, start) * stuck;
    while u !in walk
      invariant |walk| >= 1 && NoDup(walk) && Elems(walk) <= stuck
      invariant forall k :: 0 <= k < |walk| - 1 ==> HasEdge(adj, walk[k + 1], walk[k])
      invariant u in stuck && HasEdge(adj, u, walk[|walk| - 1])
      decreases stuck - Elems(walk)
    {
      WalkExtends(adj, stuck, walk, u);
      walk := walk + [u];
      u :| u in Dependents(adj, walk[|walk| - 1]) * stuck;
    }
    var i := IndexOf(walk, u);
    CycleFromWalk(adj, walk, u, i);
    cycle := [u] + Reverse(walk[i..]);
  }

  /**
   * The walk of FindCycle as a proof: continuing a backward walk inside a set
   * where every node has a dependent always closes a cycle.
   */
  lemma {:induction false} BlockedWalk(adj: Adjacency, stuck: set<string>, walk: seq<string>, u: string)
    requires forall v :: v in stuck ==> Dependents(adj, v) * stuck != {}
    requires |walk| >= 1 && NoDup(walk) && Elems(walk) <= stuck
    requires forall k :: 0 <= k < |walk| - 1 ==> HasEdge(adj, walk[k + 1], walk[k])
    requires u in stuck && HasEdge(adj, u, walk[|walk| - 1])
    ensures HasCycle(adj)
    decreases stuck - Elems(walk)
  {
    if u in walk {
      var i := IndexOf(walk, u);
      CycleFromWalk(adj, walk, u, i);
    } else {
      WalkExtends(adj, stuck, walk, u);
      var next :| next in Dependents(adj, u) * stuck;
      BlockedWalk(adj, stuck, walk + [u], next);
    }
  }

  /** A non-empty set in which every node has a dependent inside the set holds a cycle. */
  lemma BlockedHasCycle(adj: Adjacency, stuck: set<string>)
    requires stuck != {}
    requires forall v :: v in stuck ==> Dependents(adj, v) * stuck != {}
    ensures HasCycle(adj)
  {
    var start :| start in stuck;
    var u :| u in Dependents(adj, start) * stuck;
    BlockedWalk(adj, stuck, [start], u);
  }

  /** The sort places every node exactly when the graph has no cycle. */
  lemma SortComplete(adj: Adjacency, order: seq<string>)
    requires Closed(adj) && SortSpec(adj, order)
    ensures Elems(order) == adj.Keys <==> !HasCycle(adj)
  {
    var stuck := adj.Keys - Elems(order);
    if stuck == {} {
      OrderedAcyclic(adj, order);
    } else {
      StuckBlocked(adj, order);
      BlockedHasCycle(adj, stuck);
    }
  }

  /** The cycle report: the path, and the finding that describes it. */
  datatype CycleInfo = CycleInfo(cyclePath: seq<string>, description: Message)

  /**
   * What cycle detection promises: a report exactly when the graph has a
   * cycle, and a reported path is a cycle of the graph.
   */
  ghost predicate DetectSpec(adj: Adjacency, r: Option<CycleInfo>)
  {
    && (r.Some? <==> HasCycle(adj))
    && (r.Some? ==> IsCycle(adj, r.value.cyclePath) && r.value.description == CircularDependency(r.value.cyclePath))
  }

  /** Sorts the graph; the nodes the sort cannot place hold a cycle, which is reported. */
  method DetectCycles(adj: Adjacency) returns (r: Option<CycleInfo>)
    requires Closed(adj)
    ensures DetectSpec(adj, r)
  {
    var order := TopologicalSort(adj);
    var stuck := adj.Keys - Elems(order);
    if stuck == {} {
      OrderedAcyclic(adj, order);
      r := None;
    } else {
      StuckBlocked(adj, order);
      var cycle := FindCycle(adj, stuck);
      r := Some(CycleInfo(cycle, CircularDependency(cycle)));
    }
  }

  /** `p` is a path from one of the roots to v. */
  predicate Witness(adj: Adjacency, roots: seq<string>, p: seq<string>, v: string)
  {
    IsPath(adj, p) && p[0] in roots && p[|p| - 1] == v
  }

  /** v is reachable from one of the roots (the roots themselves included). */
  ghost predicate ReachableFrom(adj: Adjacency, roots: seq<string>, v: string)
  {
    exists p :: Witness(adj, roots, p, v)
  }

  /** A set that holds the targets of all its nodes' edges. */
  ghost predicate SuccessorClosed(adj: Adjacency, s: set<string>)
  {
    forall x, v :: x in s && HasEdge(adj, x, v) ==> v in s
  }

  /** A successor-closed set holding the start of a path holds all of it. */
  lemma {:induction false} ClosedHoldsPath(adj: Adjacency, s: set<string>, p: seq<string>)
    requires SuccessorClosed(adj, s) && IsPath(adj, p) && p[0] in s
    ensures Elems(p) <= s
  {
    if |p| > 1 {
      var q := p[..|p| - 1];
      assert IsPath(adj, q);
      ClosedHoldsPath(adj, s, q);
      assert p[|p| - 2] in Elems(q);
      assert Elems(p) == Elems(q) + {p[|p| - 1]};
    }
  }

  /** A successor-closed set holding the roots holds everything reachable from them. */
  lemma ClosedHoldsReachable(adj: Adjacency, roots: seq<string>, s: set<string>)
    requires SuccessorClosed(adj, s) && Elems(roots) <= s
    ensures forall v :: ReachableFrom(adj, roots, v) ==> v in s
  {
    forall v | ReachableFrom(adj, roots, v) ensures v in s {
      var p :| Witness(adj, roots, p, v);
      ClosedHoldsPath(adj, s, p);
      assert p[|p| - 1] in Elems(p);
    }
  }

  /** Adds a witness path for every target of x's edges that has none yet. */
  ghost function ExtendWitnesses(adj: Adjacency, via: map<string, seq<string>>, x: string): (via': map<string, seq<string>>)
    requires x in via && x in adj
    ensures via'.Keys == via.Keys + Elems(Targets(adj[x]))
    ensures forall v :: v in via ==> via'[v] == via[v]
    ensures forall v :: v in via' && v !in via ==> via'[v] == via[x] + [v]
  {
    var ts := Elems(Targets(adj[x]));
    map v | v in via.Keys + ts :: if v in via then via[v] else via[x] + [v]
  }

  /**
   * The worklist state of the closure: every visited or pending node has a
   * witness path from a root, every edge of a visited node leads to a
   * visited or pending node, and every root is visited or pending.
   */
  ghost predicate ClosureState(adj: Adjacency, roots: seq<string>, reach: set<string>, work: seq<string>,
                           via: map<string, seq<string>>)
  {
    && reach <= adj.Keys && Elems(work) <= adj.Keys
    && (forall v :: v in reach || v in work ==> v in via)
    && (forall v :: v in via ==> Witness(adj, roots, via[v], v))
    && (forall x, v :: x in reach && HasEdge(adj, x, v) ==> v in reach || v in work)
    && (forall r :: r in roots ==> r in reach || r in work)
  }

  /** A witness path to x extends along an edge x -> v to a witness path to v. */
  lemma WitnessExtends(adj: Adjacency, roots: seq<string>, p: seq<string>, x: string, v: string)
    requires Witness(adj, roots, p, x) && HasEdge(adj, x, v)
    ensures Witness(adj, roots, p + [v], v)
  {
    var q := p + [v];
    forall i | 0 <= i < |q| - 1 ensures HasEdge(adj, q[i], q[i + 1]) {
      if i < |p| - 1 {
        assert q[i] == p[i] && q[i + 1] == p[i + 1];
      }
    }
  }

  /** A node is in a non-empty worklist when it is the front or in the rest. */
  lemma FrontOrRest(work: seq<string>)
    requires work != []
    ensures forall v :: v in work <==> v == work[0] || v in work[1..]
  {
    assert work == [work[0]] + work[1..];
  }

  /** The targets of x's edges are nodes, each the end of an edge from x. */
  lemma TargetsAreSuccessors(adj: Adjacency, x: string)
    requires Closed(adj) && x in adj
    ensures forall v :: v in Targets(adj[x]) ==> v in adj && HasEdge(adj, x, v)
  {
    forall v | v in Targets(adj[x]) ensures v in adj {
      var k :| 0 <= k < |adj[x]| && Targets(adj[x])[k] == v;
    }
  }

  /** After the visit every edge of a visited node still leads to a visited or pending node. */
  lemma VisitEdges(adj: Adjacency, reach: set<string>, work: seq<string>)
    requires work != [] && work[0] in adj
    requires forall u, v :: u in reach && HasEdge(adj, u, v) ==> v in reach || v in work
    ensures forall u, v :: u in reach + {work[0]} && HasEdge(adj, u, v) ==>
      v in reach + {work[0]} || v in work[1..] + Targets(adj[work[0]])
  {
    FrontOrRest(work);
  }

  /** After the visit every root is still visited or pending. */
  lemma VisitRoots(roots: seq<string>, reach: set<string>, work: seq<string>, ts: seq<string>)
    requires work != []
    requires forall r :: r in roots ==> r in reach || r in work
    ensures forall r :: r in roots ==> r in reach + {work[0]} || r in work[1..] + ts
  {
    FrontOrRest(work);
  }

  /** The extended witnesses cover the visited and pending nodes, and are all witness paths. */
  lemma VisitWitnesses(adj: Adjacency, roots: seq<string>, reach: set<string>, work: seq<string>,
                       via: map<string, seq<string>>)
    requires Closed(adj) && work != [] && work[0] in adj && work[0] in via
    requires forall v :: v in reach || v in work ==> v in via
    requires forall v :: v in via ==> Witness(adj, roots, via[v], v)
    ensures var via' := ExtendWitnesses(adj, via, work[0]);
      && (forall v :: v in reach + {work[0]} || v in work[1..] + Targets(adj[work[0]]) ==> v in via')
      && (forall v :: v in via' ==> Witness(adj, roots, via'[v], v))
  {
    var x := work[0];
    var via' := ExtendWitnesses(adj, via, x);
    FrontOrRest(work);
    TargetsAreSuccessors(adj, x);
    forall v | v in via' ensures Witness(adj, roots, via'[v], v) {
      if v !in via {
        WitnessExtends(adj, roots, via[x], x, v);
      }
    }
  }

  /** Visiting the front node of the worklist keeps the state. */
  lemma VisitStep(adj: Adjacency, roots: seq<string>, reach: set<string>, work: seq<string>,
                  via: map<string, seq<string>>)
    requires Closed(adj) && work != [] && work[0] !in reach
    requires ClosureState(adj, roots, reach, work, via)
    ensures work[0] in adj && work[0] in via
    ensures ClosureState(adj, roots, reach + {work[0]}, work[1..] + Targets(adj[work[0]]),
                     ExtendWitnesses(adj, via, work[0]))
  {
    var x := work[0];
    assert x in Elems(work);
    FrontOrRest(work);
    TargetsAreSuccessors(adj, x);
    VisitEdges(adj, reach, work);
    VisitRoots(roots, reach, work, Targets(adj[x]));
    VisitWitnesses(adj, roots, reach, work, via);
  }

  /** Skipping an already visited front node keeps the state. */
  lemma SkipStep(adj: Adjacency, roots: seq<string>, reach: set<string>, work: seq<string>,
                 via: map<string, seq<string>>)
    requires work != [] && work[0] in reach
    requires ClosureState(adj, roots, reach, work, via)
    ensures ClosureState(adj, roots, reach, work[1..], via)
  {
    assert forall v :: v in work <==> v == work[0] || v in work[1..];
  }

  /**
   * The transitive closure of the roots under "depends on", by a worklist:
   * exactly the nodes reachable from a root.
   */
  method Closure(adj: Adjacency, roots: seq<string>) returns (reach: set<string>)
    requires Closed(adj) && Elems(roots) <= adj.Keys
    ensures reach <= adj.Keys && SuccessorClosed(adj, reach)
    ensures forall v :: v in reach <==> ReachableFrom(adj, roots, v)
  {
    reach := {};
    var work := roots;
    ghost var via: map<string, seq<string>> := map r | r in Elems(roots) :: [r];
    while work != []
      invariant ClosureState(adj, roots, reach, work, via)
      decreases adj.Keys - reach, |work|
    {
      if work[0] !in reach {
        VisitStep(adj, roots, reach, work, via);
        via := ExtendWitnesses(adj, via, work[0]);
        reach, work := reach + {work[0]}, work[1..] + Targets(adj[work[0]]);
      } else {
        SkipStep(adj, roots, reach, work, via);
        work := work[1..];
      }
    }
    ClosedHoldsReachable(adj, roots, reach);
  }

  /** The graph restricted to a set of its nodes, each keeping all its edges. */
  function Restrict(adj: Adjacency, s: set<string>): (sub: Adjacency)
    requires s <= adj.Keys
    ensures sub.Keys == s && forall n :: n in s ==> sub[n] == adj[n]
  {
    map n | n in s :: adj[n]
  }

  /** Restricting to a successor-closed set keeps the graph closed and keeps exactly the set's edges. */
  lemma RestrictEdges(adj: Adjacency, s: set<string>)
    requires s <= adj.Keys && SuccessorClosed(adj, s)
    ensures Closed(Restrict(adj, s))
    ensures forall u, v :: HasEdge(Restrict(adj, s), u, v) <==> u in s && HasEdge(adj, u, v)
  {
    var sub: Adjacency := Restrict(adj, s);
    forall u: string, k: int | u in sub && 0 <= k < |sub[u]| ensures sub[u][k].target in sub {
      assert HasEdge(adj, u, Targets(adj[u])[k]);
    }
  }

  /** An order of the restriction that puts dependencies first does so in the whole graph. */
  lemma DepsFirstLifts(adj: Adjacency, s: set<string>, order: seq<string>)
    requires s <= adj.Keys && SuccessorClosed(adj, s)
    requires DepsFirst(Restrict(adj, s), order) && Elems(order) <= s
    ensures DepsFirst(adj, order)
  {
    RestrictEdges(adj, s);
    forall i, j | 0 <= i <= j < |order| ensures !HasEdge(adj, order[i], order[j]) {
      assert order[i] in Elems(order);
    }
  }

  /** A cycle of the restriction is a cycle of the whole graph. */
  lemma CycleInRestriction(adj: Adjacency, s: set<string>, cycle: seq<string>)
    requires s <= adj.Keys && SuccessorClosed(adj, s)
    requires IsCycle(Restrict(adj, s), cycle)
    ensures IsCycle(adj, cycle)
  {
    RestrictEdges(adj, s);
  }

  /** Some cycle passes through a node reachable from the roots. */
  ghost predicate CycleFrom(adj: Adjacency, roots: seq<string>)
  {
    exists p :: IsCycle(adj, p) && ReachableFrom(adj, roots, p[0])
  }

  /** When the restriction to the reachable nodes has no cycle, no cycle is reachable. */
  lemma NoCycleFromReach(adj: Adjacency, roots: seq<string>, reach: set<string>)
    requires reach <= adj.Keys && SuccessorClosed(adj, reach)
    requires forall v :: v in reach <==> ReachableFrom(adj, roots, v)
    requires !HasCycle(Restrict(adj, reach))
    ensures !CycleFrom(adj, roots)
  {
    RestrictEdges(adj, reach);
    forall p | IsCycle(adj, p) && ReachableFrom(adj, roots, p[0]) ensures IsCycle(Restrict(adj, reach), p) {
      ClosedHoldsPath(adj, reach, p);
      forall i | 0 <= i < |p| - 1 ensures HasEdge(Restrict(adj, reach), p[i], p[i + 1]) {
        assert p[i] in Elems(p);
      }
    }
  }

  /**
   * What resolving a list of services promises: an unknown service is a
   * configuration error naming it; otherwise the result is an error exactly
   * when a cycle is reachable, the error carrying such a cycle, and an order
   * of exactly the reachable services, dependencies first, each once.
   */
  ghost predicate ResolveSpec(adj: Adjacency, roots: seq<string>, r: Result<seq<string>, Error>)
  {
    && (r.Err? ==> r.error.Config? || r.error.ServiceFailure?)
    && ((exists n :: n in roots && n !in adj) <==> r.Err? && r.error.Config?)
    && (r.Err? && r.error.Config? ==>
          r.error.reason.ServiceNotFound? && r.error.reason.name in roots && r.error.reason.name !in adj)
    && (r.Err? && r.error.ServiceFailure? ==>
          && r.error.cause.CircularDependency?
          && IsCycle(adj, r.error.cause.path)
          && forall v :: v in r.error.cause.path ==> ReachableFrom(adj, roots, v))
    && (r.Ok? ==>
          && NoDup(r.value)
          && DepsFirst(adj, r.value)
          && forall v :: v in r.value <==> ReachableFrom(adj, roots, v))
    && (Elems(roots) <= adj.Keys ==> (r.Ok? <==> !CycleFrom(adj, roots)))
  }

  /** An order of exactly the reachable nodes, without cycles, meets the resolution promise. */
  lemma ResolvedOk(adj: Adjacency, roots: seq<string>, reach: set<string>, order: seq<string>)
    requires Elems(roots) <= adj.Keys && reach <= adj.Keys && SuccessorClosed(adj, reach)
    requires forall v :: v in reach <==> ReachableFrom(adj, roots, v)
    requires SortSpec(Restrict(adj, reach), order) && Elems(order) == reach
    ensures ResolveSpec(adj, roots, Ok(order))
  {
    RestrictEdges(adj, reach);
    OrderedAcyclic(Restrict(adj, reach), order);
    NoCycleFromReach(adj, roots, reach);
    DepsFirstLifts(adj, reach, order);
    assert forall v :: v in order <==> v in reach by {
      assert forall v :: v in order <==> v in Elems(order);
    }
  }

  /** A cycle among the reachable nodes meets the resolution promise for a cycle error. */
  lemma ResolvedCycle(adj: Adjacency, roots: seq<string>, reach: set<string>, cycle: seq<string>)
    requires Elems(roots) <= adj.Keys && reach <= adj.Keys && SuccessorClosed(adj, reach)
    requires forall v :: v in reach <==> ReachableFrom(adj, roots, v)
    requires IsCycle(Restrict(adj, reach), cycle) && Elems(cycle) <= reach
    ensures ResolveSpec(adj, roots, Err(ServiceFailure(CircularDependency(cycle))))
  {
    CycleInRestriction(adj, reach, cycle);
    assert cycle[0] in Elems(cycle);
    forall v | v in cycle ensures ReachableFrom(adj, roots, v) {
      assert v in Elems(cycle);
    }
  }

  /** Every node a sort leaves out has a dependent that was left out too. */
  lemma StuckBlocked(adj: Adjacency, order: seq<string>)
    requires SortSpec(adj, order)
    ensures forall v :: v in adj.Keys - Elems(order) ==> Dependents(adj, v) * (adj.Keys - Elems(order)) != {}
  {
    forall v | v in adj.Keys - Elems(order) ensures Dependents(adj, v) * (adj.Keys - Elems(order)) != {} {
      var u :| u in Dependents(adj, v) - Elems(order);
      assert u in Dependents(adj, v) * (adj.Keys - Elems(order));
    }
  }

  /** Orders the closure of known roots, or reports a cycle inside it. */
  method OrderClosure(adj: Adjacency, roots: seq<string>) returns (r: Result<seq<string>, Error>)
    requires Closed(adj) && Elems(roots) <= adj.Keys
    ensures ResolveSpec(adj, roots, r)
  {
    var reach := Closure(adj, roots);
    var sub := Restrict(adj, reach);
    RestrictEdges(adj, reach);
    var order := TopologicalSort(sub);
    var stuck := sub.Keys - Elems(order);
    if stuck == {} {
      ResolvedOk(adj, roots, reach, order);
      r := Ok(order);
    } else {
      r := ReportStuck(adj, roots, reach, order);
    }
  }

  /** Reports a cycle among the nodes of the closure that the sort left out. */
  method ReportStuck(adj: Adjacency, roots: seq<string>, reach: set<string>, order: seq<string>)
    returns (r: Result<seq<string>, Error>)
    requires Elems(roots) <= adj.Keys && reach <= adj.Keys && SuccessorClosed(adj, reach)
    requires forall v :: v in reach <==> ReachableFrom(adj, roots, v)
    requires SortSpec(Restrict(adj, reach), order) && reach - Elems(order) != {}
    ensures ResolveSpec(adj, roots, r)
  {
    var sub := Restrict(adj, reach);
    StuckBlocked(sub, order);
    var cycle := FindCycle(sub, sub.Keys - Elems(order));
    ResolvedCycle(adj, roots, reach, cycle);
    r := Err(ServiceFailure(CircularDependency(cycle)));
  }

  /**
   * Resolves the services to start for the given names: checks each name,
   * takes the transitive closure, sorts it topologically and reports a
   * cycle when the sort cannot place every service.
   */
  method ResolveOrder(adj: Adjacency, roots: seq<string>) returns (r: Result<seq<string>, Error>)
    requires Closed(adj)
    ensures ResolveSpec(adj, roots, r)
  {
    var i := 0;
    while i < |roots|
      invariant 0 <= i <= |roots|
      invariant forall k :: 0 <= k < i ==> roots[k] in adj
    {
      if roots[i] !in adj {
        return Err(Config(ServiceNotFound(roots[i])));
      }
      i := i + 1;
    }
    r := OrderClosure(adj, roots);
  }

  /**
   * For a single service whose closure is acyclic, the service itself comes
   * last in the start order and first in the stop order, which is the start
   * order reversed and holds the same services.
   */
  lemma RootLastInStartOrder(adj: Adjacency, root: string, order: seq<string>)
    requires root in adj && ResolveSpec(adj, [root], Ok(order))
    ensures |order| > 0 && order[|order| - 1] == root
    ensures var stop := Reverse(order); |stop| == |order| && stop[0] == root && Elems(stop) == Elems(order)
  {
    assert Witness(adj, [root], [root], root);
    assert ReachableFrom(adj, [root], root);
    assert root in order;
    var n := |order|;
    var v := order[n - 1];
    if v != root {
      assert ReachableFrom(adj, [root], v);
      var p :| Witness(adj, [root], p, v);
      forall k | 0 <= k < |p| ensures p[k] in order {
        var q := p[..k + 1];
        assert forall i :: 0 <= i < |q| ==> q[i] == p[i];
        assert Witness(adj, [root], q, p[k]);
      }
      PathDescends(adj, order, p, |p| - 1);
    }
    ReverseElems(order);
  }

  /** In a closed graph, whatever is reachable from known roots is a node. */
  lemma ReachableIsNode(adj: Adjacency, roots: seq<string>, v: string)
    requires Closed(adj) && Elems(roots) <= adj.Keys && ReachableFrom(adj, roots, v)
    ensures v in adj
  {
    var p :| Witness(adj, roots, p, v);
    if |p| >= 2 {
      PathNodes(adj, p);
      assert p[|p| - 1] in Elems(p);
    } else {
      assert p[0] in Elems(roots);
    }
  }

  /** In a graph without cycles, resolving known services succeeds with exactly the reachable ones. */
  lemma AcyclicResolves(adj: Adjacency, roots: seq<string>, r: Result<seq<string>, Error>)
    requires Elems(roots) <= adj.Keys && !HasCycle(adj) && ResolveSpec(adj, roots, r)
    ensures r.Ok? && NoDup(r.value) && DepsFirst(adj, r.value)
    ensures forall v :: v in r.value <==> ReachableFrom(adj, roots, v)
  {
  }

  /** Resolving no services gives the empty order. */
  lemma ResolveNothing(adj: Adjacency, r: Result<seq<string>, Error>)
    requires ResolveSpec(adj, [], r)
    ensures r == Ok([])
  {
    assert !CycleFrom(adj, []);
    NoDupCard(r.value);
    assert Elems(r.value) == {};
  }

  /** Resolving a single unknown service is the configuration error naming it. */
  lemma ResolveUnknown(adj: Adjacency, name: string, r: Result<seq<string>, Error>)
    requires name !in adj && ResolveSpec(adj, [name], r)
    ensures r == Err(Config(ServiceNotFound(name)))
  {
    assert name in [name];
  }

  /** Along a path, a rank that every edge strictly lowers strictly drops. */
  lemma {:induction false} RankDescends(adj: Adjacency, rank: map<string, nat>, p: seq<string>, k: nat)
    requires forall u, v :: HasEdge(adj, u, v) ==> u in rank && v in rank && rank[v] < rank[u]
    requires IsPath(adj, p) && 1 <= k < |p|
    ensures p[0] in rank && p[k] in rank && rank[p[k]] < rank[p[0]]
  {
    assert HasEdge(adj, p[k - 1], p[k]);
    if k > 1 {
      RankDescends(adj, rank, p, k - 1);
    }
  }

  /** A graph whose edges all lower some rank has no cycle. */
  lemma RankedAcyclic(adj: Adjacency, rank: map<string, nat>)
    requires forall u, v :: HasEdge(adj, u, v) ==> u in rank && v in rank && rank[v] < rank[u]
    ensures !HasCycle(adj)
  {
    forall p | IsCycle(adj, p) ensures false {
      RankDescends(adj, rank, p, |p| - 1);
    }
  }
}
