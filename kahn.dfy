/**
 * Kahn's in-degree topological sort over a dependency graph, followed by
 * the reversal that puts dependencies before their dependents.
 */
module Kahn {
  import opened Graph
  import opened Seqs
  import opened InDegree

  /**
   * The in-degree map counts, for every node, the edges into it from the
   * nodes not yet output, plus the edges of `rest` (the part of the current
   * node's list not yet walked).
   */
  ghost predicate Counts(adj: Adjacency, inDeg: map<string, nat>, resolved: seq<string>, rest: seq<string>)
  {
    && inDeg.Keys == adj.Keys
    && Elems(resolved) <= adj.Keys
    && forall v :: v in adj ==> inDeg[v] == InDeg(adj, adj.Keys - Elems(resolved), v) + multiset(rest)[v]
  }

  /**
   * Output and queue never repeat a node, a node is output or queued exactly
   * when its count is zero, and a queued node's dependents are all output.
   */
  ghost predicate Frontier(adj: Adjacency, inDeg: map<string, nat>, queue: seq<string>, resolved: seq<string>)
    requires inDeg.Keys == adj.Keys
  {
    && NoDup(resolved + queue)
    && Elems(queue) <= adj.Keys
    && (forall v :: v in adj ==> (v in resolved || v in queue <==> inDeg[v] == 0))
    && (forall v, u :: v in queue && HasEdge(adj, u, v) ==> u in resolved)
  }

  /** Every node of `order` comes after all nodes with an edge into it. */
  ghost predicate SourcesFirst(adj: Adjacency, order: seq<string>)
  {
    forall i, u :: 0 <= i < |order| && HasEdge(adj, u, order[i]) ==> u in order[..i]
  }

  /** A zero entry for every node of the graph. */
  method ZeroDegrees(adj: Adjacency) returns (inDeg: map<string, nat>)
    ensures inDeg.Keys == adj.Keys
    ensures forall v :: v in inDeg ==> inDeg[v] == 0
  {
    inDeg := map[];
    var pending := adj.Keys;
    while pending != {}
      invariant pending <= adj.Keys
      invariant inDeg.Keys == adj.Keys - pending
      invariant forall v :: v in inDeg ==> inDeg[v] == 0
      decreases pending
    {
      var n :| n in pending;
      inDeg := inDeg[n := 0];
      pending := pending - {n};
    }
  }

  /** Adds one to the in-degree of the target of each edge leaving `u`. */
  method CountEdgesOf(adj: Adjacency, inDeg0: map<string, nat>, ghost done: set<string>, u: string)
    returns (inDeg: map<string, nat>)
    requires Closed(adj) && done <= adj.Keys && u in adj && u !in done
    requires inDeg0.Keys == adj.Keys
    requires forall v :: v in adj ==> inDeg0[v] == InDeg(adj, done, v)
    ensures inDeg.Keys == adj.Keys
    ensures forall v :: v in adj ==> inDeg[v] == InDeg(adj, done + {u}, v)
  {
    inDeg := inDeg0;
    var es := adj[u];
    var j := 0;
    while j < |es|
      invariant 0 <= j <= |es|
      invariant inDeg.Keys == adj.Keys
      invariant forall v :: v in adj ==> inDeg[v] == InDeg(adj, done, v) + multiset(Targets(es)[..j])[v]
    {
      var t := es[j].target;
      assert Targets(es)[..j + 1] == Targets(es)[..j] + [t];
      var c := if t in inDeg then inDeg[t] else 0;
      inDeg := inDeg[t := c + 1];
      j := j + 1;
    }
    assert Targets(es)[..j] == Targets(es);
    forall v | v in adj ensures inDeg[v] == InDeg(adj, done + {u}, v) {
      InDegAdd(adj, done, u, v);
    }
  }

  /** Every in-degree starts at zero and grows by one per edge into the node, duplicates included. */
  method InitInDegrees(adj: Adjacency) returns (inDeg: map<string, nat>)
    requires Closed(adj)
    ensures Counts(adj, inDeg, [], [])
  {
    inDeg := ZeroDegrees(adj);
    ghost var done: set<string> := {};
    var pending := adj.Keys;
    while pending != {}
      invariant pending <= adj.Keys && done == adj.Keys - pending
      invariant inDeg.Keys == adj.Keys
      invariant forall v :: v in adj ==> inDeg[v] == InDeg(adj, done, v)
      decreases pending
    {
      var u :| u in pending;
      inDeg := CountEdgesOf(adj, inDeg, done, u);
      done := done + {u};
      pending := pending - {u};
    }
    ghost var none: seq<string> := [];
    assert adj.Keys - Elems(none) == done;
  }

  /** The nodes whose in-degree is zero, each once. */
  method SeedQueue(adj: Adjacency, inDeg: map<string, nat>) returns (queue: seq<string>)
    requires inDeg.Keys == adj.Keys
    ensures NoDup(queue) && Elems(queue) <= adj.Keys
    ensures forall v :: v in adj ==> (v in queue <==> inDeg[v] == 0)
  {
    queue := [];
    var pending := inDeg.Keys;
    while pending != {}
      invariant pending <= inDeg.Keys
      invariant NoDup(queue) && Elems(queue) <= adj.Keys - pending
      invariant forall v :: v in adj - pending ==> (v in queue <==> inDeg[v] == 0)
      decreases pending
    {
      var n :| n in pending;
      if inDeg[n] == 0 {
        queue := queue + [n];
      }
      pending := pending - {n};
    }
  }

  /**
   * The first of the edges still to walk, out of a node just resolved: the
   * target's count drops by one, and a target whose count reaches zero joins
   * the back of the queue.
   */
  method ReleaseEdge(adj: Adjacency, inDeg0: map<string, nat>, queue0: seq<string>, resolved: seq<string>,
                     pending: seq<string>)
    returns (inDeg: map<string, nat>, queue: seq<string>)
    requires pending != []
    requires Counts(adj, inDeg0, resolved, pending)
    requires Frontier(adj, inDeg0, queue0, resolved)
    ensures Counts(adj, inDeg, resolved, pending[1..])
    ensures Frontier(adj, inDeg, queue, resolved)
  {
    var t := pending[0];
    assert pending == [t] + pending[1..];
    inDeg, queue := inDeg0, queue0;
    if t in inDeg {
      assert inDeg[t] > 0;
      inDeg := inDeg[t := inDeg[t] - 1];
      if inDeg[t] == 0 {
        InDegZero(adj, adj.Keys - Elems(resolved), t);
        NoDupConcat(resolved + queue, [t]);
        assert resolved + queue + [t] == resolved + (queue + [t]);
        queue := queue + [t];
      }
    }
  }

  /** Outputs every edge of a node just resolved, in list order. */
  method ReleaseEdges(adj: Adjacency, inDeg0: map<string, nat>, queue0: seq<string>, resolved: seq<string>, node: string)
    returns (inDeg: map<string, nat>, queue: seq<string>)
    requires node in adj
    requires Counts(adj, inDeg0, resolved, Targets(adj[node]))
    requires Frontier(adj, inDeg0, queue0, resolved)
    ensures Counts(adj, inDeg, resolved, [])
    ensures Frontier(adj, inDeg, queue, resolved)
  {
    inDeg, queue := inDeg0, queue0;
    var pending := Targets(adj[node]);
    while pending != []
      invariant Counts(adj, inDeg, resolved, pending)
      invariant Frontier(adj, inDeg, queue, resolved)
      decreases |pending|
    {
      inDeg, queue := ReleaseEdge(adj, inDeg, queue, resolved, pending);
      pending := pending[1..];
    }
  }

  /** Takes the node at the front of the queue and appends it to the output. */
  method OutputFront(adj: Adjacency, inDeg: map<string, nat>, queue0: seq<string>, resolved0: seq<string>)
    returns (node: string, queue: seq<string>, resolved: seq<string>)
    requires queue0 != []
    requires Counts(adj, inDeg, resolved0, [])
    requires Frontier(adj, inDeg, queue0, resolved0)
    requires SourcesFirst(adj, resolved0)
    ensures node == queue0[0] && node in adj && node !in resolved0
    ensures queue == queue0[1..] && resolved == resolved0 + [node]
    ensures Elems(resolved) == Elems(resolved0) + {node}
    ensures Counts(adj, inDeg, resolved, Targets(adj[node]))
    ensures Frontier(adj, inDeg, queue, resolved)
    ensures SourcesFirst(adj, resolved)
  {
    node := queue0[0];
    ghost var unresolved := adj.Keys - Elems(resolved0);
    NoDupConcat(resolved0, queue0);
    assert node in Elems(queue0);
    assert resolved0 + queue0 == (resolved0 + [node]) + queue0[1..];
    queue := queue0[1..];
    resolved := resolved0 + [node];
    forall v | v in adj
      ensures inDeg[v] == InDeg(adj, adj.Keys - Elems(resolved), v) + multiset(Targets(adj[node]))[v]
    {
      InDegRemove(adj, unresolved, node, v);
      assert unresolved - {node} == adj.Keys - Elems(resolved);
    }
    assert resolved[..|resolved0|] == resolved0;
  }

  /**
   * The in-degree loop: nodes are output in queue order. The result never
   * repeats a node, every node comes after all nodes with an edge into it,
   * and every node left out has an edge into it from another node left out.
   */
  method KahnOrder(adj: Adjacency) returns (resolved: seq<string>)
    requires Closed(adj)
    ensures NoDup(resolved) && Elems(resolved) <= adj.Keys
    ensures SourcesFirst(adj, resolved)
    ensures forall v :: v in adj && v !in resolved ==> Dependents(adj, v) - Elems(resolved) != {}
  {
    var inDeg := InitInDegrees(adj);
    var queue := SeedQueue(adj, inDeg);
    resolved := [];
    assert adj.Keys - Elems(resolved) == adj.Keys;
    forall v, u | v in queue && HasEdge(adj, u, v) ensures false {
      InDegZero(adj, adj.Keys, v);
    }
    while queue != []
      invariant Counts(adj, inDeg, resolved, [])
      invariant Frontier(adj, inDeg, queue, resolved)
      invariant SourcesFirst(adj, resolved)
      decreases adj.Keys - Elems(resolved)
    {
      ghost var before := adj.Keys - Elems(resolved);
      var node;
      node, queue, resolved := OutputFront(adj, inDeg, queue, resolved);
      assert adj.Keys - Elems(resolved) == before - {node} < before;
      inDeg, queue := ReleaseEdges(adj, inDeg, queue, resolved, node);
    }
    assert resolved + queue == resolved;
    forall v | v in adj && v !in resolved
      ensures Dependents(adj, v) - Elems(resolved) != {}
    {
      InDegZero(adj, adj.Keys - Elems(resolved), v);
      var u :| u in adj - Elems(resolved) && HasEdge(adj, u, v);
      assert u in Dependents(adj, v) - Elems(resolved);
    }
  }
}
