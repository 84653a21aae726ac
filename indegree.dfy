/**
 * In-degree accounting for Kahn's sort: the number of edges into a node
 * from a set of source nodes, counting duplicate edges once each.
 */
module InDegree {
  import opened Graph

  /** How many edges of u's list lead to v. */
  function Occ(adj: Adjacency, u: string, v: string): nat
    requires u in adj
  {
    multiset(Targets(adj[u]))[v]
  }

  lemma OccEdge(adj: Adjacency, u: string, v: string)
    requires u in adj
    ensures Occ(adj, u, v) > 0 <==> HasEdge(adj, u, v)
  {
  }

  ghost function Pick(s: set<string>): string
    requires s != {}
  {
    var x :| x in s; x
  }

  /** The number of edges into v whose source is in `sources`. */
  ghost function InDeg(adj: Adjacency, sources: set<string>, v: string): nat
    requires sources <= adj.Keys
    decreases sources
  {
    if sources == {} then 0
    else
      var u := Pick(sources);
      Occ(adj, u, v) + InDeg(adj, sources - {u}, v)
  }

  /** Any source can be taken out first. */
  lemma {:induction false} InDegRemove(adj: Adjacency, sources: set<string>, x: string, v: string)
    requires sources <= adj.Keys && x in sources
    ensures InDeg(adj, sources, v) == Occ(adj, x, v) + InDeg(adj, sources - {x}, v)
    decreases sources
  {
    var u := Pick(sources);
    if u != x {
      InDegRemove(adj, sources - {u}, x, v);
      InDegRemove(adj, sources - {x}, u, v);
      assert sources - {u} - {x} == sources - {x} - {u};
    }
  }

  /** In-degree zero means no edge from any of the sources. */
  lemma {:induction false} InDegZero(adj: Adjacency, sources: set<string>, v: string)
    requires sources <= adj.Keys
    ensures InDeg(adj, sources, v) == 0 <==> forall u :: u in sources ==> !HasEdge(adj, u, v)
    decreases sources
  {
    if sources != {} {
      var u := Pick(sources);
      InDegZero(adj, sources - {u}, v);
      OccEdge(adj, u, v);
    }
  }

  /** The in-degree from all nodes, as the initial count of Kahn's sort. */
  lemma InDegAdd(adj: Adjacency, sources: set<string>, x: string, v: string)
    requires sources <= adj.Keys && x in adj && x !in sources
    ensures InDeg(adj, sources + {x}, v) == InDeg(adj, sources, v) + Occ(adj, x, v)
  {
    InDegRemove(adj, sources + {x}, x, v);
    assert sources + {x} - {x} == sources;
  }
}
