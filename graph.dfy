/**
 * The dependency graph: an adjacency map from a service name to the list of
 * its outgoing edges, each edge carrying the dependency's metadata. An edge
 * u -> v means "u depends on v".
 */
module Graph {
  import opened Wrappers

  datatype EdgeMetadata = EdgeMetadata(required: bool, versionConstraint: Option<string>)

  datatype Edge = Edge(target: string, meta: EdgeMetadata)

  type Adjacency = map<string, seq<Edge>>

  /** The neighbour names of an edge list, in order. */
  function Targets(es: seq<Edge>): (ts: seq<string>)
    ensures |ts| == |es| && forall k :: 0 <= k < |es| ==> ts[k] == es[k].target
  {
    seq(|es|, k requires 0 <= k < |es| => es[k].target)
  }

  /** There is at least one edge u -> v. */
  predicate HasEdge(adj: Adjacency, u: string, v: string)
  {
    u in adj && v in Targets(adj[u])
  }

  /** Every edge target is itself a node. */
  predicate Closed(adj: Adjacency)
  {
    forall u, k :: u in adj && 0 <= k < |adj[u]| ==> adj[u][k].target in adj
  }

  /** The nodes with an edge into v. */
  function Dependents(adj: Adjacency, v: string): (ds: set<string>)
    ensures forall u :: u in ds <==> HasEdge(adj, u, v)
  {
    set u | u in adj && HasEdge(adj, u, v)
  }

  /** A non-empty walk along edges. */
  predicate IsPath(adj: Adjacency, p: seq<string>)
  {
    |p| >= 1 && forall i :: 0 <= i < |p| - 1 ==> HasEdge(adj, p[i], p[i + 1])
  }

  /** A closed walk of at least one edge: first and last name are equal. */
  predicate IsCycle(adj: Adjacency, p: seq<string>)
  {
    |p| >= 2 && p[0] == p[|p| - 1] && IsPath(adj, p)
  }

  ghost predicate HasCycle(adj: Adjacency)
  {
    exists p :: IsCycle(adj, p)
  }

  /** v can be reached from u along zero or more edges. */
  ghost predicate Reaches(adj: Adjacency, u: string, v: string)
  {
    exists p :: IsPath(adj, p) && p[0] == u && p[|p| - 1] == v
  }

  /** The edge list of a node, empty for a name that is not a node. */
  function EdgesOf(adj: Adjacency, n: string): seq<Edge>
  {
    if n in adj then adj[n] else []
  }

  /** The graph after add_node(n). */
  function WithNode(adj: Adjacency, n: string): Adjacency
  {
    if n in adj then adj else adj[n := []]
  }

  /** The graph after add_edge(from, to, meta). */
  function WithEdge(adj: Adjacency, from: string, to: string, meta: EdgeMetadata): Adjacency
  {
    var g := WithNode(WithNode(adj, from), to);
    g[from := g[from] + [Edge(to, meta)]]
  }

  /** add_node keeps an existing node's edges, gives a new node none, and touches nothing else. */
  lemma WithNodeEffect(adj: Adjacency, n: string)
    ensures WithNode(adj, n).Keys == adj.Keys + {n}
    ensures WithNode(adj, n)[n] == EdgesOf(adj, n)
    ensures forall m :: m in adj ==> WithNode(adj, n)[m] == adj[m]
  {
  }

  /**
   * add_edge makes both ends nodes, appends exactly one edge at the end of
   * `from`'s list and leaves every other list as it was.
   */
  lemma WithEdgeEffect(adj: Adjacency, from: string, to: string, meta: EdgeMetadata)
    ensures WithEdge(adj, from, to, meta).Keys == adj.Keys + {from, to}
    ensures WithEdge(adj, from, to, meta)[from] == EdgesOf(adj, from) + [Edge(to, meta)]
    ensures forall m :: m in WithEdge(adj, from, to, meta) && m != from ==> WithEdge(adj, from, to, meta)[m] == EdgesOf(adj, m)
  {
  }

  /** add_edge does not deduplicate: the same edge added twice is listed twice. */
  lemma WithEdgeTwice(adj: Adjacency, from: string, to: string, meta: EdgeMetadata)
    ensures var g := WithEdge(WithEdge(adj, from, to, meta), from, to, meta);
      g[from] == EdgesOf(adj, from) + [Edge(to, meta), Edge(to, meta)]
  {
    WithEdgeEffect(adj, from, to, meta);
    var g1 := WithEdge(adj, from, to, meta);
    WithEdgeEffect(g1, from, to, meta);
  }

  /** Both operations keep every edge target a node. */
  lemma GrowthKeepsClosed(adj: Adjacency, from: string, to: string, meta: EdgeMetadata)
    requires Closed(adj)
    ensures Closed(WithNode(adj, from))
    ensures Closed(WithEdge(adj, from, to, meta))
  {
    var g: Adjacency := WithEdge(adj, from, to, meta);
    forall u: string, k: int | u in g && 0 <= k < |g[u]| ensures g[u][k].target in g {
      if u == from && k == |g[u]| - 1 {
      } else if u in adj {
        assert g[u][k] == adj[u][k];
      }
    }
  }

  class DependencyGraph {
    var adjacency: Adjacency

    constructor ()
      ensures adjacency == map[]
    {
      adjacency := map[];
    }

    method AddNode(node: string)
      modifies this
      ensures adjacency == WithNode(old(adjacency), node)
    {
      if node !in adjacency {
        adjacency := adjacency[node := []];
      }
    }

    method AddEdge(from: string, to: string, metadata: EdgeMetadata)
      modifies this
      ensures adjacency == WithEdge(old(adjacency), from, to, metadata)
    {
      AddNode(from);
      AddNode(to);
      if from in adjacency {
        adjacency := adjacency[from := adjacency[from] + [Edge(to, metadata)]];
      }
    }
  }
}
