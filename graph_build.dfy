/**
 * Building the dependency graph from the registered services: every service
 * becomes a node, and a declared dependency becomes an edge only when its
 * target is itself registered. Dependencies on absent services never become
 * edges; they surface only as validation findings.
 */
module GraphBuild {
  import opened Wrappers
  import opened Schema
  import opened Graph

  /** The edge a declared dependency turns into. */
  function EdgeFor(d: Dependency): Edge
  {
    Edge(d.service, EdgeMetadata(d.required, d.versionConstraint))
  }

  /** The edges of the dependencies among `deps` whose target is in `names`, in declaration order. */
  function RegisteredEdges(deps: seq<Dependency>, names: set<string>): (es: seq<Edge>)
    ensures |es| <= |deps|
    ensures forall k :: 0 <= k < |es| ==> es[k].target in names
  {
    if deps == [] then []
    else
      var last := deps[|deps| - 1];
      RegisteredEdges(deps[..|deps| - 1], names) + (if last.service in names then [EdgeFor(last)] else [])
  }

  /** The graph of a registry whose services declare the given dependencies. */
  function RegistryGraph(registry: map<string, seq<Dependency>>): Adjacency
  {
    map n | n in registry :: RegisteredEdges(registry[n], registry.Keys)
  }

  /** An edge is present exactly for a declared dependency whose target is registered. */
  lemma {:induction false} RegisteredEdgesMembers(deps: seq<Dependency>, names: set<string>, v: string)
    ensures v in Targets(RegisteredEdges(deps, names)) <==> v in names && exists k :: 0 <= k < |deps| && deps[k].service == v
  {
    if deps != [] {
      var init := deps[..|deps| - 1];
      RegisteredEdgesMembers(init, names, v);
      var last := deps[|deps| - 1];
      var tail := if last.service in names then [EdgeFor(last)] else [];
      var es := RegisteredEdges(deps, names);
      assert es == RegisteredEdges(init, names) + tail;
      assert Targets(es) == Targets(RegisteredEdges(init, names)) + Targets(tail);
      if v in Targets(es) {
        if v in Targets(RegisteredEdges(init, names)) {
          var k :| 0 <= k < |init| && init[k].service == v;
          assert deps[k] == init[k];
        } else {
          assert v in Targets(tail);
          assert deps[|deps| - 1].service == v;
        }
      }
      if v in names && exists k :: 0 <= k < |deps| && deps[k].service == v {
        var k :| 0 <= k < |deps| && deps[k].service == v;
        if k < |deps| - 1 {
          assert init[k] == deps[k];
          assert v in Targets(RegisteredEdges(init, names));
        } else {
          assert tail == [EdgeFor(last)];
          assert Targets(tail)[0] == v;
        }
      }
    }
  }

  /** One node per service; edges exactly to registered targets; every target is a node. */
  lemma RegistryGraphShape(registry: map<string, seq<Dependency>>)
    ensures RegistryGraph(registry).Keys == registry.Keys
    ensures Closed(RegistryGraph(registry))
    ensures forall u, v :: HasEdge(RegistryGraph(registry), u, v) <==>
      u in registry && v in registry && exists k :: 0 <= k < |registry[u]| && registry[u][k].service == v
  {
    var g := RegistryGraph(registry);
    forall u, v ensures HasEdge(g, u, v) <==>
      u in registry && v in registry && exists k :: 0 <= k < |registry[u]| && registry[u][k].service == v
    {
      if u in registry {
        RegisteredEdgesMembers(registry[u], registry.Keys, v);
      }
    }
  }

  /** add_node for every name of a set. */
  method AddNodes(g: DependencyGraph, names: set<string>)
    modifies g
    requires g.adjacency == map[]
    ensures g.adjacency == map n | n in names :: []
  {
    var pending := names;
    while pending != {}
      invariant pending <= names
      invariant g.adjacency == map n | n in names - pending :: []
      decreases pending
    {
      var n :| n in pending;
      g.AddNode(n);
      pending := pending - {n};
    }
  }

  /** add_edge for each dependency of `service` whose target is among `names`, all of which are nodes. */
  method AddRegisteredEdges(g: DependencyGraph, service: string, deps: seq<Dependency>, names: set<string>)
    modifies g
    requires service in g.adjacency && names <= g.adjacency.Keys
    ensures g.adjacency == old(g.adjacency)[service := old(g.adjacency)[service] + RegisteredEdges(deps, names)]
  {
    var j := 0;
    assert deps[..0] == [];
    assert old(g.adjacency)[service] + [] == old(g.adjacency)[service];
    while j < |deps|
      invariant 0 <= j <= |deps|
      invariant g.adjacency == old(g.adjacency)[service := old(g.adjacency)[service] + RegisteredEdges(deps[..j], names)]
    {
      assert deps[..j + 1][..j] == deps[..j];
      ghost var prev := g.adjacency;
      if deps[j].service in names {
        WithEdgeEffect(prev, service, deps[j].service, EdgeMetadata(deps[j].required, deps[j].versionConstraint));
        g.AddEdge(service, deps[j].service, EdgeMetadata(deps[j].required, deps[j].versionConstraint));
        assert g.adjacency == prev[service := prev[service] + [EdgeFor(deps[j])]];
        assert prev[service] + [EdgeFor(deps[j])] ==
          old(g.adjacency)[service] + (RegisteredEdges(deps[..j], names) + [EdgeFor(deps[j])]);
        assert g.adjacency == old(g.adjacency)[service := old(g.adjacency)[service] + (RegisteredEdges(deps[..j], names) + [EdgeFor(deps[j])])];
        assert RegisteredEdges(deps[..j + 1], names) == RegisteredEdges(deps[..j], names) + [EdgeFor(deps[j])];
      } else {
        assert RegisteredEdges(deps[..j + 1], names) == RegisteredEdges(deps[..j], names);
      }
      j := j + 1;
    }
    assert deps[..j] == deps;
  }

  /** The graph while the services in `pending` still await their edges. */
  ghost function PartialGraph(registry: map<string, seq<Dependency>>, pending: set<string>): (g: Adjacency)
    ensures g.Keys == registry.Keys
  {
    map n | n in registry :: if n in pending then [] else RegisteredEdges(registry[n], registry.Keys)
  }

  /** Adding a pending service's edges takes it out of the pending set. */
  lemma PartialGraphStep(registry: map<string, seq<Dependency>>, pending: set<string>, service: string)
    requires service in pending && service in registry
    ensures var g := PartialGraph(registry, pending);
      g[service := g[service] + RegisteredEdges(registry[service], registry.Keys)] == PartialGraph(registry, pending - {service})
  {
    var g := PartialGraph(registry, pending);
    assert g[service] + RegisteredEdges(registry[service], registry.Keys) == RegisteredEdges(registry[service], registry.Keys);
  }

  /** Building the graph as the catalog does: all nodes first, then the registered edges. */
  method BuildGraph(registry: map<string, seq<Dependency>>) returns (g: DependencyGraph)
    ensures fresh(g)
    ensures g.adjacency == RegistryGraph(registry)
  {
    g := new DependencyGraph();
    var names := registry.Keys;
    AddNodes(g, names);
    var pending := names;
    assert g.adjacency == PartialGraph(registry, pending);
    while pending != {}
      invariant pending <= names
      invariant g.adjacency == PartialGraph(registry, pending)
      decreases pending
    {
      var service :| service in pending;
      PartialGraphStep(registry, pending, service);
      AddRegisteredEdges(g, service, registry[service], names);
      pending := pending - {service};
    }
    assert PartialGraph(registry, {}) == RegistryGraph(registry);
  }
}
