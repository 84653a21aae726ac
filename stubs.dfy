/**
 * The bodies of the graph, resolver and manager operations as they are
 * written today: each returns a fixed empty answer. The operations their
 * callers expect are in Ordering, Impact and GraphBuild; each contract here
 * says on which inputs the fixed answer falls short of that expectation.
 */
module Stubs {
  import opened Wrappers
  import opened Messages
  import opened Graph
  import opened Seqs
  import opened Ordering
  import opened Impact
  import opened Schema
  import opened GraphBuild

  /** `detect_cycles`: never reports, so it keeps its promise exactly on acyclic graphs. */
  function DetectCyclesAsWritten(adj: Adjacency): (r: Option<CycleInfo>)
    ensures r.None?
    ensures DetectSpec(adj, r) <==> !HasCycle(adj)
  {
    None
  }

  /**
   * `check_circular_dependencies` on the manager whose registry has the
   * graph `adj`: never reports, so it too is right only on acyclic graphs.
   */
  function CheckCircularAsWritten(adj: Adjacency): (r: Result<Option<CycleInfo>, Error>)
    ensures r.Ok? && r.value.None?
    ensures DetectSpec(adj, r.value) <==> !HasCycle(adj)
  {
    Ok(None)
  }

  /**
   * `resolve_dependencies` and `resolve_order`: always the empty order,
   * which is a correct resolution only of the empty request.
   */
  function ResolveAsWritten(adj: Adjacency, names: seq<string>): (r: Result<seq<string>, Error>)
    ensures r == Ok([])
    ensures ResolveSpec(adj, names, r) ==> names == []
  {
    assert names != [] ==> Witness(adj, names, [names[0]], names[0]) && ReachableFrom(adj, names, names[0]);
    Ok([])
  }

  /**
   * `find_impact_path` and `analyze_impact`: never any impacted service,
   * which is right exactly when nothing else reaches the target.
   */
  function ImpactAsWritten(adj: Adjacency, name: string): (r: seq<string>)
    ensures r == []
    ensures ImpactSpec(adj, name, r) <==> forall v :: v != name ==> !Reaches(adj, v, name)
  {
    []
  }

  /** `build_dependency_graph`: always the empty graph, the right one only for an empty registry. */
  function BuildGraphAsWritten(registry: map<string, seq<Dependency>>): (r: Adjacency)
    ensures r == map[]
    ensures r == RegistryGraph(registry) <==> registry == map[]
  {
    assert RegistryGraph(registry).Keys == registry.Keys;
    map[]
  }
}
