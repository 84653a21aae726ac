/**
 * The dependency graphs of the catalog's integration scenarios, and what the
 * ordering promises say about each of them.
 */
module Fixtures {
  import opened Wrappers
  import opened Messages
  import opened Graph
  import opened Seqs
  import opened Ordering
  import opened Schema
  import opened GraphBuild
  import opened Impact
  import opened Stubs

  const A := "service-a"
  const B := "service-b"
  const C := "service-c"
  const D := "service-d"
  const E := "service-e"
  const F := "service-f"
  const G := "service-g"
  const H := "service-h"
  const I := "service-i"
  const X := "service-x"
  const Y := "service-y"
  const Z := "service-z"

  /** The metadata every scenario edge carries: required, constrained to 1.0.0. */
  const Pinned := EdgeMetadata(true, Some("1.0.0"))

  /** The three services that depend on each other in a ring: X -> Y -> Z -> X. */
  function RingGraph(): Adjacency
  {
    map[X := [Edge(Y, Pinned)], Y := [Edge(Z, Pinned)], Z := [Edge(X, Pinned)]]
  }

  /** The ring's only edges. */
  lemma RingEdges()
    ensures Closed(RingGraph())
    ensures forall u, v :: HasEdge(RingGraph(), u, v) <==> (u == X && v == Y) || (u == Y && v == Z) || (u == Z && v == X)
  {
    var g := RingGraph();
    assert Targets(g[X]) == [Y] && Targets(g[Y]) == [Z] && Targets(g[Z]) == [X];
  }

  /** The ring has a cycle, and every cycle of it has at least three names and passes all three services. */
  lemma {:induction false} RingCycles()
    ensures HasCycle(RingGraph())
    ensures forall p :: IsCycle(RingGraph(), p) ==> |p| >= 3 && X in p && Y in p && Z in p
  {
    var g := RingGraph();
    RingEdges();
    assert IsCycle(g, [X, Y, Z, X]);
    forall p | IsCycle(g, p) ensures |p| >= 3 && X in p && Y in p && Z in p {
      assert HasEdge(g, p[0], p[1]);
      assert p[1] != p[0];
      assert |p| >= 3;
      assert HasEdge(g, p[1], p[2]);
      assert p[2] != p[0];
      assert |p| >= 4;
    }
  }

  /** The graph that three add_node and three add_edge calls leave behind in the ring scenario. */
  lemma RingBuilt()
    ensures WithEdge(WithEdge(WithEdge(WithNode(WithNode(WithNode(map[], X), Y), Z),
              X, Y, Pinned), Y, Z, Pinned), Z, X, Pinned) == RingGraph()
  {
    var g0: Adjacency := WithNode(WithNode(WithNode(map[], X), Y), Z);
    assert g0 == map[X := [], Y := [], Z := []];
    var g1 := WithEdge(g0, X, Y, Pinned);
    WithEdgeEffect(g0, X, Y, Pinned);
    ThreeNodes(g1, [Edge(Y, Pinned)], [], []);
    var g2 := WithEdge(g1, Y, Z, Pinned);
    WithEdgeEffect(g1, Y, Z, Pinned);
    ThreeNodes(g2, [Edge(Y, Pinned)], [Edge(Z, Pinned)], []);
    var g3 := WithEdge(g2, Z, X, Pinned);
    WithEdgeEffect(g2, Z, X, Pinned);
    ThreeNodes(g3, [Edge(Y, Pinned)], [Edge(Z, Pinned)], [Edge(X, Pinned)]);
  }

  /** A graph on the ring's three nodes is determined by their three edge lists. */
  lemma ThreeNodes(g: Adjacency, ex: seq<Edge>, ey: seq<Edge>, ez: seq<Edge>)
    requires g.Keys == {X, Y, Z} && g[X] == ex && g[Y] == ey && g[Z] == ez
    ensures g == map[X := ex, Y := ey, Z := ez]
  {
  }

  /** The ring scenario builds its graph with three add_node and three add_edge calls. */
  method BuildRing() returns (g: DependencyGraph)
    ensures fresh(g) && g.adjacency == RingGraph()
  {
    g := new DependencyGraph();
    g.AddNode(X);
    g.AddNode(Y);
    g.AddNode(Z);
    g.AddEdge(X, Y, Pinned);
    g.AddEdge(Y, Z, Pinned);
    g.AddEdge(Z, X, Pinned);
    RingBuilt();
  }

  /** Cycle detection on the ring reports a path of at least three names through X, Y and Z. */
  lemma RingDetected(r: Option<CycleInfo>)
    requires DetectSpec(RingGraph(), r)
    ensures r.Some? && |r.value.cyclePath| >= 3
    ensures X in r.value.cyclePath && Y in r.value.cyclePath && Z in r.value.cyclePath
  {
    RingCycles();
  }

  /** Resolving X, which reaches the ring, is an error. */
  lemma RingUnresolvable(r: Result<seq<string>, Error>)
    requires ResolveSpec(RingGraph(), [X], r)
    ensures r.Err?
  {
    RingEdges();
    var g := RingGraph();
    assert Witness(g, [X], [X], X);
    assert IsCycle(g, [X, Y, Z, X]);
    assert CycleFrom(g, [X]);
  }

  /** A dependency constrained to 1.0.0. */
  function On(service: string, required: bool): Dependency
  {
    Dependency(service, Some("1.0.0"), required)
  }

  /** The four-service registry: A needs B and may use C, B needs D. */
  function SmallRegistry(): map<string, seq<Dependency>>
  {
    map[A := [On(B, true), On(C, false)], B := [On(D, true)], C := [], D := []]
  }

  /** The graph of the four-service registry. */
  function SmallGraph(): Adjacency
  {
    map[A := [EdgeFor(On(B, true)), EdgeFor(On(C, false))], B := [EdgeFor(On(D, true))], C := [], D := []]
  }

  /** Building the four-service registry gives the four-node graph (whose edges SmallEdges lists). */
  lemma SmallGraphBuilt()
    ensures RegistryGraph(SmallRegistry()) == SmallGraph()
    ensures |SmallGraph()| == 4
  {
    var g := RegistryGraph(SmallRegistry());
    var h := SmallGraph();
    SmallTop();
    OneEdge(SmallRegistry(), B);
    assert g.Keys == h.Keys == {A, B, C, D};
    forall n | n in g ensures g[n] == h[n] {
    }
  }

  /** A's two dependencies become its two edges, in declaration order. */
  lemma SmallTop()
    ensures RegistryGraph(SmallRegistry())[A] == [EdgeFor(On(B, true)), EdgeFor(On(C, false))]
  {
    var reg := SmallRegistry();
    var deps := reg[A];
    assert deps[..1] == [On(B, true)] && deps[..1][..0] == [];
    assert RegisteredEdges(deps[..1][..0], reg.Keys) == [];
    assert RegisteredEdges(deps[..1], reg.Keys) == [EdgeFor(On(B, true))];
    assert RegisteredEdges(deps, reg.Keys) == [EdgeFor(On(B, true))] + [EdgeFor(On(C, false))];
  }

  /** The four-service graph's edges, and its closedness. */
  lemma SmallEdges()
    ensures Closed(SmallGraph())
    ensures forall u, v :: HasEdge(SmallGraph(), u, v) <==> (u == A && (v == B || v == C)) || (u == B && v == D)
  {
    var g := SmallGraph();
    assert Targets(g[A]) == [B, C] && Targets(g[B]) == [D] && Targets(g[C]) == [] && Targets(g[D]) == [];
  }

  /** Who depends on whom in the four-service graph. */
  lemma SmallDependents()
    ensures SmallGraph().Keys == {A, B, C, D}
    ensures Dependents(SmallGraph(), A) == {}
    ensures Dependents(SmallGraph(), B) == {A} && Dependents(SmallGraph(), C) == {A}
    ensures Dependents(SmallGraph(), D) == {B}
  {
    SmallEdges();
  }

  /**
   * Kahn's sort on the four-service graph places all four services, D
   * before B before A.
   */
  lemma SmallSorted(order: seq<string>)
    requires SortSpec(SmallGraph(), order)
    ensures |order| == 4 && Elems(order) == {A, B, C, D}
    ensures D in order && B in order && A in order
    ensures IndexOf(order, D) < IndexOf(order, B) < IndexOf(order, A)
  {
    SmallSortedMembers(order);
    SmallEdges();
    EdgeDescends(SmallGraph(), order, A, B);
    EdgeDescends(SmallGraph(), order, B, D);
  }

  /** A sort of the four-service graph places each of the four services once. */
  lemma SmallSortedMembers(order: seq<string>)
    requires SortSpec(SmallGraph(), order)
    ensures |order| == 4 && Elems(order) == {A, B, C, D}
  {
    SmallDependents();
    assert A in order;
    assert B in order && C in order;
    assert D in order;
    assert Elems(order) == {A, B, C, D};
    NoDupCard(order);
  }

  /** The four-service graph has no cycle. */
  lemma SmallAcyclic()
    ensures !HasCycle(SmallGraph())
  {
    SmallEdges();
    RankedAcyclic(SmallGraph(), map[A := 2, B := 1, C := 0, D := 0]);
  }

  /** Exactly the four services are reachable from A. */
  lemma SmallReach()
    ensures forall v :: ReachableFrom(SmallGraph(), [A], v) <==> v in {A, B, C, D}
  {
    var g := SmallGraph();
    SmallEdges();
    assert Witness(g, [A], [A], A);
    assert Witness(g, [A], [A, B], B);
    assert Witness(g, [A], [A, C], C);
    assert Witness(g, [A], [A, B, D], D);
    forall v | ReachableFrom(g, [A], v) ensures v in g {
      ReachableIsNode(g, [A], v);
    }
  }

  /**
   * Resolving A in the four-service graph orders all four services, D
   * before B before A, with A last.
   */
  lemma SmallResolved(r: Result<seq<string>, Error>)
    requires ResolveSpec(SmallGraph(), [A], r)
    ensures r.Ok? && |r.value| == 4 && r.value[3] == A
    ensures D in r.value && B in r.value
    ensures IndexOf(r.value, D) < IndexOf(r.value, B) < IndexOf(r.value, A)
  {
    var g := SmallGraph();
    SmallAcyclic();
    SmallReach();
    SmallEdges();
    assert A in g;
    var o := r.value;
    assert Elems(o) == {A, B, C, D};
    NoDupCard(o);
    EdgeDescends(g, o, A, B);
    EdgeDescends(g, o, B, D);
    RootLastInStartOrder(g, A, o);
  }

  /**
   * The nine-service hierarchy: A needs B, C and E; B needs D; C needs F;
   * F needs H; E needs G; G needs I.
   */
  function HierarchyRegistry(): map<string, seq<Dependency>>
  {
    map[A := [On(B, true), On(C, true), On(E, true)], B := [On(D, true)], C := [On(F, true)],
        D := [], E := [On(G, true)], F := [On(H, true)], G := [On(I, true)], H := [], I := []]
  }

  /** The edge every hierarchy dependency becomes. */
  function Needs(v: string): Edge
  {
    EdgeFor(On(v, true))
  }

  /** The nine hierarchy services are distinct. */
  lemma NineServices()
    ensures |{A, B, C, D, E, F, G, H, I}| == 9
  {
    assert A[8] == 'a' && B[8] == 'b' && C[8] == 'c' && D[8] == 'd' && E[8] == 'e';
    assert F[8] == 'f' && G[8] == 'g' && H[8] == 'h' && I[8] == 'i';
  }

  /** The graph of the nine-service hierarchy. */
  function HierarchyGraph(): Adjacency
  {
    map[A := [Needs(B), Needs(C), Needs(E)], B := [Needs(D)], C := [Needs(F)],
        D := [], E := [Needs(G)], F := [Needs(H)], G := [Needs(I)], H := [], I := []]
  }

  /** A single registered dependency becomes a single edge. */
  lemma OneEdge(reg: map<string, seq<Dependency>>, n: string)
    requires n in reg && |reg[n]| == 1 && reg[n][0].service in reg
    ensures RegistryGraph(reg)[n] == [EdgeFor(reg[n][0])]
  {
    assert reg[n][..0] == [];
  }

  /** The top service's three dependencies become its three edges. */
  lemma HierarchyTop()
    ensures RegistryGraph(HierarchyRegistry())[A] == [Needs(B), Needs(C), Needs(E)]
  {
    var reg := HierarchyRegistry();
    var deps := reg[A];
    assert deps[..2][..1] == [On(B, true)] && deps[..2][..1][..0] == [] && deps[..2] == [On(B, true), On(C, true)];
    assert RegisteredEdges(deps[..2][..1], reg.Keys) == [Needs(B)];
    assert RegisteredEdges(deps[..2], reg.Keys) == [Needs(B), Needs(C)];
  }

  /** Building the hierarchy registry gives the hierarchy graph. */
  lemma HierarchyBuilt()
    ensures RegistryGraph(HierarchyRegistry()) == HierarchyGraph()
  {
    var reg := HierarchyRegistry();
    var g := RegistryGraph(reg);
    var h := HierarchyGraph();
    HierarchyTop();
    OneEdge(reg, B);
    OneEdge(reg, C);
    OneEdge(reg, E);
    OneEdge(reg, F);
    OneEdge(reg, G);
    assert g.Keys == h.Keys;
    forall n | n in g ensures g[n] == h[n] {
    }
  }

  /** The hierarchy's edges, and its closedness. */
  lemma HierarchyEdges()
    ensures Closed(HierarchyGraph())
    ensures forall u, v :: HasEdge(HierarchyGraph(), u, v) <==>
      || (u == A && (v == B || v == C || v == E))
      || (u == B && v == D) || (u == C && v == F) || (u == F && v == H)
      || (u == E && v == G) || (u == G && v == I)
  {
    var g := HierarchyGraph();
    assert Targets(g[A]) == [B, C, E] && Targets(g[B]) == [D] && Targets(g[C]) == [F];
    assert Targets(g[E]) == [G] && Targets(g[F]) == [H] && Targets(g[G]) == [I];
    assert Targets(g[D]) == [] && Targets(g[H]) == [] && Targets(g[I]) == [];
  }

  /** The hierarchy has no cycle. */
  lemma HierarchyAcyclic()
    ensures !HasCycle(HierarchyGraph())
  {
    HierarchyEdges();
    RankedAcyclic(HierarchyGraph(), map[A := 3, B := 1, C := 2, D := 0, E := 2, F := 1, G := 1, H := 0, I := 0]);
  }

  /** All nine services, and nothing else, are reachable from A. */
  lemma HierarchyReach()
    ensures forall v :: ReachableFrom(HierarchyGraph(), [A], v) <==> v in {A, B, C, D, E, F, G, H, I}
  {
    var g := HierarchyGraph();
    HierarchyEdges();
    assert Witness(g, [A], [A], A);
    assert Witness(g, [A], [A, B], B);
    assert Witness(g, [A], [A, B, D], D);
    assert Witness(g, [A], [A, C], C);
    assert Witness(g, [A], [A, C, F], F);
    assert Witness(g, [A], [A, C, F, H], H);
    assert Witness(g, [A], [A, E], E);
    assert Witness(g, [A], [A, E, G], G);
    assert Witness(g, [A], [A, E, G, I], I);
    forall v | ReachableFrom(g, [A], v) ensures v in g {
      ReachableIsNode(g, [A], v);
    }
  }

  /** Resolving A in the hierarchy succeeds with exactly its nine services. */
  lemma HierarchyResolvedAll(r: Result<seq<string>, Error>)
    requires ResolveSpec(HierarchyGraph(), [A], r)
    ensures r.Ok? && |r.value| == 9 && Elems(r.value) == {A, B, C, D, E, F, G, H, I}
  {
    HierarchyAcyclic();
    assert Elems([A]) <= HierarchyGraph().Keys;
    AcyclicResolves(HierarchyGraph(), [A], r);
    HierarchyReach();
    assert forall v :: v in Elems(r.value) <==> v in {A, B, C, D, E, F, G, H, I};
    assert Elems(r.value) == {A, B, C, D, E, F, G, H, I};
    NoDupCard(r.value);
    NineServices();
    assert |Elems(r.value)| == 9;
  }

  /** An order of the hierarchy's nodes with dependencies first places each dependency before its dependent. */
  lemma HierarchyOrderEdges(o: seq<string>)
    requires DepsFirst(HierarchyGraph(), o) && Elems(o) == {A, B, C, D, E, F, G, H, I}
    ensures IndexOf(o, B) < IndexOf(o, A) && IndexOf(o, C) < IndexOf(o, A)
    ensures IndexOf(o, E) < IndexOf(o, A) && IndexOf(o, D) < IndexOf(o, B)
    ensures IndexOf(o, F) < IndexOf(o, C) && IndexOf(o, H) < IndexOf(o, F)
    ensures IndexOf(o, G) < IndexOf(o, E) && IndexOf(o, I) < IndexOf(o, G)
  {
    var g := HierarchyGraph();
    HierarchyEdges();
    EdgeDescends(g, o, A, B);
    EdgeDescends(g, o, A, C);
    EdgeDescends(g, o, A, E);
    EdgeDescends(g, o, B, D);
    EdgeDescends(g, o, C, F);
    EdgeDescends(g, o, F, H);
    EdgeDescends(g, o, E, G);
    EdgeDescends(g, o, G, I);
  }

  /**
   * Resolving A in the hierarchy orders exactly its nine services, each
   * dependency before its dependent, with A last in the start order and
   * first in the stop order.
   */
  lemma HierarchyResolved(r: Result<seq<string>, Error>)
    requires ResolveSpec(HierarchyGraph(), [A], r)
    ensures r.Ok? && |r.value| == 9 && Elems(r.value) == {A, B, C, D, E, F, G, H, I}
    ensures IndexOf(r.value, B) < IndexOf(r.value, A) && IndexOf(r.value, C) < IndexOf(r.value, A)
    ensures IndexOf(r.value, E) < IndexOf(r.value, A) && IndexOf(r.value, D) < IndexOf(r.value, B)
    ensures IndexOf(r.value, F) < IndexOf(r.value, C) && IndexOf(r.value, H) < IndexOf(r.value, F)
    ensures IndexOf(r.value, G) < IndexOf(r.value, E) && IndexOf(r.value, I) < IndexOf(r.value, G)
    ensures r.value[8] == A && Reverse(r.value)[0] == A && |Reverse(r.value)| == 9
  {
    HierarchyResolvedAll(r);
    HierarchyOrderEdges(r.value);
    assert A in HierarchyGraph();
    RootLastInStartOrder(HierarchyGraph(), A, r.value);
  }

  /** In the four-service graph, A, B and D are all that can reach D, and A and B all that can reach B. */
  lemma SmallReachers()
    ensures forall v :: Reaches(SmallGraph(), v, D) <==> v in {A, B, D}
    ensures forall v :: Reaches(SmallGraph(), v, B) <==> v in {A, B}
  {
    var g := SmallGraph();
    SmallEdges();
    assert IsPath(g, [A, B, D]) && IsPath(g, [B, D]) && IsPath(g, [A, B]) && IsPath(g, [D]);
    forall v | Reaches(g, v, D) ensures v in {A, B, D} {
      var p :| IsPath(g, p) && p[0] == v && p[|p| - 1] == D;
      ClosedHoldsPathBack(g, {A, B, D}, p);
    }
    forall v | Reaches(g, v, B) ensures v in {A, B} {
      var p :| IsPath(g, p) && p[0] == v && p[|p| - 1] == B;
      ClosedHoldsPathBack(g, {A, B}, p);
    }
  }

  /** Impacting D affects exactly B and A; impacting B affects exactly A. */
  lemma SmallImpact(fromD: seq<string>, fromB: seq<string>)
    requires ImpactSpec(SmallGraph(), D, fromD) && ImpactSpec(SmallGraph(), B, fromB)
    ensures |fromD| == 2 && Elems(fromD) == {B, A}
    ensures |fromB| == 1 && Elems(fromB) == {A}
  {
    SmallReachers();
    assert Elems(fromD) == {B, A};
    assert Elems(fromB) == {A};
    NoDupCard(fromD);
    NoDupCard(fromB);
    assert A[8] == 'a' && B[8] == 'b';
  }

  /**
   * The cycle stubs miss the ring: the ring has a cycle, yet both report
   * none, which cycle detection's promise rules out.
   */
  lemma CycleStubsMissRing()
    ensures HasCycle(RingGraph())
    ensures !DetectSpec(RingGraph(), DetectCyclesAsWritten(RingGraph()))
    ensures CheckCircularAsWritten(RingGraph()) == Ok(None)
  {
    RingCycles();
  }

  /** The resolution stub accepts X although X reaches the ring. */
  lemma ResolveStubAcceptsRing()
    ensures ResolveAsWritten(RingGraph(), [X]).Ok?
    ensures !ResolveSpec(RingGraph(), [X], ResolveAsWritten(RingGraph(), [X]))
  {
    var r := ResolveAsWritten(RingGraph(), [X]);
    if ResolveSpec(RingGraph(), [X], r) {
      RingUnresolvable(r);
    }
  }

  /** The impact stub reports nothing for B, although A depends on B. */
  lemma ImpactStubMissesDependent()
    ensures ImpactAsWritten(SmallGraph(), B) == []
    ensures !ImpactSpec(SmallGraph(), B, ImpactAsWritten(SmallGraph(), B))
  {
    SmallReachers();
    assert A[8] != B[8];
    assert A != B && Reaches(SmallGraph(), A, B);
  }

  /** The graph-building stub has no nodes, while the four-service registry needs four. */
  lemma BuildStubLosesServices()
    ensures |BuildGraphAsWritten(SmallRegistry())| == 0
    ensures |RegistryGraph(SmallRegistry())| == 4
  {
    SmallGraphBuilt();
  }
}
