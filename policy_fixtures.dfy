/**
 * The registry scenarios of the dependency-validation pass, and what the
 * policy says the pass must report for each of them.
 */
module PolicyFixtures {
  import opened Wrappers
  import opened Messages
  import opened Schema
  import opened Seqs
  import opened Graph
  import opened GraphBuild
  import opened Ordering
  import opened VersionCheck
  import SemVer
  import opened ServiceModel
  import opened Summary
  import opened Policy
  import opened Fixtures
  import opened Stubs

  const Missing := "missing-service"

  /** The schema data of a registered scenario service: its own configuration, which carries its version. */
  function Loaded(version: string): Option<SchemaData>
  {
    Some(SchemaData(Some(version), Some("1.0.0")))
  }

  /** 1.0.0 is compatible with itself, and 2.0.0 is a major step away from 1.0.0. */
  lemma ScenarioVersions()
    ensures CheckVersionCompatibility("1.0.0", "1.0.0") == Compatible
    ensures CheckVersionCompatibility("2.0.0", "1.0.0") == MajorIncompatible
  {
    assert SemVer.Format(1, 0, 0) == "1.0.0";
    assert SemVer.Format(2, 0, 0) == "2.0.0";
    ClassifyNormal(1, 0, 0, 1, 0, 0);
    ClassifyNormal(2, 0, 0, 1, 0, 0);
  }

  /** The lists of one finding. */
  lemma OneFinding(f: Finding)
    ensures Errors([f]) == (if f.Critical? then [f.error] else [])
    ensures Warnings([f]) == (if f.Warn? then [f.warning] else [])
  {
    assert [f][..0] == [];
  }

  /** The lists of two findings. */
  lemma TwoFindings(f: Finding, g: Finding)
    ensures Errors([f, g]) == Errors([f]) + (if g.Critical? then [g.error] else [])
    ensures Warnings([f, g]) == Warnings([f]) + (if g.Warn? then [g.warning] else [])
  {
    assert [f, g][..1] == [f];
  }

  /** One required dependency on a registered service whose version meets its constraint yields nothing. */
  lemma SatisfiedDependency(target: string, schemas: map<string, Option<SchemaData>>)
    requires target in schemas && schemas[target] == Loaded("1.0.0")
    ensures CriticalsFor([On(target, true)], schemas) == [] && WarningsFor([On(target, true)], schemas) == []
  {
    ScenarioVersions();
    assert Decide(On(target, true), schemas) == Clear;
    assert Findings([On(target, true)], schemas) == [Clear];
    OneFinding(Clear);
  }

  // The ring X -> Y -> Z -> X, every service at 1.0.0 and every dependency required.

  function RingRegistry(): map<string, seq<Dependency>>
  {
    map[X := [On(Y, true)], Y := [On(Z, true)], Z := [On(X, true)]]
  }

  function RingSchemas(): map<string, Option<SchemaData>>
  {
    map[X := Loaded("1.0.0"), Y := Loaded("1.0.0"), Z := Loaded("1.0.0")]
  }

  /** The registered ring builds the ring graph. */
  lemma RingRegistryGraph()
    ensures RegistryGraph(RingRegistry()) == RingGraph()
  {
    var reg := RingRegistry();
    OneEdge(reg, X);
    OneEdge(reg, Y);
    OneEdge(reg, Z);
    ThreeNodes(RegistryGraph(reg), [Edge(Y, Pinned)], [Edge(Z, Pinned)], [Edge(X, Pinned)]);
  }

  /** No ring service has an error or a warning of its own. */
  lemma RingFindings()
    ensures ErrorsBy(RingRegistry(), RingSchemas()) == map[X := [], Y := [], Z := []]
    ensures WarningsBy(RingRegistry(), RingSchemas()) == map[X := [], Y := [], Z := []]
  {
    RingErrors();
    RingWarnings();
  }

  lemma RingErrors()
    ensures ErrorsBy(RingRegistry(), RingSchemas()) == map[X := [], Y := [], Z := []]
  {
    SatisfiedDependency(X, RingSchemas());
    SatisfiedDependency(Y, RingSchemas());
    SatisfiedDependency(Z, RingSchemas());
    ErrorsByPointwise(RingRegistry(), RingSchemas(), map[X := [], Y := [], Z := []]);
  }

  lemma RingWarnings()
    ensures WarningsBy(RingRegistry(), RingSchemas()) == map[X := [], Y := [], Z := []]
  {
    SatisfiedDependency(X, RingSchemas());
    SatisfiedDependency(Y, RingSchemas());
    SatisfiedDependency(Z, RingSchemas());
    WarningsByPointwise(RingRegistry(), RingSchemas(), map[X := [], Y := [], Z := []]);
  }

  /** With no errors and no warnings of its own, the ring's summary holds only the cycle. */
  lemma {:induction false} RingOutcome(summary: ValidationSummary, cycle: Option<CycleInfo>)
    requires cycle.Some? && cycle.value.description == CircularDependency(cycle.value.cyclePath)
    requires X in cycle.value.cyclePath && Y in cycle.value.cyclePath && Z in cycle.value.cyclePath
    requires SummaryFor(map[X := [], Y := [], Z := []], map[X := [], Y := [], Z := []], cycle, summary)
    ensures summary.IsSuccessful() && summary.HasWarnings()
    ensures Elems(summary.successful) == {X, Y, Z}
    ensures summary.warnings.Keys == {System} && |summary.warnings[System]| == 1
    ensures var w := summary.warnings[System][0];
      w.CircularDependency? && Mentions(w, X) && Mentions(w, Y) && Mentions(w, Z)
  {
    var none: map<string, seq<Message>> := map[X := [], Y := [], Z := []];
    ErrorFreeSummary(none, none, cycle, summary);
    QuietSummary(none, none, cycle, summary);
  }

  /**
   * The cycle is a warning, not an error: the pass succeeds, every ring
   * service is successful and Active, and the only warning is one system
   * warning naming a cycle through all three services.
   */
  lemma RingPass(summary: ValidationSummary, cycle: Option<CycleInfo>)
    requires DetectSpec(RegistryGraph(RingRegistry()), cycle)
    requires PolicySummary(RingRegistry(), RingSchemas(), cycle, summary)
    ensures summary.IsSuccessful() && summary.HasWarnings()
    ensures Elems(summary.successful) == {X, Y, Z}
    ensures summary.warnings.Keys == {System} && |summary.warnings[System]| == 1
    ensures var w := summary.warnings[System][0];
      w.CircularDependency? && Mentions(w, X) && Mentions(w, Y) && Mentions(w, Z)
  {
    RingRegistryGraph();
    RingDetected(cycle);
    RingFindings();
    RingOutcome(summary, cycle);
  }

  /** A cycle fails no service: all three ring services end Active. */
  lemma RingActive()
    ensures forall n :: n in RingRegistry() ==> PolicyStatus(ErrorsBy(RingRegistry(), RingSchemas())[n]).state == Active
  {
    RingErrors();
  }

  /**
   * As written, the registry graph's cycle detector reports no cycle, so the
   * pass over the ring files no warning at all, where the ring scenario
   * expects a system warning.
   */
  lemma RingPassAsWritten(summary: ValidationSummary)
    requires PolicySummary(RingRegistry(), RingSchemas(), DetectCyclesAsWritten(RingGraph()), summary)
    ensures !summary.HasWarnings()
    ensures HasCycle(RingGraph())
  {
    CycleStubsMissRing();
    RingFindings();
    var warn: map<string, seq<Message>> := map[X := [], Y := [], Z := []];
    assert (map n | n in warn && warn[n] != [] :: warn[n]) == map[];
  }

  // A lone service X with a required dependency on an unregistered service.

  function LoneRegistry(): map<string, seq<Dependency>>
  {
    map[X := [On(Missing, true)]]
  }

  function LoneSchemas(): map<string, Option<SchemaData>>
  {
    map[X := Loaded("1.0.0")]
  }

  /** X's one dependency is required and missing, so X has exactly that error and no warning. */
  lemma LoneFindings()
    ensures ErrorsBy(LoneRegistry(), LoneSchemas()) == map[X := [RequiredNotFound(Missing)]]
    ensures WarningsBy(LoneRegistry(), LoneSchemas()) == map[X := []]
  {
    assert Missing !in LoneSchemas() by {
      assert Missing[0] != X[0];
    }
    MissingDependency(LoneSchemas());
    ErrorsByPointwise(LoneRegistry(), LoneSchemas(), map[X := [RequiredNotFound(Missing)]]);
    WarningsByPointwise(LoneRegistry(), LoneSchemas(), map[X := []]);
  }

  /** One required dependency on an unregistered service yields its not-found error and no warning. */
  lemma MissingDependency(schemas: map<string, Option<SchemaData>>)
    requires Missing !in schemas
    ensures CriticalsFor([On(Missing, true)], schemas) == [RequiredNotFound(Missing)]
    ensures WarningsFor([On(Missing, true)], schemas) == []
  {
    assert Findings([On(Missing, true)], schemas) == [Critical(RequiredNotFound(Missing))];
    OneFinding(Critical(RequiredNotFound(Missing)));
  }

  /** With one error for X, X's one entry is the whole failed list and nothing succeeds. */
  lemma {:induction false} LoneOutcome(summary: ValidationSummary, cycle: Option<CycleInfo>)
    requires SummaryFor(map[X := [RequiredNotFound(Missing)]], map[X := []], cycle, summary)
    ensures summary.failed == [(X, RequiredNotFound(Missing))] && summary.successful == []
  {
    var crit: map<string, seq<Message>> := map[X := [RequiredNotFound(Missing)]];
    FailedOnly(summary.failed, X);
    assert (set n | n in crit && crit[n] == []) == {};
    NoDupCard(summary.successful);
  }

  /**
   * The missing required dependency fails X: it is the one failed entry,
   * the pass is not successful, and X ends in Error with a message that
   * names the missing service.
   */
  lemma MissingRequiredFails(summary: ValidationSummary, cycle: Option<CycleInfo>)
    requires PolicySummary(LoneRegistry(), LoneSchemas(), cycle, summary)
    ensures !summary.IsSuccessful() && summary.FailedCount() == 1 && summary.failed[0].0 == X
    ensures summary.successful == []
    ensures var s := PolicyStatus(ErrorsBy(LoneRegistry(), LoneSchemas())[X]);
      s.state == Error && s.errorMessage.Some? && Mentions(s.errorMessage.value, Missing)
  {
    LoneFindings();
    LoneOutcome(summary, cycle);
  }

  // Service A needs B at 1.0.0 and optionally C at 1.0.0; B is at 1.0.0, C at 2.0.0.

  function MixedRegistry(): map<string, seq<Dependency>>
  {
    map[A := [On(B, true), On(C, false)], B := [], C := []]
  }

  function MixedSchemas(): map<string, Option<SchemaData>>
  {
    map[A := Loaded("1.0.0"), B := Loaded("1.0.0"), C := Loaded("2.0.0")]
  }

  /** A's only finding is the warning about C's version; B and C declare nothing. */
  lemma MixedFindings()
    ensures ErrorsBy(MixedRegistry(), MixedSchemas()) == map[A := [], B := [], C := []]
    ensures WarningsBy(MixedRegistry(), MixedSchemas()) == map[A := [OptionalIncompatible(C, "1.0.0", "2.0.0")], B := [], C := []]
  {
    MixedA(MixedSchemas());
    assert Findings([], MixedSchemas()) == [];
    ErrorsByPointwise(MixedRegistry(), MixedSchemas(), map[A := [], B := [], C := []]);
    WarningsByPointwise(MixedRegistry(), MixedSchemas(), map[A := [OptionalIncompatible(C, "1.0.0", "2.0.0")], B := [], C := []]);
  }

  /** A's two dependencies: B meets its constraint, C is a major version away and optional. */
  lemma MixedA(schemas: map<string, Option<SchemaData>>)
    requires B in schemas && schemas[B] == Loaded("1.0.0")
    requires C in schemas && schemas[C] == Loaded("2.0.0")
    ensures CriticalsFor([On(B, true), On(C, false)], schemas) == []
    ensures WarningsFor([On(B, true), On(C, false)], schemas) == [OptionalIncompatible(C, "1.0.0", "2.0.0")]
  {
    ScenarioVersions();
    var w := Warn(OptionalIncompatible(C, "1.0.0", "2.0.0"));
    assert Decide(On(B, true), schemas) == Clear;
    assert Decide(On(C, false), schemas) == w;
    assert Findings([On(B, true), On(C, false)], schemas) == [Clear, w];
    OneFinding(Clear);
    TwoFindings(Clear, w);
  }

  /** With no errors and one list for A, everything succeeds and A's list is the only per-service one. */
  lemma {:induction false} MixedOutcome(summary: ValidationSummary, cycle: Option<CycleInfo>, w: Message)
    requires SummaryFor(map[A := [], B := [], C := []], map[A := [w], B := [], C := []], cycle, summary)
    ensures summary.failed == [] && Elems(summary.successful) == {A, B, C}
    ensures A in summary.warnings && summary.warnings[A] == [w]
    ensures B !in summary.warnings && C !in summary.warnings
  {
    var crit: map<string, seq<Message>> := map[A := [], B := [], C := []];
    var warn: map<string, seq<Message>> := map[A := [w], B := [], C := []];
    ErrorFreeSummary(crit, warn, cycle, summary);
    assert A[1] != System[1] && B[1] != System[1] && C[1] != System[1];
    ServiceWarningsFiled(crit, warn, cycle, summary, A);
    ServiceWarningsFiled(crit, warn, cycle, summary, B);
    ServiceWarningsFiled(crit, warn, cycle, summary, C);
  }

  /**
   * The optional dependency's major mismatch only warns: the pass succeeds,
   * every service is successful and Active, A's one warning names C's
   * incompatible version, and B has no warnings.
   */
  lemma OptionalMismatchWarns(summary: ValidationSummary, cycle: Option<CycleInfo>)
    requires PolicySummary(MixedRegistry(), MixedSchemas(), cycle, summary)
    ensures summary.IsSuccessful() && summary.HasWarnings()
    ensures Elems(summary.successful) == {A, B, C}
    ensures A in summary.warnings && summary.warnings[A] == [OptionalIncompatible(C, "1.0.0", "2.0.0")]
    ensures Mentions(summary.warnings[A][0], C)
    ensures B !in summary.warnings && C !in summary.warnings
  {
    MixedFindings();
    MixedOutcome(summary, cycle, OptionalIncompatible(C, "1.0.0", "2.0.0"));
  }

  /** The optional mismatch fails no service: all three end Active. */
  lemma MixedActive()
    ensures forall n :: n in MixedRegistry() ==> PolicyStatus(ErrorsBy(MixedRegistry(), MixedSchemas())[n]).state == Active
  {
    MixedFindings();
  }
}
