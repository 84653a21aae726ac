/**
 * The dependency-validation policy of the catalog's registry pass: every
 * declared dependency is checked against the registered services and their
 * versions, a dependency cycle becomes a single system-wide warning, and each
 * service ends Active or in Error. Each dependency yields at most one
 * finding, decided by the table in `Decide`.
 */
module Policy {
  import opened Wrappers
  import opened Messages
  import opened Schema
  import opened Seqs
  import opened Graph
  import opened GraphBuild
  import opened Ordering
  import opened VersionCheck
  import SemVer
  import opened ServiceModel
  import opened Summary

  /** The summary key under which system-wide warnings are filed. */
  const System: string := "system"

  /** What one declared dependency yields: nothing, a warning, or an error that fails the service. */
  datatype Finding = Clear | Warn(warning: Message) | Critical(error: Message)

  /**
   * The decision for one dependency. `schemas` holds the schema data (if
   * loaded) of every registered service. A missing target fails a required
   * dependency and warns for an optional one. A registered target is only
   * checked when the dependency carries a constraint and the target's schema
   * is loaded: no version there is a warning; otherwise the target's version
   * is classified against the constraint, a minor mismatch warns, and a major
   * one fails a required dependency and warns for an optional one.
   */
  function Decide(d: Dependency, schemas: map<string, Option<SchemaData>>): (f: Finding)
    ensures f.Critical? ==> d.required && Mentions(f.error, d.service)
    ensures f.Warn? ==> Mentions(f.warning, d.service)
    ensures d.service !in schemas ==> !f.Clear?
    ensures d.service in schemas && (d.versionConstraint.None? || schemas[d.service].None?) ==> f.Clear?
  {
    if d.service !in schemas then
      if d.required then Critical(RequiredNotFound(d.service)) else Warn(OptionalNotFound(d.service))
    else if d.versionConstraint.None? || schemas[d.service].None? then Clear
    else
      var schema := schemas[d.service].value;
      if schema.version.None? then Warn(MissingVersion(d.service))
      else VersionFinding(d, d.versionConstraint.value, schema.version.value)
  }

  /** The finding for a dependency constrained to `expected` whose target declares version `found`. */
  function VersionFinding(d: Dependency, expected: string, found: string): (f: Finding)
    ensures f.Critical? ==> d.required && Mentions(f.error, d.service)
    ensures f.Warn? ==> Mentions(f.warning, d.service)
  {
    match CheckVersionCompatibility(found, expected)
    case Compatible => Clear
    case MinorIncompatible => Warn(MinorMismatch(d.service, expected, found))
    case MajorIncompatible =>
      if d.required then Critical(MajorMismatch(d.service, expected, found))
      else Warn(OptionalIncompatible(d.service, expected, found))
  }

  /** A dependency fails its service exactly when it is required and its target is missing or a major version away. */
  lemma CriticalExactly(d: Dependency, schemas: map<string, Option<SchemaData>>)
    ensures Decide(d, schemas).Critical? <==>
      d.required &&
      (d.service !in schemas ||
       (d.versionConstraint.Some? && schemas[d.service].Some? && schemas[d.service].value.version.Some? &&
        CheckVersionCompatibility(schemas[d.service].value.version.value, d.versionConstraint.value) == MajorIncompatible))
  {
  }

  /** An optional dependency never fails its service: it warns when it is missing or mismatched. */
  lemma OptionalOnlyWarns(d: Dependency, schemas: map<string, Option<SchemaData>>)
    requires !d.required
    ensures !Decide(d, schemas).Critical?
    ensures d.service !in schemas ==> Decide(d, schemas) == Warn(OptionalNotFound(d.service))
  {
  }

  /**
   * A constrained dependency on a loaded target whose version and constraint
   * are both normal versions: equal major and minor pass whatever the patch,
   * a different minor warns, a different major fails a required dependency.
   */
  lemma DecideNormalVersions(d: Dependency, schemas: map<string, Option<SchemaData>>,
                             major1: nat, minor1: nat, patch1: nat, major2: nat, minor2: nat, patch2: nat)
    requires major1 <= SemVer.U64_MAX && minor1 <= SemVer.U64_MAX && patch1 <= SemVer.U64_MAX
    requires major2 <= SemVer.U64_MAX && minor2 <= SemVer.U64_MAX && patch2 <= SemVer.U64_MAX
    requires d.service in schemas && schemas[d.service].Some?
    requires schemas[d.service].value.version == Some(SemVer.Format(major1, minor1, patch1))
    requires d.versionConstraint == Some(SemVer.Format(major2, minor2, patch2))
    ensures major1 == major2 && minor1 == minor2 ==> Decide(d, schemas) == Clear
    ensures major1 == major2 && minor1 != minor2 ==> Decide(d, schemas).Warn?
    ensures major1 != major2 ==> (Decide(d, schemas).Critical? <==> d.required)
  {
    ClassifyNormal(major1, minor1, patch1, major2, minor2, patch2);
  }

  /** The finding of each dependency, position by position. */
  function Findings(deps: seq<Dependency>, schemas: map<string, Option<SchemaData>>): (fs: seq<Finding>)
    ensures |fs| == |deps| && forall k :: 0 <= k < |deps| ==> fs[k] == Decide(deps[k], schemas)
  {
    seq(|deps|, k requires 0 <= k < |deps| => Decide(deps[k], schemas))
  }

  /** The warnings among findings, in order. */
  function Warnings(fs: seq<Finding>): seq<Message>
  {
    if fs == [] then []
    else Warnings(fs[..|fs| - 1]) + (if fs[|fs| - 1].Warn? then [fs[|fs| - 1].warning] else [])
  }

  /** The errors among findings, in order. */
  function Errors(fs: seq<Finding>): seq<Message>
  {
    if fs == [] then []
    else Errors(fs[..|fs| - 1]) + (if fs[|fs| - 1].Critical? then [fs[|fs| - 1].error] else [])
  }

  /** The warnings a list of dependencies raises, in declaration order. */
  function WarningsFor(deps: seq<Dependency>, schemas: map<string, Option<SchemaData>>): seq<Message>
  {
    Warnings(Findings(deps, schemas))
  }

  /** The errors a list of dependencies raises, in declaration order. */
  function CriticalsFor(deps: seq<Dependency>, schemas: map<string, Option<SchemaData>>): seq<Message>
  {
    Errors(Findings(deps, schemas))
  }

  /**
   * The lists hold exactly the findings: every warning (error) is some
   * finding's, and every finding's warning (error) is listed.
   */
  lemma {:induction false} FindingsListed(fs: seq<Finding>)
    ensures forall m :: m in Warnings(fs) <==> exists k :: 0 <= k < |fs| && fs[k] == Warn(m)
    ensures forall m :: m in Errors(fs) <==> exists k :: 0 <= k < |fs| && fs[k] == Critical(m)
  {
    if fs != [] {
      var n := |fs| - 1;
      var init := fs[..n];
      FindingsListed(init);
      assert forall k :: 0 <= k < n ==> init[k] == fs[k];
      forall m ensures m in Warnings(fs) <==> exists k :: 0 <= k < |fs| && fs[k] == Warn(m) {
        if exists k :: 0 <= k < |fs| && fs[k] == Warn(m) {
          var k :| 0 <= k < |fs| && fs[k] == Warn(m);
          if k < n {
            assert init[k] == Warn(m);
          }
        }
      }
      forall m ensures m in Errors(fs) <==> exists k :: 0 <= k < |fs| && fs[k] == Critical(m) {
        if exists k :: 0 <= k < |fs| && fs[k] == Critical(m) {
          var k :| 0 <= k < |fs| && fs[k] == Critical(m);
          if k < n {
            assert init[k] == Critical(m);
          }
        }
      }
    }
  }

  /** One more finding extends the list of its kind, and the failed entries with it. */
  lemma FindingsStep(fs: seq<Finding>, i: nat, name: string)
    requires i < |fs|
    ensures Warnings(fs[..i + 1]) == Warnings(fs[..i]) + (if fs[i].Warn? then [fs[i].warning] else [])
    ensures Errors(fs[..i + 1]) == Errors(fs[..i]) + (if fs[i].Critical? then [fs[i].error] else [])
    ensures Tagged(name, Errors(fs[..i + 1])) == Tagged(name, Errors(fs[..i])) + (if fs[i].Critical? then [(name, fs[i].error)] else [])
  {
    assert fs[..i + 1][..i] == fs[..i];
  }

  /** The entries of the failed list, one per error, each naming the service. */
  function Tagged(service: string, errors: seq<Message>): (t: seq<(string, Message)>)
    ensures |t| == |errors| && forall i :: 0 <= i < |errors| ==> t[i] == (service, errors[i])
  {
    seq(|errors|, i requires 0 <= i < |errors| => (service, errors[i]))
  }

  /** The entries of a failed list that name `service`, in order. */
  function FailedFor(failed: seq<(string, Message)>, service: string): seq<(string, Message)>
  {
    if failed == [] then []
    else FailedFor(failed[..|failed| - 1], service) + (if failed[|failed| - 1].0 == service then [failed[|failed| - 1]] else [])
  }

  lemma {:induction false} FailedForConcat(a: seq<(string, Message)>, b: seq<(string, Message)>, service: string)
    ensures FailedFor(a + b, service) == FailedFor(a, service) + FailedFor(b, service)
    decreases |b|
  {
    if b != [] {
      var b0 := b[..|b| - 1];
      assert (a + b)[..|a + b| - 1] == a + b0;
      FailedForConcat(a, b0, service);
    } else {
      assert a + b == a;
    }
  }

  lemma {:induction false} FailedForTagged(service: string, errors: seq<Message>, other: string)
    ensures FailedFor(Tagged(service, errors), other) == if other == service then Tagged(service, errors) else []
    decreases |errors|
  {
    if errors != [] {
      var e0 := errors[..|errors| - 1];
      assert Tagged(service, errors)[..|errors| - 1] == Tagged(service, e0);
      FailedForTagged(service, e0, other);
    }
  }

  /** A failed list whose entries all name `service` is that service's own entries. */
  lemma {:induction false} FailedOnly(failed: seq<(string, Message)>, service: string)
    requires forall n :: n != service ==> FailedFor(failed, n) == []
    ensures failed == FailedFor(failed, service)
    decreases |failed|
  {
    if failed != [] {
      var init := failed[..|failed| - 1];
      var last := failed[|failed| - 1];
      assert FailedFor(failed, last.0) == FailedFor(init, last.0) + [last];
      assert last.0 == service;
      forall n | n != service ensures FailedFor(init, n) == [] {
        assert FailedFor(failed, n) == FailedFor(init, n);
      }
      FailedOnly(init, service);
      assert failed == init + [last];
    }
  }

  /** The status the pass gives a service: Error with its last error if it has any, else Active; no warnings either way. */
  function PolicyStatus(errors: seq<Message>): (s: ServiceStatus)
    ensures s.state == (if errors == [] then Active else Error)
    ensures errors != [] ==> s.errorMessage == Some(errors[|errors| - 1])
    ensures s.warnings == [] && Consistent(s)
  {
    if errors == [] then NewStatus(Active) else WithError(NewStatus(Error), errors[|errors| - 1])
  }

  /** The system-wide warnings: one describing the cycle, if one was reported. */
  function SystemWarnings(cycle: Option<CycleInfo>): (ws: seq<Message>)
    ensures |ws| == (if cycle.Some? then 1 else 0)
  {
    if cycle.Some? then [cycle.value.description] else []
  }

  /** The summary's warnings: the system warnings first under System, then each service's own list. */
  function Merged(system: seq<Message>, perService: WarningMap): (m: WarningMap)
    ensures forall k :: k != System ==> (k in m <==> k in perService) && (k in perService ==> m[k] == perService[k])
    ensures System in m <==> system != [] || System in perService
    ensures System in m ==> m[System] == system + WarningsOf(perService, System)
  {
    if system == [] then perService else perService[System := system + WarningsOf(perService, System)]
  }

  /** The decision for one dependency as the pass computes it. */
  method DecideDependency(d: Dependency, schemas: map<string, Option<SchemaData>>) returns (f: Finding)
    ensures f == Decide(d, schemas)
  {
    if d.service !in schemas {
      return if d.required then Critical(RequiredNotFound(d.service)) else Warn(OptionalNotFound(d.service));
    }
    if d.versionConstraint.None? || schemas[d.service].None? {
      return Clear;
    }
    var schema := schemas[d.service].value;
    if schema.version.None? {
      return Warn(MissingVersion(d.service));
    }
    f := ClassifyDependency(d, d.versionConstraint.value, schema.version.value);
  }

  /** The version check of one dependency, through the validation service's classifier method. */
  method ClassifyDependency(d: Dependency, expected: string, found: string) returns (f: Finding)
    ensures f == VersionFinding(d, expected, found)
  {
    var compatibility := CheckVersionCompatibilityMethod(found, expected);
    match compatibility
    case Compatible => f := Clear;
    case MinorIncompatible => f := Warn(MinorMismatch(d.service, expected, found));
    case MajorIncompatible =>
      f := if d.required then Critical(MajorMismatch(d.service, expected, found))
           else Warn(OptionalIncompatible(d.service, expected, found));
  }

  /**
   * The findings for one service, as the pass's inner loop collects them:
   * each error is appended to the summary's failed list as it is found, and
   * the warnings are returned; `error` is the last error found, if any.
   */
  method CheckDependencies(name: string, deps: seq<Dependency>, schemas: map<string, Option<SchemaData>>, summary: ValidationSummary)
    returns (warnings: seq<Message>, error: Option<Message>)
    modifies summary
    ensures warnings == WarningsFor(deps, schemas)
    ensures error.Some? <==> CriticalsFor(deps, schemas) != []
    ensures error.Some? ==> error.value == CriticalsFor(deps, schemas)[|CriticalsFor(deps, schemas)| - 1]
    ensures summary.failed == old(summary.failed) + Tagged(name, CriticalsFor(deps, schemas))
    ensures summary.successful == old(summary.successful) && summary.warnings == old(summary.warnings)
  {
    warnings := [];
    error := None;
    ghost var fs := Findings(deps, schemas);
    var i := 0;
    while i < |deps|
      invariant 0 <= i <= |deps|
      invariant warnings == Warnings(fs[..i])
      invariant error.Some? <==> Errors(fs[..i]) != []
      invariant error.Some? ==> error.value == Errors(fs[..i])[|Errors(fs[..i])| - 1]
      invariant summary.failed == old(summary.failed) + Tagged(name, Errors(fs[..i]))
      invariant summary.successful == old(summary.successful) && summary.warnings == old(summary.warnings)
    {
      var f := DecideDependency(deps[i], schemas);
      FindingsStep(fs, i, name);
      if f.Warn? {
        warnings := warnings + [f.warning];
      } else if f.Critical? {
        error := Some(f.error);
        summary.failed := summary.failed + [(name, f.error)];
      }
      i := i + 1;
    }
    assert fs[..i] == fs;
  }

  /** Each registered service's errors. */
  function ErrorsBy(decls: map<string, seq<Dependency>>, schemas: map<string, Option<SchemaData>>): (m: map<string, seq<Message>>)
    ensures m.Keys == decls.Keys
  {
    map n | n in decls :: CriticalsFor(decls[n], schemas)
  }

  /** Each registered service's warnings. */
  function WarningsBy(decls: map<string, seq<Dependency>>, schemas: map<string, Option<SchemaData>>): (m: map<string, seq<Message>>)
    ensures m.Keys == decls.Keys
  {
    map n | n in decls :: WarningsFor(decls[n], schemas)
  }

  /** The errors map is determined service by service. */
  lemma ErrorsByPointwise(decls: map<string, seq<Dependency>>, schemas: map<string, Option<SchemaData>>,
                          crit: map<string, seq<Message>>)
    requires decls.Keys == crit.Keys
    requires forall n :: n in decls ==> CriticalsFor(decls[n], schemas) == crit[n]
    ensures ErrorsBy(decls, schemas) == crit
  {
  }

  /** The warnings map is determined service by service. */
  lemma WarningsByPointwise(decls: map<string, seq<Dependency>>, schemas: map<string, Option<SchemaData>>,
                            warn: map<string, seq<Message>>)
    requires decls.Keys == warn.Keys
    requires forall n :: n in decls ==> WarningsFor(decls[n], schemas) == warn[n]
    ensures WarningsBy(decls, schemas) == warn
  {
  }

  /**
   * The validation summary a pass must produce, given the declared
   * dependencies and schema data of every service and the cycle report.
   */
  ghost predicate PolicySummary(decls: map<string, seq<Dependency>>, schemas: map<string, Option<SchemaData>>,
                                cycle: Option<CycleInfo>, summary: ValidationSummary)
    reads summary
  {
    SummaryFor(ErrorsBy(decls, schemas), WarningsBy(decls, schemas), cycle, summary)
  }

  /**
   * The same, given each registered service's errors `crit` and warnings
   * `warn`: the successful list names, once each, the services without
   * errors; the failed list holds, per service, one entry per error in
   * order; the warnings map holds the system warnings under System and each
   * service's non-empty list under its name.
   */
  ghost predicate SummaryFor(crit: map<string, seq<Message>>, warn: map<string, seq<Message>>,
                             cycle: Option<CycleInfo>, summary: ValidationSummary)
    reads summary
  {
    NoDup(summary.successful) &&
    Elems(summary.successful) == (set n | n in crit && crit[n] == []) &&
    (forall n :: FailedFor(summary.failed, n) == if n in crit then Tagged(n, crit[n]) else []) &&
    summary.warnings == Merged(SystemWarnings(cycle), map n | n in warn && warn[n] != [] :: warn[n])
  }

  /** A pass in which no service has an error fails nothing and lists every service as successful. */
  lemma ErrorFreeSummary(crit: map<string, seq<Message>>, warn: map<string, seq<Message>>,
                         cycle: Option<CycleInfo>, summary: ValidationSummary)
    requires forall n :: n in crit ==> crit[n] == []
    requires SummaryFor(crit, warn, cycle, summary)
    ensures summary.failed == [] && Elems(summary.successful) == crit.Keys
  {
    if summary.failed != [] {
      var n := summary.failed[0].0;
      FailedOnly(summary.failed, n);
    }
  }

  /** A service's entry in the summary's warnings is its own list, present exactly when that list is non-empty. */
  lemma ServiceWarningsFiled(crit: map<string, seq<Message>>, warn: map<string, seq<Message>>,
                             cycle: Option<CycleInfo>, summary: ValidationSummary, k: string)
    requires k != System
    requires SummaryFor(crit, warn, cycle, summary)
    ensures k in summary.warnings <==> k in warn && warn[k] != []
    ensures k in summary.warnings ==> summary.warnings[k] == warn[k]
  {
  }

  /** The summary's warnings map once the system warning, if any, is filed. */
  function Filed(cycle: Option<CycleInfo>): (m: WarningMap)
    ensures m.Keys == (if cycle.Some? then {System} else {})
    ensures cycle.Some? ==> m[System] == [cycle.value.description]
  {
    if cycle.Some? then map[System := [cycle.value.description]] else map[]
  }

  /** When no service has a warning, the summary's warnings are the system warning alone, if any. */
  lemma QuietSummary(crit: map<string, seq<Message>>, warn: map<string, seq<Message>>,
                     cycle: Option<CycleInfo>, summary: ValidationSummary)
    requires forall n :: n in warn ==> warn[n] == []
    requires SummaryFor(crit, warn, cycle, summary)
    ensures summary.warnings == Filed(cycle)
  {
    assert (map n | n in warn && warn[n] != [] :: warn[n]) == map[];
    if cycle.Some? {
      assert [cycle.value.description] + [] == [cycle.value.description];
    }
  }

  /** The summary's warnings map after each list of `lists` is appended, key by key, to `m`. */
  function Combine(m: WarningMap, lists: WarningMap): (r: WarningMap)
    ensures r.Keys == m.Keys + lists.Keys
    ensures forall k :: k in r ==> r[k] == WarningsOf(m, k) + WarningsOf(lists, k)
  {
    map k | k in m.Keys + lists.Keys :: WarningsOf(m, k) + WarningsOf(lists, k)
  }

  /** Appending one more service's list. */
  lemma CombineStep(m: WarningMap, lists: WarningMap, k: string, ws: seq<Message>)
    requires k !in lists && ws != []
    ensures Combine(m, lists[k := ws]) == Combine(m, lists)[k := WarningsOf(Combine(m, lists), k) + ws]
  {
    var l := Combine(m, lists[k := ws]);
    var r := Combine(m, lists)[k := WarningsOf(Combine(m, lists), k) + ws];
    assert l.Keys == r.Keys;
    forall j | j in l ensures l[j] == r[j] {
      if j == k {
        assert WarningsOf(Combine(m, lists), k) == WarningsOf(m, k);
      }
    }
  }

  /** Starting from the system warning, merging the services' lists gives the summary the policy asks for. */
  lemma CombineSystem(cycle: Option<CycleInfo>, lists: WarningMap)
    ensures Combine(Filed(cycle), lists) == Merged(SystemWarnings(cycle), lists)
  {
    var m := Filed(cycle);
    var l := Combine(m, lists);
    var r := Merged(SystemWarnings(cycle), lists);
    assert l.Keys == r.Keys;
    forall j | j in l ensures l[j] == r[j] {
      if j != System || cycle.None? {
        assert WarningsOf(m, j) == [];
      }
    }
  }

  /** The merge loop at the end of the pass: every service's list is added to the summary, warning by warning. */
  method MergeWarnings(summary: ValidationSummary, lists: WarningMap)
    modifies summary
    requires summary.Valid()
    requires forall k :: k in lists ==> lists[k] != []
    ensures summary.Valid()
    ensures summary.warnings == Combine(old(summary.warnings), lists)
    ensures summary.successful == old(summary.successful) && summary.failed == old(summary.failed)
  {
    var pending := lists.Keys;
    ghost var merged: WarningMap := map[];
    assert forall k :: k in summary.warnings ==> Combine(summary.warnings, merged)[k] == summary.warnings[k];
    assert Combine(summary.warnings, merged) == summary.warnings;
    while pending != {}
      invariant pending <= lists.Keys && merged.Keys == lists.Keys - pending
      invariant forall k :: k in merged ==> merged[k] == lists[k]
      invariant summary.Valid()
      invariant summary.warnings == Combine(old(summary.warnings), merged)
      invariant summary.successful == old(summary.successful) && summary.failed == old(summary.failed)
      decreases pending
    {
      var k :| k in pending;
      CombineStep(old(summary.warnings), merged, k, lists[k]);
      AddWarnings(summary, k, lists[k]);
      merged := merged[k := lists[k]];
      pending := pending - {k};
    }
    assert merged == lists;
  }

  /** The successful list holds, once each, the checked services without errors. */
  ghost predicate SuccessSoFar(crit: map<string, seq<Message>>, done: set<string>, successful: seq<string>)
    requires done <= crit.Keys
  {
    NoDup(successful) && Elems(successful) == (set n | n in done && crit[n] == [])
  }

  /** The failed list holds, per checked service, one entry per error in order. */
  ghost predicate FailedSoFar(crit: map<string, seq<Message>>, done: set<string>, failed: seq<(string, Message)>)
    requires done <= crit.Keys
  {
    forall n :: FailedFor(failed, n) == if n in done then Tagged(n, crit[n]) else []
  }

  /** The remembered errors name, once each, the checked services with errors, each with its last error. */
  ghost predicate ErrorsSoFar(crit: map<string, seq<Message>>, done: set<string>, errors: seq<(string, Message)>)
    requires done <= crit.Keys
  {
    NoDup(FailedNames(errors)) &&
    (forall i :: 0 <= i < |errors| ==>
      errors[i].0 in done && crit[errors[i].0] != [] && errors[i].1 == crit[errors[i].0][|crit[errors[i].0]| - 1]) &&
    Elems(FailedNames(errors)) == (set n | n in done && crit[n] != [])
  }

  /** The kept warning lists are those of the checked services that have warnings. */
  ghost predicate ListsSoFar(warn: map<string, seq<Message>>, done: set<string>, lists: WarningMap)
    requires done <= warn.Keys
  {
    lists == (map n | n in done && warn[n] != [] :: warn[n])
  }

  /**
   * What the findings loop has gathered once the services in `done` are
   * checked, given each service's errors `crit` and warnings `warn`.
   */
  ghost predicate CheckedSoFar(crit: map<string, seq<Message>>, warn: map<string, seq<Message>>, done: set<string>,
                               successful: seq<string>, failed: seq<(string, Message)>,
                               errors: seq<(string, Message)>, lists: WarningMap)
  {
    done <= crit.Keys && done <= warn.Keys &&
    SuccessSoFar(crit, done, successful) && FailedSoFar(crit, done, failed) &&
    ErrorsSoFar(crit, done, errors) && ListsSoFar(warn, done, lists)
  }

  lemma SuccessStep(crit: map<string, seq<Message>>, done: set<string>, successful: seq<string>, name: string)
    requires done <= crit.Keys && name in crit && name !in done
    requires SuccessSoFar(crit, done, successful)
    ensures SuccessSoFar(crit, done + {name}, if crit[name] == [] then successful + [name] else successful)
  {
    if crit[name] == [] {
      assert name !in Elems(successful);
      NoDupConcat(successful, [name]);
      assert Elems(successful + [name]) == Elems(successful) + {name};
    }
  }

  lemma FailedStep(crit: map<string, seq<Message>>, done: set<string>, failed: seq<(string, Message)>, name: string)
    requires done <= crit.Keys && name in crit && name !in done
    requires FailedSoFar(crit, done, failed)
    ensures FailedSoFar(crit, done + {name}, failed + Tagged(name, crit[name]))
  {
    forall n ensures FailedFor(failed + Tagged(name, crit[name]), n) ==
      if n in done + {name} then Tagged(n, crit[n]) else []
    {
      FailedForConcat(failed, Tagged(name, crit[name]), n);
      FailedForTagged(name, crit[name], n);
    }
  }

  lemma ErrorsStep(crit: map<string, seq<Message>>, done: set<string>, errors: seq<(string, Message)>, name: string)
    requires done <= crit.Keys && name in crit && name !in done
    requires ErrorsSoFar(crit, done, errors)
    ensures ErrorsSoFar(crit, done + {name},
      if crit[name] != [] then errors + [(name, crit[name][|crit[name]| - 1])] else errors)
  {
    if crit[name] != [] {
      var e := (name, crit[name][|crit[name]| - 1]);
      assert name !in Elems(FailedNames(errors));
      NoDupConcat(FailedNames(errors), [name]);
      assert FailedNames(errors + [e]) == FailedNames(errors) + [name];
      assert Elems(FailedNames(errors) + [name]) == Elems(FailedNames(errors)) + {name};
    }
  }

  lemma ListsStep(warn: map<string, seq<Message>>, done: set<string>, lists: WarningMap, name: string)
    requires done <= warn.Keys && name in warn && name !in done
    requires ListsSoFar(warn, done, lists)
    ensures ListsSoFar(warn, done + {name}, if warn[name] != [] then lists[name := warn[name]] else lists)
  {
  }

  /** Before any service is checked, nothing is gathered. */
  lemma CheckedNothing(crit: map<string, seq<Message>>, warn: map<string, seq<Message>>)
    ensures CheckedSoFar(crit, warn, {}, [], [], [], map[])
  {
  }

  /** Checking one more service extends each gathered part by that service's share. */
  lemma CheckedStep(crit: map<string, seq<Message>>, warn: map<string, seq<Message>>, done: set<string>,
                    successful: seq<string>, failed: seq<(string, Message)>,
                    errors: seq<(string, Message)>, lists: WarningMap, name: string)
    requires name in crit && name in warn && name !in done
    requires CheckedSoFar(crit, warn, done, successful, failed, errors, lists)
    ensures CheckedSoFar(crit, warn, done + {name},
      if crit[name] == [] then successful + [name] else successful,
      failed + Tagged(name, crit[name]),
      if crit[name] != [] then errors + [(name, crit[name][|crit[name]| - 1])] else errors,
      if warn[name] != [] then lists[name := warn[name]] else lists)
  {
    var done' := done + {name};
    var successful' := if crit[name] == [] then successful + [name] else successful;
    var errors' := if crit[name] != [] then errors + [(name, crit[name][|crit[name]| - 1])] else errors;
    var lists' := if warn[name] != [] then lists[name := warn[name]] else lists;
    SuccessStep(crit, done, successful, name);
    FailedStep(crit, done, failed, name);
    ErrorsStep(crit, done, errors, name);
    ListsStep(warn, done, lists, name);
    assert SuccessSoFar(crit, done', successful');
    assert ErrorsSoFar(crit, done', errors');
    assert ListsSoFar(warn, done', lists');
  }

  /**
   * One turn of the findings loop: the service's dependencies are checked,
   * its errors appended to the failed list, and it is listed as successful
   * (no errors) or remembered with its last error; a non-empty warning list
   * is kept for the merge.
   */
  method CheckOne(name: string, decls: map<string, seq<Dependency>>, schemas: map<string, Option<SchemaData>>,
                  summary: ValidationSummary, errors: seq<(string, Message)>, lists: WarningMap,
                  ghost crit: map<string, seq<Message>>, ghost warn: map<string, seq<Message>>, ghost done: set<string>)
    returns (errors': seq<(string, Message)>, lists': WarningMap)
    modifies summary
    requires name in decls && name !in done
    requires name in crit && crit[name] == CriticalsFor(decls[name], schemas)
    requires name in warn && warn[name] == WarningsFor(decls[name], schemas)
    requires CheckedSoFar(crit, warn, done, summary.successful, summary.failed, errors, lists)
    ensures CheckedSoFar(crit, warn, done + {name}, summary.successful, summary.failed, errors', lists')
    ensures summary.warnings == old(summary.warnings)
  {
    ghost var successful, failed := summary.successful, summary.failed;
    CheckedStep(crit, warn, done, successful, failed, errors, lists, name);
    var warnings, error := CheckDependencies(name, decls[name], schemas, summary);
    lists' := if warnings != [] then lists[name := warnings] else lists;
    if error.Some? {
      errors' := errors + [(name, error.value)];
    } else {
      errors' := errors;
      summary.successful := summary.successful + [name];
    }
  }

  /**
   * The findings loop of the pass: every registered service is checked in
   * turn, as CheckOne describes.
   */
  method CheckAll(decls: map<string, seq<Dependency>>, schemas: map<string, Option<SchemaData>>, summary: ValidationSummary)
    returns (errors: seq<(string, Message)>, lists: WarningMap)
    modifies summary
    requires summary.successful == [] && summary.failed == []
    ensures CheckedSoFar(ErrorsBy(decls, schemas), WarningsBy(decls, schemas), decls.Keys, summary.successful, summary.failed, errors, lists)
    ensures summary.warnings == old(summary.warnings)
  {
    errors := [];
    lists := map[];
    ghost var crit := ErrorsBy(decls, schemas);
    ghost var warn := WarningsBy(decls, schemas);
    var pending := decls.Keys;
    ghost var done: set<string> := {};
    CheckedNothing(crit, warn);
    while pending != {}
      invariant pending <= decls.Keys && done == decls.Keys - pending
      invariant CheckedSoFar(crit, warn, done, summary.successful, summary.failed, errors, lists)
      invariant summary.warnings == old(summary.warnings)
      decreases pending
    {
      var name :| name in pending;
      errors, lists := CheckOne(name, decls, schemas, summary, errors, lists, crit, warn, done);
      pending := pending - {name};
      done := done + {name};
    }
    assert done == decls.Keys;
  }

  /**
   * Once every service is checked and the kept lists are merged after the
   * system warning, the summary is the one the policy asks for.
   */
  lemma CheckedIsPolicy(decls: map<string, seq<Dependency>>, schemas: map<string, Option<SchemaData>>,
                        cycle: Option<CycleInfo>, summary: ValidationSummary, errors: seq<(string, Message)>, lists: WarningMap)
    requires CheckedSoFar(ErrorsBy(decls, schemas), WarningsBy(decls, schemas), decls.Keys, summary.successful, summary.failed, errors, lists)
    requires summary.warnings == Combine(Filed(cycle), lists)
    ensures PolicySummary(decls, schemas, cycle, summary)
  {
    CombineSystem(cycle, lists);
  }

  /** The last step of the pass: the kept warning lists are merged into the summary, which is then complete. */
  method FileWarnings(decls: map<string, seq<Dependency>>, schemas: map<string, Option<SchemaData>>,
                      cycle: Option<CycleInfo>, summary: ValidationSummary, ghost errors: seq<(string, Message)>, lists: WarningMap)
    modifies summary
    requires summary.Valid() && summary.warnings == Filed(cycle)
    requires CheckedSoFar(ErrorsBy(decls, schemas), WarningsBy(decls, schemas), decls.Keys, summary.successful, summary.failed, errors, lists)
    ensures summary.Valid() && PolicySummary(decls, schemas, cycle, summary)
  {
    MergeWarnings(summary, lists);
    CheckedIsPolicy(decls, schemas, cycle, summary, errors, lists);
  }

  /**
   * The summary half of the pass, which reads the registry but changes no
   * service: the graph of registered services is built and searched for a
   * cycle, which is filed as one system warning, every service's
   * dependencies are checked, and the kept warning lists are merged. The
   * errors to record in the statuses are returned.
   */
  method Summarize(decls: map<string, seq<Dependency>>, schemas: map<string, Option<SchemaData>>)
    returns (summary: ValidationSummary, errors: seq<(string, Message)>)
    ensures fresh(summary) && summary.Valid()
    ensures exists cycle :: DetectSpec(RegistryGraph(decls), cycle) && PolicySummary(decls, schemas, cycle, summary)
    ensures ErrorsSoFar(ErrorsBy(decls, schemas), decls.Keys, errors)
  {
    summary := new ValidationSummary();
    var graph := BuildGraph(decls);
    RegistryGraphShape(decls);
    var cycle := DetectCycles(graph.adjacency);
    if cycle.Some? {
      summary.AddWarning(System, cycle.value.description);
      assert summary.warnings.Keys == Filed(cycle).Keys;
      assert [] + [cycle.value.description] == [cycle.value.description];
      assert summary.warnings == Filed(cycle);
    }
    var lists;
    errors, lists := CheckAll(decls, schemas, summary);
    FileWarnings(decls, schemas, cycle, summary, errors, lists);
  }

  /** The pass as the test registry implements it, over its services stored by name. */
  class MockRegistry {
    var services: map<string, Service>

    /** Each service is stored under its own name, so distinct names hold distinct services. */
    ghost predicate Valid()
      reads this, services.Values
    {
      forall n :: n in services ==> services[n].name == n
    }

    /** The dependencies each service's configuration declares. */
    function Declarations(): (m: map<string, seq<Dependency>>)
      reads this, services.Values
      ensures m.Keys == services.Keys
    {
      map n | n in services :: Declared(services[n].config)
    }

    /** The schema data of each service, if loaded. */
    function Schemas(): (m: map<string, Option<SchemaData>>)
      reads this, services.Values
      ensures m.Keys == services.Keys
    {
      map n | n in services :: services[n].schemaData
    }

    /** The status loop over the remembered errors: each such service goes to Error with its error. */
    method MarkErrors(errors: seq<(string, Message)>)
      requires Valid() && NoDup(FailedNames(errors))
      modifies services.Values
      ensures forall n :: n in services ==>
        services[n].config == old(services[n].config) && services[n].schemaData == old(services[n].schemaData)
      ensures forall i :: 0 <= i < |errors| && errors[i].0 in services ==>
        services[errors[i].0].status == WithError(NewStatus(Error), errors[i].1)
      ensures forall n :: n in services && n !in FailedNames(errors) ==> services[n].status == old(services[n].status)
    {
      var i := 0;
      while i < |errors|
        invariant 0 <= i <= |errors|
        invariant forall n :: n in services ==>
          services[n].config == old(services[n].config) && services[n].schemaData == old(services[n].schemaData)
        invariant forall j :: 0 <= j < i && errors[j].0 in services ==>
          services[errors[j].0].status == WithError(NewStatus(Error), errors[j].1)
        invariant forall n :: n in services && n !in FailedNames(errors)[..i] ==> services[n].status == old(services[n].status)
      {
        var name := errors[i].0;
        assert forall j :: 0 <= j < i ==> FailedNames(errors)[j] != FailedNames(errors)[i];
        if name in services {
          services[name].status := WithError(NewStatus(Error), errors[i].1);
        }
        assert FailedNames(errors)[..i + 1] == FailedNames(errors)[..i] + [name];
        i := i + 1;
      }
      assert FailedNames(errors)[..i] == FailedNames(errors);
    }

    /** The status loop over all services: every service not among `failing` becomes Active. */
    method MarkActive(failing: set<string>)
      requires Valid()
      modifies services.Values
      ensures forall n :: n in services ==>
        services[n].config == old(services[n].config) && services[n].schemaData == old(services[n].schemaData)
      ensures forall n :: n in services ==>
        services[n].status == if n in failing then old(services[n].status) else NewStatus(Active)
    {
      var pending := services.Keys;
      while pending != {}
        invariant pending <= services.Keys
        invariant forall n :: n in services ==>
          services[n].config == old(services[n].config) && services[n].schemaData == old(services[n].schemaData)
        invariant forall n :: n in services ==>
          services[n].status == if n in failing || n in pending then old(services[n].status) else NewStatus(Active)
        decreases pending
      {
        var name :| name in pending;
        if name !in failing {
          services[name].status := NewStatus(Active);
        }
        pending := pending - {name};
      }
    }

    /** Both status loops: a service with errors goes to Error with its last one, every other one to Active. */
    method SetStatuses(errors: seq<(string, Message)>, ghost crit: map<string, seq<Message>>)
      requires Valid() && services.Keys <= crit.Keys && ErrorsSoFar(crit, services.Keys, errors)
      modifies services.Values
      ensures forall n :: n in services ==>
        services[n].config == old(services[n].config) && services[n].schemaData == old(services[n].schemaData)
      ensures forall n :: n in services ==> services[n].status == PolicyStatus(crit[n])
    {
      var failing := set i | 0 <= i < |errors| :: errors[i].0;
      assert failing == Elems(FailedNames(errors));
      MarkErrors(errors);
      MarkActive(failing);
      forall n | n in services
        ensures services[n].status == PolicyStatus(crit[n])
      {
        if n in failing {
          var i :| 0 <= i < |errors| && errors[i].0 == n;
        }
      }
    }

    /**
     * Validates every service's dependencies: builds the graph of registered
     * services, files one system warning when it has a cycle, records each
     * service's findings, sets every status, and merges the warnings.
     */
    method ValidateAllServices() returns (r: Result<ValidationSummary, Error>)
      requires Valid()
      modifies services.Values
      ensures r.Ok? && fresh(r.value) && r.value.Valid()
      ensures forall n :: n in services ==>
        services[n].config == old(services[n].config) && services[n].schemaData == old(services[n].schemaData)
      ensures exists cycle :: DetectSpec(RegistryGraph(old(Declarations())), cycle) &&
                              PolicySummary(old(Declarations()), old(Schemas()), cycle, r.value)
      ensures forall n :: n in services ==>
        services[n].status == PolicyStatus(ErrorsBy(old(Declarations()), old(Schemas()))[n])
    {
      var decls := Declarations();
      var schemas := Schemas();
      var summary, errors := Summarize(decls, schemas);
      SetStatuses(errors, ErrorsBy(decls, schemas));
      r := Ok(summary);
    }
  }
}
