/**
 * The summary of a validation pass over the registry: the services that
 * passed, the services that failed with the message of their failure, and
 * the warnings gathered per service.
 */
module Summary {
  import opened Messages

  type WarningMap = map<string, seq<Message>>

  /** The total number of warnings over all services. */
  ghost function SumLengths(m: WarningMap): nat
    decreases |m|
  {
    if m == map[] then 0
    else
      var k :| k in m;
      |m[k]| + SumLengths(m - {k})
  }

  /** SumLengths does not depend on which key the definition picks first. */
  lemma {:induction false} SumLengthsRemove(m: WarningMap, k: string)
    requires k in m
    ensures SumLengths(m) == |m[k]| + SumLengths(m - {k})
    decreases |m|
  {
    var j :| j in m && SumLengths(m) == |m[j]| + SumLengths(m - {j});
    if j != k {
      var mj := m - {j};
      var mk := m - {k};
      SumLengthsRemove(mj, k);
      SumLengthsRemove(mk, j);
      assert mj - {k} == mk - {j};
    }
  }

  /** A map whose lists are all non-empty has a warning exactly when it has a key. */
  lemma {:induction false} SumLengthsPositive(m: WarningMap)
    requires forall k :: k in m ==> m[k] != []
    ensures SumLengths(m) > 0 <==> m != map[]
  {
    if m != map[] {
      var k :| k in m;
      SumLengthsRemove(m, k);
    }
  }

  /** The service names of a failed list, in order. */
  function FailedNames(failed: seq<(string, Message)>): (ns: seq<string>)
    ensures |ns| == |failed| && forall i :: 0 <= i < |failed| ==> ns[i] == failed[i].0
  {
    seq(|failed|, i requires 0 <= i < |failed| => failed[i].0)
  }

  /** The list of a service, empty when it has none yet. */
  function WarningsOf(m: WarningMap, service: string): seq<Message>
  {
    if service in m then m[service] else []
  }

  /** The map after appending one warning to a service's list. */
  function WithWarning(m: WarningMap, service: string, w: Message): (r: WarningMap)
    ensures r.Keys == m.Keys + {service}
    ensures r[service] == WarningsOf(m, service) + [w]
    ensures forall s :: s in m && s != service ==> r[s] == m[s]
  {
    m[service := WarningsOf(m, service) + [w]]
  }

  /** Appending a warning adds exactly one to the total. */
  lemma WithWarningCount(m: WarningMap, service: string, w: Message)
    ensures SumLengths(WithWarning(m, service, w)) == SumLengths(m) + 1
  {
    var r := WithWarning(m, service, w);
    SumLengthsRemove(r, service);
    assert r - {service} == m - {service};
    if service in m {
      SumLengthsRemove(m, service);
    } else {
      assert m - {service} == m;
    }
  }

  class ValidationSummary {
    var successful: seq<string>
    var failed: seq<(string, Message)>
    var warnings: WarningMap

    /** Every list in the warnings map is non-empty, as lists only grow through AddWarning. */
    ghost predicate Valid()
      reads this
    {
      forall s :: s in warnings ==> warnings[s] != []
    }

    /** A new summary has no successes, no failures and no warnings. */
    constructor ()
      ensures successful == [] && failed == [] && warnings == map[]
      ensures Valid()
    {
      successful := [];
      failed := [];
      warnings := map[];
    }

    function SuccessfulCount(): (n: nat)
      reads this
      ensures n == |successful|
    {
      |successful|
    }

    function FailedCount(): (n: nat)
      reads this
      ensures n == |failed|
    {
      |failed|
    }

    /** Every recorded outcome, successful or failed. */
    function TotalCount(): (n: nat)
      reads this
      ensures n == |successful| + |failed|
      ensures n == SuccessfulCount() + FailedCount()
    {
      SuccessfulCount() + FailedCount()
    }

    /** The number of warnings summed over all services. */
    method WarningCount() returns (n: nat)
      ensures n == SumLengths(warnings)
    {
      n := 0;
      var pending := warnings.Keys;
      ghost var rest := warnings;
      while pending != {}
        invariant rest.Keys == pending <= warnings.Keys
        invariant forall s :: s in rest ==> rest[s] == warnings[s]
        invariant n + SumLengths(rest) == SumLengths(warnings)
        decreases pending
      {
        var s :| s in pending;
        SumLengthsRemove(rest, s);
        n := n + |warnings[s]|;
        pending := pending - {s};
        rest := rest - {s};
      }
      assert rest == map[];
    }

    /**
     * Some service has a warnings entry; while every list is non-empty this
     * is having a positive warning count.
     */
    function HasWarnings(): (b: bool)
      reads this
      ensures Valid() ==> (b <==> SumLengths(warnings) > 0)
    {
      assert Valid() ==> (SumLengths(warnings) > 0 <==> warnings != map[]) by {
        if Valid() {
          SumLengthsPositive(warnings);
        }
      }
      warnings != map[]
    }

    /** No service failed: every recorded outcome is a success. */
    function IsSuccessful(): (b: bool)
      reads this
      ensures b <==> TotalCount() == SuccessfulCount()
    {
      failed == []
    }

    /** Appends a warning to a service's list, creating the list when the service has none. */
    method AddWarning(service: string, warning: Message)
      modifies this
      ensures old(Valid()) ==> Valid()
      ensures warnings == WithWarning(old(warnings), service, warning)
      ensures successful == old(successful) && failed == old(failed)
    {
      warnings := warnings[service := WarningsOf(warnings, service) + [warning]];
    }
  }

  /** Adds each of a service's warnings in turn, as both validation passes do. */
  method AddWarnings(summary: ValidationSummary, name: string, ws: seq<Message>)
    modifies summary
    requires summary.Valid()
    ensures summary.Valid()
    ensures summary.warnings == if ws == [] then old(summary.warnings) else old(summary.warnings)[name := WarningsOf(old(summary.warnings), name) + ws]
    ensures summary.successful == old(summary.successful) && summary.failed == old(summary.failed)
  {
    var i := 0;
    while i < |ws|
      invariant 0 <= i <= |ws| && summary.Valid()
      invariant summary.warnings == if i == 0 then old(summary.warnings) else old(summary.warnings)[name := WarningsOf(old(summary.warnings), name) + ws[..i]]
      invariant summary.successful == old(summary.successful) && summary.failed == old(summary.failed)
    {
      ghost var prefix := WarningsOf(old(summary.warnings), name);
      assert ws[..i + 1] == ws[..i] + [ws[i]];
      assert WarningsOf(summary.warnings, name) == prefix + ws[..i];
      assert (prefix + ws[..i]) + [ws[i]] == prefix + ws[..i + 1];
      summary.AddWarning(name, ws[i]);
      i := i + 1;
    }
    assert ws[..i] == ws;
  }

  /** Two warnings for one service and one for another make three warnings under two keys. */
  lemma ThreeWarnings(s1: string, s2: string, w1: Message, w2: Message, w3: Message)
    requires s1 != s2
    ensures var m := WithWarning(WithWarning(WithWarning(map[], s1, w1), s1, w2), s2, w3);
      SumLengths(m) == 3 && m.Keys == {s1, s2} && |m[s1]| == 2 && |m[s2]| == 1
  {
    var m1 := WithWarning(map[], s1, w1);
    var m2 := WithWarning(m1, s1, w2);
    WithWarningCount(map[], s1, w1);
    WithWarningCount(m1, s1, w2);
    WithWarningCount(m2, s2, w3);
  }
}
