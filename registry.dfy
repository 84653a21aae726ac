/**
 * The service registry: the services by name, registration, lookup, and the
 * validation pass over every registered service. Saving to and reading from
 * disk, parsing, and the schema validator are not part of this model: their
 * outcomes are parameters.
 */
module Registry {
  import opened Wrappers
  import opened Messages
  import opened Schema
  import opened Seqs
  import opened ServiceModel
  import opened Summary

  /** What loading a service's configuration file yields, by service name. */
  type Loader = string -> Result<SchemaData, Error>

  /** Every service either has cached schema data or loads it successfully. */
  predicate AllLoad(cached: map<string, Option<SchemaData>>, load: Loader)
  {
    forall n :: n in cached ==> SchemaFor(cached[n], load(n)).Ok?
  }

  /** The validator's verdict on each service among `done` that has schema data. */
  function VerdictsOn(cached: map<string, Option<SchemaData>>, load: Loader, validator: Validator, done: set<string>): map<string, Verdict>
  {
    map n | n in done && n in cached && SchemaFor(cached[n], load(n)).Ok? ::
      validator(n, SchemaFor(cached[n], load(n)).value, cached.Keys)
  }

  /** Deciding one more service adds exactly its verdict. */
  lemma VerdictsOnAdd(cached: map<string, Option<SchemaData>>, load: Loader, validator: Validator, done: set<string>, n: string)
    requires n in cached && n !in done && SchemaFor(cached[n], load(n)).Ok?
    ensures VerdictsOn(cached, load, validator, done + {n}) ==
      VerdictsOn(cached, load, validator, done)[n := validator(n, SchemaFor(cached[n], load(n)).value, cached.Keys)]
  {
  }

  /** The status the validation pass gives a service for its verdict. */
  function StatusFor(v: Verdict): (s: ServiceStatus)
    ensures s.state == Active <==> v.result.Ok?
    ensures s.warnings == v.warnings && Consistent(s)
  {
    if v.result.Ok? then PassedStatus(v.warnings) else FailedStatus(ErrorText(v.result.error), v.warnings)
  }

  /**
   * The summary the pass must produce from the verdicts: each passing service
   * listed once as successful, each failing one listed once as failed with
   * its error, and a warnings entry exactly for the services with warnings.
   */
  ghost predicate SummaryOf(verdicts: map<string, Verdict>, successful: seq<string>, failed: seq<(string, Message)>, warnings: WarningMap)
  {
    NoDup(successful) &&
    Elems(successful) == (set n | n in verdicts && verdicts[n].result.Ok?) &&
    NoDup(FailedNames(failed)) &&
    Elems(FailedNames(failed)) == (set n | n in verdicts && verdicts[n].result.Err?) &&
    (forall i :: 0 <= i < |failed| ==>
       failed[i].0 in verdicts && verdicts[failed[i].0].result.Err? &&
       failed[i].1 == ErrorText(verdicts[failed[i].0].result.error)) &&
    warnings == (map n | n in verdicts && verdicts[n].warnings != [] :: verdicts[n].warnings)
  }

  /** Every service lands in exactly one of the two lists, so the total is the number of services. */
  lemma SummaryPartition(verdicts: map<string, Verdict>, successful: seq<string>, failed: seq<(string, Message)>, warnings: WarningMap)
    requires SummaryOf(verdicts, successful, failed, warnings)
    ensures Elems(successful) !! Elems(FailedNames(failed))
    ensures Elems(successful) + Elems(FailedNames(failed)) == verdicts.Keys
    ensures |successful| + |failed| == |verdicts|
  {
    var s := Elems(successful);
    var f := Elems(FailedNames(failed));
    NoDupCard(successful);
    NoDupCard(FailedNames(failed));
    assert s + f == verdicts.Keys;
    assert |s + f| == |s| + |f|;
  }

  /** One more service's verdict recorded, as the pass records it. */
  lemma SummaryStep(verdicts: map<string, Verdict>, successful: seq<string>, failed: seq<(string, Message)>, warnings: WarningMap,
                    n: string, v: Verdict)
    requires SummaryOf(verdicts, successful, failed, warnings) && n !in verdicts
    ensures var w := if v.warnings == [] then warnings else warnings[n := v.warnings];
      if v.result.Ok? then SummaryOf(verdicts[n := v], successful + [n], failed, w)
      else SummaryOf(verdicts[n := v], successful, failed + [(n, ErrorText(v.result.error))], w)
  {
    var vs := verdicts[n := v];
    var w := if v.warnings == [] then warnings else warnings[n := v.warnings];
    assert w == (map m | m in vs && vs[m].warnings != [] :: vs[m].warnings);
    if v.result.Ok? {
      NoDupConcat(successful, [n]);
      assert Elems(successful + [n]) == Elems(successful) + {n};
    } else {
      var f := failed + [(n, ErrorText(v.result.error))];
      assert FailedNames(f) == FailedNames(failed) + [n];
      NoDupConcat(FailedNames(failed), [n]);
      assert Elems(FailedNames(f)) == Elems(FailedNames(failed)) + {n};
    }
  }

  /** A service holds the schema data it was validated against and the status its verdict gives. */
  ghost predicate Settled(s: Service, data: SchemaData, v: Verdict)
    reads s
  {
    s.schemaData == Some(data) && s.status == StatusFor(v)
  }

  /** Records one service's verdict: its warnings, its place in the summary and its new status. */
  method RecordVerdict(summary: ValidationSummary, service: Service, name: string, v: Verdict, ghost verdicts: map<string, Verdict>)
    modifies summary, service
    requires summary != service as object
    requires summary.Valid() && name !in verdicts
    requires SummaryOf(verdicts, summary.successful, summary.failed, summary.warnings)
    ensures summary.Valid()
    ensures SummaryOf(verdicts[name := v], summary.successful, summary.failed, summary.warnings)
    ensures service.status == StatusFor(v) && service.schemaData == old(service.schemaData)
    ensures service.config == old(service.config)
  {
    SummaryStep(verdicts, summary.successful, summary.failed, summary.warnings, name, v);
    assert name !in summary.warnings;
    assert WarningsOf(summary.warnings, name) + v.warnings == v.warnings;
    AddWarnings(summary, name, v.warnings);
    if v.result.Ok? {
      summary.successful := summary.successful + [name];
    } else {
      summary.failed := summary.failed + [(name, ErrorText(v.result.error))];
    }
    service.status := StatusFor(v);
  }

  class ServiceRegistry {
    var services: map<string, Service>

    /** Each service is stored under its own name, so distinct names hold distinct services. */
    ghost predicate Valid()
      reads this, services.Values
    {
      forall n :: n in services ==> services[n].name == n
    }

    /** The cached schema data of every service. */
    ghost function Cached(): map<string, Option<SchemaData>>
      reads this, services.Values
    {
      map n | n in services :: services[n].schemaData
    }

    constructor ()
      ensures services == map[] && Valid()
    {
      services := map[];
    }

    /** The service registered under `name`, or a configuration error naming it. */
    function GetService(name: string): (r: Result<Service, Error>)
      reads this
      ensures r.Ok? <==> name in services
      ensures r.Ok? ==> r.value == services[name]
      ensures r.Err? ==> r.error == Config(ServiceNotFound(name))
    {
      if name in services then Ok(services[name]) else Err(Config(ServiceNotFound(name)))
    }

    /**
     * Registers a service: saves its configuration, parses it, validates the
     * new service against the names registered so far and stores it under
     * `name` whatever the validation's outcome. `saved` is what saving the
     * configuration yields, `parsed` what parsing it yields (a parse failure
     * carries the parser's complaint), `load` what loading its schema file
     * yields.
     */
    method RegisterService(name: string, saved: Result<(), Error>, parsed: Result<ServiceConfig, string>,
                           load: Result<SchemaData, Error>, validator: Validator)
      returns (r: Result<(), Error>)
      modifies this
      requires Valid()
      ensures Valid()
      ensures saved.Err? ==> r == saved && services == old(services)
      ensures saved.Ok? && parsed.Err? ==> r == Err(Config(InvalidConfig(parsed.error))) && services == old(services)
      ensures saved.Ok? && parsed.Ok? ==> r == Ok(()) && services.Keys == old(services.Keys) + {name}
      ensures saved.Ok? && parsed.Ok? ==>
        var s := services[name];
        fresh(s) && s.name == name && s.config == parsed.value && Consistent(s.status) &&
        (var data := SchemaFor(None, load);
         if data.Err? then s.status == NewStatus(Validating) && s.schemaData == None
         else
           var v := validator(name, data.value, old(services.Keys));
           s.schemaData == Some(data.value) &&
           s.status == (if v.result.Ok? then PassedStatus(v.warnings)
                        else FailedStatus(SchemaValidationFailed(v.result.error), v.warnings)) &&
           (s.status.state == Active <==> v.result.Ok?))
      ensures forall n :: n in old(services) && n != name ==> n in services && services[n] == old(services)[n]
    {
      if saved.Err? {
        return saved;
      }
      if parsed.Err? {
        return Err(Config(InvalidConfig(parsed.error)));
      }
      var service := new Service(name, parsed.value);
      var names := services.Keys;
      var _ := service.Validate(load, validator, names);
      services := services[name := service];
      r := Ok(());
    }

    /**
     * The state of the validation pass once the services in `done` are
     * decided: the summary records exactly their verdicts, each of them is
     * settled, and every other service still holds its cached schema data.
     */
    ghost predicate Progress(cached: map<string, Option<SchemaData>>, load: Loader, validator: Validator,
                             summary: ValidationSummary, done: set<string>)
      reads this, services.Values, summary
    {
      cached.Keys == services.Keys && done <= services.Keys &&
      SummaryOf(VerdictsOn(cached, load, validator, done), summary.successful, summary.failed, summary.warnings) &&
      (forall n :: n in services && n !in done ==> services[n].schemaData == cached[n]) &&
      (forall n :: n in done ==>
        SchemaFor(cached[n], load(n)).Ok? &&
        Settled(services[n], SchemaFor(cached[n], load(n)).value, validator(n, SchemaFor(cached[n], load(n)).value, services.Keys)))
    }

    /** One iteration of the pass: loads, validates and records the service `name`. */
    method ValidateOne(name: string, summary: ValidationSummary, load: Loader, validator: Validator,
                       ghost cached: map<string, Option<SchemaData>>, ghost done: set<string>)
      returns (err: Option<Error>)
      requires Valid() && name in services && name !in done
      requires summary.Valid()
      requires Progress(cached, load, validator, summary, done)
      modifies services[name], summary
      ensures Valid() && summary.Valid()
      ensures err.Some? ==> cached[name] == None && load(name) == Err(err.value)
      ensures err.None? ==> Progress(cached, load, validator, summary, done + {name})
      ensures services[name].config == old(services[name].config)
    {
      var service := services[name];
      var data := service.LoadSchemaData(load(name));
      if data.Err? {
        return Some(data.error);
      }
      var v := validator(name, data.value, services.Keys);
      VerdictsOnAdd(cached, load, validator, done, name);
      RecordVerdict(summary, service, name, v, VerdictsOn(cached, load, validator, done));
      forall n | n in services && n != name ensures services[n] != service {
        assert services[n].name == n;
      }
      err := None;
    }

    /**
     * Validates every registered service. A service without cached schema
     * data loads it first, and a failed load aborts the pass with that
     * error. Otherwise each service's verdict goes to the summary (its
     * warnings, then its success or failure) and sets its status.
     */
    method ValidateAllServices(load: Loader, validator: Validator) returns (r: Result<ValidationSummary, Error>)
      requires Valid()
      modifies services.Values
      ensures r.Ok? <==> AllLoad(old(Cached()), load)
      ensures r.Err? ==> exists n :: n in services && old(services[n].schemaData) == None && load(n) == Err(r.error)
      ensures r.Ok? ==> fresh(r.value) && r.value.Valid() && Progress(old(Cached()), load, validator, r.value, services.Keys)
      ensures services == old(services) && forall n :: n in services ==> services[n].config == old(services[n].config)
    {
      ghost var cached := Cached();
      var names := services.Keys;
      assert cached.Keys == names;
      var summary := new ValidationSummary();
      var pending := names;
      ghost var done: set<string> := {};
      assert VerdictsOn(cached, load, validator, done) == map[];
      while pending != {}
        invariant pending <= names == services.Keys && Valid()
        invariant done == names - pending
        invariant fresh(summary) && summary.Valid()
        invariant Progress(cached, load, validator, summary, done)
        invariant services == old(services) && forall n :: n in services ==> services[n].config == old(services[n].config)
        decreases pending
      {
        var name :| name in pending;
        var err := ValidateOne(name, summary, load, validator, cached, done);
        if err.Some? {
          assert cached[name] == old(services[name].schemaData);
          return Err(err.value);
        }
        pending := pending - {name};
        done := done + {name};
      }
      assert done == services.Keys && cached == old(Cached());
      r := Ok(summary);
    }
  }

  /**
   * After a completed pass every service is in exactly one of the two lists,
   * it is Active exactly when it is listed as successful, its status carries
   * its warnings, and the summary has a warnings entry for it exactly when
   * those warnings are non-empty.
   */
  lemma PassOutcome(reg: ServiceRegistry, cached: map<string, Option<SchemaData>>, load: Loader, validator: Validator,
                    summary: ValidationSummary)
    requires reg.Progress(cached, load, validator, summary, reg.services.Keys)
    ensures summary.TotalCount() == |reg.services|
    ensures forall n :: n in reg.services ==>
      (n in summary.successful <==> n !in FailedNames(summary.failed)) &&
      (n in summary.successful <==> reg.services[n].status.state == Active) &&
      (n in summary.warnings <==> reg.services[n].status.warnings != []) &&
      (n in summary.warnings ==> summary.warnings[n] == reg.services[n].status.warnings)
  {
    var verdicts := VerdictsOn(cached, load, validator, reg.services.Keys);
    var status := map n | n in reg.services :: reg.services[n].status;
    assert verdicts.Keys == reg.services.Keys;
    forall n | n in reg.services
      ensures n in verdicts && status[n] == StatusFor(verdicts[n])
    {
    }
    SummaryMatchesStatuses(verdicts, summary.successful, summary.failed, summary.warnings, status);
  }

  /** After a completed pass, the summary is successful exactly when every service ended Active. */
  lemma PassSuccessful(reg: ServiceRegistry, cached: map<string, Option<SchemaData>>, load: Loader, validator: Validator,
                       summary: ValidationSummary)
    requires reg.Progress(cached, load, validator, summary, reg.services.Keys)
    ensures summary.IsSuccessful() <==> forall n :: n in reg.services ==> reg.services[n].status.state == Active
  {
    PassOutcome(reg, cached, load, validator, summary);
    if summary.failed != [] {
      var n := summary.failed[0].0;
      assert FailedNames(summary.failed)[0] == n;
      assert n in VerdictsOn(cached, load, validator, reg.services.Keys);
    }
  }

  /**
   * A summary of the verdicts agrees with the statuses they give: a service
   * is successful exactly when it is not failed and exactly when it is
   * Active, and its warnings entry is its status's warnings.
   */
  lemma SummaryMatchesStatuses(verdicts: map<string, Verdict>, successful: seq<string>, failed: seq<(string, Message)>,
                               warnings: WarningMap, status: map<string, ServiceStatus>)
    requires SummaryOf(verdicts, successful, failed, warnings)
    requires status.Keys == verdicts.Keys && forall n :: n in verdicts ==> status[n] == StatusFor(verdicts[n])
    ensures |successful| + |failed| == |verdicts|
    ensures forall n :: n in verdicts ==>
      (n in successful <==> n !in FailedNames(failed)) &&
      (n in successful <==> status[n].state == Active) &&
      (n in warnings <==> status[n].warnings != []) &&
      (n in warnings ==> warnings[n] == status[n].warnings)
  {
    SummaryPartition(verdicts, successful, failed, warnings);
    forall n | n in verdicts
      ensures (n in successful <==> n in Elems(successful)) && (n in FailedNames(failed) <==> n in Elems(FailedNames(failed)))
    {
    }
  }
}
