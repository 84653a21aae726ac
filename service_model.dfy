/**
 * A registered service and its status. A status is a value updated through
 * builder functions (each takes a status and returns a changed copy); a
 * service is an object whose configuration, status and cached schema data
 * are assigned in place. The validator that inspects a schema document is
 * not part of this model: it is passed in as a function from the service's
 * name, its schema data and the set of registered names to a verdict.
 */
module ServiceModel {
  import opened Wrappers
  import opened Messages
  import opened Schema

  datatype ServiceState = Active | Inactive | Validating | Error

  datatype ServiceStatus = ServiceStatus(state: ServiceState, errorMessage: Option<Message>, warnings: seq<Message>)

  /** What the schema validator reports for one service: a verdict and its warnings. */
  datatype Verdict = Verdict(result: Result<(), Error>, warnings: seq<Message>)

  type Validator = (string, SchemaData, set<string>) -> Verdict

  /** A fresh status in the given state, with no error message and no warnings. */
  function NewStatus(state: ServiceState): (s: ServiceStatus)
    ensures s.state == state && s.errorMessage == None && s.warnings == []
  {
    ServiceStatus(state, None, [])
  }

  /** Records an error: the state becomes Error and the message is kept; warnings stay. */
  function WithError(s: ServiceStatus, message: Message): (r: ServiceStatus)
    ensures r.state == Error && r.errorMessage == Some(message)
    ensures r.warnings == s.warnings
  {
    s.(state := Error, errorMessage := Some(message))
  }

  /** Replaces the warnings; state and error message stay. */
  function WithWarnings(s: ServiceStatus, warnings: seq<Message>): (r: ServiceStatus)
    ensures r.warnings == warnings
    ensures r.state == s.state && r.errorMessage == s.errorMessage
  {
    s.(warnings := warnings)
  }

  /** Moves to a state and clears any error message; warnings stay. */
  function WithState(s: ServiceStatus, state: ServiceState): (r: ServiceStatus)
    ensures r.state == state && r.errorMessage == None
    ensures r.warnings == s.warnings
  {
    s.(state := state, errorMessage := None)
  }

  /** A status carries an error message exactly when it is in the Error state. */
  predicate Consistent(s: ServiceStatus)
  {
    s.errorMessage.Some? <==> s.state == Error
  }

  /**
   * The builders keep a status consistent, except that `WithState` into Error
   * leaves an Error without a message, and a fresh status in Error has none.
   */
  lemma BuildersConsistency(s: ServiceStatus, m: Message, ws: seq<Message>, st: ServiceState)
    ensures Consistent(NewStatus(st)) <==> st != Error
    ensures Consistent(WithError(s, m))
    ensures Consistent(WithWarnings(s, ws)) <==> Consistent(s)
    ensures Consistent(WithState(s, st)) <==> st != Error
  {
  }

  /** The status a successful validation leaves: Active, carrying the validator's warnings. */
  function PassedStatus(warnings: seq<Message>): (s: ServiceStatus)
    ensures s.state == Active && s.errorMessage == None && s.warnings == warnings
    ensures Consistent(s)
  {
    WithWarnings(NewStatus(Active), warnings)
  }

  /** The status a failed validation leaves: Error with the message, carrying the validator's warnings. */
  function FailedStatus(message: Message, warnings: seq<Message>): (s: ServiceStatus)
    ensures s.state == Error && s.errorMessage == Some(message) && s.warnings == warnings
    ensures Consistent(s)
  {
    WithWarnings(WithError(NewStatus(Error), message), warnings)
  }

  /** The schema data a service validates against: the cached copy, else a fresh load. */
  function SchemaFor(cached: Option<SchemaData>, load: Result<SchemaData, Error>): (r: Result<SchemaData, Error>)
    ensures cached.Some? ==> r == Ok(cached.value)
    ensures cached.None? ==> r == load
  {
    if cached.Some? then Ok(cached.value) else load
  }

  class Service {
    const name: string
    var config: ServiceConfig
    var status: ServiceStatus
    var schemaData: Option<SchemaData>

    /** A new service starts Inactive, with no error, no warnings and no schema data. */
    constructor (name: string, config: ServiceConfig)
      ensures this.name == name && this.config == config
      ensures status == NewStatus(Inactive) && schemaData == None
      ensures Consistent(status)
    {
      this.name := name;
      this.config := config;
      status := NewStatus(Inactive);
      schemaData := None;
    }

    /** Replaces the configuration, drops the cached schema data and moves to Validating. */
    method UpdateConfig(config: ServiceConfig) returns (r: Result<(), Error>)
      modifies this
      ensures r == Ok(())
      ensures this.config == config && schemaData == None
      ensures status == NewStatus(Validating) && Consistent(status)
    {
      this.config := config;
      status := NewStatus(Validating);
      schemaData := None;
      r := Ok(());
    }

    /**
     * Returns the schema data, loading it only when nothing is cached; a
     * successful load is cached, a failed one leaves the cache empty.
     * `load` is what reading and parsing the configuration file yields.
     */
    method LoadSchemaData(load: Result<SchemaData, Error>) returns (r: Result<SchemaData, Error>)
      modifies this
      ensures r == SchemaFor(old(schemaData), load)
      ensures schemaData == if r.Ok? then Some(r.value) else None
      ensures config == old(config) && status == old(status)
    {
      if schemaData.None? {
        if load.Err? {
          return Err(load.error);
        }
        schemaData := Some(load.value);
      }
      r := Ok(schemaData.value);
    }

    /**
     * Validates the service against its schema data. A failed load returns
     * its error and leaves the service Validating. Otherwise the validator's
     * verdict decides: Ok leaves the service Active with the warnings; an
     * error leaves it in Error, with a message wrapping that error and the
     * warnings, and is returned.
     */
    method Validate(load: Result<SchemaData, Error>, validator: Validator, available: set<string>)
      returns (r: Result<(), Error>)
      modifies this
      ensures config == old(config)
      ensures Consistent(status)
      ensures var data := SchemaFor(old(schemaData), load);
        if data.Err? then
          r == Err(data.error) && status == NewStatus(Validating) && schemaData == None
        else
          var v := validator(name, data.value, available);
          schemaData == Some(data.value) && r == v.result &&
          status == (if v.result.Ok? then PassedStatus(v.warnings)
                     else FailedStatus(SchemaValidationFailed(v.result.error), v.warnings))
      ensures r.Ok? <==> status.state == Active
    {
      status := NewStatus(Validating);
      var data := LoadSchemaData(load);
      if data.Err? {
        return Err(data.error);
      }
      var v := validator(name, data.value, available);
      if v.result.Ok? {
        status := PassedStatus(v.warnings);
        r := v.result;
      } else {
        status := FailedStatus(SchemaValidationFailed(v.result.error), v.warnings);
        r := Err(v.result.error);
      }
    }

    /** Puts the service in Error with the given message and no warnings. */
    method SetError(message: Message)
      modifies this
      ensures status == WithError(NewStatus(Error), message)
      ensures status.state == Error && status.errorMessage == Some(message) && status.warnings == []
      ensures config == old(config) && schemaData == old(schemaData)
    {
      status := WithError(NewStatus(Error), message);
    }
  }
}
