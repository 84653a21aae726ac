/**
 * Findings and errors of the catalog. The source formats every finding into
 * a sentence; here each one is a tagged value that keeps the names and
 * versions the sentence would interpolate, so that "the message mentions
 * the dependency" is a property of the value.
 */
module Messages {

  datatype Message =
    | RequiredNotFound(dep: string)
    | OptionalNotFound(dep: string)
    | MinorMismatch(dep: string, expected: string, found: string)
    | MajorMismatch(dep: string, expected: string, found: string)
    | OptionalIncompatible(dep: string, expected: string, found: string)
    | MissingVersion(dep: string)
    | CircularDependency(path: seq<string>)
    | ServiceNotFound(name: string)
    | InvalidConfig(detail: string)
    | SchemaValidationFailed(error: Error)
    | ErrorText(error: Error)
    | Text(text: string)

  /** The dependency (or service) a finding is about, when it names one. */
  predicate Mentions(m: Message, name: string)
  {
    match m
    case RequiredNotFound(d) => d == name
    case OptionalNotFound(d) => d == name
    case MinorMismatch(d, _, _) => d == name
    case MajorMismatch(d, _, _) => d == name
    case OptionalIncompatible(d, _, _) => d == name
    case MissingVersion(d) => d == name
    case CircularDependency(p) => name in p
    case ServiceNotFound(n) => n == name
    case InvalidConfig(_) => false
    case SchemaValidationFailed(_) => false
    case ErrorText(_) => false
    case Text(_) => false
  }

  /**
   * The error kinds of src/error.rs. Configuration and service errors carry
   * a finding rather than its formatted text.
   */
  datatype Error =
    | Git(detail: string)
    | Io(detail: string)
    | Config(reason: Message)
    | ServiceFailure(cause: Message)
    | ValidationError(errors: seq<string>)
    | SchemaCompilationError(detail: string)
    | IncompatibleVersion(found: string, current: string)
    | NotImplemented(detail: string)
}
