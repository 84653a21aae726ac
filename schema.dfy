/**
 * The shapes of a service's configuration that the core reads: a declared
 * dependency, the on-disk service configuration, and the two fields of a
 * service's loaded schema document that the core inspects.
 */
module Schema {
  import opened Wrappers

  /** A dependency one service declares on another. */
  datatype Dependency = Dependency(service: string, versionConstraint: Option<string>, required: bool)

  /**
   * Reading a dependency from a configuration document: the `required` field
   * defaults to true when it is absent.
   */
  function ReadDependency(service: string, versionConstraint: Option<string>, required: Option<bool>): (d: Dependency)
    ensures d.service == service && d.versionConstraint == versionConstraint
    ensures d.required <==> required != Some(false)
  {
    Dependency(service, versionConstraint, if required.Some? then required.value else true)
  }

  /** A service's configuration as stored in the registry. */
  datatype ServiceConfig = ServiceConfig(
    namespace: Option<string>,
    configPath: string,
    schemaVersion: string,
    dependencies: Option<seq<Dependency>>)

  /** The dependencies a configuration declares; none when the field is absent. */
  function Declared(c: ServiceConfig): seq<Dependency>
  {
    if c.dependencies.Some? then c.dependencies.value else []
  }

  /**
   * A loaded schema document, reduced to what the core reads from it: the
   * `version` field and the `schema_version` field, each present only when it
   * holds a string.
   */
  datatype SchemaData = SchemaData(version: Option<string>, schemaVersion: Option<string>)
}
