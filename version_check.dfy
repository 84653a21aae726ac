/**
 * Version-compatibility classification (the free function and the method of
 * the validation service) and the schema-version gate of validate_service.
 */
module VersionCheck {
  import opened Wrappers
  import opened SemVer
  import opened Messages
  import opened Schema

  /** The schema version this system validates against. */
  const CURRENT_SCHEMA_VERSION: string := "1.0.0"

  datatype VersionCompatibility = Compatible | MinorIncompatible | MajorIncompatible

  /**
   * Classifies `version` against `current`: unparsable on either side or a
   * different major is a major incompatibility, a different minor a minor
   * one; patch, pre-release and build are not compared.
   */
  function CheckVersionCompatibility(version: string, current: string): (r: VersionCompatibility)
    ensures Parse(version).None? || Parse(current).None? ==> r == MajorIncompatible
    ensures Parse(version).Some? && Parse(current).Some? ==>
      var v1, v2 := Parse(version).value, Parse(current).value;
      && (r == MajorIncompatible <==> v1.major != v2.major)
      && (r == MinorIncompatible <==> v1.major == v2.major && v1.minor != v2.minor)
      && (r == Compatible <==> v1.major == v2.major && v1.minor == v2.minor)
  {
    match Parse(version)
    case None => MajorIncompatible
    case Some(v1) =>
      match Parse(current)
      case None => MajorIncompatible
      case Some(v2) =>
        if v1.major != v2.major then MajorIncompatible
        else if v1.minor != v2.minor then MinorIncompatible
        else Compatible
  }

  /** The validation service's own copy of the classifier, written as a method. */
  method CheckVersionCompatibilityMethod(version: string, current: string) returns (r: VersionCompatibility)
    ensures r == CheckVersionCompatibility(version, current)
  {
    var v1 := Parse(version);
    if v1.None? {
      return MajorIncompatible;
    }
    var v2 := Parse(current);
    if v2.None? {
      return MajorIncompatible;
    }
    if v1.value.major != v2.value.major {
      r := MajorIncompatible;
    } else if v1.value.minor != v2.value.minor {
      r := MinorIncompatible;
    } else {
      r := Compatible;
    }
  }

  /** The classifier only tests fields for inequality, so it is symmetric. */
  lemma ClassifierSymmetric(version: string, current: string)
    ensures CheckVersionCompatibility(version, current) == CheckVersionCompatibility(current, version)
  {
  }

  /** Any parsable version is compatible with itself. */
  lemma ClassifierReflexive(version: string)
    requires Parse(version).Some?
    ensures CheckVersionCompatibility(version, version) == Compatible
  {
  }

  /** Normal versions: only major and minor decide; the patch level is ignored. */
  lemma ClassifyNormal(major1: nat, minor1: nat, patch1: nat, major2: nat, minor2: nat, patch2: nat)
    requires major1 <= U64_MAX && minor1 <= U64_MAX && patch1 <= U64_MAX
    requires major2 <= U64_MAX && minor2 <= U64_MAX && patch2 <= U64_MAX
    ensures var r := CheckVersionCompatibility(Format(major1, minor1, patch1), Format(major2, minor2, patch2));
      && (r == MajorIncompatible <==> major1 != major2)
      && (r == MinorIncompatible <==> major1 == major2 && minor1 != minor2)
      && (r == Compatible <==> major1 == major2 && minor1 == minor2)
  {
    ParseFormat(major1, minor1, patch1);
    ParseFormat(major2, minor2, patch2);
  }

  /** The classifier's examples: equal major.minor, a minor step, a major step, garbage. */
  lemma ClassifierExamples()
    ensures CheckVersionCompatibility("1.0.0", "1.0.1") == Compatible
    ensures CheckVersionCompatibility("1.0.0", "1.1.0") == MinorIncompatible
    ensures CheckVersionCompatibility("1.0.0", "2.0.0") == MajorIncompatible
    ensures CheckVersionCompatibility("invalid", "1.0.0") == MajorIncompatible
  {
    assert Format(1, 0, 0) == "1.0.0";
    assert Format(1, 0, 1) == "1.0.1";
    assert Format(1, 1, 0) == "1.1.0";
    assert Format(2, 0, 0) == "2.0.0";
    ClassifyNormal(1, 0, 0, 1, 0, 1);
    ClassifyNormal(1, 0, 0, 1, 1, 0);
    ClassifyNormal(1, 0, 0, 2, 0, 0);
    assert DigitsEnd("invalid", 0) == 0;
  }

  /** The schema version a configuration declares; "1.0.0" when it declares none. */
  function ConfigSchemaVersion(config: SchemaData): (v: string)
    ensures config.schemaVersion.None? ==> v == "1.0.0"
    ensures config.schemaVersion.Some? ==> v == config.schemaVersion.value
  {
    if config.schemaVersion.Some? then config.schemaVersion.value else "1.0.0"
  }

  /**
   * validate_service: `schema` is the outcome of fetching the compiled service
   * schema and `check` the outcome of checking the configuration against it
   * (both performed by the schema library, outside this model).
   */
  function ValidateService(config: SchemaData, schema: Result<(), Error>, check: Result<(), seq<string>>): (r: Result<(), Error>)
    ensures schema.Err? ==> r == Err(schema.error)
    ensures schema.Ok? && CheckVersionCompatibility(ConfigSchemaVersion(config), CURRENT_SCHEMA_VERSION) == MajorIncompatible
      ==> r == Err(IncompatibleVersion(ConfigSchemaVersion(config), CURRENT_SCHEMA_VERSION))
    ensures schema.Ok? && CheckVersionCompatibility(ConfigSchemaVersion(config), CURRENT_SCHEMA_VERSION) != MajorIncompatible
      ==> (r.Ok? <==> check.Ok?) && (check.Err? ==> r == Err(ValidationError(check.error)))
  {
    if schema.Err? then Err(schema.error)
    else
      var version := ConfigSchemaVersion(config);
      match CheckVersionCompatibility(version, CURRENT_SCHEMA_VERSION)
      case MajorIncompatible => Err(IncompatibleVersion(version, CURRENT_SCHEMA_VERSION))
      case _ =>
        if check.Ok? then Ok(()) else Err(ValidationError(check.error))
  }

  /** A configuration without a schema version is checked as "1.0.0": the schema check decides. */
  lemma MissingSchemaVersionIsChecked(schemaVersionAbsent: SchemaData, check: Result<(), seq<string>>)
    requires schemaVersionAbsent.schemaVersion.None?
    ensures ValidateService(schemaVersionAbsent, Ok(()), check).Ok? <==> check.Ok?
  {
    assert Format(1, 0, 0) == "1.0.0";
    ClassifyNormal(1, 0, 0, 1, 0, 0);
  }

  /** A major schema-version step is refused before the schema check runs. */
  lemma MajorSchemaVersionRefused(config: SchemaData, check: Result<(), seq<string>>)
    requires config.schemaVersion == Some("2.0.0")
    ensures ValidateService(config, Ok(()), check) == Err(IncompatibleVersion("2.0.0", "1.0.0"))
  {
    assert Format(1, 0, 0) == "1.0.0";
    assert Format(2, 0, 0) == "2.0.0";
    ClassifyNormal(2, 0, 0, 1, 0, 0);
  }
}
