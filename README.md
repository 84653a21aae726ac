# aureacore dependency core, modelled in Dafny

aureacore is a service catalog. It keeps a registry of services, each with a
configuration that declares the services it depends on (required or optional,
optionally constrained to a version). This project models the logic at the
centre of the catalog and proves what it promises:

- **The dependency graph** (`Graph`, `GraphBuild`). An adjacency map from a
  service name to its outgoing edges, each edge carrying `required` and a
  version constraint. It is a class whose `AddNode` and `AddEdge` update the
  map in place. The graph of a registry has one node per registered service,
  and a declared dependency becomes an edge only when its target is registered.
- **Ordering** (`InDegree`, `Kahn`, `Ordering`). Kahn's in-degree sort works on
  an in-degree map, a queue and an output sequence, and its output is then
  reversed so that dependencies come first. On top of it sit:
  - cycle detection, which reports a real cycle of the graph;
  - dependency resolution, which orders the transitive closure of the
    requested services or reports a cycle reachable from them.
- **Impact analysis** (`Impact`). A reverse breadth-first search that returns
  exactly the services that depend on a given one, directly or transitively.
- **Version compatibility** (`SemVer`, `VersionCheck`).
  - Two strings are parsed as Semantic Versioning 2.0.0 versions and classified
    as `Compatible`, `MinorIncompatible` or `MajorIncompatible`.
  - Only the major and minor fields count, and an unparsable string is a major
    incompatibility.
  - `validate_service` uses the classifier to gate the schema check.
- **Service status** (`ServiceModel`). The builder functions on
  `ServiceStatus`, and the `Service` object whose configuration, status and
  cached schema data change in place.
- **The validation summary and the registry pass** (`Summary`, `Registry`).
  - The summary has a successful list, a failed list and per-service warning
    lists.
  - The registry's pass validates every service through the schema validator,
    which is a parameter here.
  - Registration stores a service even when its validation fails.
- **The dependency-validation policy** (`Policy`). The test registry's pass:
  - it builds the graph of registered services;
  - it files a detected cycle as one warning under `system`;
  - it decides each declared dependency as missing, minor mismatch or major
    mismatch, each either required or optional;
  - it drives every service to `Active` or `Error`.
- **Scenarios** (`Fixtures`, `PolicyFixtures`). The catalog's integration
  scenarios as lemmas about the model:
  - the four-service registry;
  - the nine-service hierarchy;
  - the X→Y→Z→X ring;
  - the missing required dependency;
  - the optional version mismatch.

Several operations of the dependency module are stubs today: they return
`None`, an empty list or an empty graph. The model gives each one the
behaviour its callers expect. The stubs themselves are modelled as written in
`Stubs` and compared under "## Findings".

Messages are tagged values (`Messages.Message`) that carry the names and
versions the formatted text would hold. So "the message names the dependency"
is a property of the value (`Messages.Mentions`).

## Model

| member | source | states |
|---|---|---|
| Schema.ReadDependency | src/schema/service.rs:62-76 | A dependency read from configuration keeps its service and constraint. It is required unless `required` is explicitly false (the serde default is true). |
| SemVer.DigitsEnd | src/schema/validation.rs:39-47 | Every character of the scanned run is a digit, and the character after it is not. |
| SemVer.ParseNormalPart | src/schema/validation.rs:39-47 | The MAJOR.MINOR.PATCH prefix parses only to components that fit in an unsigned 64-bit integer, and its end lies inside the string. |
| SemVer.Parse | src/schema/validation.rs:39-47 | A version parses only when its three components each fit in 64 bits. FormatPrefix and RejectionExamples state which strings it accepts. |
| SemVer.NatToDecimal | src/schema/validation.rs:217-244 | The decimal spelling of n has no superfluous leading zero, and its value is n. |
| SemVer.DigitsEndAt | src/schema/validation.rs:39-47 | A digit run that is followed by a non-digit (or by the end) ends exactly there. |
| SemVer.NormalPartOf | src/schema/validation.rs:39-47 | Three valid components separated by dots make up the whole normal-version prefix. |
| SemVer.ParseNormal | src/schema/validation.rs:39-47 | Such a string parses to exactly those three numbers, with no pre-release and no build. |
| SemVer.ParseFormat | src/schema/validation.rs:39-47 | Round trip: every 64-bit normal version parses back from its own spelling. |
| SemVer.PositiveLead | src/schema/validation.rs:39-47 | A digit string that does not start with 0 has a value of at least 1. |
| SemVer.DecimalCanonical | src/schema/validation.rs:39-47 | A component without a superfluous leading zero is the one canonical spelling of its value. |
| SemVer.FormatOf | src/schema/validation.rs:39-47 | Three canonical components joined by dots are the spelling of their values. |
| SemVer.NormalParts | src/schema/validation.rs:39-47 | An accepted normal-version prefix is three valid components separated by two dots, and its values are theirs. |
| SemVer.NormalPrefix | src/schema/validation.rs:39-47 | An accepted string begins with the canonical spelling of its major.minor.patch. |
| SemVer.IdentsNonEmpty | src/schema/validation.rs:39-47 | An accepted pre-release or build is never empty. |
| SemVer.SuffixNonEmpty | src/schema/validation.rs:39-47 | Any accepted text after the normal version yields a non-empty pre-release or build. |
| SemVer.FormatPrefix | src/schema/validation.rs:39-47 | The converse of ParseFormat: an accepted string starts with Format of its numbers. It equals that spelling exactly when it has no pre-release and no build. |
| SemVer.LeadingZeroRejected | src/schema/validation.rs:39-47 | A string whose major component has a leading zero is refused. |
| SemVer.RejectionExamples | src/schema/validation.rs:39-47 | "1.0" (a missing component), "1.0.0-" (an empty pre-release), "1.0.0x" (trailing text) and "01.0.0" (a leading zero) are all refused. |
| VersionCheck.CheckVersionCompatibility | src/schema/validation.rs:37-57 | If either string fails to parse, the result is MajorIncompatible. On parsed versions each outcome holds exactly when its condition holds: different majors give Major, same major and different minors give Minor, same major and minor give Compatible. |
| VersionCheck.CheckVersionCompatibilityMethod | src/schema/validation.rs:184-208 | The validation service's method returns the same classification as the free function, for every input. |
| VersionCheck.ClassifierSymmetric | src/schema/validation.rs:37-57 | Swapping the two arguments never changes the classification. |
| VersionCheck.ClassifierReflexive | src/schema/validation.rs:50-56 | Any parsable version is Compatible with itself. |
| VersionCheck.ClassifyNormal | src/schema/validation.rs:37-57 | For two normal versions, major decides first and minor second, in both directions. Patch never matters. |
| VersionCheck.ClassifierExamples | src/schema/validation.rs:217-244 | 1.0.0/1.0.1 is Compatible, 1.0.0/1.1.0 is MinorIncompatible, 1.0.0/2.0.0 is MajorIncompatible, and "invalid"/1.0.0 is MajorIncompatible. |
| VersionCheck.ConfigSchemaVersion | src/schema/validation.rs:143-144 | A configuration without a `schema_version` is read as "1.0.0". |
| VersionCheck.ValidateService | src/schema/validation.rs:138-181 | A failure to obtain the schema is returned as is. A major incompatibility with the current version is IncompatibleVersion without the schema check. Otherwise the schema check alone decides success. |
| VersionCheck.MissingSchemaVersionIsChecked | src/schema/validation.rs:143-160 | A configuration with no schema version passes the gate, so the schema check decides. |
| VersionCheck.MajorSchemaVersionRefused | src/schema/validation.rs:294-311 | Schema version 2.0.0 is refused with IncompatibleVersion("2.0.0", "1.0.0") whatever the schema check would say. |
| Graph.Targets | src/registry/dependency.rs:30-32 | The neighbour list of an edge list has the same length and the target of each edge, in order. |
| Graph.Dependents | src/registry/dependency.rs:30-32 | A node is a dependent of v exactly when it has an edge into v. |
| Graph.WithNodeEffect | src/registry/dependency.rs:39-41 | add_node makes the name a node. An existing node keeps its edges, a new one gets none, and every other node is unchanged. |
| Graph.WithEdgeEffect | src/registry/dependency.rs:43-49 | add_edge makes both ends nodes and appends exactly one (to, metadata) at the end of `from`'s list. Every other list is unchanged. |
| Graph.WithEdgeTwice | src/registry/dependency.rs:46-48 | add_edge does not deduplicate: the same edge added twice is listed twice. |
| Graph.GrowthKeepsClosed | src/registry/dependency.rs:39-49 | add_node and add_edge preserve the invariant that every edge target is a node. |
| Graph.DependencyGraph.constructor | src/registry/dependency.rs:35-37 | A new graph has no nodes. |
| Graph.DependencyGraph.AddNode | src/registry/dependency.rs:39-41 | The adjacency map becomes WithNode of the old one, whose effect WithNodeEffect states. |
| Graph.DependencyGraph.AddEdge | src/registry/dependency.rs:43-49 | The adjacency map becomes WithEdge of the old one, whose effect WithEdgeEffect states. |
| GraphBuild.RegisteredEdges | tests/dependency_validation_test.rs:62-78 | A service's edges never outnumber its declared dependencies, and every edge targets a registered service. |
| GraphBuild.RegisteredEdgesMembers | tests/dependency_validation_test.rs:62-78 | v is a neighbour exactly when v is registered and some declared dependency names v (both directions). |
| GraphBuild.RegistryGraphShape | tests/dependency_management_test.rs:122-145 | The registry graph has one node per registered service and is closed. u→v is an edge exactly when both are registered and u declares v. |
| GraphBuild.AddNodes | tests/dependency_validation_test.rs:56-59 | After the node loop, the graph holds every service with an empty edge list. |
| GraphBuild.AddRegisteredEdges | tests/dependency_management_test.rs:131-145 | The edge loop for one service appends exactly its registered edges, in declaration order. No other node changes. |
| GraphBuild.PartialGraph | tests/dependency_validation_test.rs:61-78 | While the edge loop runs, the graph keeps one node per registered service. |
| GraphBuild.PartialGraphStep | tests/dependency_validation_test.rs:61-78 | Adding a pending service's edges turns the partial graph into the one with that service done. |
| GraphBuild.BuildGraph | tests/dependency_management_test.rs:122-145 | Building a registry's graph with add_node and add_edge yields exactly RegistryGraph of that registry. |
| InDegree.OccEdge | tests/dependency_management_test.rs:241-246 | u's list counts at least one edge to v exactly when u→v is an edge. |
| InDegree.InDegRemove | tests/dependency_management_test.rs:241-246 | The in-degree from a set of sources is one source's edge count plus the in-degree from the rest, whichever source is taken out. |
| InDegree.InDegZero | tests/dependency_management_test.rs:248-254 | The in-degree is zero exactly when no source has an edge into the node. |
| InDegree.InDegAdd | tests/dependency_management_test.rs:241-246 | Counting one more node's list adds exactly its edges into v, duplicates included. |
| Kahn.ZeroDegrees | tests/dependency_management_test.rs:236-239 | Every node starts with in-degree 0 and nothing else has an entry. |
| Kahn.CountEdgesOf | tests/dependency_management_test.rs:242-246 | Walking one node's list adds one per edge, duplicates included, to the count of each target. |
| Kahn.InitInDegrees | tests/dependency_management_test.rs:234-246 | The initial map holds, for every node, the number of edges into it. |
| Kahn.SeedQueue | tests/dependency_management_test.rs:248-254 | The queue holds, once each, exactly the nodes of in-degree 0. |
| Kahn.ReleaseEdge | tests/dependency_management_test.rs:264-270 | One decrement keeps the counts exact and never goes below zero. A node is enqueued exactly when its count reaches zero, and never twice. |
| Kahn.ReleaseEdges | tests/dependency_management_test.rs:263-272 | Walking the output node's whole list leaves every count equal to the edges from the nodes not yet output. |
| Kahn.OutputFront | tests/dependency_management_test.rs:259-260 | Popping the queue's front appends it to `resolved`. That node was not output before, and every node with an edge into it is already output. |
| Kahn.KahnOrder | tests/dependency_management_test.rs:233-273 | `resolved` has no duplicates, holds only nodes and lists every node after all its dependents. A node is left out only when one of its dependents is left out too. |
| Ordering.TopologicalSort | tests/dependency_management_test.rs:233-276 | After the reversal, no node precedes one of its dependencies, each node appears once, and a node is missing only when a missing node depends on it. The order holds every node exactly when the graph has no cycle. |
| Ordering.EdgeDescends | tests/dependency_management_test.rs:276-291 | In such an order, an edge between two placed nodes goes from the later node to the earlier one. |
| Ordering.PathDescends | tests/dependency_management_test.rs:276-291 | Along a path, positions in the order strictly decrease. |
| Ordering.OrderedAcyclic | tests/dependency_management_test.rs:276-291 | A graph with a dependencies-first order of all its nodes has no cycle. |
| Ordering.FindCycle | tests/dependency_management_test.rs:763-783 | Walking dependents backwards inside the unsorted nodes returns a real cycle made of those nodes. |
| Ordering.BlockedWalk | tests/dependency_management_test.rs:259-273 | Continuing a backward walk inside a set where every node has a dependent always closes a cycle. |
| Ordering.BlockedHasCycle | tests/dependency_management_test.rs:259-273 | A non-empty set in which every node has a dependent inside the set holds a cycle. |
| Ordering.SortComplete | tests/dependency_management_test.rs:276-281 | For any closed graph, a sort output meeting the sort's promise holds every node exactly when the graph has no cycle (both directions). |
| Ordering.DetectCycles | src/registry/dependency.rs:51-53 | detect_cycles as its callers expect it: a report exactly when the graph has a cycle (both directions). The reported path is a cycle of the graph, and its description is that path. |
| Ordering.Closure | tests/dependency_management_test.rs:501-502 | Returns exactly the services reachable from the requested ones (both directions), closed under dependencies. |
| Ordering.Restrict | tests/dependency_management_test.rs:501-532 | The subgraph has exactly the given nodes, each with all of its edges. |
| Ordering.ResolvedOk | src/registry/dependency.rs:114-116 | An acyclic order of exactly the reachable services meets the resolution promise. |
| Ordering.ResolvedCycle | tests/dependency_management_test.rs:786-789 | A cycle among the reachable services meets the promise as a circular-dependency error. |
| Ordering.StuckBlocked | tests/dependency_management_test.rs:259-273 | Every node the sort leaves out has a dependent that was left out as well. |
| Ordering.OrderClosure | src/registry/dependency.rs:114-116 | For known services, resolution gives an order of exactly the reachable services, dependencies first and each once. If a cycle is reachable it gives the error carrying it. |
| Ordering.ReportStuck | tests/dependency_management_test.rs:786-789 | When the sort of the closure leaves services out, the result is the error carrying a reachable cycle. |
| Ordering.ResolveOrder | src/registry/dependency.rs:75-81 | An unknown requested service is a configuration error naming it. Otherwise the result is Ok exactly when no reachable cycle exists, and then holds exactly the reachable services, dependencies first, each once. |
| Ordering.RootLastInStartOrder | tests/dependency_management_test.rs:829-836 | Resolving one service puts it last in the start order. The stop (create) order is its reverse: same length and services, with the root first. |
| Ordering.ReachableIsNode | tests/dependency_management_test.rs:501-502 | In a closed graph, anything reachable from known services is a node. |
| Ordering.AcyclicResolves | src/registry/dependency.rs:114-116 | In a graph without cycles, resolving known services always succeeds, with exactly the reachable services. |
| Ordering.ResolveNothing | tests/dependency_management_test.rs:543-545 | Resolving no services gives the empty order. |
| Ordering.ResolveUnknown | tests/dependency_management_test.rs:548-550 | Resolving an unknown service is the error naming it. |
| Ordering.RankDescends | tests/dependency_management_test.rs:276-291 | A rank that every edge lowers strictly drops along any path. |
| Ordering.RankedAcyclic | tests/dependency_management_test.rs:276-291 | A graph whose edges all lower some rank has no cycle. |
| Impact.AddDependents | tests/dependency_management_test.rs:585-601 | One step of the reverse search records the unseen dependents of the front node. Each recorded node has a path to the target, and the seen set only grows. |
| Impact.FindImpact | src/registry/dependency.rs:63-65 | find_impact_path / analyze_impact as expected: each impacted service once, never the target. A service is impacted exactly when it reaches the target. |
| ServiceModel.NewStatus | src/registry/service.rs:71-73 | A new status has the given state, no error message and no warnings. |
| ServiceModel.WithError | src/registry/service.rs:76-81 | The state is Error and the message is kept. Warnings are unchanged. |
| ServiceModel.WithWarnings | src/registry/service.rs:84-88 | The warnings are replaced. State and error message are unchanged. |
| ServiceModel.WithState | src/registry/service.rs:91-96 | The state is set and the error message cleared. Warnings are unchanged. |
| ServiceModel.BuildersConsistency | src/registry/service.rs:69-97 | A message is present exactly in Error: with_error keeps this, with_warnings preserves it, and new/with_state keep it exactly when the state is not Error. |
| ServiceModel.PassedStatus | src/registry/service.rs:233-234 | A passed validation leaves Active, no message and exactly the validator's warnings. |
| ServiceModel.FailedStatus | src/registry/service.rs:244-247 | A failed validation leaves Error, its message and exactly the validator's warnings. |
| ServiceModel.SchemaFor | src/registry/service.rs:137-181 | Cached schema data is used as is, and only a missing cache triggers the load. |
| ServiceModel.Service.constructor | src/registry/service.rs:116-125 | A new service is Inactive, with no error, no warnings and no schema data. |
| ServiceModel.Service.UpdateConfig | src/registry/service.rs:128-134 | Replaces the configuration, drops the cached schema data, moves to Validating and returns Ok. |
| ServiceModel.Service.LoadSchemaData | src/registry/service.rs:137-181 | Returns the cache or the load. A successful load is cached, and a failed one leaves the cache empty. |
| ServiceModel.Service.Validate | src/registry/service.rs:190-252 | A failed load returns its error and leaves Validating. On the validator's Ok: Active with its warnings, returns Ok. On Err: Error with a message and its warnings, returns that Err. Returns Ok exactly when the service ends Active. |
| ServiceModel.Service.SetError | src/registry/service.rs:260-262 | The status becomes Error with the given message and no warnings. Config and schema data are unchanged. |
| Summary.SumLengthsRemove | src/registry/mod.rs:209-212 | The warning total is one list's length plus the total of the rest, whichever key is taken out. |
| Summary.SumLengthsPositive | src/registry/mod.rs:219-222 | When every list is non-empty, the total is positive exactly when the map has a key. |
| Summary.WithWarning | src/registry/mod.rs:230-232 | add_warning appends the warning to the service's list, creating the list if absent. No other list changes. |
| Summary.WithWarningCount | src/registry/mod.rs:230-232 | Each add_warning adds exactly one to the warning count. |
| Summary.ValidationSummary.constructor | src/registry/mod.rs:190-197 | A new summary has no successes, no failures and no warnings. |
| Summary.ValidationSummary.SuccessfulCount | src/registry/mod.rs:200-202 | The number of successful entries. |
| Summary.ValidationSummary.FailedCount | src/registry/mod.rs:205-207 | The number of failed entries. |
| Summary.ValidationSummary.TotalCount | src/registry/mod.rs:215-217 | total_count is successful_count plus failed_count. |
| Summary.ValidationSummary.WarningCount | src/registry/mod.rs:210-212 | warning_count is the sum of all list lengths. |
| Summary.ValidationSummary.HasWarnings | src/registry/mod.rs:219-222 | While every list is non-empty, has_warnings holds exactly when warning_count is positive. |
| Summary.ValidationSummary.IsSuccessful | src/registry/mod.rs:224-227 | is_successful holds exactly when every recorded outcome is a success (total_count equals successful_count). |
| Summary.ValidationSummary.AddWarning | src/registry/mod.rs:230-232 | The map becomes WithWarning of the old one. Lists stay non-empty, and the successful and failed lists are unchanged. |
| Summary.AddWarnings | src/registry/mod.rs:144-146 | Adding a service's warnings one by one appends them all, in order, to its list. Nothing is added when there are none. |
| Summary.ThreeWarnings | src/registry/mod.rs:453-472 | Two warnings for one service and one for another give a count of 3 under two keys, with lists of 2 and 1. |
| Registry.VerdictsOnAdd | src/registry/mod.rs:129-141 | Deciding one more service adds exactly its verdict. |
| Registry.StatusFor | src/registry/mod.rs:148-160 | The pass leaves a service Active exactly when the validator says Ok. The status carries the validator's warnings and is consistent. |
| Registry.SummaryPartition | src/registry/mod.rs:148-161 | Every validated service is in exactly one of successful and failed, so total_count is the number of services. |
| Registry.SummaryStep | src/registry/mod.rs:143-161 | Recording one more verdict (warnings, then success or failure) keeps the summary equal to the summary of the verdicts. |
| Registry.RecordVerdict | src/registry/mod.rs:143-161 | One loop turn: the verdict's warnings go to the summary, the service is listed by outcome, and its status follows the verdict. |
| Registry.ServiceRegistry.constructor | src/registry/mod.rs:33-40 | A new registry holds no services. |
| Registry.ServiceRegistry.GetService | src/registry/mod.rs:88-92 | Ok exactly when the name is registered, and then that service. Otherwise a configuration error naming it. |
| Registry.ServiceRegistry.RegisterService | src/registry/mod.rs:56-85 | Save and parse failures are returned and change nothing. Otherwise it returns Ok and stores a fresh service under its name with the parsed configuration, even when validation fails. A failed schema load leaves it Validating with no schema data. Otherwise it caches the data and ends Active with the validator's warnings on Ok, or Error with the wrapped error and the warnings. Other services are unchanged. |
| Registry.ServiceRegistry.ValidateOne | src/registry/mod.rs:129-162 | One service is loaded if needed, validated and recorded. A failed load is reported with its error. |
| Registry.ServiceRegistry.ValidateAllServices | src/registry/mod.rs:122-166 | Ok exactly when every service has or loads its schema data, and an Err is the load error of some uncached service. On Ok the summary and every status follow the validator's verdicts. Either way the set of services and every service's configuration are unchanged. |
| Registry.PassOutcome | src/registry/mod.rs:129-163 | After a pass, each service is in exactly one of successful/failed and is Active exactly when successful. Its status holds its warnings, and the summary has its warnings exactly when they are non-empty. |
| Registry.PassSuccessful | src/registry/mod.rs:224-227 | After a completed pass, is_successful holds exactly when every service ended Active. |
| Registry.SummaryMatchesStatuses | src/registry/mod.rs:143-161 | The summary of the verdicts and the statuses they give agree service by service. |
| Policy.Decide | tests/dependency_validation_test.rs:97-165 | Only a required dependency can fail its service, and every warning or error names the dependency. A missing target always yields a finding. A present target without a constraint or loaded schema yields none. |
| Policy.VersionFinding | tests/dependency_validation_test.rs:113-145 | A mismatch finding names the dependency, and only a required one can fail. |
| Policy.CriticalExactly | tests/dependency_validation_test.rs:127-160 | A dependency fails its service exactly when it is required and its target is missing or a major version away (both directions). |
| Policy.OptionalOnlyWarns | tests/dependency_validation_test.rs:137-143 | An optional dependency never fails its service. A missing optional one gives the not-found warning. |
| Policy.DecideNormalVersions | tests/dependency_validation_test.rs:116-145 | On normal versions, equal major.minor is clear whatever the patch and a minor step warns. A major step fails exactly a required dependency. |
| Policy.Findings | tests/dependency_validation_test.rs:98-166 | One finding per declared dependency, in order. |
| Policy.FindingsListed | tests/dependency_validation_test.rs:122-163 | The warning and error lists hold exactly the findings' warnings and errors (both directions). |
| Policy.FindingsStep | tests/dependency_validation_test.rs:98-166 | One more dependency extends the list of its kind, and the failed entries with it. |
| Policy.Tagged | tests/dependency_validation_test.rs:136 | Each error becomes one failed entry naming the service, in order. |
| Policy.FailedForConcat | tests/dependency_validation_test.rs:136 | A service's failed entries split over a concatenation. |
| Policy.FailedForTagged | tests/dependency_validation_test.rs:160 | A service's own entries are all named after it, and they are another service's entries for no other service. |
| Policy.FailedOnly | tests/dependency_validation_test.rs:136 | A failed list naming only one service is that service's entries. |
| Policy.PolicyStatus | tests/dependency_validation_test.rs:184-200 | A service with errors ends Error, carrying its last error. Otherwise it ends Active. Either way no warnings. |
| Policy.SystemWarnings | tests/dependency_validation_test.rs:81-86 | A detected cycle gives exactly one system warning, and no cycle gives none. |
| Policy.Merged | tests/dependency_validation_test.rs:202-207 | The summary's warnings: each service's own list under its name, and the system warning first under `system`. |
| Policy.DecideDependency | tests/dependency_validation_test.rs:98-165 | The pass's decision for one dependency is Decide. |
| Policy.ClassifyDependency | tests/dependency_validation_test.rs:111-145 | The version check through the service's classifier method is VersionFinding. |
| Policy.CheckDependencies | tests/dependency_validation_test.rs:93-167 | Returns the service's warnings in order. Each error is appended to `failed` as found, and the last error is remembered when there is one. |
| Policy.ErrorsBy | tests/dependency_validation_test.rs:92-181 | One error list per registered service. |
| Policy.WarningsBy | tests/dependency_validation_test.rs:92-181 | One warning list per registered service. |
| Policy.ErrorsByPointwise | tests/dependency_validation_test.rs:92-181 | The error map is fixed by each service's own errors. |
| Policy.WarningsByPointwise | tests/dependency_validation_test.rs:92-181 | The warning map is fixed by each service's own warnings. |
| Policy.ErrorFreeSummary | tests/dependency_validation_test.rs:175-180 | When no service has an error, nothing fails and every service is successful. |
| Policy.ServiceWarningsFiled | tests/dependency_validation_test.rs:170-172 | A service has a warnings entry exactly when its list is non-empty, and the entry is that list. |
| Policy.Filed | tests/dependency_validation_test.rs:81-86 | Before the merge, the warnings map holds only the system warning, present exactly when a cycle was reported. |
| Policy.QuietSummary | tests/dependency_validation_test.rs:202-207 | With no service warnings, the summary's warnings are the system warning alone, if any. |
| Policy.Combine | tests/dependency_validation_test.rs:202-207 | After the merge, each key holds the old list followed by the merged one. |
| Policy.CombineStep | tests/dependency_validation_test.rs:203-206 | Merging one more service's list appends it to that key alone. |
| Policy.CombineSystem | tests/dependency_validation_test.rs:81-86 | Merging the services' lists after the system warning gives the policy's warnings map. |
| Policy.MergeWarnings | tests/dependency_validation_test.rs:202-207 | The merge loop adds every kept list to the summary, warning by warning. |
| Policy.CheckedStep | tests/dependency_validation_test.rs:92-181 | One turn of the findings loop keeps the summary equal to the policy's for the services checked so far. |
| Policy.CheckOne | tests/dependency_validation_test.rs:92-181 | Checks one service: its errors go to `failed`, and it is listed as successful or remembered with its last error. A non-empty warning list is kept for the merge. |
| Policy.CheckAll | tests/dependency_validation_test.rs:92-181 | After the loop, every registered service is checked as the policy says. |
| Policy.CheckedIsPolicy | tests/dependency_validation_test.rs:167-207 | Once all are checked and the lists are merged after the system warning, the summary is the policy's. |
| Policy.FileWarnings | tests/dependency_validation_test.rs:202-207 | The merge completes the policy's summary. |
| Policy.Summarize | tests/dependency_validation_test.rs:49-181 | Builds the registered graph and files a cycle, when one exists, as the system warning. Every service is checked, and the result is the policy's summary for a cycle report meeting DetectSpec. |
| Policy.MockRegistry.Declarations | tests/dependency_validation_test.rs:62-64 | One declared list per stored service. |
| Policy.MockRegistry.Schemas | tests/dependency_validation_test.rs:102-106 | One schema entry per stored service. |
| Policy.MockRegistry.MarkErrors | tests/dependency_validation_test.rs:183-189 | Every service with a remembered error ends Error with it. The others are untouched. |
| Policy.MockRegistry.MarkActive | tests/dependency_validation_test.rs:191-200 | Every service without an error ends Active with a fresh status. The others are untouched. |
| Policy.MockRegistry.SetStatuses | tests/dependency_validation_test.rs:183-200 | Every service ends with PolicyStatus of its errors: Error with its last error, or Active. |
| Policy.MockRegistry.ValidateAllServices | tests/dependency_validation_test.rs:49-210 | Returns Ok with the policy's summary for a cycle report meeting DetectSpec. Every service ends with PolicyStatus of its errors. Configurations and schema data are unchanged. |
| Fixtures.RingEdges | tests/dependency_management_test.rs:733-753 | The ring's edges are exactly X→Y, Y→Z and Z→X. |
| Fixtures.RingCycles | tests/dependency_management_test.rs:775-783 | The ring has a cycle, and every cycle has at least three names and passes X, Y and Z. |
| Fixtures.RingBuilt | tests/dependency_management_test.rs:730-753 | Three add_node and three add_edge calls leave the ring graph. |
| Fixtures.ThreeNodes | tests/dependency_management_test.rs:733-735 | A graph on the three ring nodes is fixed by their three lists. |
| Fixtures.BuildRing | tests/dependency_management_test.rs:730-753 | The scenario's construction, run on the class, yields the ring graph. |
| Fixtures.RingDetected | tests/dependency_management_test.rs:763-783 | Detection on the ring reports a path of at least three names through X, Y and Z. |
| Fixtures.RingUnresolvable | tests/dependency_management_test.rs:786-789 | Resolving service-x on the ring is an error. |
| Fixtures.SmallGraphBuilt | tests/dependency_management_test.rs:122-152 | The four-service registry builds the four-node graph. |
| Fixtures.SmallTop | tests/dependency_management_test.rs:155-163 | A's two dependencies become its two edges, B then C. |
| Fixtures.SmallEdges | tests/dependency_management_test.rs:155-189 | The edges are exactly A→B, A→C and B→D, so C and D have none. |
| Fixtures.SmallDependents | tests/dependency_management_test.rs:588-601 | Who depends on whom: nobody on A, A on B and C, B on D. |
| Fixtures.SmallSorted | tests/dependency_management_test.rs:276-291 | Kahn's sort places all four services, D before B before A. |
| Fixtures.SmallSortedMembers | tests/dependency_management_test.rs:281 | The sort places each of the four services exactly once. |
| Fixtures.SmallAcyclic | tests/dependency_management_test.rs:194-291 | The four-service graph has no cycle. |
| Fixtures.SmallReach | tests/dependency_management_test.rs:552-563 | Exactly A, B, C and D are reachable from A. |
| Fixtures.SmallResolved | tests/dependency_management_test.rs:552-563 | Resolving A orders all four services, D before B before A, with A last. |
| Fixtures.NineServices | tests/dependency_management_test.rs:314-323 | The nine hierarchy services are distinct. |
| Fixtures.OneEdge | tests/dependency_management_test.rs:131-145 | A single registered dependency becomes a single edge. |
| Fixtures.HierarchyTop | tests/dependency_management_test.rs:327-330 | A's three dependencies become its three edges. |
| Fixtures.HierarchyBuilt | tests/dependency_management_test.rs:314-323 | The hierarchy registry builds the hierarchy graph. |
| Fixtures.HierarchyEdges | tests/dependency_management_test.rs:480-486 | The hierarchy's edges are exactly the seven declared ones. |
| Fixtures.HierarchyAcyclic | tests/dependency_management_test.rs:314-323 | The hierarchy has no cycle. |
| Fixtures.HierarchyReach | tests/dependency_management_test.rs:501-502 | Exactly the nine services are reachable from A. |
| Fixtures.HierarchyResolvedAll | tests/dependency_management_test.rs:501-502 | Resolving A succeeds with exactly the nine services. |
| Fixtures.HierarchyOrderEdges | tests/dependency_management_test.rs:504-532 | A dependencies-first order of the nine places each dependency before its dependent. |
| Fixtures.HierarchyResolved | tests/dependency_management_test.rs:501-532 | Resolving A orders the nine services with every dependency first and A last in the start order. The stop order starts with A and has the same length. |
| Fixtures.SmallReachers | tests/dependency_management_test.rs:586-601 | Exactly A, B and D reach D, and exactly A and B reach B. |
| Fixtures.SmallImpact | tests/dependency_management_test.rs:588-601 | Impacting D affects exactly B and A. Impacting B affects exactly A. |
| Fixtures.CycleStubsMissRing | src/registry/dependency.rs:51-53 | The ring has a cycle, yet detect_cycles as written reports none and check_circular_dependencies gives Ok(None). |
| Fixtures.ResolveStubAcceptsRing | src/registry/dependency.rs:114-116 | resolve_dependencies as written accepts service-x although it reaches the ring. |
| Fixtures.ImpactStubMissesDependent | src/registry/dependency.rs:122-124 | analyze_impact as written reports nothing for B although A depends on B. |
| Fixtures.BuildStubLosesServices | src/registry/dependency.rs:110-112 | build_dependency_graph as written has no nodes, where the four-service registry needs four. |
| Stubs.DetectCyclesAsWritten | src/registry/dependency.rs:51-53 | As written, detect_cycles never reports. So it keeps the cycle-detection promise exactly on graphs without a cycle. |
| Stubs.CheckCircularAsWritten | src/registry/dependency.rs:118-120 | As written, check_circular_dependencies returns Ok(None), which is right exactly when the registry's graph has no cycle. |
| Stubs.ResolveAsWritten | src/registry/dependency.rs:114-116 | As written, resolution returns Ok of the empty order, which meets the resolution promise only for an empty request. |
| Stubs.ImpactAsWritten | src/registry/dependency.rs:122-124 | As written, impact analysis returns nothing, which is right exactly when no other service reaches the target. |
| Stubs.BuildGraphAsWritten | src/registry/dependency.rs:110-112 | As written, build_dependency_graph returns the empty graph, which is the registry's graph exactly when the registry is empty. |
| PolicyFixtures.ScenarioVersions | tests/dependency_validation_test.rs:271-272 | 1.0.0 is compatible with itself, and 2.0.0 is a major step from 1.0.0. |
| PolicyFixtures.OneFinding | tests/dependency_validation_test.rs:98-166 | The error and warning lists of a single finding. |
| PolicyFixtures.TwoFindings | tests/dependency_validation_test.rs:98-166 | The lists of two findings extend those of the first. |
| PolicyFixtures.SatisfiedDependency | tests/dependency_validation_test.rs:258-262 | A required dependency on a registered 1.0.0 target constrained to 1.0.0 yields nothing. |
| PolicyFixtures.RingRegistryGraph | tests/dependency_validation_test.rs:363-397 | The registered ring builds the ring graph. |
| PolicyFixtures.RingFindings | tests/dependency_validation_test.rs:363-397 | No ring service has an error or a warning of its own. |
| PolicyFixtures.RingErrors | tests/dependency_validation_test.rs:363-397 | No ring service has an error. |
| PolicyFixtures.RingWarnings | tests/dependency_validation_test.rs:363-397 | No ring service has a warning of its own. |
| PolicyFixtures.RingOutcome | tests/dependency_validation_test.rs:402-420 | Given a ring cycle report, the summary succeeds and has only the system key with one warning. That warning names a cycle through all three services. |
| PolicyFixtures.RingPass | tests/dependency_validation_test.rs:400-420 | The ring's pass is successful and has warnings. Its only warning is one system circular-dependency warning through X, Y and Z. |
| PolicyFixtures.RingActive | tests/dependency_validation_test.rs:422-429 | A cycle fails no service: all three end Active. |
| PolicyFixtures.RingPassAsWritten | tests/dependency_validation_test.rs:81-86 | With detect_cycles as written, the ring's pass files no warning at all, although the ring has a cycle. |
| PolicyFixtures.LoneFindings | tests/dependency_validation_test.rs:321-329 | service-x has exactly the missing-dependency error and no warning. |
| PolicyFixtures.MissingDependency | tests/dependency_validation_test.rs:154-160 | A required dependency on an unregistered service yields its not-found error and no warning. |
| PolicyFixtures.LoneOutcome | tests/dependency_validation_test.rs:338-345 | service-x's one entry is the whole failed list, and nothing succeeds. |
| PolicyFixtures.MissingRequiredFails | tests/dependency_validation_test.rs:338-355 | The pass is not successful and service-x is the one failed entry. It ends Error with a message naming missing-service. |
| PolicyFixtures.MixedFindings | tests/dependency_validation_test.rs:254-272 | A's only finding is the warning about C's incompatible version. B and C have none. |
| PolicyFixtures.MixedA | tests/dependency_validation_test.rs:257-268 | B meets its constraint, and C's major mismatch on an optional dependency only warns. |
| PolicyFixtures.MixedOutcome | tests/dependency_validation_test.rs:283-303 | With no errors and one list for A, everything succeeds and A's list is the only per-service entry. |
| PolicyFixtures.OptionalMismatchWarns | tests/dependency_validation_test.rs:282-303 | The pass succeeds with warnings. A's one warning names C's version, and B has no warnings. |
| PolicyFixtures.MixedActive | tests/dependency_validation_test.rs:305-312 | The optional mismatch fails no service: all three end Active. |

## Left out

- **I/O.** Git, the configuration store, the CLI, logging and clocks are not modelled (`last_checked`, `last_updated`, the summary timestamp). Their outcomes, where the core branches on them, are parameters: saving, parsing and loading a configuration file.
- **The JSON-schema validator.** Schema compilation and caching, and `validate_service_with_context` (defined in no file of the repository), are not modelled. The validator is a function parameter returning a verdict and its warnings.
- **Loading.** YAML/JSON parsing of a configuration file, and re-injecting the configured dependencies into the schema document before validation, are not modelled. The model reads only the two schema fields the core inspects: `version` and `schema_version`.
- **Message text.** Finding and error texts are tagged values, including the "Circular dependency detected:" prefix and the `Display` strings of the error type. Properties about "mentions" hold of the value.
- **Iteration order.** HashMap iteration order is not modelled: maps are Dafny maps and loops pick any remaining key. Contracts are order-independent, except the order of each service's own findings.
- **The semver crate** is not part of this model. `SemVer.Parse` follows Semantic Versioning 2.0.0 (items 2, 9 and 10) with 64-bit numeric components.
- **Integer width.** usize counts are unbounded naturals. The in-degree counter is shown never to drop below zero, so the decrement never underflows.
- **Unused fields.** `EdgeMetadata` is carried on edges but read by no modelled operation. `ImpactInfo` and the detailed impact analysis (`analyze_impact_details`, `analyze_impact_detailed`) are not modelled: their only expectation names a service absent from its fixture.
- **Other stubs.** `analyze_critical_impact`, `validate_dependencies` and `validate_all_dependencies` are not modelled. They are stubs, and no test states what they should return. Deletion gating exists nowhere in the code.
- **Other registry operations.** Of `ServiceRegistry::new` only the empty service map is modelled: its configuration store, git provider and validation service are I/O. `init`, `update`, `get_service_mut`, `list_services`, `load_services` and `Service::status` are not modelled. They are store and git plumbing or plain accessors.
- **MockRegistry helpers.** `MockRegistry::new/register_service/get_service` are not modelled: they are test helpers. A registered scenario service's schema data is its own configuration (`PolicyFixtures.Loaded`).
- **Shared ownership.** The `RegistryRef` trait and `Rc/Arc<RwLock<_>>` are concurrency plumbing.
- Ordering.DetectCycles: which cycle is reported is not pinned down. The source has no algorithm, and the model finds one with Kahn's sort and a backward walk over the services the sort leaves out.
- Impact.FindImpact: never lists the target itself, even when the target lies on a cycle.
- Policy.MockRegistry.ValidateAllServices: merges the kept warning lists into the summary before setting the statuses, where the source sets statuses first. The two steps touch disjoint objects (the summary and the services), so the final state is the same.
- Registry.ServiceRegistry.ValidateAllServices: on a failed load, states which error is returned but not which services were validated before it. That depends on HashMap iteration order.

## Findings

| source | as written | input that shows it | evidently intended | confidence | as-written member | corrected member |
|---|---|---|---|---|---|---|
| src/registry/dependency.rs:51-53 | `detect_cycles` always returns `None` | the ring X→Y→Z→X built by three `add_edge` calls (tests/dependency_management_test.rs:733-765) | report a cycle whose path has at least 3 names, through X, Y and Z | not executed | Fixtures.CycleStubsMissRing | Ordering.DetectCycles |
| src/registry/dependency.rs:118-120 | `check_circular_dependencies` always returns `Ok(None)` | the registered ring (tests/dependency_management_test.rs:770-783) | report the ring's cycle | not executed | Fixtures.CycleStubsMissRing | Ordering.DetectCycles |
| src/registry/dependency.rs:114-116 | `resolve_dependencies` (and `resolve_order`, :75-81) always returns `Ok([])` | resolving `["service-x"]` on the ring (tests/dependency_management_test.rs:787-789) | an error, because a cycle is reachable | not executed | Fixtures.ResolveStubAcceptsRing | Ordering.ResolveOrder |
| src/registry/dependency.rs:122-124 | `analyze_impact` (and `find_impact_path`, :63-65) always returns `[]` | impacting service-b in the four-service registry (tests/dependency_management_test.rs:586-592) | exactly `[service-a]` | not executed | Fixtures.ImpactStubMissesDependent | Impact.FindImpact |
| src/registry/dependency.rs:110-112 | `build_dependency_graph` always returns the empty graph | the four-service registry (tests/dependency_management_test.rs:122-152) | one node per registered service, with the registered edges | not executed | Fixtures.BuildStubLosesServices | GraphBuild.BuildGraph |
| tests/dependency_validation_test.rs:81-86 | the test registry's pass relies on `detect_cycles`, which never reports | the X→Y→Z ring registry (tests/dependency_validation_test.rs:363-410) | one system warning naming the cycle, so `has_warnings()` holds | not executed | PolicyFixtures.RingPassAsWritten | PolicyFixtures.RingPass |

The as-written bodies are `Stubs.DetectCyclesAsWritten`, `Stubs.CheckCircularAsWritten`, `Stubs.ResolveAsWritten`, `Stubs.ImpactAsWritten` and `Stubs.BuildGraphAsWritten`. The lemmas in the as-written column exhibit each discrepancy on the input named. Each corrected member is also exercised on the same input: `Fixtures.RingDetected`, `Fixtures.RingUnresolvable`, `Fixtures.SmallImpact`, `Fixtures.SmallGraphBuilt` and `PolicyFixtures.RingPass`.
