# Maven dependency version update inspection — a Dafny model

This project models the decision logic of the IntelliJ inspection
`MavenDependenciesVersionUpdateInspection`, which warns when a dependency in a
`pom.xml` has a newer release in the Maven artifact index and offers a quick fix
that rewrites the version.

The model covers the inspection's core:

- **`process`**: collects the declared and the managed dependencies into one set.
  It skips a dependency that lacks a groupId, an artifactId or a version string,
  and it skips everything when the pom belongs to no module. For each remaining
  dependency it searches the index for `groupId:artifactId:` and keeps only the
  results for exactly that coordinate. It sorts each result's versions in place,
  newest first, takes `versions[0]`, and calls `addProblem` only when that
  version is strictly newer than the one in use
  (`Inspection.Process`, `Inspection.ProcessDependency`, `Inspection.ProcessResult`,
  `VersionOrder.SortNewestFirst`).
- **`addProblem`**: from Maven 3.5 on, it strips the reserved CI placeholders
  `${revision}`, `${sha1}` and `${changelist}` from the raw version text. If
  `${` remains, the version is defined by a property. It then needs a resolved
  property reference. The warning it creates carries the "replace property version"
  fix only when the resolved value is non-empty and differs from the raw text, and
  no fix otherwise. If no `${` remains, the warning offers the "replace element
  version" fix (`ProblemPlanning.PlanProblem`,
  `Placeholders.StripReserved`).
- **`resolveXmlElement`**: the optional chain from the version element to the
  trimmed text of the property's definition tag (`ProblemPlanning.ResolveXmlElement`).
- **the two `applyFix` bodies**: each writes exactly the latest version into an
  `XmlTag` or an `XmlText` (`ProblemPlanning.ApplyFix`).

Modules:

| file | module | what it holds |
|---|---|---|
| wrappers.dfy | `Wrappers` | `Option`, standing for Java's nullable references |
| version_order.dfy | `VersionOrder` | the comparator parameter, the first-newest index, the in-place insertion sort |
| placeholders.dfy | `Placeholders` | the constants, `${` detection, stripping of the reserved placeholders |
| problem_planning.dfy | `ProblemPlanning` | the PSI facts `addProblem` looks at, the plan it makes, fix application |
| inspection.dfy | `Inspection` | dependencies, search results, the specification functions and the `process` methods |

How the model is built:

- **Version ordering.** Maven's `ComparableVersion.compareTo` is the parameter
  `cmp: (string, string) -> int`. It is assumed only to be a total preorder:
  any two versions compare, and "not newer than" is transitive
  (`VersionOrder.IsTotalPreorder`).
- **Environment.** The artifact index is a function from the query string to
  the list of results (`Inspection.Searcher`). "The pom belongs to a module" and
  "the running Maven is 3.5 or later" are booleans.
- **The specification.** `Inspection.CheckResult`, `CheckResults`,
  `CheckDependency` and `Audit` are pure functions. They give the problems each
  step raises and whether it throws. The methods do the work as the source does:
  loops, a set iterated in an unspecified order, and an in-place sort of an
  array. Each method is proved to agree with its function.
- **Exceptions.** Two exceptions of the source are modelled as a `Failure` that
  ends the run: `versions[0]` on a result with no versions, and the unchecked
  cast of the resolved property element.

## Model

| member | source | states |
|---|---|---|
| `VersionOrder.LatestIndex` | src/main/java/com/sahara/intellij/plugin/mvn/MavenDependenciesVersionUpdateInspection.java:110-120 | the index of `versions[0]` after the stable newest-first sort: a valid index of the versions |
| `VersionOrder.LatestIndexIsFirstNewest` | src/main/java/com/sahara/intellij/plugin/mvn/MavenDependenciesVersionUpdateInspection.java:110-120 | the chosen version is at least as new as every version of the result, and strictly newer than every version before it, so it is the first-seen newest one |
| `VersionOrder.SortNewestFirst` | src/main/java/com/sahara/intellij/plugin/mvn/MavenDependenciesVersionUpdateInspection.java:110-117 | after the in-place sort no version is newer than one before it, the array is a permutation of the original items, and index 0 holds the first-seen newest item |
| `VersionOrder.Insert` | src/main/java/com/sahara/intellij/plugin/mvn/MavenDependenciesVersionUpdateInspection.java:111-117 | one insertion step of the sort: the prefix grows sorted, the rest is untouched, the elements are the same, and the element at index 0 changes only to a strictly newer one |
| `Placeholders.StripReserved` | src/main/java/com/sahara/intellij/plugin/mvn/MavenDependenciesVersionUpdateInspection.java:55 | `replaceAll` of the reserved placeholders: a text without `${` comes back unchanged, and no text grows |
| `Placeholders.TextToCheck` | src/main/java/com/sahara/intellij/plugin/mvn/MavenDependenciesVersionUpdateInspection.java:163-164 | below Maven 3.5 the raw text is checked as it is; a raw text without `${` is checked as it is on any version; stripping never lengthens it |
| `Placeholders.StripDropsReserved` | src/main/java/com/sahara/intellij/plugin/mvn/MavenDependenciesVersionUpdateInspection.java:55 | each of `${revision}`, `${sha1}`, `${changelist}` is removed where the scan meets it |
| `Placeholders.StripLiteralPrefix` | src/main/java/com/sahara/intellij/plugin/mvn/MavenDependenciesVersionUpdateInspection.java:55 | text without `$` is kept as it is by `replaceAll`, and the scan goes on after it unchanged |
| `Placeholders.ReservedSuffixIsLiteral` | src/main/java/com/sahara/intellij/plugin/mvn/MavenDependenciesVersionUpdateInspection.java:163-168 | a literal followed by `${revision}`, `${sha1}` or `${changelist}` (such as `1.0-${changelist}`) is checked as the bare literal from Maven 3.5 on, so it is not a property; below 3.5 it is one |
| `Placeholders.OtherNameNoReservedPrefix` | src/main/java/com/sahara/intellij/plugin/mvn/MavenDependenciesVersionUpdateInspection.java:55 | the pattern does not match at the start of `${name}` for any other name without `}` |
| `Placeholders.OrdinaryPropertyIsIndirect` | src/main/java/com/sahara/intellij/plugin/mvn/MavenDependenciesVersionUpdateInspection.java:163-168 | `${name}` for any other name without `}` is defined as a property whatever the Maven version |
| `ProblemPlanning.FindPropertyReference` | src/main/java/com/sahara/intellij/plugin/mvn/MavenDependenciesVersionUpdateInspection.java:180 | `findInstance` gives null exactly when there is no property reference, and otherwise the first one |
| `ProblemPlanning.ResolveXmlElement` | src/main/java/com/sahara/intellij/plugin/mvn/MavenDependenciesVersionUpdateInspection.java:235-253 | the result is the trimmed text of the tag that the element's first property reference resolves to through a `MavenPsiElementWrapper`, and null when there is no element, no property reference, or that first reference does not lead to a wrapped tag |
| `ProblemPlanning.ResolvedValue` | src/main/java/com/sahara/intellij/plugin/mvn/MavenDependenciesVersionUpdateInspection.java:169-177 | the value compared with the raw text is the DOM's string value when that differs from the raw text and holds no `${`; otherwise it is the definition tag text of the first property reference, and null when there is no property reference or that reference does not lead to a wrapped tag |
| `ProblemPlanning.PlanProblem` | src/main/java/com/sahara/intellij/plugin/mvn/MavenDependenciesVersionUpdateInspection.java:146-218 | a warning is placed on the dependency's own version element, and its fix writes the latest version |
| `ProblemPlanning.LiteralFixIffNotProperty` | src/main/java/com/sahara/intellij/plugin/mvn/MavenDependenciesVersionUpdateInspection.java:163-168 | the "replace element version" fix is chosen exactly when the checked text holds no `${`; a raw text without `${` always gets it |
| `ProblemPlanning.BelowMaven35ChecksRawText` | src/main/java/com/sahara/intellij/plugin/mvn/MavenDependenciesVersionUpdateInspection.java:163-164 | below Maven 3.5 the text checked is the raw text |
| `ProblemPlanning.PropertyBranchSilentCases` | src/main/java/com/sahara/intellij/plugin/mvn/MavenDependenciesVersionUpdateInspection.java:159-187 | no warning when the raw text is null, or, for a property, when the string value is null, there is no property reference, or it resolves to null |
| `ProblemPlanning.PropertyFixIff` | src/main/java/com/sahara/intellij/plugin/mvn/MavenDependenciesVersionUpdateInspection.java:168-201 | once the reference resolves, the warning is created; it carries the property fix, aimed at the definition, exactly when the resolved value is non-empty and differs from the raw text |
| `ProblemPlanning.UnwrappedResolutionFails` | src/main/java/com/sahara/intellij/plugin/mvn/MavenDependenciesVersionUpdateInspection.java:184-188 | a reference resolving to something other than a `MavenPsiElementWrapper` throws `ClassCastException` |
| `ProblemPlanning.ApplyFix` | src/main/java/com/sahara/intellij/plugin/mvn/MavenDependenciesVersionUpdateInspection.java:193-212 | applying a fix sets the target's text to exactly the latest version if it is a tag or a text node, and changes no other location |
| `ProblemPlanning.PlannedFixTargets` | src/main/java/com/sahara/intellij/plugin/mvn/MavenDependenciesVersionUpdateInspection.java:190-214 | the literal fix writes to the dependency's version element, the property fix to the property's definition element, in both cases exactly the latest version |
| `Inspection.Process` | src/main/java/com/sahara/intellij/plugin/mvn/MavenDependenciesVersionUpdateInspection.java:80-133 | each declared or managed dependency is visited once; the problems and the queries are those of the visit order; a run that does not throw visits all of them, and a throwing run stops at the dependency that threw; every problem returned is for a declared or managed dependency that was audited, and reports a strictly newer version |
| `Inspection.ProcessDependency` | src/main/java/com/sahara/intellij/plugin/mvn/MavenDependenciesVersionUpdateInspection.java:102-125 | searching for one dependency and handling its results in order agrees with the specification `CheckDependency` |
| `Inspection.ProcessResult` | src/main/java/com/sahara/intellij/plugin/mvn/MavenDependenciesVersionUpdateInspection.java:106-124 | filtering, sorting in place, taking `versions[0]` and comparing agree with the specification `CheckResult` |
| `Inspection.MatchingResults` | src/main/java/com/sahara/intellij/plugin/mvn/MavenDependenciesVersionUpdateInspection.java:105-109 | the kept results are exactly the search results for the dependency's groupId and artifactId: every kept result matches, and every matching result is kept |
| `Inspection.MatchingResultsKeepOrder` | src/main/java/com/sahara/intellij/plugin/mvn/MavenDependenciesVersionUpdateInspection.java:105-109 | the results are handled in search order: filtering two consecutive runs of results gives the first run's kept results, then the second's |
| `Inspection.NonMatchingResultsIgnored` | src/main/java/com/sahara/intellij/plugin/mvn/MavenDependenciesVersionUpdateInspection.java:105-109 | results for another groupId or artifactId have no influence on the problems raised or on the exception thrown |
| `Inspection.ResultsAreIndependent` | src/main/java/com/sahara/intellij/plugin/mvn/MavenDependenciesVersionUpdateInspection.java:105-125 | each matching result is handled on its own and can raise its own problem |
| `Inspection.NewerIffSomeVersionNewer` | src/main/java/com/sahara/intellij/plugin/mvn/MavenDependenciesVersionUpdateInspection.java:119-124 | the picked version is strictly newer than the current one exactly when some version of the result is; if none is, equal or older, nothing is raised |
| `Inspection.ReportedLatestIsNewest` | src/main/java/com/sahara/intellij/plugin/mvn/MavenDependenciesVersionUpdateInspection.java:105-124 | a problem reports the dependency's version as current and, as latest, a version of a matching result that is strictly newer than it and at least as new as all the result's versions |
| `Inspection.DependencyProblemsAreUpdates` | src/main/java/com/sahara/intellij/plugin/mvn/MavenDependenciesVersionUpdateInspection.java:105-124 | every problem raised for a dependency belongs to it and reports a strictly newer version |
| `Inspection.AuditReportsOnlyUpdates` | src/main/java/com/sahara/intellij/plugin/mvn/MavenDependenciesVersionUpdateInspection.java:89-126 | over a run, every problem belongs to a visited, audited dependency and reports a strictly newer version |
| `Inspection.QueriesAreForAuditedOnly` | src/main/java/com/sahara/intellij/plugin/mvn/MavenDependenciesVersionUpdateInspection.java:91-104 | searches are made exactly for the audited dependencies; one lacking groupId, artifactId or version, or any dependency when there is no module, is never searched for |
| `Inspection.UnauditedRaisesNothing` | src/main/java/com/sahara/intellij/plugin/mvn/MavenDependenciesVersionUpdateInspection.java:93-100 | dependencies that are skipped raise no problem and cannot throw |

## Behaviour of the code worth knowing

- **Comparison.** The version compared with the latest one is the DOM's
  resolved string value (line 96), not the stripped raw text. Stripping the
  reserved placeholders only chooses the kind of fix.
- **Unresolved values.** A property whose resolved value is missing, empty or
  equal to the raw text is not skipped. The warning is still created, without a
  fix (lines 167, 190, 216).
- **Ties.** Among equally new versions, the first one in the result wins,
  because `Arrays.sort` is stable.
- **Empty results.** A matching result with no versions makes `versions[0]`
  throw, which ends the inspection.
- **Non-wrapper resolution.** A property reference that resolves to an element
  other than a `MavenPsiElementWrapper` throws `ClassCastException` at line 188.
  That exception ends the inspection.

## Left out

- The IntelliJ DOM/PSI traversal, `DomElementAnnotationHolder`, and the tree
  mutation inside `applyFix`: they are host editor plumbing. Elements are
  location handles with a node kind, the pom's text is a map from locations to
  strings, and a created problem is an element of the returned list.
- `MavenArtifactSearcher.search`: it is a network or index client. It is a
  function parameter from the query string to the results. The cap of 1000
  results is the client's concern.
- `ComparableVersion` and `StringUtil.compareVersionNumbers`: they are library
  code that is not part of this model. The first is an abstract comparator. The
  second, applied to the running Maven version and `MAVEN_VERSION_35`, is the
  boolean `maven35`.
- `Inspection.ProcessResult`: the search result's own item array is sorted in
  place in the source. The model sorts a fresh array holding the same items,
  because search results are values here and are not read again.
- `Inspection.Process`: the set of dependencies is a set of values. Two DOM
  dependencies are told apart by their `id` field.
- Null versions inside a search result's items are assumed absent. The source would
  throw on them, at the comparator's `assert` (lines 114-115) or in
  `new ComparableVersion(null)` (lines 116 and 121), and end the inspection.
- The guard `model == null` at line 153 is not modelled. `process` has already
  dereferenced the project model at line 83, so the guard can never fire.
- `createLinkText` (lines 220-233) only formats HTML for the message.
  `MavenLog` and `System.out.println` only log. The counter `i` exists only for
  logging.
- `DEFINED_AS_PROPERTY` (line 52) is never used by the code.
- The commented-out parent and child project recursion (lines 131-132) does not
  run.
- `MavenVersionUpdateBundle.java` and `MessageBundle.java` are localization
  wrappers over resource bundles.
- `MavenTest.java` only prints comparator results and asserts nothing.
- Which problems the host displays after an exception, and whether it reports
  one, is host behaviour. The model returns the problems created before the
  exception, together with the exception.
