/**
 * `MavenDependenciesVersionUpdateInspection.process`: for every dependency declared
 * in the pom, or managed by it, search the artifact index for `groupId:artifactId:`,
 * keep the results for exactly that coordinate, sort each result's versions newest
 * first, and hand the newest to `addProblem` when it is strictly newer than the
 * version in use.
 *
 * The specification functions below give, for a dependency, the problems it raises
 * and whether it ends the inspection with an exception; the methods do the work as
 * the source does, with its loops and its in-place sort, and are proved to agree.
 */
module Inspection {

  import opened Wrappers
  import opened VersionOrder
  import opened Placeholders
  import opened ProblemPlanning

  /** A `MavenDomDependency`: its identity in the DOM, the string values of its
      `<groupId>` and `<artifactId>`, and its `<version>`. */
  datatype Dependency = Dependency(id: nat, groupId: Option<string>, artifactId: Option<string>, version: VersionValue)

  /** The `MavenRepositoryArtifactInfo` of one search result: its coordinate and its versions. */
  datatype ArtifactInfo = ArtifactInfo(groupId: Option<string>, artifactId: Option<string>, items: seq<Coordinate>)

  /** `MavenArtifactSearcher.search(project, pattern, 1000)`, a query of the artifact index. */
  type Searcher = string -> seq<ArtifactInfo>

  /** What the inspection takes from its surroundings: Maven's version ordering, whether
      the pom belongs to a module, whether the running Maven is 3.5 or later, and the index. */
  datatype Environment = Environment(cmp: Comparator, hasModule: bool, maven35: bool, search: Searcher)

  /** A warning created on a dependency's `<version>`: the versions it reports and its fix. */
  datatype Problem = Problem(dependency: Dependency, at: PsiNode, currentVersion: string, latestVersion: string, fix: Option<Fix>)

  /** The problems created, in order, and the exception that ended the run, if any. */
  datatype Outcome = Outcome(problems: seq<Problem>, failure: Option<Failure>)

  const NoOutcome := Outcome([], None)

  /** Running `a` and then, unless it threw, `b`. */
  function Then(a: Outcome, b: Outcome): Outcome {
    if a.failure.Some? then a else Outcome(a.problems + b.problems, b.failure)
  }

  /** A dependency is searched for only when it has a groupId, an artifactId and a version
      string and the pom belongs to a module. */
  predicate Audited(env: Environment, d: Dependency) {
    d.groupId.Some? && d.artifactId.Some? && env.hasModule && d.version.stringValue.Some?
  }

  /** The query string `groupId + ":" + artifactId + ":"` of a dependency. */
  function PatternOf(d: Dependency): string
    requires d.groupId.Some? && d.artifactId.Some?
  {
    d.groupId.value + ":" + d.artifactId.value + ":"
  }

  /** A search result counts only if its groupId and artifactId equal the dependency's. */
  predicate Matches(d: Dependency, info: ArtifactInfo)
    requires d.groupId.Some? && d.artifactId.Some?
  {
    info.groupId == d.groupId && info.artifactId == d.artifactId
  }

  /** The outcome of `addProblem` as the dependency's problem list. */
  function Report(d: Dependency, current: string, latest: string, plan: Plan): Outcome {
    match plan
    case NoProblem => NoOutcome
    case Warn(at, fix) => Outcome([Problem(d, at, current, latest, fix)], None)
    case Crash(f) => Outcome([], Some(f))
  }

  /** The newest version of a non-empty result, as `versions[0]` after the sort. */
  function Newest(cmp: Comparator, items: seq<Coordinate>): string
    requires |items| > 0
  {
    items[LatestIndex(cmp, items)].version
  }

  /** One search result: skipped if it is for another coordinate, an exception if it has
      no versions, and otherwise a problem exactly when its newest version is newer. */
  function CheckResult(env: Environment, d: Dependency, info: ArtifactInfo): Outcome
    requires Audited(env, d)
  {
    if !Matches(d, info) then NoOutcome
    else if info.items == [] then Outcome([], Some(IndexOutOfBounds))
    else
      var latest := Newest(env.cmp, info.items);
      var current := d.version.stringValue.value;
      if env.cmp(latest, current) > 0 then Report(d, current, latest, PlanProblem(d.version, env.maven35, latest))
      else NoOutcome
  }

  /** All search results in order, each handled on its own, until one throws. */
  function CheckResults(env: Environment, d: Dependency, results: seq<ArtifactInfo>): Outcome
    requires Audited(env, d)
  {
    if results == [] then NoOutcome
    else Then(CheckResult(env, d, results[0]), CheckResults(env, d, results[1..]))
  }

  /** One dependency: skipped unless audited, otherwise the results of its search. */
  function CheckDependency(env: Environment, d: Dependency): Outcome {
    if Audited(env, d) then CheckResults(env, d, env.search(PatternOf(d))) else NoOutcome
  }

  /** The dependencies in the order visited, until one throws. */
  function Audit(env: Environment, order: seq<Dependency>): Outcome {
    if order == [] then NoOutcome
    else Then(Audit(env, order[..|order| - 1]), CheckDependency(env, order[|order| - 1]))
  }

  /** The searches made while visiting `order`: one per audited dependency. */
  function Queries(env: Environment, order: seq<Dependency>): seq<string> {
    if order == [] then []
    else
      var last := order[|order| - 1];
      Queries(env, order[..|order| - 1]) + if Audited(env, last) then [PatternOf(last)] else []
  }

  ghost predicate NoDuplicates(order: seq<Dependency>) {
    forall i, j :: 0 <= i < j < |order| ==> order[i] != order[j]
  }

  /**
   * `process`: the declared and the managed dependencies, as one set, are each visited
   * once, in the set's unspecified order; the problems created are those of the
   * dependencies visited, in that order. An exception ends the run after the
   * dependency that threw.
   */
  method Process(env: Environment, declared: seq<Dependency>, managed: seq<Dependency>)
    returns (problems: seq<Problem>, queries: seq<string>, failure: Option<Failure>, ghost order: seq<Dependency>)
    requires IsTotalPreorder(env.cmp)
    ensures NoDuplicates(order)
    ensures forall d :: d in order ==> d in declared || d in managed
    ensures failure.None? ==> forall d :: d in declared || d in managed ==> d in order
    ensures Audit(env, order) == Outcome(problems, failure)
    ensures failure.Some? ==> |order| > 0 && Audit(env, order[..|order| - 1]).failure.None?
    ensures queries == Queries(env, order)
    ensures forall p :: p in problems ==>
      && (p.dependency in declared || p.dependency in managed)
      && Audited(env, p.dependency)
      && env.cmp(p.latestVersion, p.currentVersion) > 0
  {
    var dependencies := (set d | d in declared) + (set d | d in managed);
    var remaining := dependencies;
    problems, queries, failure, order := [], [], None, [];
    while remaining != {}
      invariant remaining <= dependencies
      invariant forall d :: d in order <==> d in dependencies && d !in remaining
      invariant NoDuplicates(order)
      invariant Audit(env, order) == Outcome(problems, None)
      invariant queries == Queries(env, order)
      decreases |remaining|
    {
      var d :| d in remaining;
      remaining := remaining - {d};
      VisitNext(env, order, d, problems, queries);
      order := order + [d];
      if Audited(env, d) {
        queries := queries + [PatternOf(d)];
        var found, thrown := ProcessDependency(env, d);
        problems := problems + found;
        if thrown.Some? {
          failure := thrown;
          AuditReportsOnlyUpdates(env, order);
          return;
        }
      }
    }
    AuditReportsOnlyUpdates(env, order);
  }

  /** Visiting one more dependency `d`, not visited before, after a run that has not thrown:
      the audit goes on with `d`'s own outcome and the queries with `d`'s search, if any. */
  lemma VisitNext(env: Environment, order: seq<Dependency>, d: Dependency,
                  problems: seq<Problem>, queries: seq<string>)
    requires NoDuplicates(order) && d !in order
    requires Audit(env, order) == Outcome(problems, None)
    requires queries == Queries(env, order)
    ensures NoDuplicates(order + [d])
    ensures (order + [d])[..|order|] == order
    ensures Audit(env, order + [d]) == Then(Outcome(problems, None), CheckDependency(env, d))
    ensures Queries(env, order + [d]) == queries + if Audited(env, d) then [PatternOf(d)] else []
  {
    assert (order + [d])[..|order|] == order;
  }

  /**
   * The body of `process` for one audited dependency: search for `groupId:artifactId:`
   * and handle every result in turn.
   */
  method ProcessDependency(env: Environment, d: Dependency) returns (problems: seq<Problem>, failure: Option<Failure>)
    requires IsTotalPreorder(env.cmp)
    requires Audited(env, d)
    ensures Outcome(problems, failure) == CheckDependency(env, d)
  {
    var results := env.search(PatternOf(d));
    problems, failure := [], None;
    var k := 0;
    while k < |results|
      invariant 0 <= k <= |results|
      invariant Then(Outcome(problems, None), CheckResults(env, d, results[k..])) == CheckResults(env, d, results)
    {
      assert results[k..][1..] == results[k + 1..];
      var found, thrown := ProcessResult(env, d, results[k]);
      ThenAssociates(problems, Outcome(found, thrown), CheckResults(env, d, results[k + 1..]));
      problems := problems + found;
      if thrown.Some? {
        failure := thrown;
        return;
      }
      k := k + 1;
    }
  }

  lemma ThenAssociates(problems: seq<Problem>, a: Outcome, b: Outcome)
    ensures Then(Outcome(problems, None), Then(a, b))
            == if a.failure.Some? then Outcome(problems + a.problems, a.failure)
               else Then(Outcome(problems + a.problems, None), b)
  {
    if a.failure.None? {
      assert problems + (a.problems + b.problems) == (problems + a.problems) + b.problems;
    }
  }

  /**
   * One search result: skip it unless it is for exactly the dependency's coordinate;
   * otherwise sort its versions newest first, in place, take `versions[0]`, and plan a
   * problem if that version is newer than the one in use.
   */
  method ProcessResult(env: Environment, d: Dependency, info: ArtifactInfo) returns (problems: seq<Problem>, failure: Option<Failure>)
    requires IsTotalPreorder(env.cmp)
    requires Audited(env, d)
    ensures Outcome(problems, failure) == CheckResult(env, d, info)
  {
    problems, failure := [], None;
    var groupId, artifactId := d.groupId.value, d.artifactId.value;
    if !(info.groupId == Some(groupId) && info.artifactId == Some(artifactId)) {
      return;
    }
    var versions := new Coordinate[|info.items|](j requires 0 <= j < |info.items| => info.items[j]);
    assert versions[..] == info.items;
    SortNewestFirst(env.cmp, versions);
    if versions.Length == 0 {
      failure := Some(IndexOutOfBounds);
      return;
    }
    var latestVersion := versions[0].version;
    var version := d.version.stringValue.value;
    if env.cmp(latestVersion, version) > 0 {
      match PlanProblem(d.version, env.maven35, latestVersion)
      case NoProblem =>
      case Warn(at, fix) =>
        problems := [Problem(d, at, version, latestVersion, fix)];
      case Crash(f) =>
        failure := Some(f);
    }
  }

  // Properties of the specification

  /** The results for exactly the dependency's coordinate, in order. */
  function MatchingResults(d: Dependency, results: seq<ArtifactInfo>): (r: seq<ArtifactInfo>)
    requires d.groupId.Some? && d.artifactId.Some?
    ensures forall info :: info in r ==> info in results && Matches(d, info)
    ensures forall info :: info in results && Matches(d, info) ==> info in r
    ensures |r| <= |results|
  {
    if results == [] then []
    else (if Matches(d, results[0]) then [results[0]] else []) + MatchingResults(d, results[1..])
  }

  /** The filter keeps the results' order: filtering two consecutive runs of results
      gives the kept results of the first run, then those of the second. */
  lemma {:induction false} MatchingResultsKeepOrder(d: Dependency, a: seq<ArtifactInfo>, b: seq<ArtifactInfo>)
    requires d.groupId.Some? && d.artifactId.Some?
    ensures MatchingResults(d, a + b) == MatchingResults(d, a) + MatchingResults(d, b)
  {
    if a == [] {
      assert a + b == b;
    } else {
      assert (a + b)[0] == a[0];
      assert (a + b)[1..] == a[1..] + b;
      MatchingResultsKeepOrder(d, a[1..], b);
    }
  }

  /** Search results for another groupId or artifactId have no influence at all: the
      problems raised and the exception thrown are those of the matching results alone. */
  lemma {:induction false} NonMatchingResultsIgnored(env: Environment, d: Dependency, results: seq<ArtifactInfo>)
    requires Audited(env, d)
    ensures CheckResults(env, d, results) == CheckResults(env, d, MatchingResults(d, results))
  {
    if results != [] {
      NonMatchingResultsIgnored(env, d, results[1..]);
      if Matches(d, results[0]) {
        var m := MatchingResults(d, results);
        assert m == [results[0]] + MatchingResults(d, results[1..]);
        assert m[0] == results[0] && m[1..] == MatchingResults(d, results[1..]);
      } else {
        assert MatchingResults(d, results) == MatchingResults(d, results[1..]);
      }
    }
  }

  /** Every result is handled on its own: the outcome of two runs of results one after
      the other is the first's, then, unless it threw, the second's. */
  lemma {:induction false} ResultsAreIndependent(env: Environment, d: Dependency, r1: seq<ArtifactInfo>, r2: seq<ArtifactInfo>)
    requires Audited(env, d)
    ensures CheckResults(env, d, r1 + r2) == Then(CheckResults(env, d, r1), CheckResults(env, d, r2))
  {
    if r1 != [] {
      assert (r1 + r2)[0] == r1[0] && (r1 + r2)[1..] == r1[1..] + r2;
      ResultsAreIndependent(env, d, r1[1..], r2);
      var a := CheckResult(env, d, r1[0]);
      if a.failure.None? {
        ThenAssociates(a.problems, CheckResults(env, d, r1[1..]), CheckResults(env, d, r2));
        assert a.problems == [] + a.problems;
      }
    } else {
      assert r1 + r2 == r2;
      assert Then(NoOutcome, CheckResults(env, d, r2)).problems == [] + CheckResults(env, d, r2).problems;
    }
  }

  /** A matching result raises a problem exactly when one of its versions is strictly
      newer than the version in use; when none is (the newest being equal to it, or
      older), it yields nothing. */
  lemma NewerIffSomeVersionNewer(env: Environment, d: Dependency, info: ArtifactInfo)
    requires IsTotalPreorder(env.cmp)
    requires Audited(env, d) && Matches(d, info) && info.items != []
    ensures var current := d.version.stringValue.value;
      env.cmp(Newest(env.cmp, info.items), current) > 0 <==>
        exists k :: 0 <= k < |info.items| && env.cmp(info.items[k].version, current) > 0
    ensures (forall k :: 0 <= k < |info.items| ==> env.cmp(info.items[k].version, d.version.stringValue.value) <= 0)
            ==> CheckResult(env, d, info) == NoOutcome
  {
    var current := d.version.stringValue.value;
    var items := info.items;
    var m := LatestIndex(env.cmp, items);
    LatestIndexIsFirstNewest(env.cmp, items);
    if exists k :: 0 <= k < |items| && env.cmp(items[k].version, current) > 0 {
      var k :| 0 <= k < |items| && env.cmp(items[k].version, current) > 0;
      if env.cmp(items[m].version, current) <= 0 {
        Transitive(env.cmp, items[k].version, items[m].version, current);
      }
    }
  }

  /** A problem raised by a search result reports the dependency's own version as the
      current one, and as the latest a version of that result that is strictly newer
      than it and at least as new as every other version of the result. */
  lemma ReportedLatestIsNewest(env: Environment, d: Dependency, info: ArtifactInfo)
    requires IsTotalPreorder(env.cmp)
    requires Audited(env, d)
    ensures forall p :: p in CheckResult(env, d, info).problems ==>
      && Matches(d, info)
      && p.dependency == d
      && p.currentVersion == d.version.stringValue.value
      && env.cmp(p.latestVersion, p.currentVersion) > 0
      && (exists k :: 0 <= k < |info.items| && info.items[k].version == p.latestVersion)
      && (forall k :: 0 <= k < |info.items| ==> env.cmp(info.items[k].version, p.latestVersion) <= 0)
  {
    if Matches(d, info) && info.items != [] {
      LatestIndexIsFirstNewest(env.cmp, info.items);
    }
  }

  /** Every problem raised for a dependency is for that dependency and reports a strictly
      newer version. */
  lemma {:induction false} DependencyProblemsAreUpdates(env: Environment, d: Dependency, results: seq<ArtifactInfo>)
    requires IsTotalPreorder(env.cmp)
    requires Audited(env, d)
    ensures forall p :: p in CheckResults(env, d, results).problems ==>
      p.dependency == d && env.cmp(p.latestVersion, p.currentVersion) > 0
  {
    if results != [] {
      ReportedLatestIsNewest(env, d, results[0]);
      DependencyProblemsAreUpdates(env, d, results[1..]);
    }
  }

  /** Over a whole run: every problem is for a dependency that was visited and audited,
      and reports a latest version strictly newer than the version in use. */
  lemma {:induction false} AuditReportsOnlyUpdates(env: Environment, order: seq<Dependency>)
    requires IsTotalPreorder(env.cmp)
    ensures forall p :: p in Audit(env, order).problems ==>
      && p.dependency in order
      && Audited(env, p.dependency)
      && env.cmp(p.latestVersion, p.currentVersion) > 0
  {
    if order != [] {
      var prefix, last := order[..|order| - 1], order[|order| - 1];
      AuditReportsOnlyUpdates(env, prefix);
      if Audited(env, last) {
        DependencyProblemsAreUpdates(env, last, env.search(PatternOf(last)));
      }
      forall p | p in Audit(env, order).problems
        ensures p.dependency in order
      {
        if p in Audit(env, prefix).problems {
          assert p.dependency in prefix;
        }
      }
    }
  }

  /** A search is made for exactly the audited dependencies among those visited, in
      order: one lacking a groupId, an artifactId or a version, or visited while the pom
      belongs to no module, is never searched for. */
  lemma {:induction false} QueriesAreForAuditedOnly(env: Environment, order: seq<Dependency>)
    ensures forall q :: q in Queries(env, order) ==> exists d :: d in order && Audited(env, d) && q == PatternOf(d)
    ensures forall d :: d in order && Audited(env, d) ==> PatternOf(d) in Queries(env, order)
    ensures !env.hasModule ==> Queries(env, order) == []
  {
    if order != [] {
      var prefix, last := order[..|order| - 1], order[|order| - 1];
      QueriesAreForAuditedOnly(env, prefix);
      forall q | q in Queries(env, order)
        ensures exists d :: d in order && Audited(env, d) && q == PatternOf(d)
      {
        if q in Queries(env, prefix) {
          var d :| d in prefix && Audited(env, d) && q == PatternOf(d);
          assert d in order;
        }
      }
      forall d | d in order && Audited(env, d)
        ensures PatternOf(d) in Queries(env, order)
      {
        if d != last {
          assert d in prefix;
        }
      }
    }
  }

  /** A dependency that is not audited raises nothing and cannot throw; when the pom
      belongs to no module, a whole run raises nothing. */
  lemma {:induction false} UnauditedRaisesNothing(env: Environment, order: seq<Dependency>)
    requires forall d :: d in order ==> !Audited(env, d)
    ensures Audit(env, order) == NoOutcome
  {
    if order != [] {
      UnauditedRaisesNothing(env, order[..|order| - 1]);
    }
  }
}
