/**
 * `VulnerableAppScout`: the object whose fields `existing_repos` and
 * `discovered_repos` the scout's methods fill in place.
 */
module Scout {
  import opened Wrappers
  import opened Text
  import opened Repos
  import opened Scoring
  import opened VulnTypes
  import opened Validity
  import opened RepoKeys
  import opened Entries
  import opened Discovery
  import opened Report

  class VulnerableAppScout {
    /** `existing_repos`: lower-cased `owner/name` keys of the collection. */
    var existingRepos: set<string>
    /** `discovered_repos`: the records of the repositories found so far. */
    var discoveredRepos: seq<RepoInfo>

    /**
     * `__init__`: `collection` holds the "url" field of each item of the
     * collection file (None where an item has none; empty when the file
     * does not exist).
     */
    constructor(collection: seq<Option<string>>)
      ensures existingRepos == KeysOf(collection)
      ensures forall k :: k in existingRepos ==> IsLowerCase(k) && IsOwnerSlashName(k)
      ensures discoveredRepos == []
    {
      var existing := LoadExistingRepos(collection);
      existingRepos := existing;
      discoveredRepos := [];
    }

    /**
     * `search_repositories`: `search` gives the results GitHub returns for
     * a query string, in the order the loop visits them. The method appends
     * the records of `Accepted(existingRepos, search)` to `discoveredRepos`.
     */
    method SearchRepositories(search: string -> seq<Repo>)
      modifies this
      ensures existingRepos == old(existingRepos)
      ensures discoveredRepos == old(discoveredRepos) + InfosOf(Accepted(existingRepos, search))
    {
      var foundRepos: set<string> := {};
      ghost var accepted: seq<Repo> := [];
      for q := 0 to |SearchQueries|
        invariant existingRepos == old(existingRepos)
        invariant RunQueries(existingRepos, search, SearchQueries[..q]).found == foundRepos
        invariant RunQueries(existingRepos, search, SearchQueries[..q]).accepted == accepted
        invariant discoveredRepos == old(discoveredRepos) + InfosOf(accepted)
      {
        var results := search(SearchQueryFor(SearchQueries[q]));
        RunQueriesSnoc(existingRepos, search, SearchQueries, q);
        foundRepos, accepted := ProcessResults(results, foundRepos, accepted, old(discoveredRepos));
      }
      assert SearchQueries[..|SearchQueries|] == SearchQueries;
    }

    /**
     * The body of the query loop of `search_repositories`: walks one
     * query's results, appending a record for each repository taken, until
     * ten are taken. `accepted` (ghost) lists the repositories taken so far
     * in the run, `base` the records that were there before the run.
     */
    method ProcessResults(results: seq<Repo>, found: set<string>, ghost accepted: seq<Repo>, ghost base: seq<RepoInfo>)
      returns (foundRepos: set<string>, ghost accepted': seq<Repo>)
      requires discoveredRepos == base + InfosOf(accepted)
      modifies this
      ensures existingRepos == old(existingRepos)
      ensures ScanResults(existingRepos, ScanState(found, accepted, 0), results).found == foundRepos
      ensures ScanResults(existingRepos, ScanState(found, accepted, 0), results).accepted == accepted'
      ensures discoveredRepos == base + InfosOf(accepted')
    {
      foundRepos, accepted' := found, accepted;
      ghost var start := ScanState(found, accepted, 0);
      var count: nat := 0;
      var i := 0;
      while i < |results|
        invariant 0 <= i <= |results|
        invariant ScanResults(existingRepos, start, results[..i]) == ScanState(foundRepos, accepted', count)
        invariant discoveredRepos == base + InfosOf(accepted')
        invariant existingRepos == old(existingRepos)
      {
        if count >= MaxPerQuery {
          ScanResultsStopAt(existingRepos, start, results, i);
          break;
        }
        assert results[..i + 1][..i] == results[..i];
        foundRepos, accepted', count := ConsiderResult(results[i], foundRepos, accepted', count, base);
        i := i + 1;
      }
      assert i == |results| ==> results[..i] == results;
    }

    /**
     * One iteration of that loop, on a result `repo`, while fewer than ten
     * are taken: skip it if its lower-cased name is already found, else
     * take it if `_is_valid_repo` accepts it.
     */
    method ConsiderResult(repo: Repo, found: set<string>, ghost accepted: seq<Repo>, count: nat, ghost base: seq<RepoInfo>)
      returns (foundRepos: set<string>, ghost accepted': seq<Repo>, count': nat)
      requires count < MaxPerQuery
      requires discoveredRepos == base + InfosOf(accepted)
      modifies this
      ensures existingRepos == old(existingRepos)
      ensures Step(existingRepos, ScanState(found, accepted, count), repo) == ScanState(foundRepos, accepted', count')
      ensures discoveredRepos == base + InfosOf(accepted')
    {
      foundRepos, accepted', count' := found, accepted, count;
      ghost var before := ScanState(found, accepted, count);
      var repoFullName := Lower(repo.fullName);
      if repoFullName in foundRepos {
        StepSkips(existingRepos, before, repo);
        return;
      }
      var valid := IsValidRepo(existingRepos, repo);
      if valid {
        StepTakes(existingRepos, before, repo);
        foundRepos := foundRepos + {repoFullName};
        var repoInfo := BuildRepoInfo(repo);
        InfosOfSnoc(base, accepted', repo);
        discoveredRepos := discoveredRepos + [repoInfo];
        accepted' := accepted' + [repo];
        count' := count' + 1;
      } else {
        StepSkips(existingRepos, before, repo);
      }
    }

    /** The `repo_info` dictionary of an accepted repository, built from the scout's three helpers. */
    method BuildRepoInfo(repo: Repo) returns (repoInfo: RepoInfo)
      ensures repoInfo == RepoInfoOf(repo)
    {
      var qualityScore := CalculateQualityScore(repo);
      var vulnTypes := DetectVulnerabilityTypes(repo.description, repo.topics);
      var jsonEntry := GenerateJsonEntry(repo);
      repoInfo := RepoInfo(
        repo.fullName,
        repo.htmlUrl,
        repo.name,
        if |repo.description| > 0 then repo.description else "No description",
        repo.stars,
        if |repo.language| > 0 then repo.language else "Unknown",
        repo.hasDockerfile,
        qualityScore,
        vulnTypes,
        jsonEntry);
    }

    /**
     * `_generate_markdown`, reduced to what it decides: the label of each
     * record, in the order the report lists them.
     */
    method GenerateMarkdown() returns (recommendations: seq<Recommendation>)
      ensures recommendations == Recommendations(discoveredRepos)
    {
      recommendations := [];
      for k := 0 to |discoveredRepos|
        invariant |recommendations| == k
        invariant forall m :: 0 <= m < k ==>
          recommendations[m] == RecommendationFor(discoveredRepos[m].qualityScore)
      {
        var repo := discoveredRepos[k];
        var recommendation := RecommendationFor(repo.qualityScore);
        recommendations := recommendations + [recommendation];
      }
    }

    /**
     * `generate_report`: sorts `discoveredRepos` in place, highest score
     * first and stable, then builds the report from the sorted list.
     */
    method GenerateReport() returns (recommendations: seq<Recommendation>)
      modifies this
      ensures existingRepos == old(existingRepos)
      ensures discoveredRepos == SortByScore(old(discoveredRepos))
      ensures SortedByScore(discoveredRepos)
      ensures multiset(discoveredRepos) == multiset(old(discoveredRepos))
      ensures forall v :: WithScore(discoveredRepos, v) == WithScore(old(discoveredRepos), v)
      ensures recommendations == Recommendations(discoveredRepos)
      ensures forall i, j :: 0 <= i < j < |recommendations| ==>
        Rank(recommendations[i]) <= Rank(recommendations[j])
    {
      var repos := discoveredRepos;
      var a := new RepoInfo[|repos|](k requires 0 <= k < |repos| => repos[k]);
      assert a[..] == repos;
      SortInPlace(a);
      discoveredRepos := a[..];
      SortByScoreSorted(repos);
      SortByScorePermutes(repos);
      forall v ensures WithScore(discoveredRepos, v) == WithScore(repos, v) {
        SortByScoreStable(repos, v);
      }
      recommendations := GenerateMarkdown();
      SortedReportGroupsLabels(discoveredRepos);
    }
  }
}
