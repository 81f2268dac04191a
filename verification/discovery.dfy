/**
 * The decision rules of `search_repositories`, as a fold over the results
 * of the queries: a repository is taken when the query has taken fewer
 * than ten, its lower-cased full name has not been taken before in this
 * run, and it passes `_is_valid_repo`.
 */
module Discovery {
  import opened Text
  import opened Repos
  import opened Scoring
  import opened VulnTypes
  import opened Validity
  import opened Entries

  /** SEARCH_QUERIES. */
  const SearchQueries: seq<string> := [
    "intentionally vulnerable",
    "deliberately vulnerable web",
    "security training application",
    "practice hacking web",
    "vulnerable by design",
    "pentesting practice app",
    "security testing application",
    "OWASP practice",
    "CTF web challenge",
    "vulnerable REST API"
  ]

  /** The per-query limit `count >= 10`. */
  const MaxPerQuery: nat := 10

  /** The query sent to GitHub: `f"{query} stars:>={self.MIN_STARS}"` with MIN_STARS = 10. */
  function SearchQueryFor(query: string): string {
    query + " stars:>=10"
  }

  /** The `repo_info` record appended to `discovered_repos`. */
  datatype RepoInfo = RepoInfo(
    repository: string,
    url: string,
    name: string,
    description: string,
    stars: nat,
    language: string,
    hasDocker: bool,
    qualityScore: nat,            // half-points
    vulnerabilityTypes: seq<string>,
    jsonEntry: JsonEntry
  )

  /** The record the source builds for an accepted repository. */
  function RepoInfoOf(r: Repo): RepoInfo {
    RepoInfo(
      r.fullName,
      r.htmlUrl,
      r.name,
      if |r.description| > 0 then r.description else "No description",
      r.stars,
      if |r.language| > 0 then r.language else "Unknown",
      r.hasDockerfile,
      QualityScore(r),
      Detected(VulnKeywords, MetadataText(r.description, r.topics)),
      SuggestedEntry(r))
  }

  /** The records of a sequence of accepted repositories, in order. */
  function InfosOf(rs: seq<Repo>): (infos: seq<RepoInfo>)
    ensures |infos| == |rs|
    decreases |rs|
  {
    if rs == [] then [] else InfosOf(rs[..|rs| - 1]) + [RepoInfoOf(rs[|rs| - 1])]
  }

  /** Taking one more repository appends its record, after whatever records came before. */
  lemma InfosOfSnoc(base: seq<RepoInfo>, rs: seq<Repo>, r: Repo)
    ensures base + InfosOf(rs + [r]) == base + InfosOf(rs) + [RepoInfoOf(r)]
  {
    assert (rs + [r])[..|rs|] == rs;
  }

  /**
   * What the loop keeps: `found_repos`, the repositories taken so far and
   * the current query's `count`.
   */
  datatype ScanState = ScanState(found: set<string>, accepted: seq<Repo>, count: nat)

  /** One iteration of the inner loop, on one search result. */
  function Step(existing: set<string>, st: ScanState, r: Repo): ScanState {
    if st.count >= MaxPerQuery then st
    else if Lower(r.fullName) in st.found then st
    else if IsValidRepo(existing, r) then
      ScanState(st.found + {Lower(r.fullName)}, st.accepted + [r], st.count + 1)
    else st
  }

  /** A step that takes `r`: the count is below ten, the name is new and `_is_valid_repo` holds. */
  lemma StepTakes(existing: set<string>, st: ScanState, r: Repo)
    requires st.count < MaxPerQuery && Lower(r.fullName) !in st.found && IsValidRepo(existing, r)
    ensures Step(existing, st, r) == ScanState(st.found + {Lower(r.fullName)}, st.accepted + [r], st.count + 1)
  {
  }

  /** A step that skips `r`: its name is already found, or it is not valid. */
  lemma StepSkips(existing: set<string>, st: ScanState, r: Repo)
    requires Lower(r.fullName) in st.found || !IsValidRepo(existing, r)
    ensures Step(existing, st, r) == st
  {
  }

  /** The inner loop over the results of one query, left to right. */
  function ScanResults(existing: set<string>, st: ScanState, results: seq<Repo>): (after: ScanState)
    ensures st.accepted <= after.accepted
    ensures st.found <= after.found
    ensures st.count <= after.count
    ensures after.count - st.count == |after.accepted| - |st.accepted|
    decreases |results|
  {
    if results == [] then st
    else Step(existing, ScanResults(existing, st, results[..|results| - 1]), results[|results| - 1])
  }

  /** The state that a new query starts from: the same found set and list, a zero count. */
  function Restart(st: ScanState): ScanState {
    ScanState(st.found, st.accepted, 0)
  }

  /** The outer loop over `queries`, each query's results given by `search`. */
  function RunQueries(existing: set<string>, search: string -> seq<Repo>, queries: seq<string>): ScanState
    decreases |queries|
  {
    if queries == [] then ScanState({}, [], 0)
    else
      var before := RunQueries(existing, search, queries[..|queries| - 1]);
      ScanResults(existing, Restart(before), search(SearchQueryFor(queries[|queries| - 1])))
  }

  /** Running one more query continues from where the earlier ones left off, with a zero count. */
  lemma RunQueriesSnoc(existing: set<string>, search: string -> seq<Repo>, queries: seq<string>, k: nat)
    requires k < |queries|
    ensures RunQueries(existing, search, queries[..k + 1])
         == ScanResults(existing, Restart(RunQueries(existing, search, queries[..k])),
                        search(SearchQueryFor(queries[k])))
  {
    assert queries[..k + 1][..k] == queries[..k];
  }

  /** The repositories a whole search run takes, in the order it takes them. */
  function Accepted(existing: set<string>, search: string -> seq<Repo>): seq<Repo> {
    RunQueries(existing, search, SearchQueries).accepted
  }

  /**
   * The invariant of the loops: the found set holds the lower-cased name of
   * every repository taken, no name is taken twice, and every repository
   * taken passed `_is_valid_repo`.
   */
  ghost predicate Consistent(existing: set<string>, st: ScanState) {
    && (forall i :: 0 <= i < |st.accepted| ==> Lower(st.accepted[i].fullName) in st.found)
    && (forall i, j :: 0 <= i < j < |st.accepted| ==>
          Lower(st.accepted[i].fullName) != Lower(st.accepted[j].fullName))
    && (forall i :: 0 <= i < |st.accepted| ==> IsValidRepo(existing, st.accepted[i]))
  }

  /** A step keeps the invariant and appends at most the one repository it is given. */
  lemma StepConsistent(existing: set<string>, st: ScanState, r: Repo)
    requires Consistent(existing, st)
    ensures Consistent(existing, Step(existing, st, r))
    ensures Step(existing, st, r).accepted == st.accepted
         || Step(existing, st, r).accepted == st.accepted + [r]
    ensures |Step(existing, st, r).accepted| - |st.accepted| == Step(existing, st, r).count - st.count
  {
  }

  /**
   * One query keeps the invariant, takes only repositories from its own
   * results, and takes as many as its count rises, never past ten.
   */
  lemma {:induction false} ScanResultsConsistent(existing: set<string>, st: ScanState, results: seq<Repo>)
    requires Consistent(existing, st)
    requires st.count <= MaxPerQuery
    ensures var after := ScanResults(existing, st, results);
      && Consistent(existing, after)
      && st.accepted <= after.accepted
      && (forall i :: |st.accepted| <= i < |after.accepted| ==> after.accepted[i] in results)
      && st.count <= after.count <= MaxPerQuery
      && |after.accepted| - |st.accepted| == after.count - st.count
    decreases |results|
  {
    if results != [] {
      var init := results[..|results| - 1];
      var r := results[|results| - 1];
      ScanResultsConsistent(existing, st, init);
      var mid := ScanResults(existing, st, init);
      StepConsistent(existing, mid, r);
      forall i | |st.accepted| <= i < |mid.accepted| ensures mid.accepted[i] in results {
        assert mid.accepted[i] in init;
      }
    }
  }

  /** Once the count has reached ten, the rest of a query's results change nothing (the `break`). */
  lemma {:induction false} ScanResultsSaturated(existing: set<string>, st: ScanState, results: seq<Repo>)
    requires st.count >= MaxPerQuery
    ensures ScanResults(existing, st, results) == st
    decreases |results|
  {
    if results != [] {
      ScanResultsSaturated(existing, st, results[..|results| - 1]);
    }
  }

  /** Scanning `a + b` is scanning `a`, then `b` from where `a` left off. */
  lemma {:induction false} ScanResultsAppend(existing: set<string>, st: ScanState, a: seq<Repo>, b: seq<Repo>)
    ensures ScanResults(existing, st, a + b) == ScanResults(existing, ScanResults(existing, st, a), b)
    decreases |b|
  {
    if b == [] {
      assert a + b == a;
    } else {
      var b' := b[..|b| - 1];
      assert (a + b)[..|a + b| - 1] == a + b';
      ScanResultsAppend(existing, st, a, b');
    }
  }

  /** Once ten are taken after the first `i` results, the rest of the results change nothing. */
  lemma ScanResultsStopAt(existing: set<string>, st: ScanState, results: seq<Repo>, i: nat)
    requires i <= |results|
    requires ScanResults(existing, st, results[..i]).count >= MaxPerQuery
    ensures ScanResults(existing, st, results) == ScanResults(existing, st, results[..i])
  {
    ScanResultsAppend(existing, st, results[..i], results[i..]);
    ScanResultsSaturated(existing, ScanResults(existing, st, results[..i]), results[i..]);
    assert results[..i] + results[i..] == results;
  }

  /**
   * A whole run keeps the invariant, takes at most ten repositories per
   * query, and takes only repositories that one of the queries returned.
   */
  lemma {:induction false} RunQueriesConsistent(existing: set<string>, search: string -> seq<Repo>, queries: seq<string>)
    ensures var st := RunQueries(existing, search, queries);
      && Consistent(existing, st)
      && |st.accepted| <= MaxPerQuery * |queries|
      && (forall i :: 0 <= i < |st.accepted| ==>
            exists q :: q in queries && st.accepted[i] in search(SearchQueryFor(q)))
    decreases |queries|
  {
    if queries != [] {
      var init := queries[..|queries| - 1];
      var q := queries[|queries| - 1];
      RunQueriesConsistent(existing, search, init);
      var before := RunQueries(existing, search, init);
      ScanResultsConsistent(existing, Restart(before), search(SearchQueryFor(q)));
      var st := RunQueries(existing, search, queries);
      forall i | 0 <= i < |st.accepted|
        ensures exists q' :: q' in queries && st.accepted[i] in search(SearchQueryFor(q'))
      {
        if i < |before.accepted| {
          var q' :| q' in init && before.accepted[i] in search(SearchQueryFor(q'));
          assert q' in queries;
          assert st.accepted[i] == before.accepted[i];
        } else {
          assert st.accepted[i] in search(SearchQueryFor(q));
        }
      }
    }
  }

  /** No lower-cased full name is taken twice in one run. */
  lemma AcceptedNamesDistinct(existing: set<string>, search: string -> seq<Repo>)
    ensures forall i, j :: 0 <= i < j < |Accepted(existing, search)| ==>
      Lower(Accepted(existing, search)[i].fullName) != Lower(Accepted(existing, search)[j].fullName)
  {
    RunQueriesConsistent(existing, search, SearchQueries);
  }

  /** Every repository taken passed `_is_valid_repo`, so none is already in the collection. */
  lemma AcceptedAreValid(existing: set<string>, search: string -> seq<Repo>)
    ensures forall r :: r in Accepted(existing, search) ==>
      IsValidRepo(existing, r) && Lower(r.fullName) !in existing
  {
    RunQueriesConsistent(existing, search, SearchQueries);
  }

  /** Ten queries of at most ten each: at most 100 repositories per run. */
  lemma AcceptedAtMostHundred(existing: set<string>, search: string -> seq<Repo>)
    ensures |Accepted(existing, search)| <= 100
  {
    RunQueriesConsistent(existing, search, SearchQueries);
  }

  /** Each record names the repository it was built from. */
  lemma {:induction false} InfosOfAt(rs: seq<Repo>, i: nat)
    requires i < |rs|
    ensures InfosOf(rs)[i] == RepoInfoOf(rs[i])
    decreases |rs|
  {
    if i < |rs| - 1 {
      InfosOfAt(rs[..|rs| - 1], i);
    }
  }

  /** In the discovered records of one run, no lower-cased repository name appears twice. */
  lemma DiscoveredNamesDistinct(existing: set<string>, search: string -> seq<Repo>)
    ensures var infos := InfosOf(Accepted(existing, search));
      forall i, j :: 0 <= i < j < |infos| ==> Lower(infos[i].repository) != Lower(infos[j].repository)
  {
    var rs := Accepted(existing, search);
    AcceptedNamesDistinct(existing, search);
    forall i | 0 <= i < |rs| ensures InfosOf(rs)[i].repository == rs[i].fullName {
      InfosOfAt(rs, i);
    }
  }
}
