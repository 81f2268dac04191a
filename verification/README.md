# VulnerableAppScout decision rules, in Dafny

This project models the decision core of `scripts/scout.py`. That script
is the repository scout of a curated list of deliberately vulnerable web
applications. It searches GitHub with ten fixed queries and rejects every
repository already in `collection.json` or failing the basic criteria. It
gives each repository it keeps a 0–100 quality score, guesses its
vulnerability types from its metadata and proposes a `collection.json`
entry. At the end it sorts what it found by score and labels each
repository in a report.

The modules follow the script's methods:

- `Text`: ASCII lower-casing, joining with spaces, substring occurrence, the whitespace set.
- `Repos`: the `Repo` record, which stands for every fact the scout reads from a GitHub repository; `MIN_STARS`, `MAX_AGE_MONTHS`; the months-since-update arithmetic.
- `RepoKeys`: `_load_existing_repos`. The regular expression `github\.com/([^/]+/[^/\s]+)` is modelled as a leftmost, greedy scan.
- `Scoring`: `_calculate_quality_score`. All scores are in half-points (0–200), so the fractional weights (`* 0.8`, `* 0.5`, `* 0.3`) stay exact.
- `VulnTypes`: `_detect_vulnerability_types`.
- `Validity`: `_is_valid_repo`.
- `Entries`: `_generate_json_entry`.
- `Discovery`: the loops of `search_repositories`, written as a left fold. This module holds the specification functions and the invariants of those loops.
- `Report`: the stable descending sort of `generate_report` and the recommendation tier of `_generate_markdown`.
- `Scout`: the class `VulnerableAppScout`, whose fields `existingRepos` and `discoveredRepos` its methods update in place.

The GitHub search is a parameter `search: string -> seq<Repo>`. It gives
the results of a query string in the order the script visits them.

## Model

| member | source | states |
|---|---|---|
| Text.LowerChar | scripts/scout.py:162 | one character of `str.lower()`: an ASCII capital moves to its small letter, every other character is kept |
| Text.LowerAll | scripts/scout.py:134 | `[t.lower() for t in topics]`: each topic lower-cased, in order |
| Text.JoinSpace | scripts/scout.py:135 | `' '.join(ts)`: the strings in order, one space between neighbours |
| Text.IsInfix | scripts/scout.py:65 | Python's `k in s` on strings: `k` occurs in `s` at some position |
| Text.IsSpace | scripts/scout.py:67 | the `\s` of the pattern: the characters `str.isspace` accepts |
| Text.Lower | scripts/scout.py:162 | `str.lower()` on the ASCII letters: same length, and each character is lower-cased on its own |
| Text.LowerIsLowerCase | scripts/scout.py:69 | a lower-cased string has no upper-case letter, and lower-casing it again changes nothing |
| Repos.MonthsSince | scripts/scout.py:94 | `days / 30` is true division: the result times 30 is the day count |
| Repos.UpdatedWithin | scripts/scout.py:95-97 | "fewer than `k` months since the update" holds exactly when the day count is below `30*k` |
| Repos.MonthsThreshold | scripts/scout.py:171-172 | a month threshold compared with `<` or `>` is the same as a day threshold `30*k` compared the same way |
| RepoKeys.IsNameChar | scripts/scout.py:67 | the class `[^/\s]`: neither a slash nor whitespace |
| RepoKeys.OwnerEnd | scripts/scout.py:67 | the `[^/]+` run: the end is the first `/` at or after the start, or the end of the string |
| RepoKeys.NameEnd | scripts/scout.py:67 | the `[^/\s]+` run: every character up to the end is neither `/` nor whitespace, and the character at the end is |
| RepoKeys.MatchAt | scripts/scout.py:67 | a match starting at one position is found exactly when the pattern matches there, and its end is the only possible one (greedy) |
| RepoKeys.FindMatch | scripts/scout.py:67 | `re.search`: the match found is the leftmost one; when none is found, no position matches |
| RepoKeys.PatternContainsHost | scripts/scout.py:65-67 | a URL the pattern matches contains `github.com`, so the substring test never hides a regex match |
| RepoKeys.RepoKey | scripts/scout.py:64-69 | a key is extracted exactly when the pattern matches somewhere in the URL, and only from URLs containing `github.com` |
| RepoKeys.RepoKeyShape | scripts/scout.py:67-69 | the key is the lower-cased group of the leftmost match, of the form `owner/name`, with no upper-case letter |
| RepoKeys.LowerKeepsShape | scripts/scout.py:69 | lower-casing keeps the `owner/name` shape |
| RepoKeys.UnionOfMembership | scripts/scout.py:63-69 | a key is collected exactly when some item of the collection yields it |
| RepoKeys.UrlOf | scripts/scout.py:64 | `item.get('url', '')`: the url, or the empty string when the item has none |
| RepoKeys.ItemKeys | scripts/scout.py:64-69 | the key one item contributes: the key of its url when there is one, otherwise nothing |
| RepoKeys.KeysOf | scripts/scout.py:58-69 | the set the loop builds: the union of the items' keys |
| RepoKeys.LoadExistingRepos | scripts/scout.py:56-73 | the loop collects the keys of all items, a missing `url` counting as `''`; each key is lower-case and of the form `owner/name` |
| RepoKeys.KeysOfShape | scripts/scout.py:63-69 | every key of the collection is lower-case and of the form `owner/name` |
| Scoring.Fraction | scripts/scout.py:98-108 | a weight times a fraction in tenths, in half-points, is exact when the product is a multiple of half a point |
| Scoring.WeightsSumToCap | scripts/scout.py:38-47 | the eight weights sum to 100 points, which is also the cap of line 126 |
| Scoring.RecencyPoints | scripts/scout.py:93-98 | 20 points under 180 days since the update, 10 under 360 days, otherwise none |
| Scoring.StarPoints | scripts/scout.py:100-108 | the whole tier chain: 25 points from 100 stars, 20 from 50, 12.5 from 25, 7.5 from MIN_STARS (10), otherwise none; hence at most 25, none exactly below 10, and the full 25 exactly from 100 |
| Scoring.HasModerateIssues | scripts/scout.py:123 | between 1 and 49 open issues |
| Scoring.FilePoints | scripts/scout.py:79-91 | 15 points for a Dockerfile, 10 for a README |
| Scoring.MetadataPoints | scripts/scout.py:110-124 | 10 points for a description, 10 for topics, 5 for a license, 5 for 1–49 open issues |
| Scoring.RawScore | scripts/scout.py:77-124 | the uncapped sum never exceeds 100 points |
| Scoring.QualityScore | scripts/scout.py:75-126 | the score is in 0–100 points, so `min(score, 100)` never cuts |
| Scoring.CalculateQualityScore | scripts/scout.py:75-126 | the method's step-by-step sum, capped, equals `QualityScore` and is at most 100 points |
| Scoring.StarPointsMonotone | scripts/scout.py:101-108 | more stars never give fewer star points |
| Scoring.RecencyPointsAntitone | scripts/scout.py:94-98 | an older update never gives more recency points |
| Scoring.QualityScoreMonotoneInStars | scripts/scout.py:75-126 | with all else equal, more stars never lower the score |
| Scoring.FullScoreIff | scripts/scout.py:75-126 | the score is 100 exactly when every criterion is at its top tier |
| VulnTypes.MetadataText | scripts/scout.py:133-135 | `all_text`: the lower-cased description (empty for None), a space, then the lower-cased topics joined by spaces |
| VulnTypes.MentionsAny | scripts/scout.py:153 | `any(keyword in all_text for keyword in keywords)` |
| VulnTypes.Detected | scripts/scout.py:152-154 | the specification of the loop: the names of the rows with a keyword in the text, in table order |
| VulnTypes.DetectVulnerabilityTypes | scripts/scout.py:128-156 | the loop returns the rows whose keywords occur in the text; a type is listed exactly when one of its keywords occurs; no type is listed twice |
| VulnTypes.DetectedInTableOrder | scripts/scout.py:152-154 | the listed types are the matching rows, at strictly increasing positions of the table, and every matching row is listed |
| VulnTypes.DetectedMembership | scripts/scout.py:152-154 | a type is listed exactly when some row with that name has a keyword in the text |
| VulnTypes.DetectedDistinct | scripts/scout.py:152-154 | with distinct row names, the result has no duplicates |
| VulnTypes.VulnTypeNamesDistinct | scripts/scout.py:138-150 | the eleven type names of the table are distinct |
| VulnTypes.ShortTextDetectsNothing | scripts/scout.py:152-154 | a text shorter than every keyword matches no row |
| VulnTypes.EmptyMetadataDetectsNothing | scripts/scout.py:133-135 | with no description and no topics, the text is a single space and no type is listed |
| Validity.IsValidRepo | scripts/scout.py:158-189 | valid exactly when the lower-cased name is not in the collection, there are at least 10 stars, at most 720 days have passed since the update, the repository is not archived, and it has a README |
| Entries.HasDockerTag | scripts/scout.py:206 | some technology lower-cases to `docker` |
| Entries.AddsDocker | scripts/scout.py:204-217 | "Docker" is appended when a Dockerfile or a docker-compose.yml exists and no topic already lower-cases to `docker` |
| Entries.SuggestedEntry | scripts/scout.py:191-226 | the entry as a value: url, name, the description or its default, the language or "Unknown", the topics then "Docker" at most once cut to ten, `["offline"]` |
| Entries.Take | scripts/scout.py:224 | `technologies[:10]` is a prefix, of length `min(len, 10)` |
| Entries.GenerateJsonEntry | scripts/scout.py:191-226 | the entry has the topics followed by "Docker" at most once, cut to ten; the collection is `["offline"]`; the language defaults to "Unknown"; with fewer than ten topics nothing is cut |
| Discovery.SearchQueryFor | scripts/scout.py:240 | the query string sent to GitHub: the query followed by ` stars:>=10` |
| Discovery.RepoInfoOf | scripts/scout.py:271-283 | the record of an accepted repository: name, url, the description or "No description", stars, the language or "Unknown", the Dockerfile flag, the score, the types and the entry |
| Discovery.Step | scripts/scout.py:250-286 | one iteration of the inner loop: nothing once ten are taken or when the name is already found or the repository is not valid; otherwise the name is found, the repository taken, the count raised |
| Discovery.ScanResults | scripts/scout.py:249-286 | the inner loop over one query's results, left to right: the found set and the list only grow, and the count rises by exactly the number taken |
| Discovery.Restart | scripts/scout.py:248 | a new query keeps the found set and the list and sets `count = 0` |
| Discovery.RunQueries | scripts/scout.py:233-248 | the outer loop: start with an empty found set, then run each query's inner loop in order from where the last one ended |
| Discovery.Accepted | scripts/scout.py:228-293 | the repositories a whole run over the ten queries takes, in the order taken |
| Discovery.InfosOf | scripts/scout.py:271-285 | one record per accepted repository |
| Discovery.InfosOfSnoc | scripts/scout.py:285 | appending a repository appends its record |
| Discovery.InfosOfAt | scripts/scout.py:271-283 | the i-th record is built from the i-th accepted repository |
| Discovery.StepTakes | scripts/scout.py:253-286 | a result whose name is new and that is valid, while fewer than ten are taken, is added to the found set and the list, and the count rises by one |
| Discovery.StepSkips | scripts/scout.py:253-259 | a result already found, or not valid, changes nothing |
| Discovery.StepConsistent | scripts/scout.py:253-286 | one iteration keeps the invariant and appends at most the repository it is given, counting it |
| Discovery.ScanResultsConsistent | scripts/scout.py:248-286 | one query keeps the invariant, takes only its own results, and never takes more than ten |
| Discovery.ScanResultsSaturated | scripts/scout.py:250-251 | once ten are taken, the remaining results change nothing |
| Discovery.ScanResultsAppend | scripts/scout.py:249 | the inner loop over two runs of results is the loop over the first, then the second |
| Discovery.ScanResultsStopAt | scripts/scout.py:250-251 | the `break` after ten leaves the same state as visiting every result |
| Discovery.RunQueriesSnoc | scripts/scout.py:235-248 | each query continues from the found set of the earlier ones, with the count back at zero |
| Discovery.RunQueriesConsistent | scripts/scout.py:233-286 | a whole run keeps the invariant, takes at most ten per query, and takes only results of its queries |
| Discovery.AcceptedNamesDistinct | scripts/scout.py:253-260 | no lower-cased full name is taken twice in one run |
| Discovery.AcceptedAreValid | scripts/scout.py:259-260 | every repository taken is valid and not already in the collection |
| Discovery.AcceptedAtMostHundred | scripts/scout.py:235-251 | a run takes at most 100 repositories |
| Discovery.DiscoveredNamesDistinct | scripts/scout.py:271-285 | no lower-cased repository name appears twice among the records of one run |
| Scout.VulnerableAppScout.constructor | scripts/scout.py:49-54 | `existingRepos` holds the keys of the collection, each lower-case and of the form `owner/name`; `discoveredRepos` is empty |
| Scout.VulnerableAppScout.SearchRepositories | scripts/scout.py:228-293 | `existingRepos` is unchanged, and `discoveredRepos` gains the records of the accepted repositories of the run, in order |
| Scout.VulnerableAppScout.ProcessResults | scripts/scout.py:248-286 | one query's loop, with its `break`, leaves the found set and the records that the fold gives |
| Scout.VulnerableAppScout.ConsiderResult | scripts/scout.py:253-286 | one iteration does what `Step` does, and appends the record of the repository it takes |
| Scout.VulnerableAppScout.BuildRepoInfo | scripts/scout.py:262-283 | the record is built from the score, the types and the entry the three helpers return |
| Scout.VulnerableAppScout.GenerateMarkdown | scripts/scout.py:354-358 | the label of each record, in list order |
| Scout.VulnerableAppScout.GenerateReport | scripts/scout.py:303-310 | the records are sorted by descending score, are a permutation of the old ones, keep their order within each score, and the labels run from "Recommended" to "Low Quality" |
| Report.RecommendationFor | scripts/scout.py:358 | "Recommended" exactly from 70 points, "Low Quality" exactly below 50 points |
| Report.RecommendationMonotone | scripts/scout.py:358 | a higher score never gets a worse label |
| Report.InsertByScore | scripts/scout.py:307 | inserting a record adds one element |
| Report.SortByScore | scripts/scout.py:307 | sorting keeps the length |
| Report.InsertByScoreSorted | scripts/scout.py:307 | inserting into a list sorted by descending score keeps it sorted |
| Report.InsertByScorePermutes | scripts/scout.py:307 | inserting adds exactly the new record to the multiset |
| Report.WithScoreAppend | scripts/scout.py:307 | the records of one score in `a + b` are those in `a`, then those in `b` |
| Report.InsertByScoreStable | scripts/scout.py:307 | inserting after the records of equal or higher score keeps the order within each score |
| Report.WithScoreSingleton | scripts/scout.py:307 | a single record is kept by its own score only |
| Report.SortByScoreSnoc | scripts/scout.py:307 | sorting one more record inserts it into the sorted prefix |
| Report.SortByScoreSorted | scripts/scout.py:307 | `sort(key=quality_score, reverse=True)` puts higher scores first |
| Report.SortByScorePermutes | scripts/scout.py:307 | the sorted list is a permutation of the original |
| Report.SortByScoreStable | scripts/scout.py:307 | the sort is stable: records of the same score keep their relative order |
| Report.InsertByScoreAt | scripts/scout.py:307 | the insertion point is after every record of equal or higher score |
| Report.SortInPlace | scripts/scout.py:307 | sorting the array in place gives `SortByScore` of its old contents |
| Report.InsertInPlace | scripts/scout.py:307 | one insertion step: the sorted prefix gains the next element, and the rest of the array is unchanged |
| Report.ShiftedIsInserted | scripts/scout.py:307 | a prefix shifted by one with the element placed in the gap is the insertion |
| Report.Recommendations | scripts/scout.py:357-358 | one label per record, each by its score |
| Report.SortedReportGroupsLabels | scripts/scout.py:357-358 | in a list sorted by score, all "Recommended" come first, then "Review Needed", then "Low Quality" |

## Left out

- File I/O: reading `collection.json`, and writing `scout-issue-body.md` and `scout-results.json`. The collection enters as the sequence of its items' `url` fields (`None` where an item has none). An absent file is the empty sequence.
- The GitHub client: `Github(token)`, `search_repositories(query, sort='stars', order='desc')` and every call on a `Repository`. The search is the `search` parameter, and its order is the order the client returns. The other calls are fields of `Repo`.
- `_has_dockerfile` (lines 295-301) is the field `hasDockerfile`. It is the same call the score and the entry make, so the three agree in the model.
- Exceptions: the per-query `try/except` (lines 238, 289-291) can end a query part-way. The outer `except` of `_is_valid_repo` returns False on an error. `_load_existing_repos` keeps the keys collected before an error (malformed JSON, a non-dict item, a non-string url). The model assumes no call raises, apart from the `get_readme`/`get_contents` probes, which become booleans.
- Clock and dates: `datetime.now()` enters only through `daysSinceUpdate`. The `last_updated` string, `scan_date` and `total_found` are not modelled. `RepoInfo` has no `last_updated` field.
- Floating point: scores are integers in half-points, since every weight product is a multiple of 0.5. `RepoInfo.qualityScore` is that integer. The Python value is half of it, as an int or a float.
- Unicode: `str.lower()` is modelled on ASCII letters only. `\s` is the character set of `str.isspace`, and the model applies no Unicode normalisation.
- Markdown and JSON text: the report header, badges, emoji and the `json.dumps` rendering. Only the label each record gets, in report order, is modelled.
- `print` output is left out. The part of `_generate_markdown` after line 383, and any command-line entry point, are not part of this model.
- Scoring.CalculateQualityScore: the recency and star tiers are added through `RecencyPoints` and `StarPoints` rather than as the source's inline `if/elif` chains. Those two functions state the tiers as their contracts.
