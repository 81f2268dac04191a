/**
 * The facts the scout observes about one GitHub repository. Every call the
 * scout makes on a `Repository` object (and every exception such a call
 * raises) is replaced by a field of this record.
 */
module Repos {

  datatype Repo = Repo(
    fullName: string,         // repo.full_name, "owner/name"
    name: string,             // repo.name
    htmlUrl: string,          // repo.html_url
    description: string,      // repo.description; "" stands for None
    stars: nat,               // repo.stargazers_count
    daysSinceUpdate: int,     // (datetime.now() - repo.updated_at).days
    archived: bool,           // repo.archived
    hasReadme: bool,          // repo.get_readme() returns instead of raising
    hasDockerfile: bool,      // repo.get_contents("Dockerfile") returns
    hasDockerCompose: bool,   // repo.get_contents("docker-compose.yml") returns
    topics: seq<string>,      // repo.get_topics()
    hasLicense: bool,         // repo.license is not None
    openIssues: nat,          // repo.open_issues_count
    language: string          // repo.language; "" stands for None
  )

  /** MIN_STARS. */
  const MinStars: nat := 10

  /** MAX_AGE_MONTHS. */
  const MaxAgeMonths: nat := 24

  /** `days / 30`: Python's true division, as an exact rational. */
  function MonthsSince(days: int): (m: real)
    ensures m * 30.0 == days as real
  {
    days as real / 30.0
  }

  /** `months < k` for `months = days / 30`: updated less than `k` months ago. */
  function UpdatedWithin(days: int, k: nat): (b: bool)
    ensures b <==> days < 30 * k
  {
    MonthsThreshold(days, k);
    MonthsSince(days) < k as real
  }

  /** A threshold of `k` months is a threshold of `30 * k` days. */
  lemma MonthsThreshold(days: int, k: nat)
    ensures MonthsSince(days) < k as real <==> days < 30 * k
    ensures MonthsSince(days) > k as real <==> days > 30 * k
  {
    var m := MonthsSince(days);
    assert m * 30.0 == days as real;
  }
}
