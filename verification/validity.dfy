/** `_is_valid_repo`: the basic criteria a search result must meet. */
module Validity {
  import opened Text
  import opened Repos

  /**
   * The chain of guards of the source, in its order: already listed, too
   * few stars, not updated for more than MAX_AGE_MONTHS, archived, no README.
   */
  function IsValidRepo(existing: set<string>, r: Repo): (valid: bool)
    ensures valid <==>
      && Lower(r.fullName) !in existing
      && r.stars >= 10
      && r.daysSinceUpdate <= 720
      && !r.archived
      && r.hasReadme
  {
    MonthsThreshold(r.daysSinceUpdate, MaxAgeMonths);
    if Lower(r.fullName) in existing then false
    else if r.stars < MinStars then false
    else if MonthsSince(r.daysSinceUpdate) > MaxAgeMonths as real then false
    else if r.archived then false
    else if !r.hasReadme then false
    else true
  }
}
