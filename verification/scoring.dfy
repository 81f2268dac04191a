/**
 * `_calculate_quality_score`. Scores are kept in HALF-POINTS: every weight
 * product of the source (15, 20 * 0.5, 25 * 0.8, 25 * 0.3, ...) is a
 * multiple of 0.5, so twice the score is an exact integer and 200 stands
 * for the cap of 100.
 */
module Scoring {
  import opened Repos

  // SCORE_WEIGHTS, in points.
  const WeightHasDocker: nat := 15
  const WeightHasReadme: nat := 10
  const WeightRecentActivity: nat := 20
  const WeightStars: nat := 25
  const WeightHasDescription: nat := 10
  const WeightHasTopics: nat := 10
  const WeightHasLicense: nat := 5
  const WeightOpenIssues: nat := 5

  /** The cap `min(score, 100)`, in half-points. */
  const MaxHalfPoints: nat := 200

  /** A full weight, in half-points. */
  function Full(weight: nat): nat {
    2 * weight
  }

  /**
   * `weight * (tenths / 10)` in half-points, that is `weight * tenths / 5`;
   * the requires says the product is a multiple of 0.5 points, and the
   * ensures that the integer is then exact.
   */
  function Fraction(weight: nat, tenths: nat): (h: nat)
    requires (weight * tenths) % 5 == 0
    ensures h * 5 == weight * tenths
  {
    var product := weight * tenths;
    product / 5
  }

  /** The sum of the weights is the documented maximum of 100 points. */
  lemma WeightsSumToCap()
    ensures Full(WeightHasDocker) + Full(WeightHasReadme) + Full(WeightRecentActivity)
          + Full(WeightStars) + Full(WeightHasDescription) + Full(WeightHasTopics)
          + Full(WeightHasLicense) + Full(WeightOpenIssues) == MaxHalfPoints
  {
  }

  /** Recent-activity tier: the months thresholds 6 and 12 are 180 and 360 days. */
  function RecencyPoints(days: int): (h: nat)
    ensures h == (if days < 180 then 40 else if days < 360 then 20 else 0)
  {
    if UpdatedWithin(days, 6) then Full(WeightRecentActivity)
    else if UpdatedWithin(days, 12) then Fraction(WeightRecentActivity, 5)
    else 0
  }

  /** Star tier: 0 below MIN_STARS, then 7.5, 12.5, 20 and 25 points. */
  function StarPoints(stars: nat): (h: nat)
    ensures h == if stars >= 100 then 50 else if stars >= 50 then 40
      else if stars >= 25 then 25 else if stars >= 10 then 15 else 0
    ensures h <= Full(WeightStars)
    ensures h == 0 <==> stars < MinStars
    ensures h == Full(WeightStars) <==> stars >= 100
  {
    if stars >= 100 then Full(WeightStars)
    else if stars >= 50 then Fraction(WeightStars, 8)
    else if stars >= 25 then Fraction(WeightStars, 5)
    else if stars >= MinStars then Fraction(WeightStars, 3)
    else 0
  }

  /** "Active maintenance": between 1 and 49 open issues. */
  predicate HasModerateIssues(r: Repo) {
    r.openIssues > 0 && r.openIssues < 50
  }

  /** The half-points of the two file checks (Dockerfile, README). */
  function FilePoints(r: Repo): nat {
    (if r.hasDockerfile then Full(WeightHasDocker) else 0)
    + (if r.hasReadme then Full(WeightHasReadme) else 0)
  }

  /** The half-points of the four metadata checks. */
  function MetadataPoints(r: Repo): nat {
    (if |r.description| > 0 then Full(WeightHasDescription) else 0)
    + (if |r.topics| > 0 then Full(WeightHasTopics) else 0)
    + (if r.hasLicense then Full(WeightHasLicense) else 0)
    + (if HasModerateIssues(r) then Full(WeightOpenIssues) else 0)
  }

  /** The uncapped weighted sum, in half-points. */
  function RawScore(r: Repo): (h: nat)
    ensures h <= MaxHalfPoints
  {
    FilePoints(r) + RecencyPoints(r.daysSinceUpdate) + StarPoints(r.stars) + MetadataPoints(r)
  }

  /** The score the source returns, `min(score, 100)`, in half-points. */
  function QualityScore(r: Repo): (h: nat)
    ensures h <= MaxHalfPoints
    ensures h == RawScore(r)
  {
    if RawScore(r) < MaxHalfPoints then RawScore(r) else MaxHalfPoints
  }

  /**
   * The score as the source accumulates it, criterion after criterion in
   * the source's order; the two tiered criteria add the points their tier
   * functions choose.
   */
  method CalculateQualityScore(r: Repo) returns (score: nat)
    ensures score == QualityScore(r)
    ensures score <= MaxHalfPoints
  {
    score := 0;
    if r.hasDockerfile {
      score := score + Full(WeightHasDocker);
    }
    if r.hasReadme {
      score := score + Full(WeightHasReadme);
    }
    score := score + RecencyPoints(r.daysSinceUpdate);
    score := score + StarPoints(r.stars);
    if |r.description| > 0 {
      score := score + Full(WeightHasDescription);
    }
    if |r.topics| > 0 {
      score := score + Full(WeightHasTopics);
    }
    if r.hasLicense {
      score := score + Full(WeightHasLicense);
    }
    if HasModerateIssues(r) {
      score := score + Full(WeightOpenIssues);
    }
    score := if score < MaxHalfPoints then score else MaxHalfPoints;
  }

  /** The star contribution never decreases as the star count rises. */
  lemma StarPointsMonotone(a: nat, b: nat)
    requires a <= b
    ensures StarPoints(a) <= StarPoints(b)
  {
  }

  /** The recency contribution never increases as the repository ages. */
  lemma RecencyPointsAntitone(d1: int, d2: int)
    requires d1 <= d2
    ensures RecencyPoints(d2) <= RecencyPoints(d1)
  {
  }

  /** More stars, all else equal, never lowers the score. */
  lemma QualityScoreMonotoneInStars(r: Repo, more: nat)
    requires r.stars <= more
    ensures QualityScore(r) <= QualityScore(r.(stars := more))
  {
    StarPointsMonotone(r.stars, more);
  }

  /** The full 100 points are reached exactly when every criterion is at its top tier. */
  lemma FullScoreIff(r: Repo)
    ensures QualityScore(r) == MaxHalfPoints <==>
      && r.hasDockerfile && r.hasReadme && r.daysSinceUpdate < 180 && r.stars >= 100
      && |r.description| > 0 && |r.topics| > 0 && r.hasLicense && HasModerateIssues(r)
  {
  }
}
