/**
 * `generate_report` and `_generate_markdown`: the discovered records are
 * sorted by quality score, highest first, with `list.sort(key=...,
 * reverse=True)`, which is stable (records with equal scores keep their
 * discovery order); each record is then labelled by its score.
 */
module Report {
  import opened Discovery

  /** The three labels of the report. */
  datatype Recommendation = Recommended | ReviewNeeded | LowQuality

  /** `"Recommended" if score >= 70 else "Review Needed" if score >= 50 else "Low Quality"`, on half-points. */
  function RecommendationFor(halfPoints: nat): (rec: Recommendation)
    ensures rec == Recommended <==> halfPoints >= 140
    ensures rec == LowQuality <==> halfPoints < 100
  {
    if halfPoints >= 140 then Recommended
    else if halfPoints >= 100 then ReviewNeeded
    else LowQuality
  }

  /** The order of the labels: 0 is the best. */
  function Rank(rec: Recommendation): nat {
    match rec
    case Recommended => 0
    case ReviewNeeded => 1
    case LowQuality => 2
  }

  /** A higher score never gets a worse label. */
  lemma RecommendationMonotone(a: nat, b: nat)
    requires a <= b
    ensures Rank(RecommendationFor(b)) <= Rank(RecommendationFor(a))
  {
  }

  /** Scores never increase along `s`. */
  ghost predicate SortedByScore(s: seq<RepoInfo>) {
    forall i, j :: 0 <= i < j < |s| ==> s[i].qualityScore >= s[j].qualityScore
  }

  /** The records of `s` with score `v`, in their order in `s`. */
  function WithScore(s: seq<RepoInfo>, v: nat): seq<RepoInfo>
    decreases |s|
  {
    if s == [] then []
    else WithScore(s[..|s| - 1], v) + (if s[|s| - 1].qualityScore == v then [s[|s| - 1]] else [])
  }

  /**
   * Inserts `x` into `s` after every record whose score is at least
   * `x`'s, scanning from the right as insertion sort does.
   */
  function InsertByScore(s: seq<RepoInfo>, x: RepoInfo): (r: seq<RepoInfo>)
    ensures |r| == |s| + 1
    decreases |s|
  {
    if s == [] || s[|s| - 1].qualityScore >= x.qualityScore then s + [x]
    else InsertByScore(s[..|s| - 1], x) + [s[|s| - 1]]
  }

  /** The stable sort by descending score: insertion sort, left to right. */
  function SortByScore(s: seq<RepoInfo>): (r: seq<RepoInfo>)
    ensures |r| == |s|
    decreases |s|
  {
    if s == [] then [] else InsertByScore(SortByScore(s[..|s| - 1]), s[|s| - 1])
  }

  /** Inserting into a sorted sequence keeps it sorted. */
  lemma {:induction false} InsertByScoreSorted(s: seq<RepoInfo>, x: RepoInfo)
    requires SortedByScore(s)
    ensures SortedByScore(InsertByScore(s, x))
    ensures forall i :: 0 <= i < |s| + 1 ==>
      InsertByScore(s, x)[i] == x || InsertByScore(s, x)[i] in s
    decreases |s|
  {
    if s != [] && s[|s| - 1].qualityScore < x.qualityScore {
      var init := s[..|s| - 1];
      var last := s[|s| - 1];
      InsertByScoreSorted(init, x);
      var r := InsertByScore(init, x);
      forall i | 0 <= i < |r| ensures r[i].qualityScore >= last.qualityScore {
        if r[i] != x {
          var k :| 0 <= k < |init| && init[k] == r[i];
          assert s[k] == init[k];
        }
      }
      forall i | 0 <= i < |r| ensures r[i] == x || r[i] in s {
        if r[i] != x {
          assert r[i] in init;
        }
      }
    }
  }

  /** Insertion adds `x` and keeps every other record: a permutation step. */
  lemma {:induction false} InsertByScorePermutes(s: seq<RepoInfo>, x: RepoInfo)
    ensures multiset(InsertByScore(s, x)) == multiset(s) + multiset{x}
    decreases |s|
  {
    if s != [] && s[|s| - 1].qualityScore < x.qualityScore {
      var init := s[..|s| - 1];
      InsertByScorePermutes(init, x);
      assert s == init + [s[|s| - 1]];
    }
  }

  /** `WithScore` distributes over concatenation. */
  lemma {:induction false} WithScoreAppend(a: seq<RepoInfo>, b: seq<RepoInfo>, v: nat)
    ensures WithScore(a + b, v) == WithScore(a, v) + WithScore(b, v)
    decreases |b|
  {
    if b == [] {
      assert a + b == a;
    } else {
      var b' := b[..|b| - 1];
      assert (a + b)[..|a + b| - 1] == a + b';
      WithScoreAppend(a, b', v);
    }
  }

  /**
   * Insertion puts `x` after every record of its own score: among the
   * records of any one score the order is unchanged, `x` coming last.
   */
  lemma {:induction false} InsertByScoreStable(s: seq<RepoInfo>, x: RepoInfo, v: nat)
    ensures WithScore(InsertByScore(s, x), v)
      == WithScore(s, v) + (if x.qualityScore == v then [x] else [])
    decreases |s|
  {
    WithScoreSingleton(x, v);
    if s == [] || s[|s| - 1].qualityScore >= x.qualityScore {
      assert InsertByScore(s, x) == s + [x];
      WithScoreAppend(s, [x], v);
    } else {
      var init := s[..|s| - 1];
      var last := s[|s| - 1];
      assert InsertByScore(s, x) == InsertByScore(init, x) + [last];
      InsertByScoreStable(init, x, v);
      WithScoreAppend(InsertByScore(init, x), [last], v);
      WithScoreSingleton(last, v);
      assert WithScore(s, v) == WithScore(init, v) + (if last.qualityScore == v then [last] else []);
    }
  }

  /** `WithScore` of a single record. */
  lemma WithScoreSingleton(y: RepoInfo, v: nat)
    ensures WithScore([y], v) == if y.qualityScore == v then [y] else []
  {
    assert [y][..0] == [];
  }

  /** Sorting one more element of `s` inserts it into the sorted prefix. */
  lemma SortByScoreSnoc(s: seq<RepoInfo>, k: nat)
    requires k < |s|
    ensures SortByScore(s[..k + 1]) == InsertByScore(SortByScore(s[..k]), s[k])
  {
    assert s[..k + 1][..k] == s[..k];
  }

  /** The result of `SortByScore` is in descending score order. */
  lemma {:induction false} SortByScoreSorted(s: seq<RepoInfo>)
    ensures SortedByScore(SortByScore(s))
    decreases |s|
  {
    if s != [] {
      SortByScoreSorted(s[..|s| - 1]);
      InsertByScoreSorted(SortByScore(s[..|s| - 1]), s[|s| - 1]);
    }
  }

  /** The result of `SortByScore` is a permutation of its input. */
  lemma {:induction false} SortByScorePermutes(s: seq<RepoInfo>)
    ensures multiset(SortByScore(s)) == multiset(s)
    decreases |s|
  {
    if s != [] {
      var init := s[..|s| - 1];
      SortByScorePermutes(init);
      InsertByScorePermutes(SortByScore(init), s[|s| - 1]);
      assert s == init + [s[|s| - 1]];
    }
  }

  /** `SortByScore` is stable: the records of each score keep their original order. */
  lemma {:induction false} SortByScoreStable(s: seq<RepoInfo>, v: nat)
    ensures WithScore(SortByScore(s), v) == WithScore(s, v)
    decreases |s|
  {
    if s != [] {
      var init := s[..|s| - 1];
      SortByScoreStable(init, v);
      InsertByScoreStable(SortByScore(init), s[|s| - 1], v);
    }
  }

  /**
   * Insertion at a known position: when every record from `j` on scores
   * below `x` and the one before `j` (if any) does not, `x` goes in at `j`.
   */
  lemma {:induction false} InsertByScoreAt(s: seq<RepoInfo>, x: RepoInfo, j: nat)
    requires j <= |s|
    requires j == 0 || s[j - 1].qualityScore >= x.qualityScore
    requires forall k :: j <= k < |s| ==> s[k].qualityScore < x.qualityScore
    ensures InsertByScore(s, x) == s[..j] + [x] + s[j..]
    decreases |s|
  {
    if j == |s| {
      assert InsertByScore(s, x) == s + [x];
      assert s[..j] == s && s[j..] == [];
    } else {
      var init := s[..|s| - 1];
      var last := s[|s| - 1];
      assert InsertByScore(s, x) == InsertByScore(init, x) + [last];
      InsertByScoreAt(init, x, j);
      assert init[..j] == s[..j];
      assert init[j..] + [last] == s[j..];
    }
  }

  /**
   * The sort in place: insertion sort, moving each record left past the
   * records with a strictly lower score. Python sorts with Timsort; both
   * are stable, so both give `SortByScore` of the input.
   */
  method SortInPlace(a: array<RepoInfo>)
    modifies a
    ensures a[..] == SortByScore(old(a[..]))
  {
    ghost var input := a[..];
    var i := 0;
    while i < a.Length
      invariant 0 <= i <= a.Length
      invariant a[..i] == SortByScore(input[..i])
      invariant a[i..] == input[i..]
    {
      ghost var before := a[..];
      assert before[i] == input[i] && before[i + 1..] == input[i + 1..] by {
        assert before[i..] == input[i..];
        assert before[i + 1..] == before[i..][1..] && input[i + 1..] == input[i..][1..];
      }
      InsertInPlace(a, i);
      SortByScoreSnoc(input, i);
      i := i + 1;
    }
    assert input[..a.Length] == input;
  }

  /** Moves `a[i]` left into the sorted prefix `a[..i]`; the rest of the array is untouched. */
  method InsertInPlace(a: array<RepoInfo>, i: nat)
    requires i < a.Length
    modifies a
    ensures a[..i + 1] == InsertByScore(old(a[..i]), old(a[i]))
    ensures a[i + 1..] == old(a[i + 1..])
  {
    ghost var sorted := a[..i];
    var x := a[i];
    var j := i;
    while j > 0 && a[j - 1].qualityScore < x.qualityScore
      invariant 0 <= j <= i
      invariant forall k :: 0 <= k < j ==> a[k] == sorted[k]
      invariant forall k :: j < k <= i ==> a[k] == sorted[k - 1]
      invariant forall k :: i < k < a.Length ==> a[k] == old(a[k])
      invariant forall k :: j <= k < i ==> sorted[k].qualityScore < x.qualityScore
    {
      a[j] := a[j - 1];
      j := j - 1;
    }
    a[j] := x;
    ShiftedIsInserted(a[..i + 1], sorted, x, j);
    assert a[i + 1..] == old(a[i + 1..]);
  }

  /**
   * The array prefix after the shifting loop: `sorted` with `x` put in at
   * `j`, where every record from `j` on scores below `x`.
   */
  lemma ShiftedIsInserted(t: seq<RepoInfo>, sorted: seq<RepoInfo>, x: RepoInfo, j: nat)
    requires |t| == |sorted| + 1 && j <= |sorted|
    requires forall k :: 0 <= k < j ==> t[k] == sorted[k]
    requires t[j] == x
    requires forall k :: j < k < |t| ==> t[k] == sorted[k - 1]
    requires j == 0 || sorted[j - 1].qualityScore >= x.qualityScore
    requires forall k :: j <= k < |sorted| ==> sorted[k].qualityScore < x.qualityScore
    ensures t == InsertByScore(sorted, x)
  {
    InsertByScoreAt(sorted, x, j);
    assert t == sorted[..j] + [x] + sorted[j..];
  }

  /** The labels of the records, in report order. */
  function Recommendations(s: seq<RepoInfo>): (recs: seq<Recommendation>)
    ensures |recs| == |s|
    ensures forall k :: 0 <= k < |s| ==> recs[k] == RecommendationFor(s[k].qualityScore)
  {
    seq(|s|, k requires 0 <= k < |s| => RecommendationFor(s[k].qualityScore))
  }

  /**
   * In a report sorted by score, the labels come in order: every
   * "Recommended" before every "Review Needed", before every "Low Quality".
   */
  lemma SortedReportGroupsLabels(s: seq<RepoInfo>)
    requires SortedByScore(s)
    ensures forall i, j :: 0 <= i < j < |s| ==>
      Rank(Recommendations(s)[i]) <= Rank(Recommendations(s)[j])
  {
    forall i, j | 0 <= i < j < |s|
      ensures Rank(Recommendations(s)[i]) <= Rank(Recommendations(s)[j])
    {
      RecommendationMonotone(s[j].qualityScore, s[i].qualityScore);
    }
  }
}
