/**
 * `_load_existing_repos`: the lower-cased `owner/name` keys of the
 * collection's GitHub URLs. The source finds them with
 * `re.search(r'github\.com/([^/]+/[^/\s]+)', url)`; here that search is
 * written out as a scan: the leftmost position where "github.com/" is
 * followed by a run of non-slash characters, a slash, and a run of
 * characters that are neither slashes nor whitespace, both runs taken as
 * long as they go (the pattern's quantifiers are greedy).
 */
module RepoKeys {
  import opened Wrappers
  import opened Text

  /** The substring tested by `'github.com' in url`. */
  const GithubHost: string := "github.com"

  /** The literal part of the pattern, `github\.com/`. */
  const GithubPrefix: string := "github.com/"

  /** `[^/\s]`: a character allowed in the name part. */
  predicate IsNameChar(c: char) {
    c != '/' && !IsSpace(c)
  }

  /** The end of the run of non-slash characters starting at `j` (`[^/]+`, greedy). */
  function OwnerEnd(s: string, j: nat): (k: nat)
    requires j <= |s|
    ensures j <= k <= |s|
    ensures forall m :: j <= m < k ==> s[m] != '/'
    ensures k < |s| ==> s[k] == '/'
    decreases |s| - j
  {
    if j == |s| || s[j] == '/' then j else OwnerEnd(s, j + 1)
  }

  /** The end of the run of name characters starting at `j` (`[^/\s]+`, greedy). */
  function NameEnd(s: string, j: nat): (k: nat)
    requires j <= |s|
    ensures j <= k <= |s|
    ensures forall m :: j <= m < k ==> IsNameChar(s[m])
    ensures k < |s| ==> !IsNameChar(s[k])
    decreases |s| - j
  {
    if j == |s| || !IsNameChar(s[j]) then j else NameEnd(s, j + 1)
  }

  /**
   * `g` has the shape of group 1: a non-empty slash-free owner, a slash,
   * and a non-empty name without slashes or whitespace.
   */
  ghost predicate IsOwnerSlashName(g: string) {
    exists p :: 0 < p < |g| - 1 && g[p] == '/'
      && (forall m :: 0 <= m < p ==> g[m] != '/')
      && (forall m :: p < m < |g| ==> IsNameChar(g[m]))
  }

  /**
   * Group 1 can be `s[o..e]`: it has the right shape, and the name cannot
   * be extended (the quantifier is greedy).
   */
  ghost predicate GroupAt(s: string, o: nat, e: nat) {
    && o <= e <= |s|
    && IsOwnerSlashName(s[o..e])
    && (e == |s| || !IsNameChar(s[e]))
  }

  /** The pattern matches at `i` with group 1 ending at `e`: the prefix, then the group. */
  ghost predicate PatternAt(s: string, i: nat, e: nat) {
    OccursAt(GithubPrefix, s, i) && GroupAt(s, i + |GithubPrefix|, e)
  }

  /** The end of group 1 if the pattern matches at position `i`. */
  function MatchAt(s: string, i: nat): (m: Option<nat>)
    ensures m.Some? ==> PatternAt(s, i, m.value)
    ensures forall e: nat :: PatternAt(s, i, e) ==> m == Some(e)
  {
    PatternDeterminesRunsAll(s, i);
    if OccursAt(GithubPrefix, s, i) then
      var o := i + |GithubPrefix|;
      var oe := OwnerEnd(s, o);
      if o < oe < |s| then
        var ne := NameEnd(s, oe + 1);
        if oe + 1 < ne then
          RunsFormGroup(s, o, oe, ne);
          Some(ne)
        else None
      else None
    else None
  }

  /** The runs found by the scan have the shape of group 1. */
  lemma RunsFormGroup(s: string, o: nat, oe: nat, ne: nat)
    requires o < oe < |s| && oe + 1 < ne <= |s|
    requires forall m :: o <= m < oe ==> s[m] != '/'
    requires s[oe] == '/'
    requires forall m :: oe + 1 <= m < ne ==> IsNameChar(s[m])
    ensures IsOwnerSlashName(s[o..ne])
  {
    var g := s[o..ne];
    assert g[oe - o] == '/';
    assert forall m :: 0 <= m < oe - o ==> g[m] == s[o + m];
  }

  /** `GroupDeterminesRuns`, for every end position of a match at `i`. */
  lemma PatternDeterminesRunsAll(s: string, i: nat)
    ensures forall e: nat :: PatternAt(s, i, e) ==>
      var oe := OwnerEnd(s, i + |GithubPrefix|);
      i + |GithubPrefix| < oe < |s| && oe + 1 < e && NameEnd(s, oe + 1) == e
  {
    var o := i + |GithubPrefix|;
    forall e: nat | PatternAt(s, i, e)
      ensures var oe := OwnerEnd(s, o); o < oe < |s| && oe + 1 < e && NameEnd(s, oe + 1) == e
    {
      GroupDeterminesRuns(s, o, e);
    }
  }

  /**
   * A group fixes both runs: the owner ends at the first slash from `o`,
   * and the name runs from there up to `e`.
   */
  lemma GroupDeterminesRuns(s: string, o: nat, e: nat)
    requires GroupAt(s, o, e)
    ensures var oe := OwnerEnd(s, o); o < oe < |s| && oe + 1 < e && NameEnd(s, oe + 1) == e
  {
    var g := s[o..e];
    var p :| 0 < p < |g| - 1 && g[p] == '/'
      && (forall m :: 0 <= m < p ==> g[m] != '/')
      && (forall m :: p < m < |g| ==> IsNameChar(g[m]));
    GroupRuns(s, o, e, p);
  }

  /** A group `s[o..e]` split at its slash `o + p` is the owner run and the name run of the scan. */
  lemma GroupRuns(s: string, o: nat, e: nat, p: nat)
    requires 0 < p && o + p + 1 < e <= |s|
    requires s[o..e][p] == '/'
    requires forall m :: 0 <= m < p ==> s[o..e][m] != '/'
    requires forall m :: p < m < e - o ==> IsNameChar(s[o..e][m])
    requires e == |s| || !IsNameChar(s[e])
    ensures OwnerEnd(s, o) == o + p && NameEnd(s, o + p + 1) == e
  {
    var g := s[o..e];
    forall m | o <= m < o + p ensures s[m] != '/' {
      assert s[m] == g[m - o];
    }
    assert s[o + p] == g[p];
    forall m | o + p + 1 <= m < e ensures IsNameChar(s[m]) {
      assert s[m] == g[m - o];
    }
    OwnerEndIsFirstSlash(s, o, o + p);
    NameEndIsRunEnd(s, o + p + 1, e);
  }

  /** `OwnerEnd` stops at the first slash. */
  lemma OwnerEndIsFirstSlash(s: string, j: nat, k: nat)
    requires j <= k < |s| && s[k] == '/'
    requires forall m :: j <= m < k ==> s[m] != '/'
    ensures OwnerEnd(s, j) == k
  {
  }

  /** `NameEnd` stops at the first character that is not a name character. */
  lemma NameEndIsRunEnd(s: string, j: nat, k: nat)
    requires j <= k <= |s|
    requires forall m :: j <= m < k ==> IsNameChar(s[m])
    requires k == |s| || !IsNameChar(s[k])
    ensures NameEnd(s, j) == k
  {
  }

  /** The leftmost match at or after `i`: its start and the end of group 1. */
  function FindMatch(s: string, i: nat): (r: Option<(nat, nat)>)
    requires i <= |s|
    ensures r.Some? ==> i <= r.value.0 && PatternAt(s, r.value.0, r.value.1)
    ensures r.Some? ==> forall j: nat, e: nat :: i <= j < r.value.0 ==> !PatternAt(s, j, e)
    ensures r.None? ==> forall j: nat, e: nat :: i <= j ==> !PatternAt(s, j, e)
    decreases |s| - i
  {
    match MatchAt(s, i)
    case Some(e) => Some((i, e))
    case None =>
      if i == |s| then
        assert forall j: nat :: i <= j ==> !OccursAt(GithubPrefix, s, j);
        None
      else FindMatch(s, i + 1)
  }

  /** A match contains the host name that the source tests for first. */
  lemma PatternContainsHost(s: string, i: nat, e: nat)
    requires PatternAt(s, i, e)
    ensures IsInfix(GithubHost, s)
  {
    assert s[i..i + |GithubHost|] == s[i..i + |GithubPrefix|][..|GithubHost|];
    assert OccursAt(GithubHost, s, i);
  }

  /**
   * The key of one collection URL: `match.group(1).lower()` when the URL
   * contains "github.com" and the pattern matches, None otherwise.
   */
  function RepoKey(url: string): (key: Option<string>)
    ensures key.Some? ==> IsInfix(GithubHost, url)
    ensures key.Some? <==> exists i: nat, e: nat :: PatternAt(url, i, e)
  {
    assert forall i: nat, e: nat :: PatternAt(url, i, e) ==> IsInfix(GithubHost, url) by {
      forall i: nat, e: nat | PatternAt(url, i, e) ensures IsInfix(GithubHost, url) {
        PatternContainsHost(url, i, e);
      }
    }
    if IsInfix(GithubHost, url) then
      match FindMatch(url, 0)
      case Some((i, e)) => Some(Lower(url[i + |GithubPrefix|..e]))
      case None => None
    else None
  }

  /**
   * A key is the lower-cased group of the LEFTMOST match, and it has the
   * `owner/name` shape: a non-empty slash-free owner and a non-empty name
   * free of slashes and whitespace, all lower-case.
   */
  lemma RepoKeyShape(url: string)
    requires RepoKey(url).Some?
    ensures exists i: nat, e: nat ::
      && PatternAt(url, i, e)
      && (forall j: nat, e': nat :: j < i ==> !PatternAt(url, j, e'))
      && RepoKey(url).value == Lower(url[i + |GithubPrefix|..e])
    ensures IsOwnerSlashName(RepoKey(url).value)
    ensures IsLowerCase(RepoKey(url).value)
  {
    var m := FindMatch(url, 0).value;
    var g := url[m.0 + |GithubPrefix|..m.1];
    assert RepoKey(url).value == Lower(g);
    LowerKeepsShape(g);
    LowerIsLowerCase(g);
  }

  /** Lower-casing keeps the `owner/name` shape: it maps no character to or from '/' or whitespace. */
  lemma LowerKeepsShape(g: string)
    requires IsOwnerSlashName(g)
    ensures IsOwnerSlashName(Lower(g))
  {
    var k := Lower(g);
    var p :| 0 < p < |g| - 1 && g[p] == '/'
      && (forall m :: 0 <= m < p ==> g[m] != '/')
      && (forall m :: p < m < |g| ==> IsNameChar(g[m]));
    assert k[p] == '/';
    forall m | 0 <= m < |k| && m != p ensures k[m] != '/' && (m > p ==> IsNameChar(k[m])) {
      assert k[m] == LowerChar(g[m]);
    }
  }

  /** `item.get('url', '')`. */
  function UrlOf(u: Option<string>): string {
    match u
    case Some(s) => s
    case None => ""
  }

  /** The key an item contributes, as a set of zero or one elements. */
  function ItemKeys(u: Option<string>): set<string> {
    match RepoKey(UrlOf(u))
    case Some(k) => {k}
    case None => {}
  }

  /** The union of `f(x)` over the elements of `xs`, taken left to right. */
  function UnionOf<T>(f: T -> set<string>, xs: seq<T>): set<string>
    decreases |xs|
  {
    if xs == [] then {} else UnionOf(f, xs[..|xs| - 1]) + f(xs[|xs| - 1])
  }

  /** An element is in the union iff it is in the set of some element of `xs`. */
  lemma {:induction false} UnionOfMembership<T>(f: T -> set<string>, xs: seq<T>, k: string)
    ensures k in UnionOf(f, xs) <==> exists n :: 0 <= n < |xs| && k in f(xs[n])
    decreases |xs|
  {
    if xs != [] {
      var last := |xs| - 1;
      var init := xs[..last];
      UnionOfMembership(f, init, k);
      if k in UnionOf(f, init) {
        var n :| 0 <= n < |init| && k in f(init[n]);
        assert xs[n] == init[n];
      }
      forall n | 0 <= n < last ensures init[n] == xs[n] { }
    }
  }

  /** One more element adds its set to the union. */
  lemma UnionOfSnoc<T>(f: T -> set<string>, xs: seq<T>, n: nat)
    requires n < |xs|
    ensures UnionOf(f, xs[..n + 1]) == UnionOf(f, xs[..n]) + f(xs[n])
  {
    assert xs[..n + 1][..n] == xs[..n];
  }

  /** The keys of a collection: one per item whose "url" yields one. */
  function KeysOf(urls: seq<Option<string>>): set<string> {
    UnionOf(ItemKeys, urls)
  }

  /**
   * The loop of the source over the collection's items; `urls` holds each
   * item's "url" field, None where the item has none.
   */
  method LoadExistingRepos(urls: seq<Option<string>>) returns (existing: set<string>)
    ensures existing == KeysOf(urls)
    ensures forall k :: k in existing ==> IsLowerCase(k) && IsOwnerSlashName(k)
  {
    existing := {};
    for n := 0 to |urls|
      invariant existing == KeysOf(urls[..n])
    {
      UnionOfSnoc(ItemKeys, urls, n);
      var url := UrlOf(urls[n]);
      var key := RepoKey(url);
      if key.Some? {
        existing := existing + {key.value};
      }
    }
    assert urls[..|urls|] == urls;
    KeysOfShape(urls);
  }

  /** Every key of a collection is a lower-case `owner/name`. */
  lemma KeysOfShape(urls: seq<Option<string>>)
    ensures forall k :: k in KeysOf(urls) ==> IsLowerCase(k) && IsOwnerSlashName(k)
  {
    forall k | k in KeysOf(urls) ensures IsLowerCase(k) && IsOwnerSlashName(k) {
      UnionOfMembership(ItemKeys, urls, k);
      var n :| 0 <= n < |urls| && k in ItemKeys(urls[n]);
      RepoKeyShape(UrlOf(urls[n]));
    }
  }
}
