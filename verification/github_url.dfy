/** The two regex-driven GitHub URL parsers of the pages.

    The profile analyzer matches `/github\.com\/([^/]+)/` and keeps group 1; the
    repository stats page matches `/github\.com\/([^/]+)\/([^/]+)/` and keeps
    groups 1 and 2. Neither pattern is anchored or global, so `String.match`
    returns the match that starts leftmost, and each `[^/]+` is greedy.

    Each parser is given twice: as a search over start positions (`FirstUserMatch`,
    `FirstRepoMatch`) and as the regex's meaning stated declaratively
    (`LeftmostUserMatch`, `LeftmostRepoMatch`), with lemmas proving the two agree. */
module GitHubUrl {
  import opened Wrappers
  import opened Text

  /** The literal `github\.com\/` that starts both patterns. */
  const Host: string := "github.com/"

  /** `Host` occurs in `url` at index `i`. */
  predicate HostAt(url: string, i: int) {
    0 <= i && i + |Host| <= |url| && url[i..i + |Host|] == Host
  }

  /** A `/`-free string never contains `Host`, whose last character is `/`. */
  lemma SlashFreeHasNoHost(s: string, i: int)
    requires SlashFree(s)
    ensures !HostAt(s, i)
  {
    if 0 <= i && i + |Host| <= |s| {
      assert s[i..i + |Host|][10] == s[i + 10];
    }
  }

  // ---------------------------------------------------------------------------
  // Profile analyzer: /github\.com\/([^/]+)/

  /** The user pattern can match at `i`: `Host` there, followed by one non-`/`. */
  predicate UserMatchAt(url: string, i: int) {
    HostAt(url, i) && i + |Host| < |url| && url[i + |Host|] != '/'
  }

  /** Regex semantics of a user match at `i` with group `u`: `u` follows `Host`,
      is non-empty and `/`-free, and is greedy (a `/` or the end follows it). */
  ghost predicate UserGroupAt(url: string, i: int, u: string) {
    && HostAt(url, i)
    && |u| > 0
    && SlashFree(u)
    && i + |Host| + |u| <= |url|
    && url[i + |Host|..i + |Host| + |u|] == u
    && (i + |Host| + |u| == |url| || url[i + |Host| + |u|] == '/')
  }

  /** The match `String.match` reports: a user match at `i` with group `u`, and
      no match of any kind starting further left. */
  ghost predicate LeftmostUserMatch(url: string, i: int, u: string) {
    UserGroupAt(url, i, u) && forall j, v :: 0 <= j < i ==> !UserGroupAt(url, j, v)
  }

  /** The leftmost start position at or after `from` where the user pattern matches. */
  function FirstUserMatch(url: string, from: nat): (r: Option<nat>)
    requires from <= |url|
    ensures r.Some? ==> from <= r.value && UserMatchAt(url, r.value)
    ensures r.Some? ==> forall j :: from <= j < r.value ==> !UserMatchAt(url, j)
    ensures r.None? ==> forall j :: from <= j ==> !UserMatchAt(url, j)
    decreases |url| - from
  {
    if UserMatchAt(url, from) then Some(from)
    else if from == |url| then None
    else FirstUserMatch(url, from + 1)
  }

  /** The group `[^/]+` captures at a user match. */
  function UserGroup(url: string, i: nat): (u: string)
    requires UserMatchAt(url, i)
    ensures UserGroupAt(url, i, u)
  {
    var a := i + |Host|;
    var e := SegmentEnd(url, a);
    SlashFreeSlice(url, a, e);
    url[a..e]
  }

  /** A user group, when there is one at `i`, is the one `UserGroup` computes. */
  lemma UserGroupUnique(url: string, i: int, u: string)
    ensures UserGroupAt(url, i, u) ==> UserMatchAt(url, i) && u == UserGroup(url, i)
  {
    if UserGroupAt(url, i, u) {
      assert url[i + |Host|] == u[0];
      SegmentUnique(url, i + |Host|, u);
    }
  }

  /** `url.match(/github\.com\/([^/]+)/)?.[1]`. */
  function MatchUsername(url: string): (r: Option<string>)
    ensures r.Some? ==> |r.value| > 0 && SlashFree(r.value)
    ensures r.None? <==> forall i :: !UserMatchAt(url, i)
  {
    match FirstUserMatch(url, 0)
    case None => None
    case Some(i) => Some(UserGroup(url, i))
  }

  /** `MatchUsername` finds exactly the match the regex semantics describes. */
  lemma MatchUsernameIsLeftmost(url: string, u: string)
    ensures MatchUsername(url) == Some(u) <==> exists i :: LeftmostUserMatch(url, i, u)
  {
    var first := FirstUserMatch(url, 0);
    if MatchUsername(url) == Some(u) {
      var i := first.value;
      forall j, v | 0 <= j < i ensures !UserGroupAt(url, j, v) {
        UserGroupUnique(url, j, v);
      }
      assert LeftmostUserMatch(url, i, u);
    }
    if i :| LeftmostUserMatch(url, i, u) {
      UserGroupUnique(url, i, u);
      var p := first.value;
      var g := UserGroup(url, p);
      assert UserGroupAt(url, p, g);
      assert p == i;
    }
  }

  /** No user match anywhere, in the regex's sense, exactly when `MatchUsername` fails. */
  lemma MatchUsernameNone(url: string)
    ensures MatchUsername(url).None? <==> forall i, u :: !UserGroupAt(url, i, u)
  {
    forall i, u ensures UserGroupAt(url, i, u) ==> UserMatchAt(url, i) {
      UserGroupUnique(url, i, u);
    }
    if MatchUsername(url).Some? {
      var i := FirstUserMatch(url, 0).value;
      assert UserGroupAt(url, i, UserGroup(url, i));
    }
  }

  /** `extractUsername`: the captured group when the pattern matches, the input
      unchanged when it does not. */
  function ExtractUsername(url: string): (r: string)
    ensures r == url <==> MatchUsername(url).None?
    ensures r != url ==> |r| > 0 && SlashFree(r) && exists i :: LeftmostUserMatch(url, i, r)
  {
    match MatchUsername(url)
    case None => url
    case Some(u) =>
      var i := FirstUserMatch(url, 0).value;
      assert |u| < |url| by { assert UserGroupAt(url, i, u); }
      MatchUsernameIsLeftmost(url, u);
      u
  }

  /** Extracting again changes nothing: a matched name is `/`-free, so it cannot
      contain `github.com/`, and an unmatched input is returned as it is. */
  lemma ExtractUsernameIdempotent(url: string)
    ensures ExtractUsername(ExtractUsername(url)) == ExtractUsername(url)
  {
    var r := ExtractUsername(url);
    if r != url {
      forall i ensures !UserMatchAt(r, i) { SlashFreeHasNoHost(r, i); }
    }
  }

  /** A bare `/`-free user name is passed through unchanged. */
  lemma ExtractUsernameOfName(name: string)
    requires SlashFree(name)
    ensures ExtractUsername(name) == name
  {
    forall i ensures !UserMatchAt(name, i) { SlashFreeHasNoHost(name, i); }
  }

  /** The scheme and host prefix of a canonical profile or repository URL. */
  const WebPrefix: string := "https://github.com/"

  /** In a string that starts with `WebPrefix`, no `Host` starts before index 8. */
  lemma NoHostInScheme(url: string, j: int)
    requires |url| >= |WebPrefix| && url[..|WebPrefix|] == WebPrefix
    requires j < 8
    ensures !HostAt(url, j)
  {
    if 0 <= j && j + |Host| <= |url| {
      assert url[j..j + |Host|][0] == url[j] == WebPrefix[j];
    }
  }

  /** A profile URL yields its user name, whatever path follows it: for example
      `https://github.com/octocat/repo` yields `octocat`. */
  lemma ExtractUsernameOfProfileUrl(name: string, rest: string)
    requires |name| > 0 && SlashFree(name)
    requires rest == [] || rest[0] == '/'
    ensures ExtractUsername(WebPrefix + name + rest) == name
  {
    var url := WebPrefix + name + rest;
    assert url[..|WebPrefix|] == WebPrefix;
    assert url[8..19] == Host;
    assert url[19..19 + |name|] == name;
    assert UserGroupAt(url, 8, name);
    forall j, v | 0 <= j < 8 ensures !UserGroupAt(url, j, v) {
      NoHostInScheme(url, j);
    }
    assert LeftmostUserMatch(url, 8, name);
    MatchUsernameIsLeftmost(url, name);
    assert MatchUsername(url) == Some(name);
  }

  // ---------------------------------------------------------------------------
  // Repository stats: /github\.com\/([^/]+)\/([^/]+)/

  /** The owner and repository named by a repository URL. */
  datatype RepoRef = RepoRef(owner: string, repo: string)

  /** Both segments are what a `[^/]+` group can capture. */
  predicate ValidRef(ref: RepoRef) {
    |ref.owner| > 0 && SlashFree(ref.owner) && |ref.repo| > 0 && SlashFree(ref.repo)
  }

  /** The error thrown when the repository pattern does not match. */
  const InvalidUrlError: string := "Invalid GitHub URL"

  /** The repository pattern can match at `i`. The first `[^/]+` must be followed by
      `/`, so it can only be the whole `/`-free run after `Host`; the second needs
      one non-`/` after that `/`. */
  predicate RepoMatchAt(url: string, i: int) {
    && HostAt(url, i)
    && var a := i + |Host|;
       var e := SegmentEnd(url, a);
       a < e && e + 1 < |url| && url[e + 1] != '/'
  }

  /** Regex semantics of a repository match at `i` with groups `ref`: `Host`,
      the owner, a `/` and the repo, the repo greedy (a `/` or the end follows it). */
  ghost predicate RepoGroupsAt(url: string, i: int, ref: RepoRef) {
    var a := i + |Host|;
    var e := a + |ref.owner|;
    var f := e + 1 + |ref.repo|;
    && ValidRef(ref)
    && HostAt(url, i)
    && f <= |url|
    && url[a..e] == ref.owner
    && url[e] == '/'
    && url[e + 1..f] == ref.repo
    && (f == |url| || url[f] == '/')
  }

  /** A repository match spells out `github.com/{owner}/{repo}` contiguously in the URL. */
  lemma RepoGroupsSpan(url: string, i: int, ref: RepoRef)
    requires RepoGroupsAt(url, i, ref)
    ensures var n := |Host| + |ref.owner| + 1 + |ref.repo|;
      url[i..i + n] == Host + ref.owner + "/" + ref.repo
  {
    var a := i + |Host|;
    var e := a + |ref.owner|;
    var f := e + 1 + |ref.repo|;
    assert url[i..f] == url[i..a] + url[a..e] + [url[e]] + url[e + 1..f];
  }

  /** The match `String.match` reports for the repository pattern. */
  ghost predicate LeftmostRepoMatch(url: string, i: int, ref: RepoRef) {
    RepoGroupsAt(url, i, ref) && forall j, r :: 0 <= j < i ==> !RepoGroupsAt(url, j, r)
  }

  /** The leftmost start position at or after `from` where the repository pattern matches. */
  function FirstRepoMatch(url: string, from: nat): (r: Option<nat>)
    requires from <= |url|
    ensures r.Some? ==> from <= r.value && RepoMatchAt(url, r.value)
    ensures r.Some? ==> forall j :: from <= j < r.value ==> !RepoMatchAt(url, j)
    ensures r.None? ==> forall j :: from <= j ==> !RepoMatchAt(url, j)
    decreases |url| - from
  {
    if RepoMatchAt(url, from) then Some(from)
    else if from == |url| then None
    else FirstRepoMatch(url, from + 1)
  }

  /** Groups 1 and 2 of a repository match at `i`. */
  function RepoGroups(url: string, i: nat): (ref: RepoRef)
    requires RepoMatchAt(url, i)
    ensures RepoGroupsAt(url, i, ref)
  {
    var a := i + |Host|;
    var e := SegmentEnd(url, a);
    var f := SegmentEnd(url, e + 1);
    var ref := RepoRef(url[a..e], url[e + 1..f]);
    SlashFreeSlice(url, a, e);
    SlashFreeSlice(url, e + 1, f);
    assert |ref.owner| > 0 && |ref.repo| > 0;
    assert e == a + |ref.owner| && f == e + 1 + |ref.repo|;
    assert url[e] == '/';
    ref
  }

  /** Repository groups, when there are any at `i`, are the ones `RepoGroups` computes. */
  lemma RepoGroupsUnique(url: string, i: int, ref: RepoRef)
    ensures RepoGroupsAt(url, i, ref) ==> RepoMatchAt(url, i) && ref == RepoGroups(url, i)
  {
    if RepoGroupsAt(url, i, ref) {
      var a := i + |Host|;
      var e := a + |ref.owner|;
      assert url[a] == ref.owner[0];
      assert url[e + 1] == ref.repo[0];
      SegmentUnique(url, a, ref.owner);
      SegmentUnique(url, e + 1, ref.repo);
    }
  }

  /** The owner/repo extraction of `fetchRepoStats`: the two groups, or the
      "Invalid GitHub URL" error when the pattern does not match. */
  function ParseRepoUrl(url: string): (r: Result<RepoRef, string>)
    ensures r.Success? ==> ValidRef(r.value)
    ensures r.Failure? <==> forall i :: !RepoMatchAt(url, i)
    ensures r.Failure? ==> r.error == InvalidUrlError
  {
    match FirstRepoMatch(url, 0)
    case None => Failure(InvalidUrlError)
    case Some(i) => Success(RepoGroups(url, i))
  }

  /** `ParseRepoUrl` finds exactly the match the regex semantics describes. */
  lemma ParseRepoUrlIsLeftmost(url: string, ref: RepoRef)
    ensures ParseRepoUrl(url) == Success(ref) <==> exists i :: LeftmostRepoMatch(url, i, ref)
  {
    var first := FirstRepoMatch(url, 0);
    if ParseRepoUrl(url) == Success(ref) {
      var i := first.value;
      forall j, r | 0 <= j < i ensures !RepoGroupsAt(url, j, r) {
        RepoGroupsUnique(url, j, r);
      }
      assert LeftmostRepoMatch(url, i, ref);
    }
    if i :| LeftmostRepoMatch(url, i, ref) {
      RepoGroupsUnique(url, i, ref);
      var p := first.value;
      var g := RepoGroups(url, p);
      assert RepoGroupsAt(url, p, g);
      assert p == i;
    }
  }

  /** No repository match anywhere, in the regex's sense, exactly when parsing fails. */
  lemma ParseRepoUrlFailure(url: string)
    ensures ParseRepoUrl(url).Failure? <==> forall i, ref :: !RepoGroupsAt(url, i, ref)
  {
    forall i, ref ensures RepoGroupsAt(url, i, ref) ==> RepoMatchAt(url, i) {
      RepoGroupsUnique(url, i, ref);
    }
    if ParseRepoUrl(url).Success? {
      var i := FirstRepoMatch(url, 0).value;
      assert RepoGroupsAt(url, i, RepoGroups(url, i));
    }
  }

  /** A repository URL yields its owner and name, whatever path follows: for
      example `https://github.com/o/r/tree/main` yields owner `o` and repo `r`. */
  lemma ParseRepoUrlOfRepoUrl(ref: RepoRef, rest: string)
    requires ValidRef(ref)
    requires rest == [] || rest[0] == '/'
    ensures ParseRepoUrl(WebPrefix + ref.owner + "/" + ref.repo + rest) == Success(ref)
  {
    var url := WebPrefix + ref.owner + "/" + ref.repo + rest;
    var e := 19 + |ref.owner|;
    assert url[..|WebPrefix|] == WebPrefix;
    assert url[8..19] == Host;
    assert url[19..e] == ref.owner;
    assert url[e + 1..e + 1 + |ref.repo|] == ref.repo;
    assert RepoGroupsAt(url, 8, ref);
    forall j, r | 0 <= j < 8 ensures !RepoGroupsAt(url, j, r) {
      NoHostInScheme(url, j);
    }
    assert LeftmostRepoMatch(url, 8, ref);
    ParseRepoUrlIsLeftmost(url, ref);
  }
}
