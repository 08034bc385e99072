/** The repository stats page (`app/stats/page.tsx`): what pressing "Analyze" does
    with the typed URL before the request is sent. */
module RepoStats {
  import opened Wrappers
  import opened Text
  import opened GitHubUrl

  /** The base of every REST request the pages send. */
  const ApiBase: string := "https://api.github.com/"

  /** The REST endpoint of repositories. */
  const ReposEndpoint: string := ApiBase + "repos/"

  /** The address `https://api.github.com/repos/{owner}/{repo}` of a repository. */
  function RequestUrl(ref: RepoRef): string {
    ReposEndpoint + ref.owner + "/" + ref.repo
  }

  /** Reads a request address back into the owner and repository it names: the
      inverse of `RequestUrl` on valid references. */
  function SplitRequestUrl(url: string): (r: Option<RepoRef>)
    ensures r.Some? ==> ValidRef(r.value) && RequestUrl(r.value) == url
  {
    var n := |ReposEndpoint|;
    if |url| < n || url[..n] != ReposEndpoint then None
    else
      var rest := url[n..];
      var e := SegmentEnd(rest, 0);
      if e == |rest| then None
      else
        var ref := RepoRef(rest[..e], rest[e + 1..]);
        assert forall k :: 0 <= k < e ==> rest[..e][k] == rest[k];
        assert url == url[..n] + rest[..e] + [rest[e]] + rest[e + 1..];
        if ValidRef(ref) then Some(ref) else None
  }

  /** A valid reference survives the trip through its request address. */
  lemma RequestUrlRoundTrip(ref: RepoRef)
    requires ValidRef(ref)
    ensures SplitRequestUrl(RequestUrl(ref)) == Some(ref)
  {
    var url := RequestUrl(ref);
    var rest := url[|ReposEndpoint|..];
    assert rest == ref.owner + "/" + ref.repo;
    assert rest[|ref.owner|] == '/';
    assert rest[..|ref.owner|] == ref.owner;
    SegmentUnique(rest, 0, ref.owner);
    assert rest[|ref.owner| + 1..] == ref.repo;
  }

  /** What one press of "Analyze" leads to before any network traffic. */
  datatype StatsAction =
    | Ignored                  // the URL field is empty: return at once, nothing changes
    | Rejected(error: string)  // the pattern does not match: the error is thrown and reported
    | Request(url: string)     // GET url

  /** `fetchRepoStats` up to the `fetch` call. The guard is `!repoUrl`, so only the
      empty string is ignored; a blank but non-empty URL goes on to the pattern. */
  function FetchRepoStats(repoUrl: string): (r: StatsAction)
    ensures r.Ignored? <==> repoUrl == []
    ensures r.Rejected? <==> repoUrl != [] && forall i :: !RepoMatchAt(repoUrl, i)
    ensures r.Rejected? ==> r.error == InvalidUrlError
    ensures r.Request? ==>
      && SplitRequestUrl(r.url).Some?
      && exists i :: LeftmostRepoMatch(repoUrl, i, SplitRequestUrl(r.url).value)
  {
    if repoUrl == [] then Ignored
    else
      match ParseRepoUrl(repoUrl)
      case Failure(e) => Rejected(e)
      case Success(ref) =>
        RequestUrlRoundTrip(ref);
        ParseRepoUrlIsLeftmost(repoUrl, ref);
        Request(RequestUrl(ref))
  }

  /** The request for a repository URL goes to that repository, whatever path
      follows it: `https://github.com/o/r/tree/main` requests `https://api.github.com/repos/o/r`. */
  lemma FetchRepoStatsOfRepoUrl(ref: RepoRef, rest: string)
    requires ValidRef(ref)
    requires rest == [] || rest[0] == '/'
    ensures FetchRepoStats(WebPrefix + ref.owner + "/" + ref.repo + rest) == Request(RequestUrl(ref))
  {
    ParseRepoUrlOfRepoUrl(ref, rest);
  }
}
