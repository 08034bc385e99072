/** The profile analyzer page (`app/userProfileAnalyzer/page.tsx`): the input
    guard, the user-name extraction, the prompt built for the generative API,
    the repositories shown, and the reading of the API's response. */
module ProfileAnalyzer {
  import opened Wrappers
  import opened Text
  import opened GitHubUrl

  // ---------------------------------------------------------------------------
  // Starting an analysis

  /** Shown when the input is empty or only whitespace. */
  const EmptyInputError: string := "Please enter a GitHub profile URL or username"

  /** What `handleAnalyze` does before its first request. */
  datatype AnalyzeStart =
    | Rejected(error: string)   // the error is shown; nothing is fetched
    | Lookup(username: string)  // the user and their repositories are fetched

  /** The guard and extraction at the head of `handleAnalyze`: blank input is
      rejected; anything else is trimmed, and the user looked up is the group of
      the leftmost `github.com/` match in it, or the whole trimmed input when
      there is none. */
  function StartAnalysis(profileUrl: string): (r: AnalyzeStart)
    ensures r.Rejected? <==> AllWhitespace(profileUrl)
    ensures r.Rejected? ==> r.error == EmptyInputError
    ensures r.Lookup? ==> |r.username| > 0
    ensures r.Lookup? ==> (r.username == Trim(profileUrl) <==> MatchUsername(Trim(profileUrl)).None?)
    ensures r.Lookup? && r.username != Trim(profileUrl) ==>
      exists i :: LeftmostUserMatch(Trim(profileUrl), i, r.username)
  {
    var input := Trim(profileUrl);
    if input == [] then Rejected(EmptyInputError) else Lookup(ExtractUsername(input))
  }

  /** Whitespace around the input does not matter: the input is trimmed before
      the user name is extracted. */
  lemma StartAnalysisIgnoresSurroundingSpace(pre: string, s: string, post: string)
    requires AllWhitespace(pre) && AllWhitespace(post)
    ensures StartAnalysis(pre + s + post) == StartAnalysis(s)
  {
    TrimIgnoresSurroundingSpace(pre, s, post);
  }

  /** A trimmed profile URL, with any surrounding whitespace, looks up the user it
      names. */
  lemma StartAnalysisOfProfileUrl(pre: string, name: string, rest: string, post: string)
    requires AllWhitespace(pre) && AllWhitespace(post)
    requires |name| > 0 && SlashFree(name)
    requires rest == [] || rest[0] == '/'
    requires IsTrimmed(name + rest)
    ensures StartAnalysis(pre + (WebPrefix + name + rest) + post) == Lookup(name)
  {
    var url := WebPrefix + name + rest;
    assert url == WebPrefix + (name + rest);
    IsTrimmedPrepend(WebPrefix, name + rest);
    StartAnalysisIgnoresSurroundingSpace(pre, url, post);
    TrimOfTrimmed(url);
    ExtractUsernameOfProfileUrl(name, rest);
  }

  /** A bare user name, with any surrounding whitespace, is looked up as it is. */
  lemma StartAnalysisOfName(pre: string, name: string, post: string)
    requires AllWhitespace(pre) && AllWhitespace(post)
    requires |name| > 0 && SlashFree(name) && IsTrimmed(name)
    ensures StartAnalysis(pre + name + post) == Lookup(name)
  {
    StartAnalysisIgnoresSurroundingSpace(pre, name, post);
    TrimOfTrimmed(name);
    ExtractUsernameOfName(name);
  }

  // ---------------------------------------------------------------------------
  // The data the page works with

  /** The fields of the GitHub user object the page reads. Optional strings are
      the ones GitHub may send as `null`. */
  datatype GitHubUser = GitHubUser(
    login: string,
    name: Option<string>,
    bio: Option<string>,
    location: Option<string>,
    company: Option<string>,
    followers: nat,
    following: nat,
    publicRepos: nat,
    createdAt: string)

  /** The fields of a GitHub repository object the page reads. */
  datatype GitHubRepo = GitHubRepo(
    name: string,
    description: Option<string>,
    stars: nat,
    forks: nat,
    language: Option<string>,
    updatedAt: string)

  /** JavaScript's `s || fallback` on an optional string: the fallback replaces
      both a missing and an empty string. */
  function OrElse(s: Option<string>, fallback: string): (r: string)
    ensures r == fallback || (s == Some(r) && r != [])
    ensures (s.Some? && s.value != []) ==> r == s.value
  {
    if s.Some? && s.value != [] then s.value else fallback
  }

  /** JavaScript's `s.slice(0, n)`: the first `n` elements, or all of them. */
  function Take<T>(s: seq<T>, n: nat): (r: seq<T>)
    ensures |r| == if |s| < n then |s| else n
    ensures forall k :: 0 <= k < |r| ==> r[k] == s[k]
  {
    if |s| <= n then s else s[..n]
  }

  /** How many repositories the prompt describes, and how many the page shows. */
  const PromptRepoLimit: nat := 10
  const DisplayRepoLimit: nat := 6

  /** The repositories shown under "Top Repositories": the first six, in order. */
  function DisplayRepos(repos: seq<GitHubRepo>): (r: seq<GitHubRepo>)
    ensures |r| <= DisplayRepoLimit && |r| <= |repos|
    ensures |r| == DisplayRepoLimit || r == repos
    ensures forall k :: 0 <= k < |r| ==> r[k] == repos[k]
  {
    Take(repos, DisplayRepoLimit)
  }

  // ---------------------------------------------------------------------------
  // The prompt

  /** The lines of one repository's entry in the prompt. `localeDate` stands for
      `new Date(d).toLocaleDateString()`, which depends on the browser's locale. */
  function RepoLines(repo: GitHubRepo, localeDate: string -> string): seq<string> {
    [ "- " + repo.name + ": " + OrElse(repo.description, "No description"),
      "  Language: " + OrElse(repo.language, "Not specified"),
      "  Stars: " + Decimal(repo.stars),
      "  Forks: " + Decimal(repo.forks),
      "  Last Updated: " + localeDate(repo.updatedAt) ]
  }

  /** One repository's entry in the prompt: its lines, each after a newline, and
      a final newline. */
  function RepoEntry(repo: GitHubRepo, localeDate: string -> string): string {
    Lined(RepoLines(repo, localeDate)) + "\n"
  }

  /** Each field of a repository has a line of its own in the repository's entry,
      with the page's fallbacks for a missing description or language; the entry
      ends with a newline. */
  lemma RepoEntryLines(repo: GitHubRepo, localeDate: string -> string)
    ensures var r := RepoEntry(repo, localeDate);
      && HasLine(r, "- " + repo.name + ": " + OrElse(repo.description, "No description"))
      && HasLine(r, "  Language: " + OrElse(repo.language, "Not specified"))
      && HasLine(r, "  Stars: " + Decimal(repo.stars))
      && HasLine(r, "  Forks: " + Decimal(repo.forks))
      && HasLine(r, "  Last Updated: " + localeDate(repo.updatedAt))
      && EndsWithNewline(r)
  {
    var lines := RepoLines(repo, localeDate);
    LinedHasLine("", lines, "\n", 0);
    LinedHasLine("", lines, "\n", 1);
    LinedHasLine("", lines, "\n", 2);
    LinedHasLine("", lines, "\n", 3);
    LinedHasLine("", lines, "\n", 4);
    assert "" + Lined(lines) == Lined(lines);
  }

  /** The entries of `repos`, one per repository, in list order. */
  function RepoEntries(repos: seq<GitHubRepo>, localeDate: string -> string): (r: seq<string>)
    ensures |r| == |repos|
    ensures forall k :: 0 <= k < |r| ==> r[k] == RepoEntry(repos[k], localeDate)
  {
    seq(|repos|, k requires 0 <= k < |repos| => RepoEntry(repos[k], localeDate))
  }

  /** The lines of the user profile in the prompt. */
  function ProfileLines(user: GitHubUser, localeDate: string -> string): seq<string> {
    [ "- Name: " + OrElse(user.name, user.login),
      "- Bio: " + OrElse(user.bio, "No bio provided"),
      "- Location: " + OrElse(user.location, "Not specified"),
      "- Company: " + OrElse(user.company, "Not specified"),
      "- Followers: " + Decimal(user.followers),
      "- Following: " + Decimal(user.following),
      "- Public Repositories: " + Decimal(user.publicRepos),
      "- Account Created: " + localeDate(user.createdAt) ]
  }

  /** The opening request, up to the profile lines. */
  const PromptIntro: string := "Analyze this GitHub profile and provide comprehensive insights:\n\nUser Profile:"

  /** The heading of the repository list, after the profile lines. */
  const RepoHeading: string := "\n\nTop Repositories:\n"

  /** The profile part of the prompt, up to the repository list: the intro, the
      profile lines, the repository heading. */
  function PromptHead(user: GitHubUser, localeDate: string -> string): string {
    PromptIntro + Lined(ProfileLines(user, localeDate)) + RepoHeading
  }

  /** The profile part of the prompt opens with the intro, holds every profile
      field on a line of its own, with the page's fallbacks for missing ones, and
      ends with the repository heading. */
  lemma PromptHeadLines(user: GitHubUser, localeDate: string -> string)
    ensures var r := PromptHead(user, localeDate);
      && PromptIntro <= r
      && HasLine(r, "- Name: " + OrElse(user.name, user.login))
      && HasLine(r, "- Bio: " + OrElse(user.bio, "No bio provided"))
      && HasLine(r, "- Location: " + OrElse(user.location, "Not specified"))
      && HasLine(r, "- Company: " + OrElse(user.company, "Not specified"))
      && HasLine(r, "- Followers: " + Decimal(user.followers))
      && HasLine(r, "- Following: " + Decimal(user.following))
      && HasLine(r, "- Public Repositories: " + Decimal(user.publicRepos))
      && HasLine(r, "- Account Created: " + localeDate(user.createdAt))
      && |r| >= |RepoHeading| && r[|r| - |RepoHeading|..] == RepoHeading
  {
    var lines := ProfileLines(user, localeDate);
    assert RepoHeading[0] == '\n';
    LinedHasLine(PromptIntro, lines, RepoHeading, 0);
    LinedHasLine(PromptIntro, lines, RepoHeading, 1);
    LinedHasLine(PromptIntro, lines, RepoHeading, 2);
    LinedHasLine(PromptIntro, lines, RepoHeading, 3);
    LinedHasLine(PromptIntro, lines, RepoHeading, 4);
    LinedHasLine(PromptIntro, lines, RepoHeading, 5);
    LinedHasLine(PromptIntro, lines, RepoHeading, 6);
    LinedHasLine(PromptIntro, lines, RepoHeading, 7);
  }

  /** The fixed request that follows the repository list. */
  const PromptTail: string :=
    "\n\nPlease provide:\n"
    + "1. Developer Profile Summary\n"
    + "2. Technical Skills Assessment (based on repository languages and projects)\n"
    + "3. Activity and Engagement Analysis\n"
    + "4. Project Quality and Impact Assessment\n"
    + "5. Areas of Expertise\n"
    + "6. Collaboration and Community Involvement\n"
    + "7. Recommendations for Growth\n"
    + "\nMake the analysis detailed, professional, and actionable."

  /** The repository section of the prompt: the entries of the first ten
      repositories, joined. */
  function PromptRepoSection(repos: seq<GitHubRepo>, localeDate: string -> string): string {
    Concat(RepoEntries(Take(repos, PromptRepoLimit), localeDate))
  }

  /** `text` holds the entry of repository `k` of `repos` where a repository
      section starting at `at` has it: right after the entries before it. */
  predicate EntryListedAt(text: string, at: nat, repos: seq<GitHubRepo>, localeDate: string -> string, k: nat)
    requires k < |repos|
  {
    OccursAt(RepoEntry(repos[k], localeDate), text, at + |Concat(RepoEntries(repos[..k], localeDate))|)
  }

  /** The prompt `analyzeWithGemini` sends: the profile, then the entries of the
      first ten repositories in list order, then the fixed request. */
  function Prompt(user: GitHubUser, repos: seq<GitHubRepo>, localeDate: string -> string): (r: string)
    ensures PromptHead(user, localeDate) <= r
    ensures forall k: nat :: k < |repos| && k < PromptRepoLimit ==>
      EntryListedAt(r, |PromptHead(user, localeDate)|, repos, localeDate, k)
    ensures |r| >= |PromptTail| && r[|r| - |PromptTail|..] == PromptTail
    ensures |r| == |PromptHead(user, localeDate)| + |PromptRepoSection(repos, localeDate)| + |PromptTail|
  {
    var head := PromptHead(user, localeDate);
    PromptListsAll(head, repos, PromptTail, localeDate);
    head + PromptRepoSection(repos, localeDate) + PromptTail
  }

  /** `PromptListsRepo` for all of the first ten repositories at once. */
  lemma PromptListsAll(head: string, repos: seq<GitHubRepo>, tail: string, localeDate: string -> string)
    ensures forall k: nat :: k < |repos| && k < PromptRepoLimit ==>
      EntryListedAt(head + PromptRepoSection(repos, localeDate) + tail, |head|, repos, localeDate, k)
  {
    forall k: nat | k < |repos| && k < PromptRepoLimit
      ensures EntryListedAt(head + PromptRepoSection(repos, localeDate) + tail, |head|, repos, localeDate, k)
    {
      PromptListsRepo(head, repos, tail, localeDate, k);
    }
  }

  /** Repositories after the tenth never reach the prompt. */
  lemma PromptIgnoresLaterRepos(user: GitHubUser, repos: seq<GitHubRepo>, more: seq<GitHubRepo>, localeDate: string -> string)
    requires |repos| >= PromptRepoLimit
    ensures Prompt(user, repos + more, localeDate) == Prompt(user, repos, localeDate)
  {
    assert Take(repos + more, PromptRepoLimit) == Take(repos, PromptRepoLimit);
  }

  /** Each of the first ten repositories has its entry in the repository section
      of the prompt, in list order: entry `k` starts right after the entries of
      the repositories before it, whatever text surrounds the section. The proof
      is direct; automatic induction is off because the hypotheses Dafny would
      add over `repos` only slow it down. */
  lemma {:induction false} PromptListsRepo(head: string, repos: seq<GitHubRepo>, tail: string, localeDate: string -> string, k: nat)
    requires k < |repos| && k < PromptRepoLimit
    ensures OccursAt(RepoEntry(repos[k], localeDate), head + PromptRepoSection(repos, localeDate) + tail,
                     |head| + |Concat(RepoEntries(repos[..k], localeDate))|)
  {
    var entries := RepoEntries(Take(repos, PromptRepoLimit), localeDate);
    EntriesOfFirst(repos, PromptRepoLimit, localeDate, k);
    ConcatPart(entries, k);
    OccursWithin(entries[k], Concat(entries), |Concat(entries[..k])|, head, tail);
  }

  /** Entry `k` of the first `n` repositories, and the entries before it. */
  lemma EntriesOfFirst(repos: seq<GitHubRepo>, n: nat, localeDate: string -> string, k: nat)
    requires k < |repos| && k < n
    ensures var entries := RepoEntries(Take(repos, n), localeDate);
      && k < |entries|
      && entries[k] == RepoEntry(repos[k], localeDate)
      && entries[..k] == RepoEntries(repos[..k], localeDate)
  {
    var entries := RepoEntries(Take(repos, n), localeDate);
    assert entries[..k] == RepoEntries(repos[..k], localeDate);
  }

  // ---------------------------------------------------------------------------
  // The generative API's response

  /** The parts of the response body the page reads; each optional field is one
      whose presence the page tests or relies on. */
  datatype Part = Part(text: Option<string>)
  datatype Content = Content(parts: Option<seq<Part>>)
  datatype Candidate = Candidate(content: Option<Content>)
  datatype GeminiResponse = GeminiResponse(candidates: Option<seq<Candidate>>)

  /** Why no text could be read from a response. */
  datatype ResponseError =
    | UnexpectedFormat  // the explicit check failed: its message is `UnexpectedFormatError`
    | NoFirstPart       // `content.parts[0]` does not exist: a TypeError is raised

  const UnexpectedFormatError: string := "Unexpected response format from Gemini API"

  /** The candidate check of `analyzeWithGemini`: `candidates`, `candidates[0]` and
      its `content` must all be present. */
  predicate HasFirstContent(data: GeminiResponse) {
    data.candidates.Some? && |data.candidates.value| > 0 && data.candidates.value[0].content.Some?
  }

  /** Beyond the candidate check, `content.parts[0]` exists. */
  predicate HasFirstPart(data: GeminiResponse) {
    && HasFirstContent(data)
    && var c := data.candidates.value[0].content.value;
       c.parts.Some? && |c.parts.value| > 0
  }

  /** `data.candidates[0].content.parts[0].text` behind the candidate check. The
      text itself may be absent, in which case `undefined` is returned. */
  function ResponseText(data: GeminiResponse): (r: Result<Option<string>, ResponseError>)
    ensures r == Failure(UnexpectedFormat) <==> !HasFirstContent(data)
    ensures r == Failure(NoFirstPart) <==> HasFirstContent(data) && !HasFirstPart(data)
    ensures r.Success? <==> HasFirstPart(data)
    ensures r.Success? ==> r.value == data.candidates.value[0].content.value.parts.value[0].text
  {
    if !HasFirstContent(data) then Failure(UnexpectedFormat)
    else
      var content := data.candidates.value[0].content.value;
      if content.parts.None? || |content.parts.value| == 0 then Failure(NoFirstPart)
      else Success(content.parts.value[0].text)
  }

  /** Extra candidates and extra parts are ignored: only the first of each is read. */
  lemma ResponseTextReadsFirstOnly(data: GeminiResponse, moreCandidates: seq<Candidate>, moreParts: seq<Part>)
    requires HasFirstPart(data)
    ensures var c := data.candidates.value[0].content.value;
      var c' := Content(Some(c.parts.value + moreParts));
      var data' := GeminiResponse(Some([Candidate(Some(c'))] + data.candidates.value[1..] + moreCandidates));
      ResponseText(data') == ResponseText(data)
  {
    var c := data.candidates.value[0].content.value;
    assert (c.parts.value + moreParts)[0] == c.parts.value[0];
  }
}
