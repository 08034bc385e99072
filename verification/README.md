# Gitlytics core, modelled in Dafny

Gitlytics is a browser dashboard for GitHub. Its pages parse a URL the user
pastes, call the GitHub REST API, optionally send a prompt to the Gemini
generative API, and render the results. Almost all of the code is React view
code. This project models the pure logic inside three of the pages and proves
properties of it:

- **Profile analyzer** (`app/userProfileAnalyzer/page.tsx`):
  - `extractUsername`, the regex `/github\.com\/([^/]+)/` with a fall-back to the raw input;
  - the blank-input guard and the `trim` in `handleAnalyze`;
  - the prompt, which lists the first ten repositories;
  - the six repositories shown on the page;
  - reading the generated text out of the Gemini response.
- **Repository stats** (`app/stats/page.tsx`): the empty-input guard, the
  owner/repo regex `/github\.com\/([^/]+)\/([^/]+)/` with its
  "Invalid GitHub URL" error, and the `https://api.github.com/repos/{owner}/{repo}`
  request address.
- **README generator** (`app/readme-generator/page.tsx`): the fixed template
  with the repository name substituted, and its empty-name guard.

Modules, one per file:

- `Wrappers`: `Option` and `Result`.
- `Text`: JavaScript `trim` over the ECMAScript whitespace set, maximal
  `/`-free segments, decimal rendering of numbers, and joining a list of strings.
- `GitHubUrl`: the two regex parsers.
- `ProfileAnalyzer`, `RepoStats` and `ReadmeGenerator`: one module per page.

Each regex is modelled twice. The first model is an executable search over
start positions. The second is the regex's meaning, stated declaratively: the
leftmost start at which the whole pattern matches, with greedy groups. The
lemmas prove that both models give the same result.

For the two-group pattern, group 1 must be followed by `/`. So it can only be
the whole `/`-free run after `github.com/`, and no backtracking is needed.
"Leftmost" means the leftmost place where the whole pattern matches. That is
not always the leftmost `github.com/`.

## Model

| member | source | states |
|---|---|---|
| GitHubUrl.FirstUserMatch | app/userProfileAnalyzer/page.tsx:45 | The user pattern matches at the returned index and at no earlier index; `None` means it matches nowhere. |
| GitHubUrl.MatchUsername | app/userProfileAnalyzer/page.tsx:45 | A captured name is non-empty and `/`-free. There is no capture exactly when the pattern matches at no position. |
| GitHubUrl.MatchUsernameIsLeftmost | app/userProfileAnalyzer/page.tsx:45 | The capture is `u` exactly when the leftmost regex match has group `u`. That group is the maximal `/`-free run right after `github.com/`, and later path segments are ignored. |
| GitHubUrl.MatchUsernameNone | app/userProfileAnalyzer/page.tsx:45-46 | There is no capture exactly when no position has `github.com/` followed by a non-empty `/`-free run. |
| GitHubUrl.UserGroup | app/userProfileAnalyzer/page.tsx:45-46 | At a start where the pattern matches, `match[1]` is the greedy group: it is non-empty and `/`-free, and it ends at the next `/` or at the end of the URL. |
| GitHubUrl.UserGroupUnique | app/userProfileAnalyzer/page.tsx:45 | At a given start, the greedy group is unique. It is the run that stops at the next `/` or at the end. |
| GitHubUrl.ExtractUsername | app/userProfileAnalyzer/page.tsx:44-47 | The result equals the input exactly when the pattern does not match. Otherwise it is the non-empty, `/`-free group of the leftmost match. |
| GitHubUrl.ExtractUsernameIdempotent | app/userProfileAnalyzer/page.tsx:44-47 | Extracting twice gives the same result as extracting once. |
| GitHubUrl.ExtractUsernameOfName | app/userProfileAnalyzer/page.tsx:46 | A bare `/`-free user name is returned unchanged. |
| GitHubUrl.ExtractUsernameOfProfileUrl | app/userProfileAnalyzer/page.tsx:45-46 | `https://github.com/` + name + any `/`-led path yields the name, so `https://github.com/octocat/repo` gives `octocat`. |
| GitHubUrl.FirstRepoMatch | app/stats/page.tsx:22 | The repository pattern matches at the returned index and at no earlier index; `None` means it matches nowhere. |
| GitHubUrl.RepoGroups | app/stats/page.tsx:22-25 | At a start where the pattern matches, `[, owner, repo]` are the two greedy groups: each is non-empty and `/`-free, owner is followed by `/`, and repo ends at the next `/` or at the end. |
| GitHubUrl.RepoGroupsUnique | app/stats/page.tsx:22 | At a given start, owner and repo are the only possible groups: owner is the `/`-free run after `github.com/` and repo is the run after the next `/`. |
| GitHubUrl.RepoGroupsSpan | app/stats/page.tsx:22 | On a match, the URL contains `github.com/` + owner + `/` + repo as one contiguous substring. |
| GitHubUrl.ParseRepoUrl | app/stats/page.tsx:22-25 | Success gives a non-empty, `/`-free owner and repo. Failure happens exactly when the pattern matches at no position, and its message is "Invalid GitHub URL". |
| GitHubUrl.ParseRepoUrlIsLeftmost | app/stats/page.tsx:22-25 | Parsing gives owner and repo exactly when the leftmost regex match has those two maximal groups. |
| GitHubUrl.ParseRepoUrlFailure | app/stats/page.tsx:22-23 | Parsing fails exactly when no position has `github.com/`, a non-empty `/`-free run, `/` and another non-empty `/`-free run. |
| GitHubUrl.ParseRepoUrlOfRepoUrl | app/stats/page.tsx:22-25 | `https://github.com/o/r` followed by any `/`-led path gives owner `o` and repo `r`, so `.../o/r/tree/main` gives `o` and `r`. |
| RepoStats.SplitRequestUrl | app/stats/page.tsx:26 | When an address parses, it is exactly the `RequestUrl` `https://api.github.com/repos/` + owner + `/` + repo of a valid reference. |
| RepoStats.RequestUrlRoundTrip | app/stats/page.tsx:26 | Every valid owner and repo can be read back from the request address `RequestUrl` builds from them, so different repositories get different addresses. |
| RepoStats.FetchRepoStats | app/stats/page.tsx:16-26 | Only the empty string is ignored, so there is no trim. A non-empty URL that does not match fails with "Invalid GitHub URL". Otherwise the request address names the leftmost match's owner and repo. |
| RepoStats.FetchRepoStatsOfRepoUrl | app/stats/page.tsx:22-26 | A repository URL with any trailing path requests `https://api.github.com/repos/{owner}/{repo}`. |
| Text.Trim | app/userProfileAnalyzer/page.tsx:185 | The result has no whitespace at either end and is what lies between the leading and trailing whitespace runs. It is empty exactly when the input is all whitespace. |
| Text.TrimCharacterization | app/userProfileAnalyzer/page.tsx:195 | Any split of a string into whitespace, a trimmed core and whitespace has that core as its trim. |
| Text.TrimIgnoresSurroundingSpace | app/userProfileAnalyzer/page.tsx:195 | Adding whitespace around a string does not change its trim. |
| Text.TrimIdempotent | app/userProfileAnalyzer/page.tsx:195 | Trimming twice gives the same result as trimming once. |
| Text.SegmentEnd | app/stats/page.tsx:22 | Everything from the start to the returned end is `/`-free, and the end is a `/` or the end of the string. |
| Text.SegmentUnique | app/userProfileAnalyzer/page.tsx:45 | Any `/`-free run that is followed by `/` or the end of the string ends where `SegmentEnd` says. |
| Text.Decimal | app/userProfileAnalyzer/page.tsx:84-86 | A number renders as a non-empty string of decimal digits with no leading zero. |
| Text.DecimalValue | app/userProfileAnalyzer/page.tsx:96-97 | The rendered digits read back as the number. |
| Text.ConcatAppend | app/userProfileAnalyzer/page.tsx:101 | Joining with `""` distributes over list concatenation. |
| Text.ConcatPart | app/userProfileAnalyzer/page.tsx:101 | Part `k` appears in the joined string right after the parts before it. |
| ProfileAnalyzer.StartAnalysis | app/userProfileAnalyzer/page.tsx:184-195 | Input is rejected, with "Please enter a GitHub profile URL or username", exactly when it is empty or all whitespace. Otherwise the input is trimmed. The user looked up is the non-empty group of the leftmost `github.com/` match in the trimmed input, or the whole trimmed input exactly when the pattern does not match there. |
| ProfileAnalyzer.StartAnalysisIgnoresSurroundingSpace | app/userProfileAnalyzer/page.tsx:195 | The input is trimmed before extraction, so whitespace around it never changes the outcome. |
| ProfileAnalyzer.StartAnalysisOfName | app/userProfileAnalyzer/page.tsx:185-195 | A bare user name with no `/`, even with surrounding whitespace, is looked up as it is, through the fall-back at line 46. |
| ProfileAnalyzer.StartAnalysisOfProfileUrl | app/userProfileAnalyzer/page.tsx:185-195 | A profile URL, even with surrounding whitespace, looks up the user it names. |
| ProfileAnalyzer.OrElse | app/userProfileAnalyzer/page.tsx:80-83 | JavaScript `||` on a string: the fallback replaces a missing or empty value; any other value is kept. |
| ProfileAnalyzer.Take | app/userProfileAnalyzer/page.tsx:91 | `slice(0, n)` keeps `min(n, length)` elements, in their original order. |
| ProfileAnalyzer.DisplayRepos | app/userProfileAnalyzer/page.tsx:346 | At most six repositories are shown. They are the first ones in order, and all of them when there are fewer than six. |
| ProfileAnalyzer.PromptHeadLines | app/userProfileAnalyzer/page.tsx:77-89 | The prompt opens with the request to analyze the profile. Name (falling back to the login), bio, location, company, the three counters and the creation date each sit on a line of their own, with the page's fallback texts. The head ends with the "Top Repositories:" heading. |
| ProfileAnalyzer.RepoEntryLines | app/userProfileAnalyzer/page.tsx:93-99 | A repository's entry has its name with its description (or "No description"), its language (or "Not specified"), stars, forks and update date, each on a line of its own, and ends with a newline. |
| ProfileAnalyzer.Prompt | app/userProfileAnalyzer/page.tsx:77-112 | The prompt starts with the profile head and ends with the fixed list of requests. Between them lies the repository section and nothing else: its length is exactly the difference. The entry of each of the first ten repositories appears in that section in list order, each right after the entries before it. |
| ProfileAnalyzer.PromptIgnoresLaterRepos | app/userProfileAnalyzer/page.tsx:90-91 | Repositories after the tenth do not change the prompt. |
| ProfileAnalyzer.PromptListsRepo | app/userProfileAnalyzer/page.tsx:90-101 | Each of the first ten repositories has its entry in the repository section `PromptRepoSection`, right after the entries of the repositories before it, whatever text surrounds the section. |
| ProfileAnalyzer.ResponseText | app/userProfileAnalyzer/page.tsx:168-171 | Reading fails with "unexpected format" exactly when `candidates`, `candidates[0]` or its `content` is missing. It fails for a missing `parts[0]` exactly when the content is there but has no first part. It succeeds exactly when all four exist, and then yields `candidates[0].content.parts[0].text`. |
| ProfileAnalyzer.ResponseTextReadsFirstOnly | app/userProfileAnalyzer/page.tsx:169 | Extra candidates and extra parts do not change the text that is read. |
| ReadmeGenerator.Template | app/readme-generator/page.tsx:18-50 | The length is the fixed text plus three copies of the name. The output starts with `# ` + name + a blank line + `## 📋 Description`, contains the `git clone .../username/{name}.git` and `cd {name}` lines, and ends with a newline. |
| ReadmeGenerator.TemplateSubstitutes | app/readme-generator/page.tsx:18-50 | The README for a name is the README for the empty name with the name put in at three places: after `# `, at the end of the `git clone` URL, and after `cd `. All other text is the same for every name. |
| ReadmeGenerator.ReadNameOfTemplate | app/readme-generator/page.tsx:18-50 | The name can be read back from the README it produced, so different names give different READMEs. |
| ReadmeGenerator.GenerateReadme | app/readme-generator/page.tsx:15-52 | An empty name leaves the current README unchanged. Any other name, including one made only of spaces, produces exactly `Template` of that name: the heading, the `git clone` and `cd` lines and the final newline, with the name read back from the result. |

## Left out

- Network and browser effects are not modelled: every `fetch`, HTTP status handling, `response.json()`, `alert`, `console.error`, `window.open` and the clipboard. This includes the two REST addresses `fetchGitHubData` requests (app/userProfileAnalyzer/page.tsx:52 and 57). `AnalyzeStart.Lookup` names the user those requests are about.
- React state, the loading flag and the event handlers are not modelled. Each guard is modelled as a pure outcome (`AnalyzeStart`, `StatsAction`, `GenerateReadme`'s `current` argument), not as UI state.
- `toLocaleDateString()` and `getFullYear()` depend on locale and time zone. The prompt takes the formatted date through a caller-supplied `localeDate` function, and the page's rendered dates are not modelled.
- The repository size `(size / 1024).toFixed(2)` on the stats page is floating point, so it is not modelled. The rest of the stats rendering is plain view code.
- Reading the Gemini API key from the environment, the key-missing error, the request body and the safety settings are configuration and wire format, so they are not modelled.
- The outer `catch` in `analyzeWithGemini` adds the prefix `Failed to generate AI analysis: `. It is not modelled. `ResponseError.NoFirstPart` stands for the JavaScript TypeError that a missing or empty `parts` raises, whose message depends on the engine.
- `Text.Decimal`: it renders non-negative integers only. That covers the counters the API returns. JavaScript's exponent form for numbers of 1e21 and above is not modelled.
- `app/page.tsx`, `app/instructions/page.tsx` and both navigation components are static layout with no logic.
- Strings are sequences of Unicode code points, while JavaScript strings are sequences of UTF-16 code units. On well-formed strings this changes no result of the two regexes or of `trim`. Lone surrogates cannot be represented, though, and lengths count code points: `FixedLength` counts `📋` as one character, where JavaScript counts two.
