# licensebot-client-go: a Dafny model of license resolution

This project models the core of licensebot-client-go, a tool that lists
the licenses of a Go module's dependencies. The core has two parts.

- **The blacklist** (blacklist.go).
  - The policy file's lines become lower-case keys. Each line is trimmed. Empty lines and lines starting with `#` are dropped.
  - `checkBlacklist` rejects a license id when some key is a substring of the id in lower case.
- **The pipeline** (licenses.go).
  - `getModuleLicenses` turns the rows of the `go-licenses csv` output into records, skipping the project's own `mosaicmfg.com` packages.
  - `getAllRepoModules` merges the records by name, first record wins.
  - It counts the blacklist violations and stops on any before anything is fetched.
  - It rewrites GitHub license URLs and fetches each license text.
  - It reduces `github.com/<org>/<repo>/...` names to `<repo>` and sorts the result by name.

Modules, one per concern:

| file | module | contents |
|---|---|---|
| wrappers.dfy | `Wrappers` | `Option`, `Result` |
| strings.dfy | `Strings` | ASCII `ToLower`, `TrimSpace`, `HasPrefix`, `Contains` with a reference substring predicate |
| blacklist.dfy | `Blacklist` | `ParseBlacklist` (the `init` body), `IsBlacklisted` and `CheckBlacklist` |
| names.dfy | `Names` | `strings.Split` on one character, `CanonicalName` |
| ordering.dfy | `Ordering` | Go's string `<`, sorting by name, uniqueness of a sorted permutation |
| types.dfy | `Types` | rows, records, licenses, errors, the call trace, the environment |
| licenses.dfy | `Licenses` | `getModuleLicenses` and `getAllRepoModules`, stage by stage |
| pipeline.dfy | `Pipeline` | properties of the whole of `getAllRepoModules` |

How the outside world is modelled:

- **Scanner output.** The output of `go-licenses csv` is a `Scan`. It is either `CommandFailed` or the rows the CSV reader delivered, with a flag saying whether reading ended in an error.
- **Outside functions.** `getGitHubRawUrl`, `normalizeNewlines` and the HTTP fetch are function-valued fields of an `Env`. The fetch is a GET, a body read and a close, and its result is `Success(text)` or `Failure(why)`. Nothing is claimed about what these functions return.
- **Call trace.** Every run returns a `Traced` value: its result together with the calls it made, `RawUrlCall(url)` for a URL rewrite and `HttpGet(url)` for a request. This makes "nothing is fetched once a violation is known" a property that can be stated.
- **Panics.** Indexing a slice out of range is a run-time panic in Go. Here it is the error `IndexOutOfRange`: a CSV row that is too short, or a GitHub name with fewer than three segments. It is not a precondition.
- **Map iteration order.** Go's map iteration order is a parameter `order`: any duplicate-free listing of the merged names. The lemmas hold for every such listing.
  - One `order` stands for both range loops over the map, the counting loop (licenses.go:83) and the resolving loop (licenses.go:95), although Go may visit the map differently each time. This loses nothing for the counting loop: `Licenses.CountViolationsIsViolatorCount` shows its count is the same for every order.
  - `Pipeline.OrderIrrelevant` shows that the order changes neither whether a run succeeds nor the entries a successful run returns. When no two dependencies share a canonical name, a successful run returns the very same list. A failing run may fail differently. `Licenses.StopsAtFirstFailure` shows that a run returns the error of the first record, in visiting order, that does not resolve, and makes no call after that record's request. So when two licenses cannot be fetched, the error and the calls made depend on which is visited first.
  - `Env.fetch` is a function, so it answers a given URL the same way every time it is asked. `Pipeline.OrderIrrelevant` relies on that. A real server may not behave that way.

Differences from what one might expect of the tool, where the model follows the code:

- `License.SPDX` is never set, so every entry has `spdx` false (`Licenses.Resolved`).
- Canonical names can collide (`Names.CanonicalNamesCollide`) and `sort.Slice` is not stable, so the order of entries sharing a name is unspecified. `Pipeline.SuccessContents` claims only that the list is sorted by name and holds the resolved entries with their multiplicities. `Pipeline.OrderIrrelevant` gives one fixed list only when canonical names are distinct.
- `blacklistFileContent` is never embedded (see Findings).

## Model

| member | source | states |
|---|---|---|
| Strings.ToLower | blacklist.go:23 | lower-casing keeps the length and maps each character to its lower-case form |
| Strings.ToLowerIdempotent | blacklist.go:29 | lower-casing twice is lower-casing once |
| Strings.TrimSpace | blacklist.go:16 | the result is a slice of the input with white space on both sides removed, and it neither starts nor ends with white space |
| Strings.TrimSpaceIdempotent | blacklist.go:16 | trimming a trimmed string changes nothing |
| Strings.HasPrefixIsConcatenation | licenses.go:51 | `strings.HasPrefix(s, p)` holds exactly when `s` is `p` followed by some string |
| Strings.Contains | blacklist.go:31 | `strings.Contains` is true exactly when the key occurs at some position of the id |
| Blacklist.ParseBlacklist | blacklist.go:13-26 | there are no more keys than lines; every key is non-empty, does not start with `#`, and is already lower case |
| Blacklist.ParseBlacklistMembership | blacklist.go:15-25 | a key is in the policy exactly when some line that is kept (non-empty after trimming, not a comment) trims and lower-cases to it |
| Blacklist.ParseBlacklistAppend | blacklist.go:15-25 | lines are handled one at a time and in order: parsing two blocks of lines is parsing each and concatenating |
| Blacklist.IndentedCommentDropped | blacklist.go:16-22 | since trimming comes before the `#` test, an indented comment is dropped |
| Blacklist.BlankPolicyIsEmpty | blacklist.go:16-19 | any number of blank lines yields no key |
| Blacklist.GplPolicyParses | blacklist.go:13-26 | the policy lines "  # comment", "", "GPL", "" yield exactly the key "gpl" |
| Blacklist.CheckBlacklist | blacklist.go:28-36 | an error is returned exactly when some key is a substring of the lower-cased id, which is exactly when the gate's `IsBlacklisted` holds, and its message is "license <id> is blacklisted" |
| Blacklist.IsBlacklistedMeansSubstring | blacklist.go:28-36 | the blacklist test used by the gate holds exactly when some key occurs at some position of the lower-cased id |
| Blacklist.EmptyBlacklistAllowsAll | blacklist.go:30-35 | with no keys no id is blacklisted |
| Blacklist.BlacklistIgnoresCase | blacklist.go:29 | an id and its lower-case form are blacklisted alike |
| Blacklist.GplPolicyMatches | blacklist.go:28-36 | the key "gpl" flags "AGPL-3.0" and "gpl-2.0-only" but not "MIT" |
| Blacklist.EmbeddedPolicyIsEmpty | blacklist.go:8-14 | with the policy content empty, whatever lines it is split into, the policy has no keys |
| Names.Split | licenses.go:119 | `strings.Split` yields one more piece than there are separators, no piece holds the separator, and joining the pieces gives back the input |
| Names.SplitJoin | licenses.go:119 | splitting the join of separator-free pieces gives back the pieces |
| Names.CanonicalName | licenses.go:116-121 | a name not starting with "github.com" is kept; a GitHub name with fewer than two `/` has no third segment (the index panics); otherwise the result is a shorter segment without `/` |
| Names.CanonicalNameOfRepoPath | licenses.go:117-120 | `<host>/<org>/<repo>` followed by nothing or by `/...` is reported as `<repo>` |
| Names.WidgetExample | licenses.go:118-120 | `github.com/acme/widget/v2` is reported as `widget` |
| Names.CanonicalNamesCollide | licenses.go:116-121 | `github.com/a/x` and `github.com/b/x` are both reported as `x` |
| Ordering.LessTotal | licenses.go:131 | Go's string `<` is a strict total order: trichotomy and asymmetry |
| Ordering.LessTransitive | licenses.go:131 | Go's string `<` is transitive |
| Ordering.SortByName | licenses.go:129-132 | the sorted list is ordered by name and is a permutation of the input |
| Ordering.SortedPermutationUnique | licenses.go:129-132 | when names are distinct, there is only one sorted permutation |
| Licenses.CollectRows | licenses.go:42-63 | reading succeeds exactly when the reader ends without an error and every row can be indexed; a row that is too short panics (`IndexOutOfRange`) even when a read error would follow it; otherwise the reader's error is returned |
| Licenses.ModuleLicenses | licenses.go:34-64 | a scanner that cannot be run fails with its error; otherwise the outcome is that of the reading loop |
| Licenses.CollectRowsRecords | licenses.go:50-61 | every record comes from a row of at least three fields not naming an own package, as `(row[0], row[1], row[2])`; every such row gives a record |
| Licenses.OwnModulesSkipped | licenses.go:51-54 | no record names a `mosaicmfg.com` package |
| Licenses.CollectRowsAppend | licenses.go:42-62 | records keep the order of their rows: reading two blocks of rows concatenates their records, and a failure in the second block is that block's failure |
| Licenses.Dedup | licenses.go:74-79 | the merged map's keys are exactly the records' names, and each key maps to a record of that name |
| Licenses.DedupFirstWins | licenses.go:75-78 | each name maps to the first record that carries it; later duplicates are ignored |
| Licenses.RepoModules | licenses.go:67-79 | scanning and merging succeed exactly when scanning succeeds; the map's keys are the names of the scanned records, each mapping to a record of that name |
| Licenses.CountViolations | licenses.go:82-88 | the count is zero exactly when no visited record is blacklisted |
| Licenses.CountViolationsIsViolatorCount | licenses.go:81-88 | the count is the number of merged dependencies whose license id is blacklisted, whatever the iteration order, so the loop does not stop at the first hit |
| Licenses.CountAmongListed | licenses.go:82-88 | over a duplicate-free listing, the count is the number of listed, blacklisted dependencies |
| Licenses.Resolved | licenses.go:110-127 | a resolved entry carries the canonical name, the license id unchanged, the normalised fetched text, and `spdx` false |
| Licenses.RequestUrl | licenses.go:96-99 | a license URL starting with "https://github.com" is requested as rewritten by `getGitHubRawUrl`; any other URL is requested unchanged |
| Licenses.ResolveOne | licenses.go:95-127 | one iteration rewrites the URL only for GitHub URLs, then requests it; it succeeds exactly when the fetch succeeds and the name can be canonicalised; a fetch, read or close failure is returned as it is; a fetched license whose GitHub name has fewer than three segments fails with `IndexOutOfRange` |
| Licenses.ResolveAll | licenses.go:94-128 | the loop succeeds exactly when every visited record resolves; then it returns one resolved entry per record in visiting order; its calls are a prefix of the full visit's calls |
| Licenses.StopsAtFirstFailure | licenses.go:95-121 | the loop returns the error of the first visited record that does not resolve, and its calls are exactly those of the records up to and including that one |
| Licenses.AllCallsContents | licenses.go:96-102 | a full visit rewrites exactly the GitHub license URLs of its records and requests every record's license |
| Licenses.GetAllRepoModules | licenses.go:66-135 | a blacklist failure makes no call; a successful result is sorted by name and has one entry per merged dependency |
| Pipeline.ScanFailurePropagates | licenses.go:69-73 | a scanning failure is returned as it is, with no call made |
| Pipeline.BlacklistGate | licenses.go:81-91 | the run fails with "failed blacklist check" exactly when some merged dependency is blacklisted, and then no URL is rewritten and nothing is fetched |
| Pipeline.SuccessCharacterised | licenses.go:66-135 | a run succeeds exactly when scanning succeeds, nothing is blacklisted, and every dependency's license can be fetched and its name canonicalised |
| Pipeline.SuccessContents | licenses.go:93-134 | a successful run returns, sorted by name, one resolved entry per merged dependency and nothing else: every dependency is resolvable, and the list is a permutation of the resolved entries in visiting order |
| Pipeline.CallsArePrefix | licenses.go:95-113 | a run's calls are a prefix of a full visit's calls, all of them on success: no partial list is returned after a failure |
| Pipeline.RewriteOnlyGitHub | licenses.go:96-102 | `getGitHubRawUrl` is called only for URLs starting with "https://github.com"; on success it is called for each of them and every license is requested |
| Pipeline.PastGateRequests | licenses.go:89-102 | once past the gate, the first dependency visited has its license requested |
| Pipeline.OrderIrrelevant | licenses.go:83-132 | for any two iteration orders a run succeeds alike, and a successful run returns the same entries, and the very same list when canonical names are distinct |
| Pipeline.AsWrittenGateNeverFires | blacklist.go:8-26 | with the policy as the program is written, no run ever fails the blacklist check |
| Pipeline.AgplAdmittedAsWritten | blacklist.go:8-9 | as written, an AGPL dependency passes the gate and its license is requested |
| Pipeline.AgplRejectedByPolicy | licenses.go:81-91 | with the policy line "GPL" loaded, the same dependency is rejected and nothing is fetched |

## Left out

- Running `go install` and `go-licenses csv` (licenses.go:27-35) is external processes. Only the outcome is modelled: a failed command, or rows.
- `encoding/csv` tokenisation, including its field-count check, is a library parser. Rows are whatever the reader delivers, and its errors are one abstract failure.
- `http.Get`, `io.ReadAll` and `resp.Body.Close` are network I/O. They form one fetch function of the environment that reports which step failed.
- `getGitHubRawUrl`, `normalizeNewlines` and `splitOnNewlines` are not part of this model. Their bodies are not among the modelled files, so they are uninterpreted and nothing is claimed about their output.
- `fmt.Println` of errors and violations is console output.
- main.go (argument dispatch, file reading and writing, JSON serialisation and the staleness comparison) is not part of this model.
- `strings.ToLower` and `strings.TrimSpace` are modelled for ASCII only. Unicode case mapping and Unicode white space are not modelled.
- Go's map iteration order is not modelled as any particular order. It is a parameter, and every property is proved for all admissible orders.
- The two range loops over the map are not given separate orders: one `order` serves both. The counting loop's result does not depend on the order (`Licenses.CountViolationsIsViolatorCount`), so only the resolving loop's order matters.
- A server that answers the same URL differently on different requests is not modelled: `Env.fetch` is a function of the URL.
- Licenses.GetAllRepoModules: when two dependencies share a canonical name, `sort.Slice` may order them either way. The model fixes one order (an insertion sort). Its properties claim only sortedness and the multiset of entries, which hold for every order `sort.Slice` may produce.

## Findings

| source | as written | input that shows it | evidently intended | confidence | as-written member | corrected member |
|---|---|---|---|---|---|---|
| blacklist.go:8 | the directive is written `// go:embed blacklist.txt`, with a space, which Go reads as an ordinary comment, so `blacklistFileContent` stays `""` and the policy is empty | a scan with the one dependency `github.com/acme/widget` under "AGPL-3.0", and a policy file holding the line "GPL": the dependency passes the gate and its license is requested | the directive without the space, `//go:embed blacklist.txt`, together with `import _ "embed"` (Go rejects an embed directive in a file that does not import "embed"), so that the file's lines become the policy and the dependency is rejected before any fetch | high; not executed | Pipeline.AgplAdmittedAsWritten | Pipeline.AgplRejectedByPolicy |

In the model the policy's lines are a parameter (`keys = ParseBlacklist(lines)`), as the corrected program would load them. `Pipeline.AsWrittenGateNeverFires` states the as-written behaviour for every scan.
