# Source-file synchroniser: snippet extraction, token refresh and fetch-retry

A Dafny model of the logic in `lib/utilities/updateSources.js`, the script
that pulls example source files from GitHub as a GitHub App installation,
keeps only the marked snippet of each file, writes it into `public/source`
and reports the files that had no snippet markers. Three parts are modelled:

- **Snippet extractor** (`findExample`), module `Snippet` in `snippet.dfy`.
  The text is split on `"\n"`. Lines are dropped until the first line that
  contains `***DS.snippet.0.start`. The lines after it are kept until the first
  line that contains `***DS.snippet.n.end`. Without a start marker the whole
  input comes back re-joined. The scan is a fold (`ScanFrom`) of a one-line
  `Step`. It is proved equal to an independent positional description
  (`Expected`: the slice between the first start index and the next end
  index). The JavaScript `split`, `join` and `indexOf` live in module `Text`
  (`text.dfy`), with `Join(Split(s)) == s` and its converse proved.
- **Token refresh** (`ghCheckToken`, `ghCreateToken`), module `Token` in
  `token.dfy`. Times are integer milliseconds. The cached token and its expiry
  are `Option`s, and `None` stands for `null`/`undefined`. `NeedToken` is the
  refresh rule. `CheckToken` replaces both fields together when the rule fires.
  `AssertionClaims` is the JWT claim set (`iat`, `exp`, `iss`).
- **Fetch, retry and tally** (`process`, `doLang`), module `Sync` in
  `sync.dfy`. The remote content endpoint is a parameter
  `replies: nat -> FetchOutcome`, the reply to the n-th request of the run.
  The state records the requests issued, the `tallyNoExamples` list and the
  output directory as a map from file name to text. Writing with the `wx` flag
  fails on a name that already exists. `DoLang` is a loop over the language's
  file names, proved equal to the functional `ProcessAll`.

`results.dfy` holds the `Option` and `Result` datatypes.

The model follows the code, including where one might expect otherwise:

- A token is refreshed when `expiry - 5 min` is *strictly* before now
  (`isBefore`). A token with exactly five minutes left is kept, although one
  might expect "at or before".
- A failed token exchange is not fatal. `ghApi` returns `false`, and
  `JSON.parse(false)` yields `false`, whose `token` is `undefined`.
  `moment(undefined)` is the current time. The run goes on without a token.
  `ghCheckToken` is called once per run (line 191), so nothing in the same
  run asks again. `Token.FailedExchangeRetried` states what a further call
  would do.
- `ghCreateToken` stores whatever expiry the service returns (lines 67-68).
  A token with at least five minutes left after a refresh is promised only
  when the service issues one that far from expiry, which is the
  precondition of `Token.CheckLeavesUsableToken`.
- JavaScript truthiness decides two tests. An empty token string counts as no
  token. An empty file body counts as a failed fetch.
- The file does not parse as written. The `break`/`continue` statements
  inside the `forEach` callback (lines 155-168) are not valid JavaScript, and
  neither is the parameter name `in` of `findExample` (line 146), a reserved
  word. The model reads these by their evident intent: the scan stops at the
  end marker, every other branch moves on to the next line, and the
  parameter is an ordinary name. Throughout, "as written" means the code
  with these syntax errors read this way.

Two places depart from the code, and "## Findings" records both:

- The progress line of `doLang` (line 122) calls `exactLog`, which calls
  `process.stdout.write` (line 185). In this module `process` is the
  `async function process` declared at line 129, which shadows Node's global
  `process` and has no `stdout`. As written, any language with at least one
  file throws a `TypeError` there, before its first request, and `doLang`
  never returns a count. `Sync.DoLangAsWritten` is this behaviour.
  `Sync.DoLang` models the intended driver, with progress output that does
  not throw.
- A falsy reply to a file request. As written, the retry's pause calls
  `new Date.now()` (line 136), which throws a `TypeError` before the second
  request is sent. Even with that repaired, a second failed request hands
  `false` to `findExample`, which throws on `false.split`. Both abort the
  run. The step `Sync.Process`, and with it `Sync.ProcessAll`, `Sync.DoLang`
  and their lemmas, models the intended behaviour instead: wait, fetch once
  more, and read a second failure as empty content. The code as written is
  `Sync.ProcessAsWritten`. `Sync.ProcessWaitRepaired` is the code with only
  the pause repaired. These paths are reached only once the progress line is
  repaired.

## Model

| member | source | states |
|---|---|---|
| Text.JoinEnds | lib/utilities/updateSources.js:173-176 | `join("\n")`: the joined text starts with the first line and ends with the last, with a newline right after the first line when there are more lines. |
| Text.Split | lib/utilities/updateSources.js:154 | Splitting on newlines yields at least one line, no line holds a newline, and joining the lines back gives the input. |
| Text.SplitJoin | lib/utilities/updateSources.js:173-176 | Joining non-empty newline-free lines and splitting again gives the same lines. |
| Text.SplitAppend | lib/utilities/updateSources.js:154 | Splitting `a + "\n" + b` gives the lines of `a` followed by the lines of `b`. |
| Text.IndexOf | lib/utilities/updateSources.js:156 | `indexOf` is -1 exactly when the pattern occurs nowhere; otherwise it is an occurrence with none earlier. |
| Snippet.StepEffect | lib/utilities/updateSources.js:155-168 | One iteration of the `forEach` callback does nothing once stopped. It keeps the line exactly when the start marker has been seen and the line has no end marker. It stops exactly at an end-marker line after the start. Before the start, it opens the snippet exactly on a start-marker line. |
| Snippet.ScanFromGrows | lib/utilities/updateSources.js:155-169 | The whole `forEach` scan only appends input lines to the kept lines, at most one per line. It never forgets a seen start marker and does nothing once stopped. |
| Snippet.FindExample | lib/utilities/updateSources.js:146-178 | Without a start marker the data is the input unchanged. |
| Snippet.FindExampleIsExpected | lib/utilities/updateSources.js:146-178 | The result equals the positional description `Expected` of the split lines: the lines strictly between the first start-marker line and the next end-marker line, or the whole input when no start marker exists. |
| Snippet.FoundIffStartMarker | lib/utilities/updateSources.js:156-160 | `foundEg` holds exactly when some line of the input contains the start marker. |
| Snippet.ScanMatchesExpected | lib/utilities/updateSources.js:155-169 | The line-by-line scan keeps exactly the lines strictly between the first start-marker line and the next end-marker line (or the end of input), and finds a start exactly when one exists. |
| Snippet.NoStartMarker | lib/utilities/updateSources.js:174-176 | With no start-marker line (empty input and an end marker alone included) the result is the input unchanged with `foundEg` false. |
| Snippet.MarkedRegion | lib/utilities/updateSources.js:156-173 | A first start marker at line s closed by the first end marker at line e > s gives exactly lines s+1 .. e-1 joined, with `foundEg` true. |
| Snippet.Unterminated | lib/utilities/updateSources.js:160-173 | A start marker never followed by an end marker gives every line after it to the end of input, with `foundEg` true. |
| Snippet.OnlyFirstStartHonoured | lib/utilities/updateSources.js:160-166 | A later start-marker line inside the snippet is kept as an ordinary output line at its position. |
| Snippet.PrefixBeforeStartIgnored | lib/utilities/updateSources.js:156 | Lines before the first start marker, end-marker lines included, do not change the result. |
| Snippet.ReExtractIsNoOp | lib/utilities/updateSources.js:146-178 | When the extracted snippet holds no start-marker line, extracting again from the result returns it unchanged with `foundEg` false. Lines outside the snippet may hold further markers. |
| Snippet.ExtractsMarkedRegion | lib/utilities/updateSources.js:146-178 | The text `a`, start, `X`, `Y`, end, `b` extracts to `X\nY` with `foundEg` true. |
| Snippet.KeepsUnmarkedFile | lib/utilities/updateSources.js:174-177 | `plain text` extracts to itself with `foundEg` false. |
| Token.AssertionClaims | lib/utilities/updateSources.js:50-55 | The assertion's expiry is 570 seconds after its issue time, the issue time is the current time truncated to seconds, and the issuer is the app id. |
| Token.CreateToken | lib/utilities/updateSources.js:60-68 | An issued reply sets token and expiry together from the reply; a failed exchange leaves no usable token. |
| Token.NeedToken | lib/utilities/updateSources.js:32-36 | No refresh is needed exactly when a non-empty token and an expiry are cached and the expiry is at least five minutes after now. |
| Token.CheckToken | lib/utilities/updateSources.js:30-45 | The state is unchanged unless the refresh rule fires; when it fires both fields come from the exchange reply, or no usable token remains if the exchange failed. |
| Token.RefreshIff | lib/utilities/updateSources.js:32-44 | With an exchange issuing a usable token, the state changes if and only if the refresh rule fires. |
| Token.CheckLeavesUsableToken | lib/utilities/updateSources.js:42-44 | After a check whose exchange issues a fresh token, the token has at least five minutes left and no refresh is needed. |
| Token.NeedTokenMonotone | lib/utilities/updateSources.js:35-36 | Once a refresh is needed it stays needed as time advances. |
| Token.FailedExchangeRetried | lib/utilities/updateSources.js:60-68 | After a failed exchange, a further check at any later time would ask for a token again. Within one run no further check happens. |
| Token.StartupNeedsToken | lib/utilities/updateSources.js:33 | The first check of a run, with nothing cached, needs a token. |
| Token.FourMinutesLeftRefreshes | lib/utilities/updateSources.js:35-36 | A token with four minutes left is replaced. |
| Token.TenMinutesLeftKeeps | lib/utilities/updateSources.js:35-36 | A token with ten minutes left is kept. |
| Token.ExactlyBufferLeftKeeps | lib/utilities/updateSources.js:35-36 | A token with exactly five minutes left is kept, because `isBefore` is strict. |
| Sync.FetchWithRetry | lib/utilities/updateSources.js:131-138 | One request, plus a second for the same file exactly when the first reply is falsy, never a third; the contents are the last reply. |
| Sync.Process | lib/utilities/updateSources.js:129-144 | The step fails exactly when the output name exists; otherwise it logs the retry requests, adds one output file, keeps the other files, and extends the tally by at most this file. |
| Sync.ProcessTallies | lib/utilities/updateSources.js:139-143 | The file is tallied exactly when its fetched text has no start-marker line; a tallied file is written whole, any other as its snippet. |
| Sync.ProcessAsWritten | lib/utilities/updateSources.js:129-144 | As written, a falsy first reply aborts the run in the pause at line 136 before any retry. A truthy first reply behaves as `Process`. |
| Sync.ProcessWaitRepaired | lib/utilities/updateSources.js:131-139 | With the pause at lines 135-136 repaired, a last reply of `false` aborts in the extractor. Any other reply behaves as `Process`. |
| Sync.FalsyFirstReplyAbortsAsWritten | lib/utilities/updateSources.js:132-136 | As written, a failed first request or an empty first body aborts the run, although the retry path was entered. |
| Sync.EmptyFirstReplyAsWritten | lib/utilities/updateSources.js:131-143 | With an empty first body and `plain text` after it, the code as written aborts, while the retrying step writes `plain text`. |
| Sync.RetryRecovers | lib/utilities/updateSources.js:131-143 | With the retry working, a falsy first reply followed by a body gives two requests for the file and writes the snippet of the second reply. |
| Sync.DoubleFailureAbortsWaitRepaired | lib/utilities/updateSources.js:131-139 | With the pause repaired, a file whose two requests both fail still aborts the run, in the extractor. |
| Sync.DoubleFailureWritesEmptyFile | lib/utilities/updateSources.js:131-143 | With a failure read as empty content, a file whose two requests fail is written empty and tallied after two requests. |
| Sync.ProcessAllGrows | lib/utilities/updateSources.js:120-125 | `ProcessAll`, the `doLang` loop over the names: a pass only appends to the request log and the tally and only adds output files. A failure comes from an existing output file. |
| Sync.ProcessAllSucceedsIff | lib/utilities/updateSources.js:120-125 | With the intended retry, processing a file list succeeds if and only if the names are distinct and none is already in the output directory; a failure names one of the files. |
| Sync.ProcessAllOutput | lib/utilities/updateSources.js:143 | A successful pass adds exactly one output file per name and keeps every existing file. |
| Sync.ProcessAllTally | lib/utilities/updateSources.js:140-142 | A successful pass keeps the existing tally and appends a selection of the names in their order. |
| Sync.ProcessAllRequests | lib/utilities/updateSources.js:131-137 | A successful pass issues between one and two requests per file, after the existing ones. |
| Sync.DoLang | lib/utilities/updateSources.js:117-127 | With progress output that does not throw and the intended retry, the driver processes the names configured for the item's language in order, returns their count, and succeeds exactly when the names are distinct and new; its state is that of `ProcessAll`. |
| Sync.TwoFileScenario | lib/utilities/updateSources.js:129-144 | A marked file then a plain file give the snippet `X\nY` and `plain text`, one request each, with only the plain file tallied. |
| Sync.DoLangAsWritten | lib/utilities/updateSources.js:117-124 | As written, `doLang` succeeds, with count 0 and nothing changed, exactly when the language has no configured files. Otherwise it aborts at the progress line before any request. |
| Sync.ScenarioAsWritten | lib/utilities/updateSources.js:117-144 | The two-file language of the worked instance aborts as written. The intended driver processes both files, counts 2 and writes `X\nY` and `plain text`. |

## Left out

- HTTP: `ghApi` and `ghGetFile` (lines 72-100) are replaced by the `replies` parameter and the `ExchangeReply` value. Headers, URLs and transport errors are not modelled.
- JWT signing with RS256 (lines 53-55): only the claim set is modelled, because signing is foreign crypto.
- `moment` date parsing of `expires_at` (line 68): expiries are integer milliseconds.
- `JSON.parse` of a malformed success body (line 61) is not modelled; a reply is either issued or failed.
- `deleteSourceDir` (lines 102-115): directory I/O. The output directory is a map, and the run starts from whatever map it is given.
- `fs.appendFileSync` (line 143) is modelled only as a create-only write into the map. Path joining and sub-directories are not.
- The five-second busy wait (lines 135-136) is wall-clock timing and is not modelled. Its `TypeError` is modelled by `Sync.ProcessAsWritten`. The corrected step keeps only the one retry that follows the wait.
- Logging in `log`/`exactLog` and the progress and "checkToken" messages: console output. The `TypeError` that `exactLog` throws is modelled by `Sync.DoLangAsWritten`.
- Configuration loading and `start` (lines 12, 190-210): process startup. `doLang`'s file list is looked up in a `docNames` map parameter.
- `for ... in` also enumerates inherited enumerable properties of the array; the model iterates its elements only.
- Token.CreateToken: after a failed exchange the contract says only that no usable token remains, not that the expiry reads as the current time.
- Sync.ProcessAllTally: states that the tally grows by an order-preserving selection of the names, not which ones; which files are tallied is stated per file by `Sync.ProcessTallies`.
- Sync.ProcessAllRequests: bounds the number of requests per pass instead of listing them; the exact requests of one file are stated by `Sync.FetchWithRetry`.

## Findings

| source | as written | input that shows it | evidently intended | confidence | as-written member | corrected member |
|---|---|---|---|---|---|---|
| lib/utilities/updateSources.js:122 | `exactLog` (line 185) calls `process.stdout.write`, but `process` here is the module's own `async function process` (line 129), which has no `stdout`. The progress line throws a `TypeError` before the first file of a language, and the run aborts. | Any language with at least one configured file. | Write the progress line to the console and go on to process each file. | not executed; likely | Sync.DoLangAsWritten (shown by Sync.ScenarioAsWritten) | Sync.DoLang (its contract, and Sync.ScenarioAsWritten) |
| lib/utilities/updateSources.js:135-136 | Once the progress line at line 122 is repaired: `new Date.now()` parses as `new (Date.now)()`. `Date.now` is not a constructor, so the pause throws a `TypeError` the first time the retry path runs. The retry is never sent and the run aborts. | The first request for a file fails, or returns an empty body. | Wait five seconds, then fetch the file once more. | not executed; likely | Sync.ProcessAsWritten (shown by Sync.FalsyFirstReplyAbortsAsWritten and Sync.EmptyFirstReplyAsWritten) | Sync.Process (proved by Sync.RetryRecovers) |
| lib/utilities/updateSources.js:137-139 | With the progress line and the pause at line 136 repaired, a second failed fetch leaves `contents` as `false`. `findExample(false)` then calls `false.split("\n")`, which throws a `TypeError` and aborts the whole run. | Both requests for one file fail, so `ghApi` returns `false` twice. | Carry on with empty content: write an empty file, tally it as having no markers, and go on with the next file. | not executed; likely | Sync.ProcessWaitRepaired (shown by Sync.DoubleFailureAbortsWaitRepaired) | Sync.Process (proved by Sync.DoubleFailureWritesEmptyFile) |
