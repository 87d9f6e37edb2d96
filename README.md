# AI code reviewer: key rotation, retry and review history, in Dafny

This project models the behaviour of the AI code-review web application
(an Express backend that forwards submitted code to a generative-AI
provider, and a React frontend that keeps a review history and a local user
registry) and proves properties of that model.

The centre of the model is the backend's API-key rotation and retry
controller in `backend/server.js`:

- **Key pool** (`KeyRotation`, key_pool.dfy): the key list loaded from the
  environment, the rotation cursor `currentKeyIndex`, and the per-key maps of
  last-use time and error count, as a class `KeyPool` whose methods
  (`Select`, `MarkUsed`, `MarkError`, `Decay`, `ResetError`, `Rotate`,
  `ResetAll`) update those fields in place. `Select` is proved against the
  selection policy `Choose`: the first key, scanning cyclically from the
  cursor, with fewer than 3 errors and last used more than 30 000 ms ago;
  otherwise the least recently used key, the earliest on ties.
- **Response normaliser** (`ResponseCleanup`, response_cleanup.dfy): fence
  stripping, strict parse, greedy first-`{`-to-last-`}` extraction, and the
  degraded fallback review. `JSON.parse` is a parameter
  `parse: string -> Option<Review>`.
- **Review handler** (`ReviewEndpoint`, review_endpoint.dfy): validation,
  then up to four sweeps of at most |keys| attempts each. Each sweep has its
  own used-key set. A reply ends both loops. Between sweeps every key is reset
  and a wait of 45/65/85 s is recorded. After the last sweep the result is
  429 with the last error. The provider is a function from call number to
  outcome (reply text or error message). The clock is a function from
  (sweep, attempt) to milliseconds. `sleep` is the list `waits` of recorded
  durations. Each loop is proved against a function of the pool state before
  it: one sweep against `SweepFrom`, the wait-cycle loop against `RunFrom`,
  a whole request against `Plan`. So the key every attempt uses, the calls,
  the waits and the pool afterwards are all determined; what they satisfy is
  proved as lemmas about those functions.

The frontend cores are modelled beside it:

- `Auth` (auth.dfy): the `AuthProvider`'s users list and signed-in user as
  a class `AuthStore` with `Register`, `Login`, `Logout`, `UpdateStats`.
- `History` (history.dfy): the review page's code, language, review and
  bounded history as a class `AppContent` with `HandleReview`,
  `LoadFromHistory`, `ClearHistory`, `HandleFileLoad`.
- `Dashboard` (dashboard.dfy): the statistics derived from the history and
  the badge bands, as functions.
- `FileUpload` (file_upload.dfy): the extension table and the extension
  taken from a file name, as functions.

Shared helpers: `Wrappers` (Option, Result), `Text` (JavaScript `trim`,
ASCII `toLowerCase`, `includes`, `split`, `substring`, decimal rendering),
`JsNumber` (`Math.round` of a quotient), `ReviewTypes` (the review record).

Behaviour of the code that the model keeps as written:

- The comment at `backend/server.js:21` says the cooldown is 60 s. The code
  tests `now - lastUsed > 30000`, so `CooldownMs` is 30 000.
- The JSON extraction takes the span from the first `{` to the last `}` of
  the text (a greedy regular-expression match).
- The degraded review is sent without a `keyUsed` field
  (`ReviewEndpoint.ReplyFor` gives `keyUsed == None`).
- A provider error that is not a rate limit never produces a 500. It is
  retried like a rate limit, only without advancing the cursor.

The rate-limit test is a plain substring match. Any message containing
"rate" counts, even inside a word such as `generateContent`
(`ReviewEndpoint.RateMatchesInsideWords`). The model keeps this behaviour
as written.

## Model

| member | source | states |
|---|---|---|
| `KeyRotation.ConfigValue` | backend/server.js:13 | `GEMINI_API_KEYS` is used when set and non-empty; otherwise `GEMINI_API_KEY`; otherwise the empty string |
| `KeyRotation.LoadKeys` | backend/server.js:13 | every loaded key is one of the comma-separated pieces of the configured value, kept untrimmed, free of commas and with a non-blank trim |
| `KeyRotation.LoadKeysSingle` | backend/server.js:13 | a value without commas loads as itself when its trim is non-empty, and as no key otherwise |
| `KeyRotation.LoadKeysAppend` | backend/server.js:13 | keys load in configuration order: the keys of `a,b` are the keys of `a` followed by the keys of `b`, duplicates included |
| `KeyRotation.NonBlank` | backend/server.js:13 | every kept piece comes from the input and has a non-blank trim, and every such piece is kept |
| `KeyRotation.NonBlankAppend` | backend/server.js:13 | `filter` keeps the order: the kept pieces of `a + b` are those of `a` followed by those of `b` |
| `KeyRotation.NonBlankCounts` | backend/server.js:13 | `filter` keeps duplicates: a non-blank piece is kept as often as it occurs, a blank one never |
| `KeyRotation.LoadKeysEmptyIff` | backend/server.js:13 | the pool is empty exactly when the configured value holds only commas and white space |
| `KeyRotation.FirstEligible` | backend/server.js:23-33 | the first offset from the cursor whose key has fewer than 3 errors and was last used more than 30 000 ms ago; no earlier offset qualifies; None only when no key qualifies |
| `KeyRotation.OldestAmong` | backend/server.js:37-47 | the position with the smallest last-use time (missing counts as 0), strictly smaller than every earlier position |
| `KeyRotation.Choose` | backend/server.js:18-50 | None exactly for an empty pool; otherwise a pool position; the primary rule returns the first eligible key scanning cyclically from the cursor; the fallback is used only when no key is eligible and returns the least recently used key, earliest on ties, whatever its error count |
| `KeyRotation.RotationCovers` | backend/server.js:23-24 | the cyclic scan from any cursor reaches every pool position in fewer steps than the pool size |
| `KeyRotation.PoolKeysMembers` | backend/server.js:25 | a key is a pool key exactly when it is the trim of some configured entry |
| `KeyRotation.Selection` | backend/server.js:18-50 | on a non-empty pool the selected key is a pool key, and a cursor inside the pool stays inside it |
| `KeyRotation.KeyPool.constructor` | backend/server.js:13-16 | start-up state: keys loaded from the configuration, cursor 0, both maps empty |
| `KeyRotation.KeyPool.Select` | backend/server.js:18-50 | returns the trimmed key `Choose` picks (None for an empty pool); the cursor moves to it only when the primary rule picked it |
| `KeyRotation.KeyPool.MarkUsed` | backend/server.js:52-54 | the key's last-use time becomes `now`; no other entry changes |
| `KeyRotation.KeyPool.MarkError` | backend/server.js:56-58 | the key's error count rises by exactly 1 (missing counts as 0); no other entry changes |
| `KeyRotation.KeyPool.Decay` | backend/server.js:61-63 | the delayed decrement: the count falls by 1 but not below 0, so no count is ever negative |
| `KeyRotation.KeyPool.ResetError` | backend/server.js:66-68 | the key's error count becomes 0; no other entry changes |
| `KeyRotation.KeyPool.Rotate` | backend/server.js:236 | the cursor advances to the next position, modulo the pool size |
| `KeyRotation.ResetKeysResets` | backend/server.js:252-255 | the reset gives every pool key the value 0 and keeps every other entry |
| `KeyRotation.KeyPool.ResetAll` | backend/server.js:252-255 | both maps become the reset of the old maps: every pool key's error count and last-use time are 0; entries of other keys and the cursor are untouched |
| `ResponseCleanup.CleanTextShape` | backend/server.js:169-170 | the cleaned reply has no surrounding white space and no code fence left anywhere |
| `ResponseCleanup.StripFencesLeavesNoFence` | backend/server.js:169 | removing triple backticks from left to right leaves none behind |
| `ResponseCleanup.CleanFencedJson` | backend/server.js:169-170 | a reply wrapped in a json code fence cleans to the trimmed body |
| `ResponseCleanup.NoBacktickUnchanged` | backend/server.js:169 | text without backticks passes both fence removals unchanged |
| `ResponseCleanup.SanitizeCode` | backend/server.js:176-179 | the sanitized `improvedCode` has no surrounding white space |
| `ResponseCleanup.SanitizePlainCode` | backend/server.js:176-179 | code without backticks is only trimmed |
| `ResponseCleanup.SanitizeFencedBlock` | backend/server.js:176-179 | a code block fenced with a language tag sanitizes to its trimmed body |
| `ResponseCleanup.ExtractObjectSpan` | backend/server.js:191-192 | a span is found exactly when some `{` precedes some `}`; it starts with `{`, ends with `}`, and no `{` precedes it and no `}` follows it in the text |
| `ResponseCleanup.NormalizeCases` | backend/server.js:168-224 | the reply is parsed exactly when the cleaned text or its brace span parses; the strict parse wins; a parsed review has its code sanitized; otherwise the fallback is built from the cleaned text |
| `ResponseCleanup.NormalizeFencedJson` | backend/server.js:169-187 | a reply in a json code fence whose body parses yields that review, sanitized |
| `ResponseCleanup.NormalizePlainText` | backend/server.js:212-224 | a short non-JSON reply yields the degraded review: its trimmed text as summary, score 7, the submitted code unchanged |
| `ReviewEndpoint.AllFailedMeans` | backend/server.js:227-242 | the "all calls so far failed" predicate holds exactly when every call below the count threw |
| `ReviewEndpoint.RateMatchesInsideWords` | backend/server.js:232 | any message containing "rate", even inside a word, is classified as rate limiting |
| `ReviewEndpoint.KeyTailShape` | backend/server.js:186 | the reported key is "..." followed by the key's last six characters, or all of it when shorter |
| `ReviewEndpoint.SelectKey` | backend/server.js:148 | the key is the one `Selection` picks from the pool state before the call, so always a pool key; only the cursor changes, and it moves as `Selection` says |
| `ReviewEndpoint.CallKey` | backend/server.js:157-242 | the key is marked used at `now` before the call; a reply resets its error count to 0; an error adds exactly 1; only a rate-limit error advances the cursor by one, wrapping; the new pool state is `AfterCall` of the old |
| `ReviewEndpoint.SweepStep` | backend/server.js:148-157 | the key is the one `Selection` picks at the attempt's clock reading; no call is made exactly when this sweep already called that key, and then only the cursor moves; otherwise the call with that key and time is appended, the key joins the used set and the pool becomes `AfterCall` of the selected state |
| `ReviewEndpoint.SweepFromStep` | backend/server.js:147-242 | one attempt as the sweep function sees it: a skip or an error continues the sweep from the next attempt with the new state, calls and last error; a reply ends the sweep with the new state |
| `ReviewEndpoint.SweepAttempt` | backend/server.js:147-242 | one pass of the attempt loop is one step of `SweepFrom`: a reply ends the sweep with the pool the call left; otherwise the rest of the sweep from the new state is the rest from the old |
| `ReviewEndpoint.AttemptKeepsSweepState` | backend/server.js:147-242 | a skipped or failed attempt keeps the loop facts that every call so far failed and the last error is the last call's message; a reply is the first of the request |
| `ReviewEndpoint.Sweep` | backend/server.js:140-243 | the pool state afterwards (cursor, last-use times, error counts), the calls, the reply and the last error are exactly `SweepFrom` from the pool state before the sweep |
| `ReviewEndpoint.SweepFromFacts` | backend/server.js:140-243 | a sweep makes at least one call and at most one per key, with distinct pool keys and rising attempt numbers; either the last call got the first reply, whose text is returned and whose key is left marked used at the call's time with error count 0, or every call failed and the last error is the last call's message |
| `ReviewEndpoint.SweepWithFacts` | backend/server.js:150-242 | the same facts for the rest of a sweep once an attempt has selected its key |
| `ReviewEndpoint.BudgetIsProduct` | backend/server.js:135-139 | the attempt budget of w sweeps of n attempts is w·n |
| `ReviewEndpoint.Cycle` | backend/server.js:139-259 | one pass of the wait-cycle loop is one step of `RunFrom`: a reply ends it; after a failed sweep that is not the last, every pool key is reset to 0 and the wait is recorded before the next sweep |
| `ReviewEndpoint.SweepJoinFacts` | backend/server.js:139-259 | a sweep joined to the earlier failed ones: a reply ends the loop with every fact of the wait-cycle result; no reply leaves all calls failed and records the wait of 45 + 20 w seconds unless the sweep was the last |
| `ReviewEndpoint.RunFromFacts` | backend/server.js:139-259 | the wait-cycle loop from any sweep on: at most 4 sweeps, at most one call per key and sweep; waits 45, 65, 85 s after failed sweeps; either the first reply ends both loops and its key is left marked used with count 0, or all calls failed, all three waits were taken and the last error is the last call's message |
| `ReviewEndpoint.PlanFacts` | backend/server.js:139-259 | the same facts for the whole wait-cycle loop of one request, from any pool state |
| `ReviewEndpoint.RunSweeps` | backend/server.js:139-259 | the pool state afterwards, all calls, the waits, the reply and the last error are exactly `Plan` of the pool state before the request |
| `ReviewEndpoint.Serve` | backend/server.js:134-268 | the response, calls, waits and final pool state follow `Plan` of the pool before the request; at most four times as many calls as keys, no key twice in a sweep; on success the first reply's normalised review, reporting the tail of the key that replied; on exhaustion 429 with the last error's message and `keysAvailable` = the pool size |
| `ReviewEndpoint.HandleReview` | backend/server.js:98-268 | missing or empty code or language gives 400, and an empty pool gives 500; both happen before any selection or call and change nothing; otherwise the request is served as in `Serve`, following `Plan` |
| `Auth.RegisteredKeepsUnique` | frontend/src/context/AuthContext.jsx:28-50 | registration succeeds exactly when the email is not taken, and keeps emails unique |
| `Auth.RegisterAllUnique` | frontend/src/context/AuthContext.jsx:28-50 | emails stay unique under any sequence of registrations |
| `Auth.FindLogin` | frontend/src/context/AuthContext.jsx:54 | the index of the first user matching both email and password; None exactly when nobody matches |
| `Auth.StatsAccumulate` | frontend/src/context/AuthContext.jsx:72-75 | after any series of reviews the totals grow by their number, their bug counts and the number with improved code |
| `Auth.AverageDefinedIff` | frontend/src/context/AuthContext.jsx:73 | within a session the average stays a number exactly when it was one and every review had a score (otherwise NaN) |
| `Auth.ReloadStats` | frontend/src/context/AuthContext.jsx:6-26 | a reload restores the stats with a number as average: a NaN average, saved as `null`, comes back as 0, a number comes back unchanged, and the counters are kept |
| `Auth.ReloadRecovers` | frontend/src/context/AuthContext.jsx:6-26 | a NaN average sticks for the next review within the session, but after a reload the next scored review averages as if the old average were 0 |
| `Auth.FirstReviewAverage` | frontend/src/context/AuthContext.jsx:73 | a fresh account's first score becomes its average |
| `Auth.AverageWithin` | frontend/src/context/AuthContext.jsx:73 | the rounded running average stays within any range holding the old average and the new score |
| `Auth.AverageStaysWithin` | frontend/src/context/AuthContext.jsx:73 | scores all within a range keep the average in that range over any series of reviews |
| `Auth.AverageSteady` | frontend/src/context/AuthContext.jsx:73 | a review scoring exactly the average leaves the average unchanged |
| `Auth.ReplaceByIdAt` | frontend/src/context/AuthContext.jsx:80 | entries with the id become the updated record; every other entry is unchanged |
| `Auth.ReplaceKeepsUnique` | frontend/src/context/AuthContext.jsx:80 | replacing a user's entry by a record with the same id and email keeps ids and emails unique |
| `Auth.AuthStore.constructor` | frontend/src/context/AuthContext.jsx:6-26 | the state starts from the stored users and user with every NaN average restored as 0; the stored user is signed in as stored, and is an entry of the list when the stored list holds it |
| `Auth.AuthStore.Register` | frontend/src/context/AuthContext.jsx:28-51 | a taken email throws "User already exists with this email" and changes nothing; otherwise exactly one user with zero stats is appended and signed in; unique emails are kept |
| `Auth.AuthStore.Login` | frontend/src/context/AuthContext.jsx:53-60 | succeeds exactly when some user matches email and password, and signs in the first such user; on failure throws and leaves the signed-in user unchanged |
| `Auth.AuthStore.Logout` | frontend/src/context/AuthContext.jsx:62-64 | nobody is signed in; the users list is untouched |
| `Auth.AuthStore.UpdateStats` | frontend/src/context/AuthContext.jsx:66-81 | a no-op without a signed-in user; otherwise the user gets the next stats and only entries with its id are replaced |
| `History.PreviewShape` | frontend/src/App.jsx:107 | the preview is the whole code up to 100 characters, otherwise its first 100 characters followed by "..." |
| `History.PrependCappedShape` | frontend/src/App.jsx:116 | the new item first, the old items after it in their order, at most 20 in all |
| `History.CapAppend` | frontend/src/App.jsx:116 | capping an already capped tail after prepending is capping once |
| `History.HistoryAfterRecent` | frontend/src/App.jsx:116 | after any series of successful reviews the history holds the newest entries, newest first, never more than 20 |
| `History.AppContent.constructor` | frontend/src/App.jsx:29-39 | the first render: starting code, JavaScript, no review, the stored history, no file name |
| `History.AppContent.HandleFileLoad` | frontend/src/App.jsx:64-70 | a loaded file's content, language and name replace the editor's |
| `History.AppContent.HandleReview` | frontend/src/App.jsx:72-127 | blank code changes nothing; a failed request leaves the history unchanged; a successful one shows the review, updates the signed-in user's stats, prepends the new entry (at most 20 kept) and clears the file name |
| `History.AppContent.LoadFromHistory` | frontend/src/App.jsx:129-135 | code, language and review become the entry's `fullCode`, `language` and `review` |
| `History.AppContent.ClearHistory` | frontend/src/App.jsx:137-141 | the history becomes empty; nothing else changes |
| `History.ReverseAt` | frontend/src/components/Dashboard.jsx:49 | the reversed list holds the entries in the opposite order |
| `Dashboard.AvgScore` | frontend/src/components/Dashboard.jsx:39-41 | 0 for an empty history; otherwise the nearest integer to the mean score, a missing score counting as 0 |
| `Dashboard.AvgScoreWithin` | frontend/src/components/Dashboard.jsx:39-41 | when every counted score lies in a range, so does the average |
| `Dashboard.TotalBugsMatchesStats` | frontend/src/components/Dashboard.jsx:42 | the bug total equals the sum of the entries' bug-list lengths, as the account statistics count them |
| `Dashboard.TotalBugsSkipsMissing` | frontend/src/components/Dashboard.jsx:42 | entries without a review or without a bug list add nothing |
| `Dashboard.BumpCounts` | frontend/src/components/Dashboard.jsx:44 | counting an entry adds one to its language and to the total, and no other count changes |
| `Dashboard.BreakdownCounts` | frontend/src/components/Dashboard.jsx:43-46 | each language is listed once, with the number of entries in that language, and the counts sum to `totalReviews` |
| `Dashboard.TrendShape` | frontend/src/components/Dashboard.jsx:49-51 | the trend is the min(7, n) newest entries, newest last, with one score and one distinct "Review i" label per point |
| `Dashboard.BadgeFor` | frontend/src/components/Dashboard.jsx:197-200 | "Excellent!" from 8, "Good!" from 6, "Keep Going!" from 4, otherwise "Start Now!" |
| `Dashboard.BadgeMonotone` | frontend/src/components/Dashboard.jsx:197-200 | a higher average never earns a lower badge |
| `FileUpload.LastPiece` | frontend/src/components/FileUpload.jsx:33 | `split('.').pop()` is the text after the last '.', or the whole name when it has none |
| `FileUpload.ExtensionAfterLastDot` | frontend/src/components/FileUpload.jsx:33 | the extension is the lower-cased text after the last '.' |
| `FileUpload.DetectLanguageIgnoresCase` | frontend/src/components/FileUpload.jsx:33-34 | "MAIN.PY" and "main.py" give the same language |
| `FileUpload.DetectLanguageKnown` | frontend/src/components/FileUpload.jsx:5-34 | whatever the name, the result is one of the sixteen language ids |
| `FileUpload.LanguageOfTable` | frontend/src/components/FileUpload.jsx:5-34 | js and jsx map to javascript, ts and tsx to typescript, py to python, cs to csharp, rs to rust, rb to ruby, kt to kotlin; every other listed extension is its own id; an unlisted one falls back to javascript |
| `FileUpload.OnDrop` | frontend/src/components/FileUpload.jsx:27-39 | an empty drop loads nothing; otherwise the first file's name and content are loaded with the language detected from its name, one of the table's ids |
| `FileUpload.OnDropFirstOnly` | frontend/src/components/FileUpload.jsx:28-29 | files after the first are ignored |
| `JsNumber.RoundQuotient` | frontend/src/components/Dashboard.jsx:40 | `Math.round(p / q)`: the integer within one half of p/q, halves rounded up |
| `JsNumber.RoundQuotientWithin` | frontend/src/components/Dashboard.jsx:40 | rounding a quotient of values in a range stays in that range |
| `Text.Trim` | backend/server.js:25 | the trimmed string neither starts nor ends with white space and is no longer than the input |
| `Text.TrimEmptyIff` | backend/server.js:25 | the trimmed string is empty exactly when the input is all white space |
| `Text.TrimStripsSurroundingSpace` | backend/server.js:25 | the trimmed string is the input's slice between a white-space prefix and a white-space suffix, and neither starts nor ends with white space, so exactly the white space at both ends is removed |
| `Text.TrimIdempotent` | backend/server.js:169-170 | trimming twice is trimming once, so the second trim on line 170 changes nothing |
| `Text.JoinSplit` | frontend/src/components/FileUpload.jsx:33 | joining the pieces of a split gives back the string |
| `Text.SplitPiecesLackSep` | backend/server.js:13 | no piece of a split contains the separator |
| `Text.SplitAppend` | backend/server.js:13 | splitting `a`, the separator, then `b` gives the pieces of `a` followed by those of `b` |

## Left out

- Express setup, CORS, the body-size limit and the `express-rate-limit` middleware (`backend/server.js:9-84`) are framework plumbing.
- The `/api/health` and `/api/languages` endpoints return static responses.
- The Gemini SDK call `callGeminiWithKey` is a network call. The model takes a function from call number to outcome instead.
- Prompt text, console logging and ISO timestamps carry no behaviour. Timestamps are opaque strings, given as parameters.
- Time: `Date.now()` is a parameter (the clock function).
- `sleep` is a recorded duration in seconds.
- The 2-minute `setTimeout` decrement is the method `KeyPool.Decay`, which the caller invokes. Its timing is not modelled.
- Concurrency: requests interleaving over the shared key maps are not modelled. The model runs one request at a time.
- `JSON.parse` is an uninterpreted parameter. It is assumed to give `None` for any text that does not yield an object. A JSON value that is not an object (`null`, a number) is not modelled as a review.
- Review fields are typed only as far as the application reads them: `score`, the lengths of `bugs`, and `improvedCode`. A non-string truthy `improvedCode` is not modelled.
- The generic 500 reply of the outer `catch` (`backend/server.js:270-276`) is not modelled. It is only reachable through exceptions outside the model, such as an error object without a message.
- Regular expressions are modelled only as the specific fence, brace and white-space transformations the handler uses.
- `toLowerCase` is modelled for ASCII letters only. There is no Unicode case mapping.
- `Dashboard.Breakdown` keeps JavaScript object keys in insertion order. It ignores the engine's reordering of integer-like keys.
- Auth.AuthStore.UpdateStats: keeps unique ids and emails only when the ids were already unique and the signed-in user is an entry of the list. `Date.now()` ids can collide, and a restored user can be missing from the restored list; then the source's `map` can replace entries of another user with that id.
- ReviewEndpoint.Serve: bounds the calls in a sweep by |keys| but does not say a sweep calls every key. A key already used in the sweep can be selected again and consume an attempt. How many keys a sweep reaches depends on the clock, so the 2-key, 6-call scenario is not stated for one concrete clock.
- ReviewEndpoint.SweepStep: one clock reading serves both the selection and the mark-used of an attempt, while the source reads `Date.now()` twice (`backend/server.js:22` and `:53`); the few milliseconds between them are not modelled.
- Auth.NextStats: scores are integers. A fractional JSON score such as 7.5, which `Math.round` in `updateStats` accepts, is not modelled.
- Dashboard.AvgScore: scores are integers. The mean of fractional scores is not modelled.
- FileUpload.DetectLanguageKnown: the table is a map with only the listed extensions. The JavaScript object also answers inherited names such as `constructor` with a truthy value, and such an extension (which the dropzone's accept filter makes hard to reach) is not modelled.
- localStorage writes (a reload is modelled only by the `AuthStore` constructor, which restores a saved NaN average as 0), `fetch`, toasts, the clipboard, the loading flag, all rendering and JSX, Chart.js configuration and PDF export are I/O and presentation.
- Text.Prefix: lengths count Unicode characters, not UTF-16 code units as JavaScript does. This also applies to History.Preview (`substring(0, 100)` and `length > 100`), ResponseCleanup.Fallback (`substring(0, 500)`) and ReviewEndpoint.KeyTail (`slice(-6)`). Text outside the Basic Multilingual Plane, such as emoji, is cut at a different place than in the source, and a cut that splits a surrogate pair cannot be represented.
