# Stream Telecom balance exporter: a Dafny model of its polling core

The exporter polls a billing API for an account balance and republishes it as
a Prometheus gauge labelled by the account login. This project models the part
of `main.go` that is logic rather than plumbing:

- **the updater loop** (`startBalanceUpdater`). Each iteration picks a sleep:
  the retry interval while the failure flag `hasError` is set, the normal
  interval otherwise. Then it runs `loadBalance`. A success resets the flag
  and the failure counter `retryCount`. A failure sets the flag and counts
  the failure. Once the count reaches the retry limit, both are reset and the
  normal cadence resumes.
- **`loadBalance`**. It turns a fetch result into a balance through a parser
  and stores it in the gauge under the login. On a fetch or parse failure it
  returns the error and leaves the gauge alone.
- **`hideCredentials`**. It redacts a formatted message: first every
  occurrence of the login is replaced by `<stream-telecom-login>`, then every
  occurrence of the password by `<stream-telecom-password>`.
- **`readConfig`**. It reads `STREAM_TELECOM_LOGIN` and then
  `STREAM_TELECOM_PASSWORD` from the environment into the global credentials
  record, one field at a time.

Files and modules:

- `results.dfy`, module `Results`: `Option` and `Result`.
- `arith.dfy`, module `Arith`: small multiplication and remainder facts that the proofs need.
- `go_strings.dfy`, module `GoStrings`: Go's `strings.Replace(s, old, new, -1)`
  and `strings.Count`. Characters stand for runes. A non-empty target is
  replaced at each non-overlapping occurrence, left to right. An empty target
  inserts the replacement at all `|s| + 1` rune boundaries, as Go does. That
  case is reachable because an environment variable set to `""` is accepted.
- `redaction.dfy`, module `Redaction`: `HideCredentials`.
- `config.dfy`, module `Config`: the credentials record as a class.
  `ReadConfig` writes its fields step by step. `ReadConfigSpec` is the
  function that specifies it.
- `retry.dfy`, module `Retry`: the retry policy on values. It has the state,
  its invariant, one transition, a whole run (`Replay`), and the sleeps a run
  chooses (`Delays`).
- `balance.dfy`, module `Balance`: fetch results and outcomes, and the gauge
  as a `map<string, V>` over an abstract balance type `V`.
- `updater.dfy`, module `Updater`: class `BalanceUpdater` with fields
  `hasError`, `retryCount` and `gauge`. `LoadBalance` and `Iterate` update
  them in place. `Run` is the loop over a finite sequence of fetch results,
  proved against `Replay`, `PublishAll` and `Delays`.

Inputs that are not computed here become parameters:

- The network fetch (`loadBody`) is a `Fetch` value: a body line, or an error
  message that `loadBody` has already redacted.
- `strconv.ParseFloat` is an arbitrary parse function `string -> Result<V, string>`.
- The command-line flags and the credentials are constants of the updater
  object. They are fixed once start-up is over.

Where the intent and the code disagree, the model follows the code:

- The intent is that credentials never appear in log or error text and that
  placeholders appear instead. The code guarantees part of that. A password
  still present after the login pass always gets its placeholder
  (`HideInsertsPasswordPlaceholder`). A login gets its placeholder when the
  password does not occur in the text after the login pass
  (`HideInsertsLoginPlaceholder`, `HideBareLogin`). The code does not
  guarantee that no secret is left. A placeholder can reintroduce the login
  (`HideReintroducesLogin`, with the concrete instance `HideLeaksShortLogin`).
  The password pass also runs over the placeholder that the login pass
  inserted. When the password occurs in `<stream-telecom-login>`, that
  placeholder is itself rewritten (`HidePasswordInsidePlaceholder`).
- A configuration failure is not all-or-nothing. When the password is
  missing, the login has already been written to the credentials record.

## Model

| member | source | states |
|---|---|---|
| GoStrings.Replace | main.go:152-153 | `strings.Replace(s, old, new, -1)`. No contract of its own. It is characterised by ReplaceAbsent, ReplaceSelf, ReplaceLength, ReplaceWhole, ReplaceGrows and ReplaceInserts. |
| GoStrings.Count | main.go:152-153 | `strings.Count`, the number of replacements Replace makes. No contract of its own. It is characterised by CountPositive and ReplaceLength. |
| GoStrings.ReplaceAbsent | main.go:152-153 | With a non-empty target that does not occur, replacing returns the string unchanged and the count is zero. This is Go's early return when the count is 0. |
| GoStrings.CountPositive | main.go:152-153 | For a non-empty target, the non-overlapping count is positive exactly when the target occurs somewhere. |
| GoStrings.ReplaceSelf | main.go:152-153 | Replacing any target, empty or not, by itself gives back the input. So Go's `old == new` shortcut does not change the result. |
| GoStrings.ReplaceLength | main.go:152-153 | Output length is `|s| + Count(s, target) * (|rep| - |target|)`, for empty targets too, where the count is `|s| + 1`. |
| GoStrings.ReplaceWhole | main.go:152 | A string that is exactly a non-empty target becomes exactly the replacement. |
| GoStrings.ReplaceGrows | main.go:153 | Replacing a target that occurs by a longer string makes the result strictly longer. |
| GoStrings.ReplaceInserts | main.go:152-153 | Replacing a non-empty target that occurs in the string puts the replacement into the result. |
| Redaction.HideCredentials | main.go:150-156 | The login pass, then the password pass over its result. No contract of its own. It is characterised by HideUnmentioned, HideInsertsLoginPlaceholder, HideInsertsPasswordPlaceholder, HideBareLogin, HideReintroducesLogin, HideLeaksShortLogin and HidePasswordInsidePlaceholder. |
| Redaction.HideUnmentioned | main.go:150-156 | With a non-empty login and password, a message containing neither is returned unchanged. |
| Redaction.HideInsertsLoginPlaceholder | main.go:152-153 | A message containing a non-empty login comes out containing `<stream-telecom-login>`, provided the password, non-empty, does not occur in the text after the login pass. |
| Redaction.HideInsertsPasswordPlaceholder | main.go:153 | A non-empty password that occurs in the text after the login pass makes the redacted message contain `<stream-telecom-password>`. |
| Redaction.HideBareLogin | main.go:152-153 | For a non-empty login and a non-empty password that does not occur in `<stream-telecom-login>`, a message that is exactly the login becomes exactly that placeholder. |
| Redaction.HideReintroducesLogin | main.go:152-153 | If the login occurs inside `<stream-telecom-login>` and the password does not, redacting the bare login yields the placeholder. The login is still in it. |
| Redaction.HideLeaksShortLogin | main.go:150-156 | With login "l" and password "x", the redacted form of "l" still contains "l". |
| Redaction.HidePasswordInsidePlaceholder | main.go:152-153 | For a non-empty login and a password that occurs in `<stream-telecom-login>`, redacting a message that is the login does not yield that placeholder. The second pass rewrites the placeholder the first pass inserted. |
| Config.ReadConfigSpec | main.go:109-123 | Success exactly when both variables are present, with both values stored. Login missing: its error, nothing written. Login present, password missing: the login is written, then the password's error. Every error names an absent variable. |
| Config.Credentials.constructor | main.go:29 | The credentials record starts as the zero value, with both fields empty. |
| Config.Credentials.ReadConfig | main.go:109-123 | The record's new fields and the returned error are exactly `ReadConfigSpec` of the environment and the old fields. |
| Config.LoginErrorText | main.go:113 | The error for a missing login reads `environment "STREAM_TELECOM_LOGIN" is not set`. |
| Config.PasswordErrorText | main.go:119 | The error for a missing password reads `environment "STREAM_TELECOM_PASSWORD" is not set`. |
| Balance.Attempt | main.go:159-166 | One fetch and parse. A fetch error is passed on as is. A parse error becomes "Cannot parse balance: " plus the parser's error, with the credentials hidden. Otherwise the outcome is the parsed value. No contract of its own. It is used by LoadBalance, Iterate and Run. |
| Balance.Publish | main.go:164-168 | A failed outcome leaves the gauge unchanged. A success sets the login's entry to the parsed value, adding the label if new. No other label changes. |
| Balance.PublishAll | main.go:158-170 | The gauge after a run's outcomes are published in order. No contract of its own. It is characterised by PublishAllKeepsLastGood. |
| Balance.LastOk | main.go:158-170 | A run has no last good balance exactly when every outcome in it failed. |
| Balance.LastOkIsLatestSuccess | main.go:164-168 | A found last good balance is the value of a success in the run that only failures follow. |
| Balance.PublishAllKeepsLastGood | main.go:158-170 | After a run the gauge equals the old gauge with the login set to the latest successful balance. With no success it equals the old gauge. |
| Balance.PublishIdempotent | main.go:167 | Publishing the same balance twice equals publishing it once: no value change, no new label. |
| Retry.AfterFailure | main.go:136-142 | A failure keeps the invariant. It either counts one more failure with the flag set, or resets to `(false, 0)`. It resets exactly when the incremented count reaches the limit. |
| Retry.NextDelay | main.go:127-132 | The sleep chosen from the state: the retry interval when `hasError`, else the normal interval. No contract of its own. Iterate states it of the class fields, and DelaysAt, SmallLimitOnlyInterval and RetryIntervalExactlyWhileCounting state it over runs. |
| Retry.Transition | main.go:134-146 | A success resets to `(false, 0)` whatever the prior state. From a state satisfying the invariant, every outcome leads to one that does. |
| Retry.Replay | main.go:134-146 | The state after a run of loads, applied in order. No contract of its own. It is characterised by ReplayKeepsInv, ReplayCountsTrailingFailures, ConsecutiveFailuresCount, LimitReachedResets, FailuresArePeriodic and SmallLimitNeverCounts. |
| Retry.Delays | main.go:126-132 | A run chooses one sleep per iteration. |
| Retry.TrailingFailures | main.go:134-146 | The number of failures since the last success. It is the reference count used by ReplayCountsTrailingFailures and RetryIntervalExactlyWhileCounting. Its own contract only bounds it by the run length. |
| Retry.ReplayKeepsInv | main.go:125-148 | After any run from a state satisfying the invariant, `hasError` holds exactly when `retryCount > 0`, with `retryCount >= 0` and either 0 or below the limit. |
| Retry.CountedStep | main.go:136-142 | One failure takes the state for n counted failures to the state for n + 1, modulo the limit. |
| Retry.ReplayCountsTrailingFailures | main.go:134-146 | For a positive limit, from a reset or after a success, the state is `(t % limit > 0, t % limit)`. Here t is the number of failures since the last success. |
| Retry.ConsecutiveFailuresCount | main.go:134-142 | From `(false, 0)`, k consecutive failures with k below the limit give `(k > 0, k)`. |
| Retry.LimitReachedResets | main.go:137-141 | The limit-th consecutive failure from a reset returns the state to `(false, 0)`. |
| Retry.FailuresArePeriodic | main.go:134-142 | Under continuous failure the state after k + limit failures equals the state after k. |
| Retry.SmallLimitNeverCounts | main.go:137-141 | With a limit of at most 1, every run from a valid state ends in `(false, 0)`. |
| Retry.DelaysAt | main.go:126-133 | Sleep i of a run is the one selected by the state after the first i loads. |
| Retry.SmallLimitOnlyInterval | main.go:127-141 | With a limit of at most 1, every sleep of a run from a reset is the normal interval. The retry interval is never used. |
| Retry.RetryIntervalExactlyWhileCounting | main.go:127-132 | From a reset, sleep i is the retry interval when the failures since the last success, modulo the limit, are nonzero. Otherwise it is the normal interval. |
| Retry.CounterFitsInt64 | main.go:32 | Under the invariant and a limit that is a Go `int`, `retryCount++` cannot overflow 64 bits. |
| Updater.BalanceUpdater.constructor | main.go:28-33 | The updater starts with `hasError = false`, `retryCount = 0`, an empty gauge and the given settings. |
| Updater.BalanceUpdater.LoadBalance | main.go:158-171 | The gauge becomes `Publish` of the attempt's outcome. The returned error is present exactly when the outcome is a failure, and it is that outcome's message. |
| Updater.BalanceUpdater.Iterate | main.go:126-146 | The sleep is the retry interval exactly when `hasError` was set. The returned error is exactly the message that main.go:135 logs: the fetch error, or the redacted parse error, and none on success. The state becomes `Transition` of the outcome, and the gauge becomes `Publish` of it. The invariant is kept, and success resets. The limit notice is raised exactly when a failure makes the count reach the limit. |
| Updater.BalanceUpdater.Run | main.go:125-148 | After a finite run the state is `Replay` of the failure flags, the gauge is `PublishAll` of the outcomes, and the sleeps are `Delays`. The invariant holds after every iteration. |
| Updater.OutageFallsBack | main.go:134-146 | Exactly `limit` failed loads from a reset return to `(false, 0)`, so the normal interval is next. The gauge keeps its previous value. |

## Left out

- `main`: logging the version, the HTTP server, route registration, the static page, signal handling and graceful shutdown. These are I/O and concurrency. So is the start-up order (readConfig, then one loadBalance that must succeed, then the loop).
- `loadBody`: the HTTP client, the request URL and query, the 2-second timeout and reading the first line. This is network I/O. Its result is the `Fetch` input, and its error messages are taken as already redacted.
- `strconv.ParseFloat` and the float balance: floating point. It is an abstract parse function over an abstract value type.
- The Prometheus `GaugeVec`, its registration and `promhttp`: foreign library calls. The gauge is a plain map from label to value.
- `time.Sleep`: only the chosen delay is modelled, not the waiting.
- `fmt.Sprintf` in `hideCredentials`: the message arrives already formatted. For the parse error, `%s` of a string is modelled as concatenation.
- Log output, including the "will retry" and "limit exceeded" lines. `Iterate` returns the chosen delay, the error and whether the limit was exceeded.
- `flag.Parse` and the version information. The flags are constructor parameters.
- The unbounded `for` loop is a loop over a finite sequence of fetch results. Any prefix of an infinite run is covered.
- Concurrent reads of the gauge by HTTP handlers. This is synchronisation inside the metrics library.
- GoStrings.Replace: strings are taken to be valid UTF-8, one character per rune. Go's handling of invalid UTF-8 is not modelled, for empty or non-empty targets. Go matches non-empty targets byte by byte, and environment values can be any bytes.
