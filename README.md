# Execution orchestration core — a Dafny model

This project models the execution core of a decision-execution system.
Once an upstream decision is final, the core executes the decided action
under an execution policy. The policy sets the retries, the exponential
backoff, the total time budget and the idempotency settings.

The core's behaviour, in order:

- an operational kill switch in the context denies the execution;
- a decision that is not allowed is skipped;
- otherwise the executor is called until it succeeds, until the last
  permitted attempt has been made, or until the time budget is spent;
- the report is fail-closed when the time budget runs out, or when the last
  attempt raises.

The report projects into seven `exec.*` trace keys. Before logs leave the
process, secret-looking keys in them are redacted.

Modules, one file each:

- `Values` (values.dfy): the dynamic values carried in contexts and log
  payloads, and Python truthiness.
  - A Python dict is an ordered sequence of entries with string keys.
- `Policies` (policies.dfy): retry, timeout, idempotency and execution
  policies with their defaults, and the backoff delay.
  - The delay is computed on exact reals.
  - Python's `int(...)` becomes truncation toward zero (`Trunc`).
- `Model` (model.dfy): statuses, attempts, plans and reports, the
  consistency a finished report has, and the projection into the seven
  trace keys.
- `Trace` (trace.dfy): merging that projection into a caller's trace map.
- `Redaction` (redaction.dfy): key normalisation, the pattern set, and the
  recursive redaction of dictionaries and lists.
  - It is parameterised by the pattern set, so the dead `api_key` pattern
    can be stated as an equality of results.
- `Orchestrator` (orchestrator.dfy): `Execute`, with the retry loop as the
  method `ExecuteAction`.
  - The executor, the clock and sleeping are replaced by data.
  - `outcomes[n]` is what call `n` does: it returns success, returns
    failure with a message, or raises.
  - `elapsed[n]` is the clock reading before call `n`, and `latencies[n]`
    is the measured duration of call `n`.
  - `endElapsed` is the final clock reading.
  - The method returns the report, the number of executor calls and the
    sleeps it requested.
  - The loop is specified by two functions:
    - `LoopEndsAt` states how many calls the loop makes;
    - `ReportAfter` states which report those calls produce.
  - Lemmas about these two give the retry, budget and fail-closed
    guarantees for every executor and every clock.

Notes on how the model reads the code:

- The `Raise` outcome stands for any `Exception` raised by the executor
  call, including a return value that does not unpack into a pair.
  Exceptions raised elsewhere in the retry loop are listed under
  "## Left out".
- A sensitive key is redacted as a whole, even when its value is a
  dictionary; `NestedLogRedaction` states this.
  - The nested-secret test in `tests/test_invariant_exe_secret_hygiene.py`
    (lines 28-41) instead reads `["context"]["auth"]["api_key"]` and
    `["context"]["auth"]["username"]` after redaction.
  - `auth` is itself a sensitive key, so under the code as written its
    whole dictionary becomes the marker string. Both reads then index a
    string with a string key, which raises.
  - The model follows the code.
- `policies.py` uses `field(default_factory=...)` but imports only
  `dataclass` (line 3), so the module as written fails at import. The model
  gives `ExecutionPolicy` the evidently intended defaults: fresh default
  sub-policies.
- A negative multiplier can give negative delays:
  `NegativeMultiplierGivesNegativeBackoff` exhibits one. `BackoffBounds`
  proves delays non-negative for a non-negative initial delay, cap and
  multiplier. The code never sleeps for a delay that is not positive, so no
  harm follows.
- Delays grow from attempt 0 to attempt 1 only when `max_backoff_ms` is
  non-negative: with a cap of -1 the first retry's delay is
  `min(100, -1) = -1`, below the 0 of attempt 0.
  `BackoffMonotone` requires a non-negative cap for that step.

## Model

| member | source | states |
|---|---|---|
| Values.Truthy | execution_orchestration_core/orchestrator.py:50 | Python's truth value: false exactly for None, False, 0, the empty string, the empty list and the empty dict |
| Policies.RetryPolicy.BackoffMs | execution_orchestration_core/policies.py:15-28 | attempt 0 waits 0 ms; a retry waits at most max_backoff_ms, never longer than the exact delay `initial * multiplier^(n-1)` when that is non-negative; below the cap it waits exactly that delay truncated to whole milliseconds, and it waits the cap only when the truncated delay reaches it |
| Policies.Trunc | execution_orchestration_core/policies.py:28 | `int(x)` truncates toward zero: the result is within one of `x`, on the side of zero |
| Policies.DefaultPolicyValid | execution_orchestration_core/policies.py:6-54 | the record defaults are max_retries 3, initial 100 ms, cap 5000 ms, multiplier 2.0, per-action timeout 5000 ms, total budget 30000 ms, idempotency off with no key generator, concurrency 1, and they satisfy the policy constraints |
| Policies.BackoffFirstTwo | execution_orchestration_core/policies.py:15-28 | attempt 0 waits 0 ms; attempt 1 waits the initial backoff, capped |
| Policies.BackoffBounds | execution_orchestration_core/policies.py:25-28 | every retry delay is at most max_backoff_ms; with a non-negative initial delay, cap and multiplier no delay is negative |
| Policies.BackoffPositive | execution_orchestration_core/policies.py:25-28 | with positive initial delay and cap and a multiplier of at least 1, every retry delay is at least 1 ms |
| Policies.NegativeMultiplierGivesNegativeBackoff | execution_orchestration_core/policies.py:27-28 | a negative multiplier yields a negative delay (-200 ms for attempt 2 with multiplier -2.0) |
| Policies.BackoffMonotone | execution_orchestration_core/policies.py:25-28 | with a non-negative initial delay and a multiplier of at least 1, delays never decrease with the attempt number; from attempt 0 this also needs a non-negative max_backoff_ms |
| Policies.UncappedMonotone | execution_orchestration_core/policies.py:27 | with a non-negative initial delay and a multiplier of at least 1, the uncapped delay `initial * multiplier^e` is non-negative and grows with `e` |
| Policies.DefaultBackoffSchedule | execution_orchestration_core/policies.py:10-28 | the default policy waits 0, 100, 200, 400, 800, 1600, 3200 ms for attempts 0..6 and 5000 ms from attempt 7 on |
| Model.ExecutionReport.ToExternalDict | execution_orchestration_core/model.py:54-68 | exactly the seven `exec.*` keys, each holding the matching report field, and `exec.attempt_count` the number of rows |
| Model.CountStatus | execution_orchestration_core/model.py:42-52 | the count of rows with a status is at most the number of rows, and zero exactly when no row has that status |
| Model.ExecKeysCount | execution_orchestration_core/model.py:60-68 | the projection's seven keys are distinct |
| Model.StatusValuesDistinct | execution_orchestration_core/model.py:10-16 | the four statuses have four distinct string values: success, failed, skipped, denied |
| Model.DefaultReportIsEmpty | execution_orchestration_core/model.py:42-68 | a fresh report has no rows, is not fail-closed, is consistent and exports seven zero or false entries |
| Model.CountStatusAppend | execution_orchestration_core/model.py:42-52 | appending a row adds one to the count of its own status only |
| Model.OneRowCounts | execution_orchestration_core/model.py:42-52 | a single row is counted once, under its own status |
| Model.CountsPartitionRows | execution_orchestration_core/model.py:10-52 | the four status counts add up to the number of rows |
| Model.AttemptDefaults | execution_orchestration_core/model.py:19-28 | an attempt built without the optional fields has no error message and no idempotency key |
| Trace.AddExecutionTrace | execution_orchestration_core/trace.py:11-26 | the result's keys are the caller's keys plus the seven `exec.*` keys; report values win on a clash; every other caller entry is kept unchanged |
| Trace.ExecKeysWellFormed | execution_orchestration_core/trace.py:11-26 | every key the projection adds is `exec.` followed by one lower-case, dot-free segment |
| Trace.ExportIntoEmpty | execution_orchestration_core/trace.py:11-26 | exporting into an empty map yields exactly seven keys, all well-formed |
| Trace.AddedKeysWellFormed | execution_orchestration_core/trace.py:11-26 | every key the export adds to a caller's map is a well-formed `exec.*` key |
| Trace.ExportIdempotent | execution_orchestration_core/trace.py:24-25 | exporting the same report twice equals exporting it once |
| Redaction.NormalizeKey | execution_orchestration_core/redaction.py:35 | the normalised key has no `-`, no `_` and no upper-case letter, and is no longer than the key |
| Redaction.NormalizeKeeps | execution_orchestration_core/redaction.py:35 | normalisation keeps every character of the lower-cased key except `-` and `_`, each as often as it occurs |
| Redaction.NormalizeConcat | execution_orchestration_core/redaction.py:35 | normalisation works piecewise: the key `a + b` normalises to the normalised `a` followed by the normalised `b` |
| Redaction.NormalizeChar | execution_orchestration_core/redaction.py:35 | a single character normalises to nothing if it is `-` or `_`, and to its lower-case form otherwise; with the piecewise lemma, this fixes the normalised key of every key |
| Redaction.IsSensitive | execution_orchestration_core/redaction.py:37 | a key is sensitive only through a pattern without separators and no longer than the key |
| Redaction.ContainsAt | execution_orchestration_core/redaction.py:37 | the substring test `pattern in key` holds exactly when the pattern occurs in the key at some position |
| Redaction.SensitiveIffOccurs | execution_orchestration_core/redaction.py:35-37 | for every pattern set, a key is sensitive if and only if some pattern occurs in its normalised form |
| Redaction.RedactEntry | execution_orchestration_core/redaction.py:34-49 | the key is kept; a sensitive key's value becomes the marker; otherwise a dictionary keeps its keys in order, a list keeps its length and any other value is kept |
| Redaction.RedactWith | execution_orchestration_core/redaction.py:20-51 | `redact_execution_log` is `Redaction.Redact`, which is `RedactWith` over the fixed pattern set: a non-dictionary is returned unchanged; a dictionary keeps exactly its keys, in order |
| Redaction.RedactedEntryAt | execution_orchestration_core/redaction.py:34-49 | entry `i` of a redacted dictionary keeps its key and holds the marker if the key is sensitive, else the redacted dictionary, the element-wise redacted list, or the value itself |
| Redaction.RedactedItemAt | execution_orchestration_core/redaction.py:43-47 | a redacted list keeps length and order; dictionary elements are redacted, other elements (nested lists too) kept |
| Redaction.RedactIdempotent | execution_orchestration_core/redaction.py:20-51 | redacting twice equals redacting once |
| Redaction.RedactAgrees | execution_orchestration_core/redaction.py:35-37 | two pattern sets that classify every key alike redact every value alike |
| Redaction.ApiKeyPatternIsDead | execution_orchestration_core/redaction.py:12 | the pattern `api_key` never matches a normalised key, so removing it changes no classification and no redaction result |
| Redaction.NormalizeJoined | execution_orchestration_core/redaction.py:35 | a key whose lower-cased form is `a_b`, with separator-free parts, normalises to `ab` |
| Redaction.SensitiveKeyExamples | execution_orchestration_core/redaction.py:35-37 | API_KEY, Password, SECRET_TOKEN, api_key, password and token are sensitive; normal_field is not |
| Redaction.NestedLogKeys | execution_orchestration_core/redaction.py:35-37 | in the nested log, `auth` is sensitive while `context`, `normal` and `value` are not |
| Redaction.NestedLogRedaction | execution_orchestration_core/redaction.py:39-42 | inside a non-sensitive dictionary, a sensitive key's value, even a dictionary, is replaced wholesale by the marker, and a non-sensitive nested dictionary is kept entry by entry |
| Orchestrator.KillSwitchOn | execution_orchestration_core/orchestrator.py:50 | the kill switch is on exactly when the context holds `ops_deny_actions` with a value other than None, False, 0, the empty string, list or dict |
| Orchestrator.BuildPlan | execution_orchestration_core/orchestrator.py:66-73 | the plan holds the decision's single action and the policy's retry, budget, timeout and idempotency settings |
| Orchestrator.RequestedSleeps | execution_orchestration_core/orchestrator.py:112-115 | after `f` non-final failures at most `f` sleeps are requested, each positive and at most max_backoff_ms |
| Orchestrator.LoopEndsAtUnique | execution_orchestration_core/orchestrator.py:79-152 | the outcomes and clock readings determine the number of calls the retry loop makes |
| Orchestrator.ReportAfterSays | execution_orchestration_core/orchestrator.py:76-152 | the loop's report is consistent with at most one row, for the last call, with no idempotency key; it counts a success iff the last call succeeded, a failure iff the last permitted call did not; it is fail-closed iff the budget stopped the loop or the last permitted call raised; a budget stop records no row |
| Orchestrator.Execute | execution_orchestration_core/orchestrator.py:24-163 | the kill switch denies and wins over the decision; a disallowed decision is skipped; neither calls the executor. Otherwise: at most max_retries + 1 calls; the report is the loop's report with the final elapsed time as total latency; fail-closed exactly on a spent budget or an exception on the last attempt; the sleeps are the backoffs after non-final failures |
| Orchestrator.ExecuteAction | execution_orchestration_core/orchestrator.py:79-152 | the loop makes the calls `LoopEndsAt` describes, in attempt-number order, each within the budget and only after failures; it returns `ReportAfter` of those calls and the requested sleeps |
| Orchestrator.AlwaysFailingExhaustsRetries | execution_orchestration_core/orchestrator.py:112-127 | an executor that always fails within the budget is called max_retries + 1 times; one FAILED row for the last attempt carries its message; not fail-closed |
| Orchestrator.AlwaysRaisingFailsClosed | execution_orchestration_core/orchestrator.py:129-150 | an executor that always raises leaves the report fail-closed with no success; within the budget there is one FAILED row |
| Orchestrator.SpentBudgetFailsClosed | execution_orchestration_core/orchestrator.py:88-92 | a budget found spent before call `k`, with no success before, stops the loop after at most `k` calls with no row and fail-closed |
| Orchestrator.FirstCallSucceeds | execution_orchestration_core/orchestrator.py:99-109 | a first call that succeeds within the budget is the only call: one SUCCESS row for attempt 0 and no sleep |
| Orchestrator.SleepAfterEveryFailure | execution_orchestration_core/orchestrator.py:112-115 | with a positive initial delay and cap and a multiplier of at least 1, the failure of call `n` is followed by a sleep of exactly `backoff_ms(n + 1)` |
| Orchestrator.SleepsNonDecreasing | execution_orchestration_core/orchestrator.py:112-115 | with a non-negative initial delay and a multiplier of at least 1, the requested sleeps never decrease |
| Orchestrator.DefaultPolicySleeps | execution_orchestration_core/orchestrator.py:112-115 | under the default policy, three non-final failures are followed by sleeps of 100, 200 and 400 ms |
| Orchestrator.KillSwitchTruthiness | execution_orchestration_core/orchestrator.py:49-56 | the kill switch is on for true or a non-zero value, and off for false, zero or an absent key |

## Left out

- Logging calls and their messages: they have no effect on the report.
- The wall clock and `time.sleep`:
  - the clock readings are inputs;
  - the sleeps are returned as a list of requested delays.
- The executor:
  - each call's behaviour is an input (`outcomes`);
  - its side effects are not modelled.
- The outer catch-all around the whole execution (orchestrator.py:154-157): it logs an unexpected error and marks the report fail-closed. The model has no path into it; the two `Orchestrator.Execute` lines below name what reaches it in the source.
- Orchestrator.Execute: does not model two more exceptional paths.
  - An executor that raises something that is not an `Exception` (`KeyboardInterrupt`, `SystemExit`) is caught by neither handler (orchestrator.py:129, 154), so `execute` returns no report. `Execute` always returns one.
  - On the last attempt, an exception whose `str()` itself raises makes orchestrator.py:146 raise inside the handler. The outer catch-all then ends the execution fail-closed, with no row and `failed_count` 0. The model's `Raise(text)` always has a message, and records a FAILED row with `failedCount` 1.
- Orchestrator.Execute: does not model an exception raised by `backoff_ms` or `time.sleep` between attempts (orchestrator.py:113-115 and 135-137).
  - One trigger is float overflow of the delay: with multiplier 2.0, about a thousand retries in, the power or `int(inf)` raises.
  - Another is a sleep too long for the platform: with `initial_backoff_ms = max_backoff_ms = 10**13`, `time.sleep(1e10)` raises.
  - In the source, such an exception after a failure is caught at orchestrator.py:129. The handler computes and sleeps the same delay again, so it raises again, and that second exception escapes to the outer catch-all.
  - Either way the execution ends fail-closed with no row.
  - The model instead requests the sleep of the exact delay and goes on retrying, so it can end in SUCCESS and not fail-closed.
- Floating point: delays are computed on exact reals. IEEE rounding is not modelled.
- Policies.BackoffMs: takes a natural attempt number. A negative argument is never passed by the orchestrator and is not modelled.
- Unicode case folding: `Lower` folds ASCII letters only.
- Values.Value: covers null, booleans, integers, strings, lists and dictionaries with string keys. Floats, tuples, other objects and non-string keys are not modelled.
- `timeout_per_action_ms`, `key_generator` and `max_concurrency`: carried in the records, but the code never enforces them.
- Multi-action plans: a decision carries one action, so the plan holds one action and the loop runs once.
- The upstream decision schema types: modelled as an opaque action name plus the `allowed` flag and reasons.
- The `Valid` predicates of the policy records: the intended constraints on a policy, which the code does not check. `Execute` does not require them.
  - max_retries is non-negative.
  - The initial delay lies between 0 and the cap.
  - The multiplier is at least 1.
  - Both time limits are positive.
  - The concurrency is at least 1.
