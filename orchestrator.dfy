/**
 * The orchestrator: gating by the kill switch and by the decision, then the
 * retry loop with a total-time budget, exponential backoff between attempts
 * and fail-closed marking, all recorded in one report.
 *
 * The executor, the wall clock and sleeping are not part of this model.
 * They become inputs and outputs of `Execute`:
 *  - `outcomes[n]` is what the executor does on the call with attempt number `n`;
 *  - `elapsed[n]` is the elapsed time, since the start of the execution, read
 *    at the top of the iteration with attempt number `n`;
 *  - `latencies[n]` is the measured duration of call `n`;
 *  - `endElapsed` is the elapsed time read once the loop is over;
 *  - `calls` counts the calls of the executor, and `sleeps` lists, in order,
 *    the backoff sleeps the execution requests.
 */
module Orchestrator {
  import opened Values
  import opened Policies
  import opened Model

  /** What one call of the executor does. */
  datatype Outcome =
    | Ok                            // returns (True, _)
    | Fail(message: Option<string>) // returns (False, message)
    | Raise(text: string)           // raises; `text` is the exception's message

  /** The error message a FAILED row records for a failing outcome. */
  function ErrorMessage(o: Outcome): Option<string>
  {
    match o
    case Ok => None
    case Fail(m) => m
    case Raise(m) => Some(m)
  }

  /** The operational kill switch of the context. */
  const KILL_SWITCH: string := "ops_deny_actions"

  /** The kill switch is on when the context holds a truthy value under its key. */
  predicate KillSwitchOn(context: map<string, Value>)
    ensures KillSwitchOn(context) <==>
              && KILL_SWITCH in context
              && context[KILL_SWITCH] !in {Null, Bool(false), Int(0), Str(""), List([]), Dict([])}
  {
    KILL_SWITCH in context && Truthy(context[KILL_SWITCH])
  }

  /** Neither the kill switch nor the decision stops the execution before the retry loop. */
  predicate Proceeds(decision: FinalDecision, context: map<string, Value>)
  {
    !KillSwitchOn(context) && decision.allowed
  }

  /**
   * The plan of one execution: the decision's single action, and the bounds
   * taken from the policy.
   */
  function BuildPlan(decision: FinalDecision, policy: ExecutionPolicy): (plan: ExecutionPlan)
    ensures plan.actions == [decision.action]
    ensures plan.maxRetries == policy.retry.maxRetries
    ensures plan.maxTotalTimeMs == policy.timeout.maxTotalTimeMs
    ensures plan.timeoutPerActionMs == policy.timeout.timeoutPerActionMs
    ensures plan.idempotencyEnabled == policy.idempotency.enabled
  {
    ExecutionPlan(
      actions := [decision.action],
      maxRetries := policy.retry.maxRetries,
      maxTotalTimeMs := policy.timeout.maxTotalTimeMs,
      timeoutPerActionMs := policy.timeout.timeoutPerActionMs,
      idempotencyEnabled := policy.idempotency.enabled)
  }

  /**
   * The sleeps requested after `failures` failed calls that were not the
   * last permitted one: after the failure of call `n` the orchestrator waits
   * `BackoffMs(n + 1)`, and does not sleep when that delay is not positive.
   */
  function RequestedSleeps(retry: RetryPolicy, failures: nat): (s: seq<int>)
    ensures |s| <= failures
    ensures forall i :: 0 <= i < |s| ==> 0 < s[i] <= retry.maxBackoffMs
  {
    if failures == 0 then []
    else
      var b := retry.BackoffMs(failures);
      BackoffBounds(retry, failures);
      RequestedSleeps(retry, failures - 1) + (if b > 0 then [b] else [])
  }

  /** The number of failed calls after which a sleep was due: all but a final one. */
  function NonFinalFailures(maxRetries: int, outcomes: seq<Outcome>, calls: nat): nat
    requires calls <= |outcomes|
  {
    if calls > 0 && (outcomes[calls - 1].Ok? || calls - 1 == maxRetries) then calls - 1 else calls
  }

  /**
   * The retry loop stopped on the time budget: the check before call `calls`
   * found the budget spent, with retries left and no success before.
   */
  predicate StoppedOnBudget(maxRetries: int, maxTotalTimeMs: int, outcomes: seq<Outcome>, elapsed: seq<int>, calls: nat)
    requires calls <= |outcomes| && maxRetries < |elapsed|
  {
    calls <= maxRetries && elapsed[calls] >= maxTotalTimeMs && !(calls > 0 && outcomes[calls - 1].Ok?)
  }

  /**
   * The retry loop, run on `outcomes` and `elapsed`, ends after exactly
   * `calls` calls: there is no call without retries left, each call is made
   * within the time budget and after failures only, and the loop ends on a
   * success, on the last permitted call or on a spent budget.
   */
  predicate LoopEndsAt(maxRetries: int, maxTotalTimeMs: int, outcomes: seq<Outcome>, elapsed: seq<int>, calls: nat)
    requires maxRetries < |outcomes| && maxRetries < |elapsed|
  {
    && (if maxRetries < 0 then calls == 0 else calls <= maxRetries + 1)
    && (forall n :: 0 <= n < calls ==> elapsed[n] < maxTotalTimeMs)
    && (forall n :: 0 <= n < calls - 1 ==> !outcomes[n].Ok?)
    && (maxRetries >= 0 ==>
          || calls == maxRetries + 1
          || (calls > 0 && outcomes[calls - 1].Ok?)
          || StoppedOnBudget(maxRetries, maxTotalTimeMs, outcomes, elapsed, calls))
  }

  /** The number of calls of the retry loop is determined by the outcomes and the clock. */
  lemma LoopEndsAtUnique(maxRetries: int, maxTotalTimeMs: int, outcomes: seq<Outcome>, elapsed: seq<int>, c: nat, d: nat)
    requires maxRetries < |outcomes| && maxRetries < |elapsed|
    requires LoopEndsAt(maxRetries, maxTotalTimeMs, outcomes, elapsed, c)
    requires LoopEndsAt(maxRetries, maxTotalTimeMs, outcomes, elapsed, d)
    ensures c == d
  {
    if c < d {
      NoEndBefore(maxRetries, maxTotalTimeMs, outcomes, elapsed, c, d);
    } else if d < c {
      NoEndBefore(maxRetries, maxTotalTimeMs, outcomes, elapsed, d, c);
    }
  }

  /** When the loop makes `d` calls it did not end after fewer. */
  lemma NoEndBefore(maxRetries: int, maxTotalTimeMs: int, outcomes: seq<Outcome>, elapsed: seq<int>, c: nat, d: nat)
    requires maxRetries < |outcomes| && maxRetries < |elapsed|
    requires LoopEndsAt(maxRetries, maxTotalTimeMs, outcomes, elapsed, d)
    requires c < d
    ensures !LoopEndsAt(maxRetries, maxTotalTimeMs, outcomes, elapsed, c)
  {
    if c > 0 {
      assert !outcomes[c - 1].Ok?;
    }
    assert elapsed[c] < maxTotalTimeMs;
  }

  /**
   * The report of the retry loop for `action` once `calls` calls were made:
   * a SUCCESS row when the last call succeeded, a FAILED row when the last
   * permitted call failed (fail-closed if it raised), and no row otherwise,
   * fail-closed exactly when the loop stopped on the time budget.
   */
  function ReportAfter(action: Action, plan: ExecutionPlan, outcomes: seq<Outcome>, elapsed: seq<int>,
                       latencies: seq<int>, calls: nat): ExecutionReport
    requires calls <= |outcomes| && calls <= |latencies| && plan.maxRetries < |elapsed|
  {
    if calls > 0 && outcomes[calls - 1].Ok? then
      ExecutionReport(attempts := [ExecutionAttempt(action, Success, calls - 1, latencies[calls - 1])],
                      successCount := 1)
    else if calls > 0 && calls - 1 == plan.maxRetries then
      ExecutionReport(attempts := [ExecutionAttempt(action, Failed, calls - 1, latencies[calls - 1],
                                                    ErrorMessage(outcomes[calls - 1]))],
                      failedCount := 1,
                      failClosed := outcomes[calls - 1].Raise?)
    else
      ExecutionReport(failClosed := StoppedOnBudget(plan.maxRetries, plan.maxTotalTimeMs, outcomes, elapsed, calls))
  }

  /**
   * What the report of the retry loop says: it is consistent and holds at
   * most one row, for the last call; it counts a success exactly when the
   * last call succeeded and a failure exactly when the last permitted call
   * did not; it is fail-closed exactly when the time budget stopped the loop
   * or the last permitted call raised; no row carries an idempotency key.
   */
  lemma ReportAfterSays(action: Action, plan: ExecutionPlan, outcomes: seq<Outcome>, elapsed: seq<int>,
                        latencies: seq<int>, calls: nat)
    requires calls <= |outcomes| && calls <= |latencies| && plan.maxRetries < |elapsed|
    requires calls == 0 || calls <= plan.maxRetries + 1
    ensures var r := ReportAfter(action, plan, outcomes, elapsed, latencies, calls);
      && |r.attempts| <= 1 && r.Consistent()
      && r.totalLatencyMs == 0 && r.skippedCount == 0 && r.deniedCount == 0
      && (forall a :: a in r.attempts ==>
            a.action == action && a.idempotencyKey == None && a.attemptNumber == calls - 1)
      && (r.successCount == 1 <==> calls > 0 && outcomes[calls - 1].Ok?)
      && (r.failedCount == 1 <==> calls > 0 && calls - 1 == plan.maxRetries && !outcomes[calls - 1].Ok?)
      && (r.failClosed <==>
            || StoppedOnBudget(plan.maxRetries, plan.maxTotalTimeMs, outcomes, elapsed, calls)
            || (calls > 0 && calls - 1 == plan.maxRetries && outcomes[calls - 1].Raise?))
      && (StoppedOnBudget(plan.maxRetries, plan.maxTotalTimeMs, outcomes, elapsed, calls) ==> r.attempts == [])
  {
    var r := ReportAfter(action, plan, outcomes, elapsed, latencies, calls);
    if calls > 0 && outcomes[calls - 1].Ok? {
      OneRowCounts(r.attempts[0]);
    } else if calls > 0 && calls - 1 == plan.maxRetries {
      OneRowCounts(r.attempts[0]);
    } else {
      assert r.attempts == [];
    }
  }

  /**
   * Executes one decided action under `policy` and returns the report, the
   * number of executor calls made and the sleeps requested.
   */
  method Execute(
    decision: FinalDecision,
    context: map<string, Value>,
    policy: ExecutionPolicy,
    outcomes: seq<Outcome>,
    elapsed: seq<int>,
    latencies: seq<int>,
    endElapsed: int)
    returns (report: ExecutionReport, calls: nat, sleeps: seq<int>)
    requires |outcomes| > policy.retry.maxRetries
    requires |elapsed| > policy.retry.maxRetries
    requires |latencies| > policy.retry.maxRetries
    // boundedness: at most max_retries + 1 calls, at most one recorded row
    ensures calls <= |outcomes| && (calls == 0 || calls <= policy.retry.maxRetries + 1)
    ensures |report.attempts| <= 1 && report.Consistent()
    // the retry loop: calls in attempt-number order, within the budget, until it ends
    ensures Proceeds(decision, context) ==>
              LoopEndsAt(policy.retry.maxRetries, policy.timeout.maxTotalTimeMs, outcomes, elapsed, calls)
    ensures Proceeds(decision, context) ==>
              report == ReportAfter(decision.action, BuildPlan(decision, policy), outcomes, elapsed, latencies, calls)
                          .(totalLatencyMs := endElapsed)
    ensures forall a :: a in report.attempts ==>
              a.action == decision.action && a.idempotencyKey == None && a.attemptNumber == calls - 1
    // a success is recorded as one SUCCESS row and stops the retries
    ensures report.successCount == 1 <==> calls > 0 && outcomes[calls - 1].Ok?
    // a FAILED row is recorded only for a failure of the last permitted attempt
    ensures report.failedCount == 1 <==>
              calls > 0 && calls - 1 == policy.retry.maxRetries && !outcomes[calls - 1].Ok?
    // fail-closed exactly on a spent time budget or an exception on the last attempt
    ensures report.failClosed <==>
              || (Proceeds(decision, context) &&
                  StoppedOnBudget(policy.retry.maxRetries, policy.timeout.maxTotalTimeMs, outcomes, elapsed, calls))
              || (calls > 0 && calls - 1 == policy.retry.maxRetries && outcomes[calls - 1].Raise?)
    // a stop on the time budget records no row
    ensures Proceeds(decision, context) &&
            StoppedOnBudget(policy.retry.maxRetries, policy.timeout.maxTotalTimeMs, outcomes, elapsed, calls) ==>
              report.attempts == []
    // backoff: one sleep of BackoffMs(n + 1) after each non-final failure of call n
    ensures sleeps == RequestedSleeps(policy.retry, NonFinalFailures(policy.retry.maxRetries, outcomes, calls))
    // gating: the kill switch wins over the decision; neither calls the executor
    ensures KillSwitchOn(context) ==>
              report == ExecutionReport(deniedCount := 1) && calls == 0 && sleeps == []
    ensures !KillSwitchOn(context) && !decision.allowed ==>
              report == ExecutionReport(skippedCount := 1) && calls == 0 && sleeps == []
  {
    if KillSwitchOn(context) {
      report, calls, sleeps := ExecutionReport(attempts := [], deniedCount := 1, failClosed := false), 0, [];
      return;
    }
    if !decision.allowed {
      report, calls, sleeps := ExecutionReport(attempts := [], skippedCount := 1, failClosed := false), 0, [];
      return;
    }

    var plan := BuildPlan(decision, policy);
    report, calls, sleeps := ExecuteAction(plan.actions[0], plan, policy.retry, outcomes, elapsed, latencies);
    ReportAfterSays(decision.action, plan, outcomes, elapsed, latencies, calls);
    report := report.(totalLatencyMs := endElapsed);
  }

  /**
   * The retry loop for one action of `plan`, starting from an empty report:
   * before each call the elapsed time is checked against the total budget; a
   * success is recorded and ends the loop; a failure or an exception before
   * the last permitted attempt requests a backoff sleep, and one on the last
   * attempt is recorded as FAILED, an exception also marking the report
   * fail-closed.
   */
  method ExecuteAction(
    action: Action,
    plan: ExecutionPlan,
    retry: RetryPolicy,
    outcomes: seq<Outcome>,
    elapsed: seq<int>,
    latencies: seq<int>)
    returns (report: ExecutionReport, calls: nat, sleeps: seq<int>)
    requires |outcomes| > plan.maxRetries
    requires |elapsed| > plan.maxRetries
    requires |latencies| > plan.maxRetries
    ensures LoopEndsAt(plan.maxRetries, plan.maxTotalTimeMs, outcomes, elapsed, calls)
    ensures calls <= |outcomes| && calls <= |latencies|
    ensures report == ReportAfter(action, plan, outcomes, elapsed, latencies, calls)
    ensures sleeps == RequestedSleeps(retry, NonFinalFailures(plan.maxRetries, outcomes, calls))
  {
    report, calls, sleeps := ExecutionReport(), 0, [];
    var attemptNumber: nat := 0;
    while attemptNumber <= plan.maxRetries
      decreases plan.maxRetries + 1 - attemptNumber
      invariant attemptNumber == 0 || attemptNumber <= plan.maxRetries + 1
      invariant calls == attemptNumber
      invariant forall n :: 0 <= n < attemptNumber ==> elapsed[n] < plan.maxTotalTimeMs && !outcomes[n].Ok?
      invariant attemptNumber <= plan.maxRetries || attemptNumber == 0 ==> report == ExecutionReport()
      invariant 0 < attemptNumber == plan.maxRetries + 1 ==>
                  report == ExecutionReport(
                    attempts := [ExecutionAttempt(action, Failed, attemptNumber - 1, latencies[attemptNumber - 1],
                                                  ErrorMessage(outcomes[attemptNumber - 1]))],
                    failedCount := 1,
                    failClosed := outcomes[attemptNumber - 1].Raise?)
      invariant sleeps == RequestedSleeps(retry, if attemptNumber <= plan.maxRetries || attemptNumber == 0 then attemptNumber else attemptNumber - 1)
    {
      if elapsed[attemptNumber] >= plan.maxTotalTimeMs {
        report := report.(failClosed := true);
        break;
      }
      calls := calls + 1;
      var latency := latencies[attemptNumber];
      match outcomes[attemptNumber] {
        case Ok =>
          report := report.(
            attempts := report.attempts + [ExecutionAttempt(action, Success, attemptNumber, latency)],
            successCount := report.successCount + 1);
          break;
        case Fail(message) =>
          if attemptNumber < plan.maxRetries {
            var backoff := retry.BackoffMs(attemptNumber + 1);
            if backoff > 0 {
              sleeps := sleeps + [backoff];
            }
          } else {
            report := report.(
              attempts := report.attempts + [ExecutionAttempt(action, Failed, attemptNumber, latency, message)],
              failedCount := report.failedCount + 1);
          }
        case Raise(message) =>
          if attemptNumber < plan.maxRetries {
            var backoff := retry.BackoffMs(attemptNumber + 1);
            if backoff > 0 {
              sleeps := sleeps + [backoff];
            }
          } else {
            report := report.(
              attempts := report.attempts + [ExecutionAttempt(action, Failed, attemptNumber, latency, Some(message))],
              failedCount := report.failedCount + 1,
              failClosed := true);
          }
      }
      attemptNumber := attemptNumber + 1;
    }
  }

  /**
   * An executor that always returns a failure within the budget is called
   * max_retries + 1 times, and the report holds one FAILED row, for the last
   * attempt, with the executor's message; it is not fail-closed.
   */
  lemma AlwaysFailingExhaustsRetries(action: Action, plan: ExecutionPlan, outcomes: seq<Outcome>,
                                     elapsed: seq<int>, latencies: seq<int>, calls: nat)
    requires 0 <= plan.maxRetries < |outcomes| && plan.maxRetries < |elapsed| && plan.maxRetries < |latencies|
    requires forall n :: 0 <= n <= plan.maxRetries ==> outcomes[n].Fail? && elapsed[n] < plan.maxTotalTimeMs
    requires LoopEndsAt(plan.maxRetries, plan.maxTotalTimeMs, outcomes, elapsed, calls)
    ensures calls == plan.maxRetries + 1
    ensures ReportAfter(action, plan, outcomes, elapsed, latencies, calls) ==
              ExecutionReport(attempts := [ExecutionAttempt(action, Failed, plan.maxRetries, latencies[plan.maxRetries],
                                                            outcomes[plan.maxRetries].message)],
                              failedCount := 1)
  {
    assert calls > 0 ==> outcomes[calls - 1].Fail?;
  }

  /**
   * An executor that always raises leaves the report fail-closed and without
   * a success, whatever the clock says; within the budget the report also
   * holds one FAILED row.
   */
  lemma AlwaysRaisingFailsClosed(action: Action, plan: ExecutionPlan, outcomes: seq<Outcome>,
                                 elapsed: seq<int>, latencies: seq<int>, calls: nat)
    requires 0 <= plan.maxRetries < |outcomes| && plan.maxRetries < |elapsed| && plan.maxRetries < |latencies|
    requires forall n :: 0 <= n <= plan.maxRetries ==> outcomes[n].Raise?
    requires LoopEndsAt(plan.maxRetries, plan.maxTotalTimeMs, outcomes, elapsed, calls)
    ensures ReportAfter(action, plan, outcomes, elapsed, latencies, calls).failClosed
    ensures ReportAfter(action, plan, outcomes, elapsed, latencies, calls).successCount == 0
    ensures (forall n :: 0 <= n <= plan.maxRetries ==> elapsed[n] < plan.maxTotalTimeMs) ==>
              && ReportAfter(action, plan, outcomes, elapsed, latencies, calls).failedCount == 1
              && ReportAfter(action, plan, outcomes, elapsed, latencies, calls).attempts[0].status == Failed
  {
    if calls > 0 {
      assert outcomes[calls - 1].Raise?;
    }
  }

  /**
   * When the budget is found spent before call `k` and no call before it
   * succeeded, the loop makes at most `k` calls, records no row and the
   * report is fail-closed.
   */
  lemma SpentBudgetFailsClosed(action: Action, plan: ExecutionPlan, outcomes: seq<Outcome>,
                               elapsed: seq<int>, latencies: seq<int>, calls: nat, k: nat)
    requires plan.maxRetries < |outcomes| && plan.maxRetries < |elapsed| && plan.maxRetries < |latencies|
    requires k <= plan.maxRetries && elapsed[k] >= plan.maxTotalTimeMs
    requires forall n :: 0 <= n < k ==> !outcomes[n].Ok?
    requires LoopEndsAt(plan.maxRetries, plan.maxTotalTimeMs, outcomes, elapsed, calls)
    ensures calls <= k
    ensures ReportAfter(action, plan, outcomes, elapsed, latencies, calls) ==
              ExecutionReport(failClosed := true)
  {
    if calls > 0 {
      assert !outcomes[calls - 1].Ok?;
    }
  }

  /**
   * An executor that succeeds on the first call within the budget is called
   * once: one SUCCESS row for attempt 0, no idempotency key, no sleep.
   */
  lemma FirstCallSucceeds(action: Action, plan: ExecutionPlan, retry: RetryPolicy, outcomes: seq<Outcome>,
                          elapsed: seq<int>, latencies: seq<int>, calls: nat)
    requires 0 <= plan.maxRetries < |outcomes| && plan.maxRetries < |elapsed| && plan.maxRetries < |latencies|
    requires outcomes[0].Ok? && elapsed[0] < plan.maxTotalTimeMs
    requires LoopEndsAt(plan.maxRetries, plan.maxTotalTimeMs, outcomes, elapsed, calls)
    ensures calls == 1
    ensures ReportAfter(action, plan, outcomes, elapsed, latencies, calls) ==
              ExecutionReport(attempts := [ExecutionAttempt(action, Success, 0, latencies[0])], successCount := 1)
    ensures RequestedSleeps(retry, NonFinalFailures(plan.maxRetries, outcomes, calls)) == []
  {
  }

  /**
   * With a positive initial delay and cap and a multiplier of at least one,
   * every non-final failure of call `n` is followed by a sleep of exactly
   * `BackoffMs(n + 1)`.
   */
  lemma {:induction false} SleepAfterEveryFailure(retry: RetryPolicy, failures: nat)
    requires retry.initialBackoffMs >= 1 && retry.maxBackoffMs >= 1 && retry.backoffMultiplier >= 1.0
    ensures |RequestedSleeps(retry, failures)| == failures
    ensures forall n :: 0 <= n < failures ==> RequestedSleeps(retry, failures)[n] == retry.BackoffMs(n + 1)
  {
    if failures > 0 {
      SleepAfterEveryFailure(retry, failures - 1);
      BackoffPositive(retry, failures);
    }
  }

  /**
   * With a non-negative initial delay and a multiplier of at least one, the
   * requested sleeps never shrink, and none exceeds the delay for the
   * latest retry.
   */
  lemma {:induction false} SleepsNonDecreasing(retry: RetryPolicy, failures: nat)
    requires retry.initialBackoffMs >= 0 && retry.backoffMultiplier >= 1.0
    ensures forall i, j :: 0 <= i <= j < |RequestedSleeps(retry, failures)| ==>
              RequestedSleeps(retry, failures)[i] <= RequestedSleeps(retry, failures)[j]
    ensures failures >= 1 ==>
              forall i :: 0 <= i < |RequestedSleeps(retry, failures)| ==>
                RequestedSleeps(retry, failures)[i] <= retry.BackoffMs(failures)
  {
    if failures > 0 {
      SleepsNonDecreasing(retry, failures - 1);
      if failures > 1 {
        BackoffMonotone(retry, failures - 1, failures);
      }
    }
  }

  /** With the default policy, three non-final failures are followed by sleeps of 100, 200 and 400 ms. */
  lemma DefaultPolicySleeps()
    ensures RequestedSleeps(RetryPolicy(), 3) == [100, 200, 400]
  {
    DefaultBackoffSchedule(1);
    DefaultBackoffSchedule(2);
    DefaultBackoffSchedule(3);
  }

  /** The kill switch reads the context's truthiness: true or non-zero denies, absent, false or zero does not. */
  lemma KillSwitchTruthiness(context: map<string, Value>)
    ensures KillSwitchOn(context[KILL_SWITCH := Bool(true)])
    ensures KillSwitchOn(context[KILL_SWITCH := Int(1)])
    ensures !KillSwitchOn(context[KILL_SWITCH := Bool(false)])
    ensures !KillSwitchOn(context[KILL_SWITCH := Int(0)])
    ensures KILL_SWITCH !in context ==> !KillSwitchOn(context)
  {
  }
}
