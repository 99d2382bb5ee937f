/**
 * The records produced by one execution: status, attempt, plan and report,
 * and the projection of a report into its seven `exec.*` trace keys.
 */
module Model {
  import opened Values

  /**
   * The unit of work a decision authorises. It is defined by the upstream
   * decision schema, which is not part of this model; here it is an opaque name.
   */
  datatype Action = Action(name: string)

  /** The upstream verdict this core executes: an action, allowed or not, with reasons. */
  datatype FinalDecision = FinalDecision(action: Action, allowed: bool, reasons: seq<string>)

  /** Terminal classification of one attempt, or of a zero-attempt outcome. */
  datatype ExecutionStatus = Success | Failed | Skipped | Denied
  {
    /** The string value of the enum member. */
    function Value(): string
    {
      match this
      case Success => "success"
      case Failed => "failed"
      case Skipped => "skipped"
      case Denied => "denied"
    }
  }

  /** One physical call of the executor that the report records. */
  datatype ExecutionAttempt = ExecutionAttempt(
    action: Action,
    status: ExecutionStatus,
    attemptNumber: int,
    latencyMs: int,
    errorMessage: Option<string> := None,
    idempotencyKey: Option<string> := None)

  /** The actions of one execution together with the bounds resolved from the policy. */
  datatype ExecutionPlan = ExecutionPlan(
    actions: seq<Action>,
    maxRetries: int,
    maxTotalTimeMs: int,
    timeoutPerActionMs: int,
    idempotencyEnabled: bool := false)

  /** The accumulator one execution fills in and hands back. */
  datatype ExecutionReport = ExecutionReport(
    attempts: seq<ExecutionAttempt> := [],
    totalLatencyMs: int := 0,
    successCount: int := 0,
    failedCount: int := 0,
    skippedCount: int := 0,
    deniedCount: int := 0,
    failClosed: bool := false)
  {
    /**
     * The report as trace-extension entries: the six report fields under
     * their `exec.*` names, plus the number of recorded attempts.
     */
    function ToExternalDict(): (d: map<string, Value>)
      ensures d.Keys == ExecKeys
      ensures d[TOTAL_LATENCY_MS] == Int(totalLatencyMs)
      ensures d[SUCCESS_COUNT] == Int(successCount)
      ensures d[FAILED_COUNT] == Int(failedCount)
      ensures d[SKIPPED_COUNT] == Int(skippedCount)
      ensures d[DENIED_COUNT] == Int(deniedCount)
      ensures d[FAIL_CLOSED] == Bool(failClosed)
      ensures d[ATTEMPT_COUNT] == Int(|attempts|)
    {
      map[TOTAL_LATENCY_MS := Int(totalLatencyMs),
          SUCCESS_COUNT := Int(successCount),
          FAILED_COUNT := Int(failedCount),
          SKIPPED_COUNT := Int(skippedCount),
          DENIED_COUNT := Int(deniedCount),
          FAIL_CLOSED := Bool(failClosed),
          ATTEMPT_COUNT := Int(|attempts|)]
    }

    /**
     * The intended consistency of a finished report, not checked by the
     * code: the two counters match the recorded rows, every row is SUCCESS
     * or FAILED, skipped and denied are 0 or 1, exclude each other and
     * exclude any attempt.
     */
    predicate Consistent()
    {
      && successCount == CountStatus(attempts, Success)
      && failedCount == CountStatus(attempts, Failed)
      && successCount + failedCount == |attempts|
      && skippedCount in {0, 1} && deniedCount in {0, 1}
      && skippedCount + deniedCount <= 1
      && (skippedCount == 1 || deniedCount == 1 ==> attempts == [])
    }
  }

  /** The number of rows with status `s`. */
  function CountStatus(attempts: seq<ExecutionAttempt>, s: ExecutionStatus): (n: nat)
    ensures n <= |attempts|
    ensures n == 0 <==> forall i :: 0 <= i < |attempts| ==> attempts[i].status != s
  {
    if attempts == [] then 0
    else
      var last := |attempts| - 1;
      assert forall i :: 0 <= i < last ==> attempts[..last][i] == attempts[i];
      CountStatus(attempts[..last], s) + (if attempts[last].status == s then 1 else 0)
  }

  const TOTAL_LATENCY_MS: string := "exec.total_latency_ms"
  const SUCCESS_COUNT: string := "exec.success_count"
  const FAILED_COUNT: string := "exec.failed_count"
  const SKIPPED_COUNT: string := "exec.skipped_count"
  const DENIED_COUNT: string := "exec.denied_count"
  const FAIL_CLOSED: string := "exec.fail_closed"
  const ATTEMPT_COUNT: string := "exec.attempt_count"

  /** The trace keys a report projects to. */
  const ExecKeys: set<string> :=
    {TOTAL_LATENCY_MS, SUCCESS_COUNT, FAILED_COUNT, SKIPPED_COUNT, DENIED_COUNT, FAIL_CLOSED, ATTEMPT_COUNT}

  /** The projection has exactly seven distinct keys. */
  lemma ExecKeysCount()
    ensures |ExecKeys| == 7
  {
  }

  /** The four statuses carry four distinct string values. */
  lemma StatusValuesDistinct(s: ExecutionStatus, t: ExecutionStatus)
    ensures s.Value() == t.Value() <==> s == t
    ensures s.Value() in {"success", "failed", "skipped", "denied"}
  {
  }

  /** A fresh report is empty, consistent, and exports seven zero or false entries. */
  lemma DefaultReportIsEmpty()
    ensures ExecutionReport().attempts == [] && !ExecutionReport().failClosed
    ensures ExecutionReport().Consistent()
    ensures ExecutionReport().ToExternalDict() ==
      map[TOTAL_LATENCY_MS := Int(0), SUCCESS_COUNT := Int(0), FAILED_COUNT := Int(0),
          SKIPPED_COUNT := Int(0), DENIED_COUNT := Int(0), FAIL_CLOSED := Bool(false),
          ATTEMPT_COUNT := Int(0)]
  {
  }

  /** Appending a row adds one to the count of its status and leaves the other counts alone. */
  lemma CountStatusAppend(attempts: seq<ExecutionAttempt>, a: ExecutionAttempt, s: ExecutionStatus)
    ensures CountStatus(attempts + [a], s) == CountStatus(attempts, s) + (if a.status == s then 1 else 0)
  {
    assert (attempts + [a])[..|attempts|] == attempts;
  }

  /** A single row is counted once, under its own status. */
  lemma OneRowCounts(a: ExecutionAttempt)
    ensures forall s :: CountStatus([a], s) == (if a.status == s then 1 else 0)
  {
    forall s
      ensures CountStatus([a], s) == (if a.status == s then 1 else 0)
    {
      CountStatusAppend([], a, s);
      assert [] + [a] == [a];
    }
  }

  /** Every row has exactly one of the four statuses, so the four counts add up to the number of rows. */
  lemma {:induction false} CountsPartitionRows(attempts: seq<ExecutionAttempt>)
    ensures CountStatus(attempts, Success) + CountStatus(attempts, Failed)
            + CountStatus(attempts, Skipped) + CountStatus(attempts, Denied) == |attempts|
  {
    if attempts != [] {
      CountsPartitionRows(attempts[..|attempts| - 1]);
    }
  }

  /** An attempt built without the optional fields has neither an error message nor an idempotency key. */
  lemma AttemptDefaults(a: Action, s: ExecutionStatus, n: int, ms: int)
    ensures ExecutionAttempt(a, s, n, ms).errorMessage == None
    ensures ExecutionAttempt(a, s, n, ms).idempotencyKey == None
  {
  }
}
