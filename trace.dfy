/**
 * Export of a report into the external trace map: a fresh map holding the
 * caller's entries overridden by the report's seven `exec.*` entries.
 */
module Trace {
  import opened Values
  import opened Model

  /**
   * The caller's map merged with the report's projection; on a key clash the
   * report wins. The caller's map is a value and is left as it was.
   */
  function AddExecutionTrace(external: map<string, Value>, report: ExecutionReport): (r: map<string, Value>)
    ensures r.Keys == external.Keys + ExecKeys
    ensures forall k :: k in ExecKeys ==> r[k] == report.ToExternalDict()[k]
    ensures forall k :: k in external && k !in ExecKeys ==> r[k] == external[k]
  {
    external + report.ToExternalDict()
  }

  /**
   * The key syntax of the trace extension for this namespace: `exec.`
   * followed by one lower-case segment, with no further dot.
   */
  predicate IsExecTraceKey(k: string)
  {
    && |k| > 5 && k[..5] == "exec."
    && '.' !in k[5..]
    && NoUpper(k)
  }

  predicate NoUpper(s: string)
  {
    forall c :: c in s ==> !('A' <= c <= 'Z')
  }

  /** `exec.` followed by a non-empty lower-case segment without dots is a trace key. */
  lemma PrefixedKey(seg: string)
    requires |seg| > 0 && '.' !in seg && NoUpper(seg)
    ensures IsExecTraceKey("exec." + seg)
  {
    var k := "exec." + seg;
    assert k[5..] == seg;
    assert k[..5] == "exec.";
    assert forall c :: c in k ==> c in "exec." || c in seg;
  }

  /** Every key the export adds has the `exec.` syntax. */
  lemma ExecKeysWellFormed()
    ensures forall k :: k in ExecKeys ==> IsExecTraceKey(k)
  {
    TotalLatencyKeyWellFormed();
    SuccessCountKeyWellFormed();
    FailedCountKeyWellFormed();
    SkippedCountKeyWellFormed();
    DeniedCountKeyWellFormed();
    FailClosedKeyWellFormed();
    AttemptCountKeyWellFormed();
  }

  /** A segment of lower-case letters and underscores has no dot and no upper-case letter. */
  lemma SegmentWord(seg: string)
    requires forall i :: 0 <= i < |seg| ==> 'a' <= seg[i] <= 'z' || seg[i] == '_'
    ensures '.' !in seg && NoUpper(seg)
  {
  }

  lemma SegmentKey(k: string, seg: string)
    requires k == "exec." + seg && |seg| > 0 && '.' !in seg && NoUpper(seg)
    ensures IsExecTraceKey(k)
  {
    PrefixedKey(seg);
  }

  // One lemma per key follows. Each passes the key's literals to small
  // helpers as parameters pinned by a `requires`, so that every proof
  // obligation mentions as few string literals as possible: unfolding
  // several literal strings in one context is what makes such proofs slow.

  lemma TotalLatencyKeyWellFormed()
    ensures IsExecTraceKey(TOTAL_LATENCY_MS)
  {
    TotalLatencyKeySplits(TOTAL_LATENCY_MS, "total_latency_ms");
    SegmentWord("total_latency_ms");
    SegmentKey(TOTAL_LATENCY_MS, "total_latency_ms");
  }

  lemma TotalLatencyKeySplits(k: string, seg: string)
    requires k == TOTAL_LATENCY_MS && seg == "total_latency_ms"
    ensures k == "exec." + seg && |seg| > 0
  {
  }

  lemma SuccessCountKeyWellFormed()
    ensures IsExecTraceKey(SUCCESS_COUNT)
  {
    SuccessCountKeySplits(SUCCESS_COUNT, "success_count");
    SegmentWord("success_count");
    SegmentKey(SUCCESS_COUNT, "success_count");
  }

  lemma SuccessCountKeySplits(k: string, seg: string)
    requires k == SUCCESS_COUNT && seg == "success_count"
    ensures k == "exec." + seg && |seg| > 0
  {
  }

  lemma FailedCountKeyWellFormed()
    ensures IsExecTraceKey(FAILED_COUNT)
  {
    FailedCountKeySplits(FAILED_COUNT, "failed_count");
    SegmentWord("failed_count");
    SegmentKey(FAILED_COUNT, "failed_count");
  }

  lemma FailedCountKeySplits(k: string, seg: string)
    requires k == FAILED_COUNT && seg == "failed_count"
    ensures k == "exec." + seg && |seg| > 0
  {
  }

  lemma SkippedCountKeyWellFormed()
    ensures IsExecTraceKey(SKIPPED_COUNT)
  {
    SkippedCountKeySplits(SKIPPED_COUNT, "skipped_count");
    SegmentWord("skipped_count");
    SegmentKey(SKIPPED_COUNT, "skipped_count");
  }

  lemma SkippedCountKeySplits(k: string, seg: string)
    requires k == SKIPPED_COUNT && seg == "skipped_count"
    ensures k == "exec." + seg && |seg| > 0
  {
  }

  lemma DeniedCountKeyWellFormed()
    ensures IsExecTraceKey(DENIED_COUNT)
  {
    DeniedCountKeySplits(DENIED_COUNT, "denied_count");
    SegmentWord("denied_count");
    SegmentKey(DENIED_COUNT, "denied_count");
  }

  lemma DeniedCountKeySplits(k: string, seg: string)
    requires k == DENIED_COUNT && seg == "denied_count"
    ensures k == "exec." + seg && |seg| > 0
  {
  }

  lemma FailClosedKeyWellFormed()
    ensures IsExecTraceKey(FAIL_CLOSED)
  {
    FailClosedKeySplits(FAIL_CLOSED, "fail_closed");
    SegmentWord("fail_closed");
    SegmentKey(FAIL_CLOSED, "fail_closed");
  }

  lemma FailClosedKeySplits(k: string, seg: string)
    requires k == FAIL_CLOSED && seg == "fail_closed"
    ensures k == "exec." + seg && |seg| > 0
  {
  }

  lemma AttemptCountKeyWellFormed()
    ensures IsExecTraceKey(ATTEMPT_COUNT)
  {
    AttemptCountKeySplits(ATTEMPT_COUNT, "attempt_count");
    SegmentWord("attempt_count");
    SegmentKey(ATTEMPT_COUNT, "attempt_count");
  }

  lemma AttemptCountKeySplits(k: string, seg: string)
    requires k == ATTEMPT_COUNT && seg == "attempt_count"
    ensures k == "exec." + seg && |seg| > 0
  {
  }

  /** Exporting into an empty map yields exactly the seven `exec.*` keys, all well formed. */
  lemma ExportIntoEmpty(report: ExecutionReport)
    ensures AddExecutionTrace(map[], report).Keys == ExecKeys
    ensures |AddExecutionTrace(map[], report)| == 7
    ensures forall k :: k in AddExecutionTrace(map[], report) ==> IsExecTraceKey(k)
  {
    ExecKeysCount();
    ExecKeysWellFormed();
  }

  /** Every key the export adds to the caller's map is a well-formed `exec.*` key. */
  lemma AddedKeysWellFormed(external: map<string, Value>, report: ExecutionReport)
    ensures forall k :: k in AddExecutionTrace(external, report) && k !in external ==> IsExecTraceKey(k)
  {
    ExecKeysWellFormed();
  }

  /** Exporting the same report twice is exporting it once. */
  lemma ExportIdempotent(external: map<string, Value>, report: ExecutionReport)
    ensures AddExecutionTrace(AddExecutionTrace(external, report), report) == AddExecutionTrace(external, report)
  {
  }
}
