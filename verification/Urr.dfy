/** Usage counting with a one-shot threshold report. */
module UrrEngine {
  import opened Types
  import opened Rules
  import opened Decision
  import Text

  datatype UrrEvaluation = UrrEvaluation(
    next: UsageCounterState,
    decision: UrrDecision,
    reportGenerated: bool,
    overflow: bool)

  /** Counting overflows when either 64-bit total would. */
  predicate Overflows(c: UsageCounterState, bytes: uint64) {
    c.packets + 1 > U64_MAX || c.payloadBytes + bytes > U64_MAX
  }

  predicate Reports(urr: Urr, c: UsageCounterState, bytes: uint64) {
    !c.reportEmitted && c.payloadBytes + bytes >= urr.volumeThresholdBytes
  }

  function Counted(urr: Urr, c: UsageCounterState, bytes: uint64): UsageCounterState
    requires !Overflows(c, bytes)
  {
    UsageCounterState(c.packets + 1, c.payloadBytes + bytes, c.reportEmitted || Reports(urr, c, bytes))
  }

  function UrrResult(urr: Urr, c: UsageCounterState, bytes: uint64, sessionId: string, version: uint64): UrrEvaluation {
    var before := NO_URR.(applicable := true, urrId := urr.id, counted := true,
                          packetsBefore := c.packets, bytesBefore := c.payloadBytes);
    if Overflows(c, bytes) then UrrEvaluation(c, before, false, true)
    else
      var next := Counted(urr, c, bytes);
      var after := before.(packetsAfter := next.packets, bytesAfter := next.payloadBytes);
      if Reports(urr, c, bytes) then
        var id := Text.ReportId(sessionId, urr.id, urr.generation, version);
        UrrEvaluation(next, after.(thresholdReached := true, reportId := id), true, false)
      else
        UrrEvaluation(next, after, false, false)
  }

  method EvaluateUrr(urr: Urr, current: UsageCounterState, payloadBytes: uint64, sessionId: string,
                     rulesetVersion: uint64)
    returns (result: UrrEvaluation)
    ensures result == UrrResult(urr, current, payloadBytes, sessionId, rulesetVersion)
  {
    var next := current;
    var decision := NO_URR.(applicable := true, urrId := urr.id, counted := true);
    decision := decision.(packetsBefore := current.packets, bytesBefore := current.payloadBytes);
    var ok, packets := CheckedAdd(current.packets, 1, next.packets);
    next := next.(packets := packets);
    if ok {
      var bytes;
      ok, bytes := CheckedAdd(current.payloadBytes, payloadBytes, next.payloadBytes);
      next := next.(payloadBytes := bytes);
    }
    if !ok {
      // The packet total may already have advanced: roll it back.
      next := current;
      return UrrEvaluation(next, decision, false, true);
    }
    decision := decision.(packetsAfter := next.packets, bytesAfter := next.payloadBytes);
    var reportGenerated := false;
    if !current.reportEmitted && next.payloadBytes >= urr.volumeThresholdBytes {
      reportGenerated := true;
      next := next.(reportEmitted := true);
      decision := decision.(reportId := Text.ReportId(sessionId, urr.id, urr.generation, rulesetVersion));
      decision := decision.(thresholdReached := true);
    }
    return UrrEvaluation(next, decision, reportGenerated, false);
  }
}
