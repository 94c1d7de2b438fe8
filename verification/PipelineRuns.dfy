/** Runs of the pipeline, and what one packet changes, stated rule by rule. */
module PipelineRuns {
  import opened Types
  import opened Rules
  import opened Selection
  import opened Decision
  import QerEngine
  import opened FarEngine
  import UrrEngine
  import Text
  import opened PipelineModel

  // ----- Runs

  datatype Op = InstallOp(rules: RuleSet) | PacketOp(packet: Packet, runId: string, scenarioId: string)

  ghost function Step(s: PipelineState, op: Op): (s': PipelineState)
    requires Ready(s)
    ensures Ready(s') && s'.limits == s.limits
  {
    match op
    case InstallOp(rules) =>
      InstallKeepsReady(s, rules);
      Install(s, rules)
    case PacketOp(packet, runId, scenarioId) =>
      ProcessKeepsReady(s, packet, runId, scenarioId);
      Process(s, packet, runId, scenarioId).0
  }

  ghost function Run(s: PipelineState, ops: seq<Op>): (s': PipelineState)
    requires Ready(s)
    ensures Ready(s') && s'.limits == s.limits
    decreases |ops|
  {
    if ops == [] then s else Run(Step(s, ops[0]), ops[1..])
  }

  lemma {:induction false} RunComposes(s: PipelineState, first: seq<Op>, second: seq<Op>)
    requires Ready(s)
    ensures Run(s, first + second) == Run(Run(s, first), second)
    decreases |first|
  {
    if first == [] {
      assert first + second == second;
    } else {
      assert (first + second)[1..] == first[1..] + second;
      RunComposes(Step(s, first[0]), first[1..], second);
    }
  }

  /** The decision the op returns, if it is a packet. */
  ghost function DecisionOn(s: PipelineState, packet: Packet, runId: string, scenarioId: string): PacketDecision
    requires Ready(s)
  {
    Process(s, packet, runId, scenarioId).1
  }

  // ----- One packet, rule by rule

  /** The PDR that decides a packet, when the packet gets as far as selection and something matches. */
  function Deciding(s: PipelineState, packet: Packet): (w: Option<Pdr>)
    ensures w.Some? ==> s.rules.Some? && w == Winner(s.rules.value.pdrs, packet)
  {
    if |s.decisions| < s.limits.results && Selectable(s, packet) then Winner(s.rules.value.pdrs, packet) else None
  }

  function VerdictOn(s: PipelineState, rules: RuleSet, w: Pdr, packet: Packet): QerEngine.Verdict
    requires Resolved(s, rules, w, packet) && w.qerId.Some?
  {
    var qer := Find(rules.qers, QerKey, w.qerId.value).value;
    QerEngine.Admit(qer, s.runtime.qers[qer.id], packet.payloadBytes, packet.arrivalTimeMicros)
  }

  /** The bucket entry a packet leaves: a refill when it was rate limited, refill and charge when it was committed. */
  function BucketEntry(s: PipelineState, rules: RuleSet, w: Pdr, packet: Packet, result: TerminalResult)
    : Option<(uint32, TokenBucketState)>
    requires Resolved(s, rules, w, packet)
  {
    if w.qerId.None? then None
    else
      var v := VerdictOn(s, rules, w, packet);
      if v.Limited? || (v.Charged? && Committed(result)) then Some((w.qerId.value, v.next)) else None
  }

  function CounterEntry(s: PipelineState, urr: Option<Urr>, packet: Packet, result: TerminalResult)
    : Option<(uint32, UsageCounterState)>
    requires urr.Some? ==> urr.value.id in s.runtime.urrs
  {
    if urr.None? || !Committed(result) then None
    else
      var c := s.runtime.urrs[urr.value.id];
      if UrrEngine.Overflows(c, packet.payloadBytes) then None
      else Some((urr.value.id, UrrEngine.Counted(urr.value, c, packet.payloadBytes)))
  }

  function ReportEntry(s: PipelineState, rules: RuleSet, urr: Option<Urr>, packet: Packet, result: TerminalResult)
    : Option<string>
    requires urr.Some? ==> urr.value.id in s.runtime.urrs
  {
    if urr.Some? && Committed(result) && UrrEngine.Reports(urr.value, s.runtime.urrs[urr.value.id], packet.payloadBytes)
    then Some(Text.ReportId(rules.sessionId, urr.value.id, urr.value.generation, rules.version))
    else None
  }

  /** What a plan does to the meter it names, as a function of the terminal result alone. */
  predicate Metered(s: PipelineState, rules: RuleSet, urr: Option<Urr>, packet: Packet, e: Effect)
    requires urr.Some? ==> urr.value.id in s.runtime.urrs
  {
    && e.counter == CounterEntry(s, urr, packet, e.result)
    && e.report == ReportEntry(s, rules, urr, packet, e.result)
    && (e.report.Some? ==> |s.reports| < s.limits.reports)
    && (Committed(e.result) ==>
          && (urr.Some? ==> !UrrEngine.Overflows(s.runtime.urrs[urr.value.id], packet.payloadBytes))
          && e.urr.reportId == (if e.report.Some? then e.report.value else ""))
  }

  /** Everything a plan changes, as a function of the winner and the terminal result alone. */
  predicate Explained(s: PipelineState, rules: RuleSet, w: Pdr, packet: Packet, e: Effect)
    requires Resolved(s, rules, w, packet)
  {
    && e.bucket == BucketEntry(s, rules, w, packet, e.result)
    && Metered(s, rules, MeterOf(rules, w), packet, e)
    && (e.result == RateLimited <==> w.qerId.Some? && VerdictOn(s, rules, w, packet).Limited?)
    && (Committed(e.result) && w.qerId.Some? ==> VerdictOn(s, rules, w, packet).Charged?)
    && (w.qerId.Some? && VerdictOn(s, rules, w, packet).Denied? ==> e.result == VerdictOn(s, rules, w, packet).reason)
    && e.result != NoMatch && e.result != MalformedPacket
  }

  /** A delivery goes to the sink the result names, has room there and fits it. */
  predicate Delivered(s: PipelineState, packet: Packet, e: Effect) {
    && (e.result == ForwardedToN3 <==> e.delivery.Some? && e.delivery.value.0 == N3)
    && (e.result == ForwardedToN6 <==> e.delivery.Some? && e.delivery.value.0 == N6)
    && (e.delivery.Some? ==>
          && var (sink, delivered) := e.delivery.value;
             && FitsSink(sink, delivered)
             && delivered == packet.(tunnel := delivered.tunnel)
             && |SinkOf(s, sink)| < s.limits.sinkPackets)
  }

  lemma UsageMeters(s: PipelineState, rules: RuleSet, urr: Option<Urr>, packet: Packet, fe: FarEvaluation,
                    qer: QerDecision, far: FarDecision, bucket: Option<(uint32, TokenBucketState)>)
    requires urr.Some? ==> urr.value.id in s.runtime.urrs
    requires bucket.Some? ==> bucket.value.0 in s.runtime.qers
    ensures Metered(s, rules, urr, packet, PlanUsage(s, rules, urr, packet, fe, qer, far, bucket))
  {
  }

  // An admitted packet keeps its QER and FAR explanation, and writes its bucket just when it is committed.
  lemma UsageCarries(s: PipelineState, rules: RuleSet, urr: Option<Urr>, packet: Packet, fe: FarEvaluation,
                     qer: QerDecision, far: FarDecision, bucket: Option<(uint32, TokenBucketState)>)
    requires urr.Some? ==> urr.value.id in s.runtime.urrs
    requires bucket.Some? ==> bucket.value.0 in s.runtime.qers
    ensures var e := PlanUsage(s, rules, urr, packet, fe, qer, far, bucket);
            && e.qer == qer && e.far == far
            && e.bucket == (if Committed(e.result) then bucket else None)
            && e.result != RateLimited && e.result != NoMatch && e.result != MalformedPacket
  {
  }

  // A committed packet is delivered exactly when its FAR forwards.
  lemma UsageDelivers(s: PipelineState, rules: RuleSet, urr: Option<Urr>, packet: Packet, fe: FarEvaluation,
                      qer: QerDecision, far: FarDecision, bucket: Option<(uint32, TokenBucketState)>)
    requires urr.Some? ==> urr.value.id in s.runtime.urrs
    requires bucket.Some? ==> bucket.value.0 in s.runtime.qers
    ensures var e := PlanUsage(s, rules, urr, packet, fe, qer, far, bucket);
            && e.delivery == (if Committed(e.result) && fe.forwarded then Some((fe.destination, fe.packet)) else None)
            && (e.delivery.Some? ==> |SinkOf(s, fe.destination)| < s.limits.sinkPackets)
            && (e.result == FarDropped <==> Committed(e.result) && !fe.forwarded)
            && (e.result == ForwardedToN3 <==> e.delivery.Some? && fe.destination == N3)
  {
  }

  lemma AdmittedExplained(s: PipelineState, rules: RuleSet, w: Pdr, packet: Packet, qer: QerDecision,
                          bucket: Option<(uint32, TokenBucketState)>)
    requires Resolved(s, rules, w, packet)
    requires if w.qerId.Some?
             then VerdictOn(s, rules, w, packet).Charged?
                  && bucket == Some((w.qerId.value, VerdictOn(s, rules, w, packet).next))
             else bucket.None?
    ensures var e := PlanAdmitted(s, rules, w, packet, qer, bucket);
            Explained(s, rules, w, packet, e) && Delivered(s, packet, e)
  {
    var rule := Find(rules.fars, FarKey, w.farId).value;
    var fe := FarResult(rule, packet);
    var far := FarDecision(true, rule.id, rule.action, fe.destination, packet.tunnel, fe.packet.tunnel);
    ValidatedFarApplies(rules, w, packet);
    UsageMeters(s, rules, MeterOf(rules, w), packet, fe, qer, far, bucket);
    UsageCarries(s, rules, MeterOf(rules, w), packet, fe, qer, far, bucket);
    UsageDelivers(s, rules, MeterOf(rules, w), packet, fe, qer, far, bucket);
  }

  lemma WinnerExplained(s: PipelineState, rules: RuleSet, w: Pdr, packet: Packet)
    requires Resolved(s, rules, w, packet)
    ensures Explained(s, rules, w, packet, PlanWinner(s, rules, w, packet))
    ensures Delivered(s, packet, PlanWinner(s, rules, w, packet))
  {
    if w.qerId.None? {
      AdmittedExplained(s, rules, w, packet, QER_NOT_APPLICABLE, None);
    } else {
      var qer := Find(rules.qers, QerKey, w.qerId.value).value;
      var e := QerEngine.QerResult(qer, s.runtime.qers[qer.id], packet.payloadBytes, packet.arrivalTimeMicros);
      if e.decision.allowed {
        AdmittedExplained(s, rules, w, packet, e.decision, Some((qer.id, e.next)));
      }
    }
  }

  // What one packet does: either nothing at all, or one retained decision and exactly the effects that the deciding
  // PDR and the terminal result explain.
  lemma PlanExplained(s: PipelineState, packet: Packet)
    requires Ready(s) && |s.decisions| < s.limits.results
    ensures var e := Plan(s, packet);
            match Deciding(s, packet)
            case None =>
              && e == Refuse(e.result, NO_QER, NO_FAR, NO_URR)
              && (e.result == NoMatch || e.result == MalformedPacket)
            case Some(w) =>
              && Resolved(s, s.rules.value, w, packet)
              && Explained(s, s.rules.value, w, packet, e)
              && Delivered(s, packet, e)
  {
    var w := Deciding(s, packet);
    if w.Some? {
      WinnerResolved(s, packet);
      WinnerExplained(s, s.rules.value, w.value, packet);
    }
  }

  // ----- One packet step

  /** The op is a packet that was committed, and the PDR that decided it. */
  ghost function CommittedPdr(s: PipelineState, op: Op): Option<Pdr>
    requires Ready(s)
  {
    if op.PacketOp? && Committed(DecisionOn(s, op.packet, op.runId, op.scenarioId).terminalResult)
    then Deciding(s, op.packet)
    else None
  }

  // A packet step, seen through its plan.
  lemma PacketStep(s: PipelineState, op: Op)
    requires Ready(s) && op.PacketOp?
    ensures Step(s, op).rules == s.rules
    ensures if |s.decisions| >= s.limits.results
            then Step(s, op) == s && CommittedPdr(s, op).None?
            else var e := Plan(s, op.packet);
                 && |Step(s, op).decisions| == |s.decisions| + 1
                 && Step(s, op).runtime == CommittedRuntime(s.runtime, e)
                 && Step(s, op).reports == (if e.report.Some? then s.reports + [e.report.value] else s.reports)
                 && CommittedPdr(s, op) == (if Committed(e.result) then Deciding(s, op.packet) else None)
  {
  }
}
