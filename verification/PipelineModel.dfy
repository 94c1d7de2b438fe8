/** The packet pipeline as a state machine: plan every effect of a packet, then commit all of them or none. */
module PipelineModel {
  import opened Types
  import opened Rules
  import opened Validation
  import opened Selection
  import opened Decision
  import opened Runtime
  import QerEngine
  import opened FarEngine
  import UrrEngine

  // ----- The state and its invariant

  /** Event texts are the names of terminal results and are kept here as the results themselves. */
  datatype PipelineState = PipelineState(
    limits: CapacityLimits,
    rules: Option<RuleSet>,
    runtime: RuntimeState,
    n3Sink: seq<Packet>,
    n6Sink: seq<Packet>,
    decisions: seq<PacketDecision>,
    reports: seq<string>,
    events: seq<TerminalResult>,
    droppedEvents: uint64)

  function Initial(limits: CapacityLimits): PipelineState {
    PipelineState(limits, None, EMPTY_RUNTIME, [], [], [], [], [], 0)
  }

  /** The active ruleset was validated and the runtime holds exactly its rules. (The quantifiers bind the active
      ruleset only, so that its many properties enter a proof when they are asked for.) */
  ghost predicate Ready(s: PipelineState) {
    && (s.rules.None? ==> s.runtime == EMPTY_RUNTIME)
    && KeysAgree(s.runtime)
    && (forall r {:trigger Accepted(r, s.limits)} :: s.rules == Some(r) ==> Accepted(r, s.limits))
    && (forall r {:trigger RuntimeOf(s.runtime, r)} :: s.rules == Some(r) ==> RuntimeOf(s.runtime, r))
  }

  /** What selection guarantees about a winner: all its references resolve, in the ruleset and in the runtime. */
  predicate Resolved(s: PipelineState, rules: RuleSet, w: Pdr, packet: Packet) {
    && AcceptedPdr(rules, w)
    && w.sourceInterface == packet.ingress
    && (w.qerId.Some? ==> w.qerId.value in s.runtime.qers)
    && (w.urrId.Some? ==> w.urrId.value in s.runtime.urrs)
  }

  // No lookup of an installed ruleset can fail, and no map access of the pipeline inserts a default.
  lemma WinnerResolved(s: PipelineState, packet: Packet)
    requires Ready(s) && s.rules.Some? && Winner(s.rules.value.pdrs, packet).Some?
    ensures Resolved(s, s.rules.value, Winner(s.rules.value.pdrs, packet).value, packet)
  {
    var rules := s.rules.value;
    var w := Winner(rules.pdrs, packet).value;
    assert Accepted(rules, s.limits) && RuntimeOf(s.runtime, rules);
    assert AcceptedPdr(rules, w);
    if w.qerId.Some? {
      var q := Find(rules.qers, QerKey, w.qerId.value).value;
      assert QerKey(q) in Ids(rules.qers, QerKey);
    }
    if w.urrId.Some? {
      var u := Find(rules.urrs, UrrKey, w.urrId.value).value;
      assert UrrKey(u) in Ids(rules.urrs, UrrKey);
    }
  }

  // ----- Installing

  ghost function Install(s: PipelineState, rules: RuleSet): PipelineState {
    if Accepted(rules, s.limits) then s.(rules := Some(rules), runtime := InstalledRuntime(s.runtime, rules)) else s
  }

  // ----- Planning one packet

  /** The outcome of a packet, its explanation, and everything committing it would change. */
  datatype Effect = Effect(
    result: TerminalResult,
    qer: QerDecision,
    far: FarDecision,
    urr: UrrDecision,
    bucket: Option<(uint32, TokenBucketState)>,
    counter: Option<(uint32, UsageCounterState)>,
    report: Option<string>,
    delivery: Option<(Interface, Packet)>)

  /** A plan touches only state that exists, and only a committed packet has more than a refill. */
  predicate WellPlanned(s: PipelineState, e: Effect) {
    && (e.bucket.Some? ==> e.bucket.value.0 in s.runtime.qers)
    && (e.counter.Some? ==> e.counter.value.0 in s.runtime.urrs)
    && (!Committed(e.result) ==>
          && e.counter.None? && e.report.None? && e.delivery.None?
          && (e.bucket.Some? ==> e.result == RateLimited))
  }

  function Refuse(result: TerminalResult, qer: QerDecision, far: FarDecision, urr: UrrDecision): Effect {
    Effect(result, qer, far, urr, None, None, None, None)
  }

  function SinkOf(s: PipelineState, destination: Interface): seq<Packet> {
    if destination == N3 then s.n3Sink else s.n6Sink
  }

  function PlanDelivery(s: PipelineState, fe: FarEvaluation, qer: QerDecision, far: FarDecision, urr: UrrDecision,
                        bucket: Option<(uint32, TokenBucketState)>,
                        counter: Option<(uint32, UsageCounterState)>,
                        report: Option<string>): (e: Effect)
    requires bucket.Some? ==> bucket.value.0 in s.runtime.qers
    requires counter.Some? ==> counter.value.0 in s.runtime.urrs
    ensures WellPlanned(s, e)
  {
    if !fe.forwarded then
      Effect(FarDropped, qer, far, urr, bucket, counter, report, None)
    else if |SinkOf(s, fe.destination)| >= s.limits.sinkPackets then
      Refuse(CapacityError, qer, far, urr)
    else
      Effect(if fe.destination == N3 then ForwardedToN3 else ForwardedToN6, qer, far, urr,
             bucket, counter, report, Some((fe.destination, fe.packet)))
  }

  /** The URR a PDR names, if it names one. */
  function MeterOf(rules: RuleSet, w: Pdr): Option<Urr> {
    if w.urrId.None? then None else Find(rules.urrs, UrrKey, w.urrId.value)
  }

  function PlanUsage(s: PipelineState, rules: RuleSet, urr: Option<Urr>, packet: Packet, fe: FarEvaluation,
                     qer: QerDecision, far: FarDecision, bucket: Option<(uint32, TokenBucketState)>): (e: Effect)
    requires urr.Some? ==> urr.value.id in s.runtime.urrs
    requires bucket.Some? ==> bucket.value.0 in s.runtime.qers
    ensures WellPlanned(s, e)
  {
    if urr.None? then PlanDelivery(s, fe, qer, far, NO_URR, bucket, None, None)
    else
      var id := urr.value.id;
      var u := UrrEngine.UrrResult(urr.value, s.runtime.urrs[id], packet.payloadBytes, rules.sessionId, rules.version);
      if u.overflow then Refuse(ArithmeticError, qer, far, u.decision)
      else if u.reportGenerated && |s.reports| >= s.limits.reports then Refuse(CapacityError, qer, far, u.decision)
      else PlanDelivery(s, fe, qer, far, u.decision, bucket, Some((id, u.next)),
                        if u.reportGenerated then Some(u.decision.reportId) else None)
  }

  function PlanAdmitted(s: PipelineState, rules: RuleSet, w: Pdr, packet: Packet, qer: QerDecision,
                        bucket: Option<(uint32, TokenBucketState)>): (e: Effect)
    requires Resolved(s, rules, w, packet)
    requires bucket.Some? ==> bucket.value.0 in s.runtime.qers
    ensures WellPlanned(s, e)
  {
    var rule := Find(rules.fars, FarKey, w.farId).value;
    var fe := FarResult(rule, packet);
    var far := FarDecision(true, rule.id, rule.action, fe.destination, packet.tunnel, fe.packet.tunnel);
    PlanUsage(s, rules, MeterOf(rules, w), packet, fe, qer, far, bucket)
  }

  const QER_NOT_APPLICABLE := QerDecision(false, 0, Open, 0, 0, 0, 0, true, OutcomeNotApplicable)

  function PlanWinner(s: PipelineState, rules: RuleSet, w: Pdr, packet: Packet): (e: Effect)
    requires Resolved(s, rules, w, packet)
    ensures WellPlanned(s, e)
  {
    if w.qerId.None? then PlanAdmitted(s, rules, w, packet, QER_NOT_APPLICABLE, None)
    else
      var qer := Find(rules.qers, QerKey, w.qerId.value).value;
      var e := QerEngine.QerResult(qer, s.runtime.qers[qer.id], packet.payloadBytes, packet.arrivalTimeMicros);
      if e.decision.allowed then PlanAdmitted(s, rules, w, packet, e.decision, Some((qer.id, e.next)))
      else if e.failure == RateLimited then
        Refuse(RateLimited, e.decision, NO_FAR, NO_URR).(bucket := Some((qer.id, e.next)))
      else Refuse(e.failure, e.decision, NO_FAR, NO_URR)
  }

  /** The packet is looked up among the PDRs. */
  predicate Selectable(s: PipelineState, packet: Packet) {
    s.rules.Some? && ValidPacket(packet) && packet.sessionId == s.rules.value.sessionId
  }

  ghost function Plan(s: PipelineState, packet: Packet): (e: Effect)
    requires Ready(s)
    ensures WellPlanned(s, e)
  {
    if !Selectable(s, packet) then
      Refuse(if s.rules.Some? then MalformedPacket else NoMatch, NO_QER, NO_FAR, NO_URR)
    else
      var w := Winner(s.rules.value.pdrs, packet);
      if w.None? then Refuse(NoMatch, NO_QER, NO_FAR, NO_URR)
      else
        WinnerResolved(s, packet);
        PlanWinner(s, s.rules.value, w.value, packet)
  }

  // ----- The decision that is reported

  function Opening(s: PipelineState, packet: Packet, runId: string, scenarioId: string): PacketDecision {
    PacketDecision(
      runId, scenarioId, packet.packetId, packet.sessionId, packet.arrivalTimeMicros, packet.ingress,
      if s.rules.Some? then s.rules.value.version else 0,
      [], 0, NO_QER, NO_FAR, NO_URR, NoMatch, None, None, false)
  }

  function Selecting(s: PipelineState, packet: Packet, d: PacketDecision): PacketDecision {
    if !Selectable(s, packet) then d
    else
      var w := Winner(s.rules.value.pdrs, packet);
      d.(candidates := SortById(Candidates(s.rules.value.pdrs, packet)),
         selectedPdrId := if w.Some? then w.value.id else 0)
  }

  function Explaining(d: PacketDecision, e: Effect): PacketDecision {
    d.(qer := e.qer, far := e.far, urr := e.urr, terminalResult := e.result,
       sink := if e.delivery.Some? then Some(e.delivery.value.0) else None,
       transformed := if e.delivery.Some? then Some(e.delivery.value.1) else None)
  }

  // ----- Committing

  function Retained(s: PipelineState, d: PacketDecision): PacketDecision {
    if |s.events| < s.limits.events then d else d.(observabilityDegraded := true)
  }

  function Retain(s: PipelineState, d: PacketDecision): PipelineState {
    var room := |s.events| < s.limits.events;
    s.(events := if room then s.events + [d.terminalResult] else s.events,
       droppedEvents := if room || s.droppedEvents == U64_MAX then s.droppedEvents else s.droppedEvents + 1,
       decisions := s.decisions + [Retained(s, d)])
  }

  function CommittedRuntime(runtime: RuntimeState, e: Effect): RuntimeState {
    runtime.(
      qers := if e.bucket.Some? then runtime.qers[e.bucket.value.0 := e.bucket.value.1] else runtime.qers,
      urrs := if e.counter.Some? then runtime.urrs[e.counter.value.0 := e.counter.value.1] else runtime.urrs)
  }

  function Commit(s: PipelineState, e: Effect): PipelineState {
    s.(runtime := CommittedRuntime(s.runtime, e),
       reports := if e.report.Some? then s.reports + [e.report.value] else s.reports,
       n3Sink := if e.delivery.Some? && e.delivery.value.0 == N3 then s.n3Sink + [e.delivery.value.1] else s.n3Sink,
       n6Sink := if e.delivery.Some? && e.delivery.value.0 == N6 then s.n6Sink + [e.delivery.value.1] else s.n6Sink)
  }

  /** What processing one packet returns and leaves behind. */
  ghost function Process(s: PipelineState, packet: Packet, runId: string, scenarioId: string)
    : (PipelineState, PacketDecision)
    requires Ready(s)
  {
    var opening := Opening(s, packet, runId, scenarioId);
    if |s.decisions| >= s.limits.results then (s, opening.(terminalResult := CapacityError))
    else
      var e := Plan(s, packet);
      var d := Explaining(Selecting(s, packet, opening), e);
      (Retain(Commit(s, e), d), Retained(s, d))
  }

  // ----- Preservation of the invariant

  lemma InstallKeepsReady(s: PipelineState, rules: RuleSet)
    requires Ready(s)
    ensures Ready(Install(s, rules))
  {
    if Accepted(rules, s.limits) {
      InstalledRuntimeOf(s.runtime, rules);
    }
  }

  lemma CommitKeepsKeys(s: PipelineState, e: Effect)
    requires WellPlanned(s, e)
    ensures var runtime := CommittedRuntime(s.runtime, e);
            && runtime.qers.Keys == s.runtime.qers.Keys
            && runtime.urrs.Keys == s.runtime.urrs.Keys
            && runtime.qerGenerations == s.runtime.qerGenerations
            && runtime.urrGenerations == s.runtime.urrGenerations
  {
  }

  lemma ReadySurvives(s: PipelineState, s': PipelineState)
    requires Ready(s) && s'.limits == s.limits && s'.rules == s.rules
    requires s'.runtime.qers.Keys == s.runtime.qers.Keys && s'.runtime.urrs.Keys == s.runtime.urrs.Keys
    requires s'.runtime.qerGenerations == s.runtime.qerGenerations
    requires s'.runtime.urrGenerations == s.runtime.urrGenerations
    ensures Ready(s')
  {
    if s.rules.Some? {
      assert RuntimeOf(s.runtime, s.rules.value);
    }
  }

  lemma ProcessKeepsReady(s: PipelineState, packet: Packet, runId: string, scenarioId: string)
    requires Ready(s)
    ensures var s' := Process(s, packet, runId, scenarioId).0;
            && Ready(s')
            && s'.limits == s.limits
            && s'.rules == s.rules
            && s'.runtime.qers.Keys == s.runtime.qers.Keys
            && s'.runtime.urrs.Keys == s.runtime.urrs.Keys
  {
    if |s.decisions| < s.limits.results {
      var e := Plan(s, packet);
      CommitKeepsKeys(s, e);
      ReadySurvives(s, Process(s, packet, runId, scenarioId).0);
    }
  }
}
