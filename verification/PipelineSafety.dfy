/** All-or-nothing processing, and the outputs as projections of the decision log. */
module PipelineSafety {
  import opened Types
  import opened Rules
  import opened Decision
  import Runtime
  import QerEngine
  import FarEngine
  import opened PipelineModel
  import opened PipelineRuns

  // ----- All or nothing

  predicate SameOutputs(s: PipelineState, s': PipelineState) {
    s'.n3Sink == s.n3Sink && s'.n6Sink == s.n6Sink && s'.reports == s.reports
  }

  /** Only the bucket of the deciding PDR's QER was refilled, without losing tokens, and it still falls short. */
  predicate OnlyRefilled(s: PipelineState, runtime: Runtime.RuntimeState, packet: Packet) {
    && Deciding(s, packet).Some?
    && Deciding(s, packet).value.qerId.Some?
    && var id := Deciding(s, packet).value.qerId.value;
       && id in s.runtime.qers && id in runtime.qers
       && runtime == s.runtime.(qers := s.runtime.qers[id := runtime.qers[id]])
       && s.runtime.qers[id].tokensBytes <= runtime.qers[id].tokensBytes < packet.payloadBytes
  }

  lemma RateLimitedOnlyRefills(s: PipelineState, packet: Packet)
    requires Ready(s) && |s.decisions| < s.limits.results && Plan(s, packet).result == RateLimited
    ensures OnlyRefilled(s, CommittedRuntime(s.runtime, Plan(s, packet)), packet)
  {
    PlanExplained(s, packet);
    var w := Deciding(s, packet).value;
    var qer := Find(s.rules.value.qers, QerKey, w.qerId.value).value;
    QerEngine.AdmitKeepsBucket(qer, s.runtime.qers[qer.id], packet.payloadBytes, packet.arrivalTimeMicros);
  }

  // A packet that is not committed leaves every bucket, counter, sink and report as it was; a rate-limited one
  // refills the one bucket of the deciding PDR and nothing else; with no room for a result nothing changes at all.
  lemma AllOrNothing(s: PipelineState, packet: Packet, runId: string, scenarioId: string)
    requires Ready(s)
    ensures var (s', d) := Process(s, packet, runId, scenarioId);
            var result := d.terminalResult;
            && (|s.decisions| >= s.limits.results ==> s' == s)
            && (|s.decisions| < s.limits.results ==> s'.decisions == s.decisions + [d])
            && (!Committed(result) ==> SameOutputs(s, s'))
            && (!Committed(result) && result != RateLimited ==> s'.runtime == s.runtime)
            && (result == RateLimited ==> OnlyRefilled(s, s'.runtime, packet))
  {
    if |s.decisions| < s.limits.results && Plan(s, packet).result == RateLimited {
      RateLimitedOnlyRefills(s, packet);
    }
  }

  // ----- The decision log

  function DeliveredBy(d: PacketDecision, result: TerminalResult): seq<Packet> {
    if d.terminalResult == result && d.transformed.Some? then [d.transformed.value] else []
  }

  function ReportedBy(d: PacketDecision): seq<string> {
    if Committed(d.terminalResult) && d.urr.reportId != "" then [d.urr.reportId] else []
  }

  /** The packets a log says were forwarded with the given result, in order. */
  function DeliveriesIn(log: seq<PacketDecision>, result: TerminalResult): seq<Packet> {
    if log == [] then [] else DeliveriesIn(log[..|log| - 1], result) + DeliveredBy(log[|log| - 1], result)
  }

  /** The reports a log says were committed, in order. */
  function ReportsIn(log: seq<PacketDecision>): seq<string> {
    if log == [] then [] else ReportsIn(log[..|log| - 1]) + ReportedBy(log[|log| - 1])
  }

  /** A decision tells of a transformed packet and a sink exactly when it forwards. */
  predicate Coherent(d: PacketDecision) {
    && (d.terminalResult == ForwardedToN3 <==> d.sink == Some(N3))
    && (d.terminalResult == ForwardedToN6 <==> d.sink == Some(N6))
    && (d.sink.Some? <==> d.transformed.Some?)
  }

  predicate Projected(s: PipelineState) {
    && s.n3Sink == DeliveriesIn(s.decisions, ForwardedToN3)
    && s.n6Sink == DeliveriesIn(s.decisions, ForwardedToN6)
    && s.reports == ReportsIn(s.decisions)
    && (forall i | 0 <= i < |s.decisions| :: Coherent(s.decisions[i]))
  }

  predicate Observed(s: PipelineState) {
    && |s.events| == Min(|s.decisions|, s.limits.events)
    && (forall i | 0 <= i < |s.events| :: s.events[i] == s.decisions[i].terminalResult)
    && |s.events| + s.droppedEvents == |s.decisions|
    && (forall i | 0 <= i < |s.decisions| :: s.decisions[i].observabilityDegraded <==> i >= s.limits.events)
  }

  predicate Bounded(s: PipelineState) {
    && |s.decisions| <= s.limits.results
    && |s.n3Sink| <= s.limits.sinkPackets
    && |s.n6Sink| <= s.limits.sinkPackets
    && |s.reports| <= s.limits.reports
    && |s.events| <= s.limits.events
  }

  predicate SinksFit(s: PipelineState) {
    && (forall i | 0 <= i < |s.n3Sink| :: FarEngine.FitsSink(N3, s.n3Sink[i]))
    && (forall i | 0 <= i < |s.n6Sink| :: FarEngine.FitsSink(N6, s.n6Sink[i]))
  }

  predicate Logged(s: PipelineState) {
    Projected(s) && Observed(s) && Bounded(s) && SinksFit(s)
  }

  lemma LogExtends(log: seq<PacketDecision>, d: PacketDecision)
    ensures forall result :: DeliveriesIn(log + [d], result) == DeliveriesIn(log, result) + DeliveredBy(d, result)
    ensures ReportsIn(log + [d]) == ReportsIn(log) + ReportedBy(d)
  {
    assert (log + [d])[..|log|] == log;
  }

  // What Retain does to the log and the events, for any decision that is coherent with the commit before it.
  lemma RetainObserves(s: PipelineState, d: PacketDecision)
    requires Observed(s) && |s.decisions| < s.limits.results && !d.observabilityDegraded
    ensures Observed(Retain(s, d))
  {
  }

  /** The decision reported for an effect. */
  predicate Reported(e: Effect, d: PacketDecision) {
    && d.terminalResult == e.result
    && d.urr == e.urr
    && d.sink == (if e.delivery.Some? then Some(e.delivery.value.0) else None)
    && d.transformed == (if e.delivery.Some? then Some(e.delivery.value.1) else None)
  }

  /** What the log needs to know of an effect. */
  predicate Loggable(s: PipelineState, e: Effect) {
    && (e.result == ForwardedToN3 <==> e.delivery.Some? && e.delivery.value.0 == N3)
    && (e.result == ForwardedToN6 <==> e.delivery.Some? && e.delivery.value.0 == N6)
    && (e.delivery.Some? ==>
          && FarEngine.FitsSink(e.delivery.value.0, e.delivery.value.1)
          && |SinkOf(s, e.delivery.value.0)| < s.limits.sinkPackets)
    && (e.report.Some? ==> e.report.value != "" && |s.reports| < s.limits.reports)
    && e.report == (if Committed(e.result) && e.urr.reportId != "" then Some(e.urr.reportId) else None)
  }

  lemma PlanLoggable(s: PipelineState, packet: Packet)
    requires Ready(s) && |s.decisions| < s.limits.results
    ensures Loggable(s, Plan(s, packet))
  {
    PlanExplained(s, packet);
  }

  lemma EffectProjects(s: PipelineState, e: Effect, d: PacketDecision)
    requires Loggable(s, e) && Reported(e, d)
    ensures Coherent(d)
    ensures Commit(s, e).n3Sink == s.n3Sink + DeliveredBy(d, ForwardedToN3)
    ensures Commit(s, e).n6Sink == s.n6Sink + DeliveredBy(d, ForwardedToN6)
    ensures Commit(s, e).reports == s.reports + ReportedBy(d)
  {
  }

  lemma CommitProjects(s: PipelineState, e: Effect, d: PacketDecision)
    requires Projected(s) && Loggable(s, e) && Reported(e, d)
    ensures Projected(Retain(Commit(s, e), d))
  {
    var r := Retained(s, d);
    assert Reported(e, r);
    EffectProjects(s, e, r);
    LogExtends(s.decisions, r);
  }

  lemma CommitBounds(s: PipelineState, e: Effect, d: PacketDecision)
    requires Bounded(s) && SinksFit(s) && Loggable(s, e) && |s.decisions| < s.limits.results
    ensures Bounded(Retain(Commit(s, e), d)) && SinksFit(Retain(Commit(s, e), d))
  {
  }

  lemma ProcessKeepsLogged(s: PipelineState, packet: Packet, runId: string, scenarioId: string)
    requires Ready(s) && Logged(s)
    ensures Logged(Process(s, packet, runId, scenarioId).0)
  {
    if |s.decisions| < s.limits.results {
      var e := Plan(s, packet);
      var d := Explaining(Selecting(s, packet, Opening(s, packet, runId, scenarioId)), e);
      PlanLoggable(s, packet);
      CommitProjects(s, e, d);
      CommitBounds(s, e, d);
      RetainObserves(Commit(s, e), d);
    }
  }

  lemma {:induction false} RunKeepsLogged(s: PipelineState, ops: seq<Op>)
    requires Ready(s) && Logged(s)
    ensures Logged(Run(s, ops))
    decreases |ops|
  {
    if ops != [] {
      if ops[0].PacketOp? {
        ProcessKeepsLogged(s, ops[0].packet, ops[0].runId, ops[0].scenarioId);
      }
      RunKeepsLogged(Step(s, ops[0]), ops[1..]);
    }
  }

  // Over every run, with installs anywhere in it: each sink and the report list can be read off the decision log in
  // order, events and dropped events account for every decision, no buffer exceeds its limit, the saturation of the
  // drop counter is never reached, and the sinks hold only uplink traffic without a tunnel and validly tunneled
  // downlink traffic.
  lemma OutputsAreProjections(limits: CapacityLimits, ops: seq<Op>)
    ensures var s := Run(Initial(limits), ops);
            Projected(s) && Observed(s) && Bounded(s) && SinksFit(s)
  {
    RunKeepsLogged(Initial(limits), ops);
  }
}
