/** What a caller gets back for a packet, written out case by case, and the separation of sessions. */
module PipelineOutcomes {
  import opened Types
  import opened Rules
  import Matcher
  import Validation
  import Selection
  import opened Decision
  import opened PipelineModel
  import opened PipelineRuns
  import PipelineExplanation
  import PipelineSafety

  // ----- Refusals before selection

  /** The packet has no identity, mixes address families, belongs to another session, or carries no tunnel it should
      carry (TEID non-zero, QFI from 1 to 63) or a tunnel it should not carry. */
  predicate Malformed(packet: Packet, sessionId: string) {
    || packet.packetId == ""
    || packet.sessionId == ""
    || packet.sourceIp.family != packet.destinationIp.family
    || packet.sessionId != sessionId
    || (packet.ingress == N3
        && (packet.tunnel.None? || packet.tunnel.value.teid == 0
            || packet.tunnel.value.qfi < 1 || packet.tunnel.value.qfi > 63))
    || (packet.ingress == N6 && packet.tunnel.Some?)
  }

  ghost predicate NothingMatches(rules: RuleSet, packet: Packet) {
    forall p | p in rules.pdrs :: !Matcher.InMatchSpace(p, packet)
  }

  lemma MatchesNothing(rules: RuleSet, packet: Packet)
    ensures NothingMatches(rules, packet) <==> Selection.Winner(rules.pdrs, packet).None?
  {
    forall p
      ensures Matcher.Matches(p, packet) <==> Matcher.InMatchSpace(p, packet)
    {
      Matcher.CandidateIffInMatchSpace(p, packet);
    }
  }

  // Every call: with no room for a result the answer is CAPACITY_ERROR and nothing changes. With room it is
  // MALFORMED_PACKET exactly if rules are active and the packet is malformed for their session, and NO_MATCH exactly if
  // no rules are active or the packet is well formed and lies in no match space.
  lemma RefusalsBeforeSelection(s: PipelineState, packet: Packet, runId: string, scenarioId: string)
    requires Ready(s)
    ensures var (s', d) := Process(s, packet, runId, scenarioId);
            var malformed := s.rules.Some? && Malformed(packet, s.rules.value.sessionId);
            if |s.decisions| >= s.limits.results then d.terminalResult == CapacityError && s' == s
            else
              && (d.terminalResult == MalformedPacket <==> malformed)
              && (d.terminalResult == NoMatch <==>
                    s.rules.None? || (!malformed && NothingMatches(s.rules.value, packet)))
  {
    if |s.decisions| < s.limits.results {
      PlanExplained(s, packet);
      PipelineExplanation.DecisionCarriesPlan(s, packet, runId, scenarioId);
      if s.rules.Some? {
        MatchesNothing(s.rules.value, packet);
      }
    }
  }

  // Every answer identifies its packet and the active ruleset.
  lemma AnswersIdentifyPackets(s: PipelineState, packet: Packet, runId: string, scenarioId: string)
    requires Ready(s)
    ensures var d := DecisionOn(s, packet, runId, scenarioId);
            && (d.runId, d.scenarioId, d.packetId, d.sessionId) ==
               (runId, scenarioId, packet.packetId, packet.sessionId)
            && (d.arrivalTimeMicros, d.ingress) == (packet.arrivalTimeMicros, packet.ingress)
            && (s.rules.Some? ==> d.rulesetVersion == s.rules.value.version)
            && (s.rules.None? ==> d.rulesetVersion == 0)
  {
  }

  // An answer given before selection, or for lack of room for results, explains nothing and delivers nothing.
  lemma EarlyAnswersAreEmpty(s: PipelineState, packet: Packet, runId: string, scenarioId: string)
    requires Ready(s)
    requires || |s.decisions| >= s.limits.results
             || s.rules.None?
             || Malformed(packet, s.rules.value.sessionId)
    ensures var d := DecisionOn(s, packet, runId, scenarioId);
            && d.candidates == [] && d.selectedPdrId == 0
            && d.qer == QerDecision(false, 0, Open, 0, 0, 0, 0, false, Unset)
            && d.far == FarDecision(false, 0, Drop, N6, None, None)
            && d.urr == UrrDecision(false, 0, false, 0, 0, 0, 0, false, "")
            && d.sink.None? && d.transformed.None?
  {
  }

  // ----- The result of a packet that reaches a PDR

  /** The PDR matches the packet and has strictly lower precedence than every other one that does. */
  ghost predicate Decides(rules: RuleSet, packet: Packet, w: Pdr) {
    && w in rules.pdrs && Matcher.InMatchSpace(w, packet)
    && forall p | p in rules.pdrs && Matcher.InMatchSpace(p, packet) && p != w :: w.precedence < p.precedence
  }

  /** The rules the PDR names. */
  predicate Named(rules: RuleSet, w: Pdr, far: Far, qer: Option<Qer>, urr: Option<Urr>) {
    && far in rules.fars && far.id == w.farId
    && (w.qerId.Some? <==> qer.Some?) && (w.urrId.Some? <==> urr.Some?)
    && (qer.Some? ==> qer.value in rules.qers && qer.value.id == w.qerId.value)
    && (urr.Some? ==> urr.value in rules.urrs && urr.value.id == w.urrId.value)
  }

  /** What the QER answers, if it does not let the packet pass. */
  function QerRefusal(qer: Qer, b: TokenBucketState, bytes: int, now: int): Option<TerminalResult> {
    var earned := (now - b.lastRefillMicros) * qer.rateBitsPerSecond + b.remainderBitMicros;
    if qer.gate == Closed then Some(GateClosed)
    else if now < b.lastRefillMicros || earned > 0xFFFF_FFFF_FFFF_FFFF then Some(ArithmeticError)
    else if bytes > b.tokensBytes && bytes > Min(qer.burstBytes, b.tokensBytes + earned / 8000000)
    then Some(RateLimited)
    else None
  }

  /** What becomes of a packet the QER lets pass: usage that does not fit, a report or a sink without room, the drop, or
      the sink opposite to where the packet came from. */
  function AdmittedResult(s: PipelineState, packet: Packet, far: Far, urr: Option<Urr>): TerminalResult
    requires urr.Some? ==> urr.value.id in s.runtime.urrs
  {
    var c := if urr.Some? then s.runtime.urrs[urr.value.id] else EMPTY_COUNTER;
    var bytes := c.payloadBytes + packet.payloadBytes;
    if urr.Some? && (c.packets == 0xFFFF_FFFF_FFFF_FFFF || bytes > 0xFFFF_FFFF_FFFF_FFFF) then ArithmeticError
    else if urr.Some? && !c.reportEmitted && bytes >= urr.value.volumeThresholdBytes
            && |s.reports| >= s.limits.reports then CapacityError
    else if far.action == Drop then FarDropped
    else if packet.ingress == N3 then
      if |s.n6Sink| >= s.limits.sinkPackets then CapacityError else ForwardedToN6
    else
      if |s.n3Sink| >= s.limits.sinkPackets then CapacityError else ForwardedToN3
  }

  lemma DecidingIs(s: PipelineState, packet: Packet, w: Pdr)
    requires Ready(s) && |s.decisions| < s.limits.results && s.rules.Some?
    requires !Malformed(packet, s.rules.value.sessionId) && Decides(s.rules.value, packet, w)
    ensures Selectable(s, packet) && Deciding(s, packet) == Some(w)
  {
    var rules := s.rules.value;
    assert Validation.Accepted(rules, s.limits);
    forall p
      ensures Matcher.Matches(p, packet) <==> Matcher.InMatchSpace(p, packet)
    {
      Matcher.CandidateIffInMatchSpace(p, packet);
    }
    Selection.WinnerIffBeatsAll(rules, s.limits, packet, w);
  }

  lemma NamedAreFound(s: PipelineState, w: Pdr, far: Far, qer: Option<Qer>, urr: Option<Urr>)
    requires Ready(s) && s.rules.Some? && Named(s.rules.value, w, far, qer, urr)
    ensures var rules := s.rules.value;
            && Find(rules.fars, FarKey, w.farId) == Some(far)
            && (qer.Some? ==> Find(rules.qers, QerKey, w.qerId.value) == qer)
            && MeterOf(rules, w) == urr
  {
    var rules := s.rules.value;
    assert Validation.Accepted(rules, s.limits);
    FindUnique(rules.fars, FarKey, far);
    if qer.Some? {
      FindUnique(rules.qers, QerKey, qer.value);
    }
    if urr.Some? {
      FindUnique(rules.urrs, UrrKey, urr.value);
    }
  }

  lemma QerDecides(s: PipelineState, rules: RuleSet, w: Pdr, packet: Packet, e: Effect, qer: Qer)
    requires Resolved(s, rules, w, packet) && Explained(s, rules, w, packet, e)
    requires PipelineExplanation.TrueQer(s, rules, w, packet, e.qer)
    requires w.qerId == Some(qer.id) && Find(rules.qers, QerKey, qer.id) == Some(qer)
    ensures var refusal := QerRefusal(qer, s.runtime.qers[qer.id], packet.payloadBytes, packet.arrivalTimeMicros);
            && (e.qer.allowed <==> refusal.None?)
            && (refusal.Some? ==> e.result == refusal.value)
  {
  }

  lemma AdmittedDecides(s: PipelineState, rules: RuleSet, w: Pdr, packet: Packet, e: Effect, far: Far)
    requires Resolved(s, rules, w, packet) && Delivered(s, packet, e) && e.qer.allowed
    requires PipelineExplanation.TrueFar(rules, w, packet, e)
    requires PipelineExplanation.CommittedIffRoom(s, rules, w, packet, e)
    requires Find(rules.fars, FarKey, w.farId) == Some(far)
    requires Committed(e.result) || e.result == ArithmeticError || e.result == CapacityError
    ensures e.result == AdmittedResult(s, packet, far, MeterOf(rules, w))
  {
  }

  // The result of every packet that is decided by a PDR, as a function of the rules the PDR names and of the state
  // before: the QER's refusal if it refuses, and otherwise what becomes of an admitted packet.
  lemma ResultWrittenOut(s: PipelineState, packet: Packet, runId: string, scenarioId: string,
                         w: Pdr, far: Far, qer: Option<Qer>, urr: Option<Urr>)
    requires Ready(s) && |s.decisions| < s.limits.results && s.rules.Some?
    requires !Malformed(packet, s.rules.value.sessionId)
    requires Decides(s.rules.value, packet, w) && Named(s.rules.value, w, far, qer, urr)
    ensures urr.Some? ==> urr.value.id in s.runtime.urrs
    ensures qer.Some? ==> qer.value.id in s.runtime.qers
    ensures var d := DecisionOn(s, packet, runId, scenarioId);
            var refusal := if qer.None? then None
                           else QerRefusal(qer.value, s.runtime.qers[qer.value.id], packet.payloadBytes,
                                           packet.arrivalTimeMicros);
            && d.selectedPdrId == w.id
            && d.terminalResult ==
               (if refusal.Some? then refusal.value else AdmittedResult(s, packet, far, urr))
  {
    DecidingIs(s, packet, w);
    NamedAreFound(s, w, far, qer, urr);
    PlanExplained(s, packet);
    PipelineExplanation.PlansExplainThemselves(s, packet);
    PipelineExplanation.DecisionCarriesPlan(s, packet, runId, scenarioId);
    PipelineExplanation.DecisionsExplainThemselves(s, packet, runId, scenarioId);
    var rules, e := s.rules.value, Plan(s, packet);
    if qer.Some? {
      QerDecides(s, rules, w, packet, e, qer.value);
    }
    if e.qer.allowed {
      AdmittedDecides(s, rules, w, packet, e, far);
    }
  }

  // Whenever the packet is well formed and lies in some match space, there are a PDR and rules to speak of.
  lemma SomePdrDecides(s: PipelineState, packet: Packet)
    returns (w: Pdr, far: Far, qer: Option<Qer>, urr: Option<Urr>)
    requires Ready(s) && s.rules.Some? && !NothingMatches(s.rules.value, packet)
    ensures Decides(s.rules.value, packet, w) && Named(s.rules.value, w, far, qer, urr)
  {
    var rules := s.rules.value;
    assert Validation.Accepted(rules, s.limits);
    MatchesNothing(rules, packet);
    w := Selection.Winner(rules.pdrs, packet).value;
    Selection.WinnerIffBeatsAll(rules, s.limits, packet, w);
    forall p
      ensures Matcher.Matches(p, packet) <==> Matcher.InMatchSpace(p, packet)
    {
      Matcher.CandidateIffInMatchSpace(p, packet);
    }
    assert Validation.AcceptedPdr(rules, w);
    far := Find(rules.fars, FarKey, w.farId).value;
    qer := if w.qerId.None? then None else Find(rules.qers, QerKey, w.qerId.value);
    urr := if w.urrId.None? then None else Find(rules.urrs, UrrKey, w.urrId.value);
  }

  // ----- Sessions

  /** The op is a packet that was committed, or that changed a sink, a report, a bucket or a counter. */
  ghost predicate TakesEffect(s: PipelineState, op: Op)
    requires Ready(s)
  {
    && op.PacketOp?
    && var (s', d) := Process(s, op.packet, op.runId, op.scenarioId);
       || Committed(d.terminalResult)
       || s'.runtime != s.runtime
       || s'.n3Sink != s.n3Sink || s'.n6Sink != s.n6Sink || s'.reports != s.reports
  }

  /** Every packet that takes effect carries the session of the ruleset active at that moment. */
  ghost predicate SessionsSeparate(s: PipelineState, ops: seq<Op>)
    requires Ready(s)
    decreases |ops|
  {
    ops != [] ==>
      && (TakesEffect(s, ops[0]) ==> s.rules.Some? && ops[0].packet.sessionId == s.rules.value.sessionId)
      && SessionsSeparate(Step(s, ops[0]), ops[1..])
  }

  lemma EffectNeedsSession(s: PipelineState, op: Op)
    requires Ready(s) && TakesEffect(s, op)
    ensures s.rules.Some? && op.packet.sessionId == s.rules.value.sessionId
  {
    RefusalsBeforeSelection(s, op.packet, op.runId, op.scenarioId);
    PipelineSafety.AllOrNothing(s, op.packet, op.runId, op.scenarioId);
  }

  // Over every run, with rulesets of any sessions installed in between, no packet of another session is delivered,
  // charged, counted or reported, nor does it refill a bucket.
  lemma {:induction false} SessionsAreSeparate(s: PipelineState, ops: seq<Op>)
    requires Ready(s)
    ensures SessionsSeparate(s, ops)
    decreases |ops|
  {
    if ops != [] {
      if TakesEffect(s, ops[0]) {
        EffectNeedsSession(s, ops[0]);
      }
      SessionsAreSeparate(Step(s, ops[0]), ops[1..]);
    }
  }
}
