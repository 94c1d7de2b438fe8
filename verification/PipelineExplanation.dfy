/** What the explanation in a decision says of the rules and the state before, and when it holds of the state after. */
module PipelineExplanation {
  import opened Types
  import opened Rules
  import opened Matcher
  import Validation
  import opened Selection
  import opened Decision
  import Runtime
  import QerEngine
  import FarEngine
  import UrrEngine
  import Text
  import opened PipelineModel
  import opened PipelineRuns

  // ----- The parts of an explanation

  /** The gate is open, time does not go back, and what was earned fits 64 bits. */
  predicate Evaluable(qer: Qer, b: TokenBucketState, now: uint64) {
    qer.gate == Open && b.lastRefillMicros <= now && QerEngine.Earned(qer, b, now) <= U64_MAX
  }

  /** The QER part: what was in the bucket, what was earned, what there is to pay with, and what is left. */
  predicate TrueQer(s: PipelineState, rules: RuleSet, w: Pdr, packet: Packet, d: QerDecision)
    requires Resolved(s, rules, w, packet)
  {
    if w.qerId.None? then d == QerDecision(false, 0, Open, 0, 0, 0, 0, true, OutcomeNotApplicable)
    else
      var qer := Find(rules.qers, QerKey, w.qerId.value).value;
      var b := s.runtime.qers[qer.id];
      var evaluable := Evaluable(qer, b, packet.arrivalTimeMicros);
      var available := if evaluable then Max(b.tokensBytes, Min(qer.burstBytes, b.tokensBytes + d.refillBytes)) else 0;
      && (d.applicable, d.qerId, d.gate) == (true, qer.id, qer.gate)
      && (d.packetChargeBytes, d.tokensBefore) == (packet.payloadBytes, b.tokensBytes)
      && d.refillBytes == (if evaluable then QerEngine.EarnedBytes(qer, b, packet.arrivalTimeMicros) else 0)
      && (d.allowed <==> evaluable && packet.payloadBytes <= available)
      && (if evaluable then d.tokensAfter + (if d.allowed then packet.payloadBytes else 0) == available
          else d.tokensAfter == d.tokensBefore)
      && (d.outcome == OutcomeAllow <==> d.allowed)
      && (d.outcome == OutcomeRateLimited <==> evaluable && !d.allowed)
      && (d.outcome == OutcomeGateClosed <==> qer.gate == Closed)
      && (d.outcome == OutcomeArithmeticError <==> qer.gate == Open && !evaluable)
  }

  /** The FAR part of an admitted packet: the tunnel before and after, the action and the sink. */
  predicate TrueFar(rules: RuleSet, w: Pdr, packet: Packet, e: Effect)
    requires Validation.AcceptedPdr(rules, w)
  {
    var far := Find(rules.fars, FarKey, w.farId).value;
    if !e.qer.allowed then e.far == FarDecision(false, 0, Drop, N6, None, None)
    else
      && (e.far.applicable, e.far.farId, e.far.action, e.far.before) == (true, w.farId, far.action, packet.tunnel)
      && e.far.after == (if far.action == Drop then packet.tunnel
                         else if packet.ingress == N3 then None else far.tunnel)
      && (far.action == Forward ==> far.destination == Some(e.far.destination))
      && (far.action == Drop ==> e.far.destination == N6)
      && (e.delivery.Some? <==> Committed(e.result) && e.far.action == Forward)
      && (e.delivery.Some? ==> e.delivery.value == (e.far.destination, packet.(tunnel := e.far.after)))
      && (e.result == FarDropped <==> Committed(e.result) && e.far.action == Drop)
  }

  /** The URR part of an admitted packet, committed or not: the totals before, the totals the packet would make, and
      the report it would raise; zeros and no report when counting would overflow. */
  predicate TrueUsage(s: PipelineState, rules: RuleSet, urr: Option<Urr>, packet: Packet, d: UrrDecision)
    requires urr.Some? ==> urr.value.id in s.runtime.urrs
  {
    if urr.None? then d == UrrDecision(false, 0, false, 0, 0, 0, 0, false, "")
    else
      var c := s.runtime.urrs[urr.value.id];
      var packets, bytes := c.packets + 1, c.payloadBytes + packet.payloadBytes;
      var fits := packets <= U64_MAX && bytes <= U64_MAX;
      && (d.applicable, d.counted, d.urrId) == (true, true, urr.value.id)
      && (d.packetsBefore, d.bytesBefore) == (c.packets, c.payloadBytes)
      && (d.packetsAfter, d.bytesAfter) == (if fits then (packets, bytes) else (0, 0))
      && (d.thresholdReached <==> fits && !c.reportEmitted && bytes >= urr.value.volumeThresholdBytes)
      && d.reportId == (if d.thresholdReached
                        then Text.ReportId(rules.sessionId, urr.value.id, urr.value.generation, rules.version) else "")
  }

  predicate TrueUrr(s: PipelineState, rules: RuleSet, w: Pdr, packet: Packet, e: Effect)
    requires Resolved(s, rules, w, packet)
  {
    if e.qer.allowed then TrueUsage(s, rules, MeterOf(rules, w), packet, e.urr)
    else e.urr == UrrDecision(false, 0, false, 0, 0, 0, 0, false, "")
  }

  // ----- When an admitted packet is committed

  /** Counting fits, a report it raises has room, and so has the sink it is forwarded to. */
  predicate UsageHasRoom(s: PipelineState, urr: Option<Urr>, packet: Packet, sink: Option<Interface>)
    requires urr.Some? ==> urr.value.id in s.runtime.urrs
  {
    && (urr.Some? ==>
          var c := s.runtime.urrs[urr.value.id];
          && !UrrEngine.Overflows(c, packet.payloadBytes)
          && (UrrEngine.Reports(urr.value, c, packet.payloadBytes) ==> |s.reports| < s.limits.reports))
    && (sink.Some? ==> |SinkOf(s, sink.value)| < s.limits.sinkPackets)
  }

  predicate HasRoom(s: PipelineState, rules: RuleSet, w: Pdr, packet: Packet)
    requires Resolved(s, rules, w, packet)
  {
    UsageHasRoom(s, MeterOf(rules, w), packet, Find(rules.fars, FarKey, w.farId).value.destination)
  }

  /** An admitted packet is committed exactly when there is room, and otherwise its result says what is short. */
  predicate CommittedIffRoom(s: PipelineState, rules: RuleSet, w: Pdr, packet: Packet, e: Effect)
    requires Resolved(s, rules, w, packet)
  {
    e.qer.allowed ==>
      && (Committed(e.result) <==> HasRoom(s, rules, w, packet))
      && (e.result == ArithmeticError <==>
            && w.urrId.Some?
            && UrrEngine.Overflows(s.runtime.urrs[w.urrId.value], packet.payloadBytes))
      && (!Committed(e.result) ==> e.result == ArithmeticError || e.result == CapacityError)
  }

  lemma UsageIsTrue(s: PipelineState, rules: RuleSet, urr: Option<Urr>, packet: Packet, fe: FarEngine.FarEvaluation,
                    qer: QerDecision, far: FarDecision, bucket: Option<(uint32, TokenBucketState)>)
    requires urr.Some? ==> urr.value.id in s.runtime.urrs
    requires bucket.Some? ==> bucket.value.0 in s.runtime.qers
    ensures TrueUsage(s, rules, urr, packet, PlanUsage(s, rules, urr, packet, fe, qer, far, bucket).urr)
  {
  }

  lemma UsageCommits(s: PipelineState, rules: RuleSet, urr: Option<Urr>, packet: Packet, fe: FarEngine.FarEvaluation,
                     qer: QerDecision, far: FarDecision, bucket: Option<(uint32, TokenBucketState)>)
    requires urr.Some? ==> urr.value.id in s.runtime.urrs
    requires bucket.Some? ==> bucket.value.0 in s.runtime.qers
    ensures var e := PlanUsage(s, rules, urr, packet, fe, qer, far, bucket);
            && (Committed(e.result) <==>
                  UsageHasRoom(s, urr, packet, if fe.forwarded then Some(fe.destination) else None))
            && (e.result == ArithmeticError <==>
                  urr.Some? && UrrEngine.Overflows(s.runtime.urrs[urr.value.id], packet.payloadBytes))
            && (!Committed(e.result) ==> e.result == ArithmeticError || e.result == CapacityError)
  {
  }

  lemma AdmittedIsTrue(s: PipelineState, rules: RuleSet, w: Pdr, packet: Packet, qer: QerDecision,
                       bucket: Option<(uint32, TokenBucketState)>)
    requires Resolved(s, rules, w, packet) && qer.allowed
    requires bucket.Some? ==> bucket.value.0 in s.runtime.qers
    ensures var e := PlanAdmitted(s, rules, w, packet, qer, bucket);
            && e.qer == qer
            && TrueFar(rules, w, packet, e)
            && TrueUrr(s, rules, w, packet, e)
            && CommittedIffRoom(s, rules, w, packet, e)
  {
    var rule := Find(rules.fars, FarKey, w.farId).value;
    var fe := FarEngine.FarResult(rule, packet);
    var far := FarDecision(true, rule.id, rule.action, fe.destination, packet.tunnel, fe.packet.tunnel);
    FarEngine.ValidatedFarApplies(rules, w, packet);
    UsageIsTrue(s, rules, MeterOf(rules, w), packet, fe, qer, far, bucket);
    UsageCommits(s, rules, MeterOf(rules, w), packet, fe, qer, far, bucket);
    UsageCarries(s, rules, MeterOf(rules, w), packet, fe, qer, far, bucket);
    UsageDelivers(s, rules, MeterOf(rules, w), packet, fe, qer, far, bucket);
  }

  lemma QerIsTrue(s: PipelineState, rules: RuleSet, w: Pdr, packet: Packet)
    requires Resolved(s, rules, w, packet) && w.qerId.Some?
    ensures var qer := Find(rules.qers, QerKey, w.qerId.value).value;
            TrueQer(s, rules, w, packet,
              QerEngine.QerResult(qer, s.runtime.qers[qer.id], packet.payloadBytes, packet.arrivalTimeMicros).decision)
  {
  }

  lemma WinnerIsTrue(s: PipelineState, rules: RuleSet, w: Pdr, packet: Packet)
    requires Resolved(s, rules, w, packet)
    ensures var e := PlanWinner(s, rules, w, packet);
            && TrueQer(s, rules, w, packet, e.qer)
            && TrueFar(rules, w, packet, e)
            && TrueUrr(s, rules, w, packet, e)
            && CommittedIffRoom(s, rules, w, packet, e)
  {
    if w.qerId.None? {
      AdmittedIsTrue(s, rules, w, packet, QER_NOT_APPLICABLE, None);
    } else {
      var qer := Find(rules.qers, QerKey, w.qerId.value).value;
      var e := QerEngine.QerResult(qer, s.runtime.qers[qer.id], packet.payloadBytes, packet.arrivalTimeMicros);
      QerIsTrue(s, rules, w, packet);
      if e.decision.allowed {
        AdmittedIsTrue(s, rules, w, packet, e.decision, Some((qer.id, e.next)));
      }
    }
  }

  /** The selection part: exactly the candidates of the active PDRs in ID order, and the PDR that beats all others. */
  ghost predicate TrueSelection(s: PipelineState, packet: Packet, d: PacketDecision)
    requires s.rules.Some?
  {
    && (forall i, j | 0 <= i < j < |d.candidates| :: d.candidates[i].pdrId < d.candidates[j].pdrId)
    && |d.candidates| == |s.rules.value.pdrs|
    && (forall p | p in s.rules.value.pdrs :: Candidate(p, packet) in d.candidates)
    && (forall c | c in d.candidates :: exists p :: p in s.rules.value.pdrs && c == Candidate(p, packet))
    && (d.selectedPdrId == 0 <==> forall p | p in s.rules.value.pdrs :: !Matches(p, packet))
    && (d.selectedPdrId != 0 ==>
          exists w :: BeatsAll(s.rules.value.pdrs, packet, w) && w.id == d.selectedPdrId)
  }

  lemma SortedCandidates(pdrs: seq<Pdr>, packet: Packet)
    ensures var sorted := SortById(Candidates(pdrs, packet));
            && SortedById(sorted)
            && |sorted| == |pdrs|
            && (forall p | p in pdrs :: Candidate(p, packet) in sorted)
            && (forall c | c in sorted :: exists p :: p in pdrs && c == Candidate(p, packet))
  {
    var listed := Candidates(pdrs, packet);
    var sorted := SortById(listed);
    PermutedLength(listed, sorted);
    forall p | p in pdrs
      ensures Candidate(p, packet) in sorted
    {
      var i :| 0 <= i < |pdrs| && pdrs[i] == p;
      assert listed[i] == Candidate(p, packet);
      PermutedMembers(listed, sorted, Candidate(p, packet));
    }
    forall c | c in sorted
      ensures exists p :: p in pdrs && c == Candidate(p, packet)
    {
      PermutedMembers(listed, sorted, c);
      var i :| 0 <= i < |listed| && listed[i] == c;
      assert pdrs[i] in pdrs;
    }
  }

  lemma SelectionIsTrue(s: PipelineState, packet: Packet, d: PacketDecision)
    requires Ready(s) && Selectable(s, packet)
    ensures TrueSelection(s, packet, Selecting(s, packet, d))
  {
    var rules := s.rules.value;
    assert Validation.Accepted(rules, s.limits);
    SortedCandidates(rules.pdrs, packet);
    SortedCandidatesDistinct(rules.pdrs, packet);
    var w := Winner(rules.pdrs, packet);
    if w.Some? {
      WinnerIffBeatsAll(rules, s.limits, packet, w.value);
      assert PdrKey(w.value) != 0;
    }
  }

  // The plan of a packet that reached selection tells the truth about the rules and the state before: what the bucket
  // held, earned and pays, which tunnel the packet had and gets, what the usage counter was and would become. An
  // admitted packet is committed exactly when there is room for all of it.
  lemma PlansExplainThemselves(s: PipelineState, packet: Packet)
    requires Ready(s) && |s.decisions| < s.limits.results && Selectable(s, packet)
    ensures match Deciding(s, packet)
            case None => Plan(s, packet) == Refuse(NoMatch, NO_QER, NO_FAR, NO_URR)
            case Some(w) =>
              var rules, e := s.rules.value, Plan(s, packet);
              && Resolved(s, rules, w, packet)
              && TrueQer(s, rules, w, packet, e.qer)
              && TrueFar(rules, w, packet, e)
              && TrueUrr(s, rules, w, packet, e)
              && CommittedIffRoom(s, rules, w, packet, e)
  {
    var w := Deciding(s, packet);
    if w.Some? {
      WinnerResolved(s, packet);
      WinnerIsTrue(s, s.rules.value, w.value, packet);
    }
  }

  lemma DecisionCarriesPlan(s: PipelineState, packet: Packet, runId: string, scenarioId: string)
    requires Ready(s) && |s.decisions| < s.limits.results
    ensures var (s', d) := Process(s, packet, runId, scenarioId);
            var e := Plan(s, packet);
            && (d.qer, d.far, d.urr, d.terminalResult) == (e.qer, e.far, e.urr, e.result)
            && s'.runtime == CommittedRuntime(s.runtime, e)
            && s'.reports == (if e.report.Some? then s.reports + [e.report.value] else s.reports)
  {
  }

  // The reported decision carries that explanation, names the candidates and the deciding PDR, and the state it
  // leaves is the plan committed.
  lemma DecisionsExplainThemselves(s: PipelineState, packet: Packet, runId: string, scenarioId: string)
    requires Ready(s) && |s.decisions| < s.limits.results && Selectable(s, packet)
    ensures var (s', d) := Process(s, packet, runId, scenarioId);
            var e := Plan(s, packet);
            && (d.qer, d.far, d.urr, d.terminalResult) == (e.qer, e.far, e.urr, e.result)
            && s'.runtime == CommittedRuntime(s.runtime, e)
            && TrueSelection(s, packet, d)
            && (Deciding(s, packet).Some? ==> d.selectedPdrId == Deciding(s, packet).value.id)
  {
    var opening := Opening(s, packet, runId, scenarioId);
    DecisionCarriesPlan(s, packet, runId, scenarioId);
    SelectionIsTrue(s, packet, opening);
    SelectionSurvives(s, packet, Selecting(s, packet, opening), DecisionOn(s, packet, runId, scenarioId));
  }

  lemma SelectionSurvives(s: PipelineState, packet: Packet, d: PacketDecision, d': PacketDecision)
    requires s.rules.Some? && TrueSelection(s, packet, d)
    requires d'.candidates == d.candidates && d'.selectedPdrId == d.selectedPdrId
    ensures TrueSelection(s, packet, d')
  {
  }

  // ----- When an explanation holds of the state left behind

  /** The totals a decision tells of are the totals kept. */
  predicate TotalsKept(runtime: Runtime.RuntimeState, urrId: uint32, d: UrrDecision) {
    && urrId in runtime.urrs
    && (runtime.urrs[urrId].packets, runtime.urrs[urrId].payloadBytes) == (d.packetsAfter, d.bytesAfter)
  }

  /** The report a decision names, if any, is the one report appended. */
  predicate ReportKept(before: seq<string>, after: seq<string>, d: UrrDecision) {
    after == before + (if d.reportId == "" then [] else [d.reportId])
  }

  predicate TokensKept(runtime: Runtime.RuntimeState, qerId: uint32, d: QerDecision) {
    qerId in runtime.qers && runtime.qers[qerId].tokensBytes == d.tokensAfter
  }

  /** What a decision says of the state left behind holds exactly if the packet was committed, or if it says of the
      report and of the tokens that nothing changes. */
  predicate HoldsIffCommitted(s: PipelineState, s': PipelineState, w: Pdr, qer: QerDecision, urr: UrrDecision,
                              result: TerminalResult) {
    && (qer.allowed && w.urrId.Some? ==> (TotalsKept(s'.runtime, w.urrId.value, urr) <==> Committed(result)))
    && (ReportKept(s.reports, s'.reports, urr) <==> Committed(result) || !urr.thresholdReached)
    && (w.qerId.Some? ==>
          (TokensKept(s'.runtime, w.qerId.value, qer) <==>
             Committed(result) || !qer.allowed || qer.tokensAfter == qer.tokensBefore))
  }

  lemma EffectKeepsUsage(s: PipelineState, rules: RuleSet, w: Pdr, packet: Packet, e: Effect)
    requires Resolved(s, rules, w, packet) && Explained(s, rules, w, packet, e) && TrueUrr(s, rules, w, packet, e)
    requires Committed(e.result) ==> e.qer.allowed
    ensures e.qer.allowed && w.urrId.Some? ==>
              (TotalsKept(CommittedRuntime(s.runtime, e), w.urrId.value, e.urr) <==> Committed(e.result))
    ensures ReportKept(s.reports, Commit(s, e).reports, e.urr) <==> Committed(e.result) || !e.urr.thresholdReached
  {
  }

  lemma EffectKeepsTokens(s: PipelineState, rules: RuleSet, w: Pdr, packet: Packet, e: Effect)
    requires Resolved(s, rules, w, packet) && Explained(s, rules, w, packet, e) && TrueQer(s, rules, w, packet, e.qer)
    requires w.qerId.Some?
    ensures TokensKept(CommittedRuntime(s.runtime, e), w.qerId.value, e.qer) <==>
              Committed(e.result) || !e.qer.allowed || e.qer.tokensAfter == e.qer.tokensBefore
    ensures Committed(e.result) ==> e.qer.allowed
  {
  }

  lemma EffectHoldsIffCommitted(s: PipelineState, rules: RuleSet, w: Pdr, packet: Packet, e: Effect)
    requires Resolved(s, rules, w, packet) && Explained(s, rules, w, packet, e)
    requires TrueQer(s, rules, w, packet, e.qer) && TrueUrr(s, rules, w, packet, e)
    ensures HoldsIffCommitted(s, Commit(s, e), w, e.qer, e.urr, e.result)
  {
    if w.qerId.Some? {
      EffectKeepsTokens(s, rules, w, packet, e);
    }
    EffectKeepsUsage(s, rules, w, packet, e);
  }

  // A decision is written before the room for its effects is known, so what it says of the state afterwards holds
  // exactly if the packet is committed: of an admitted packet that is refused for lack of room, the usage totals, the
  // report and (unless the charge was just earned) the tokens it tells of were never written.
  lemma ExplanationHoldsIffCommitted(s: PipelineState, packet: Packet, runId: string, scenarioId: string)
    requires Ready(s) && |s.decisions| < s.limits.results && Deciding(s, packet).Some?
    ensures var (s', d) := Process(s, packet, runId, scenarioId);
            HoldsIffCommitted(s, s', Deciding(s, packet).value, d.qer, d.urr, d.terminalResult)
  {
    PlanExplained(s, packet);
    PlansExplainThemselves(s, packet);
    EffectHoldsIffCommitted(s, s.rules.value, Deciding(s, packet).value, packet, Plan(s, packet));
    DecisionCarriesPlan(s, packet, runId, scenarioId);
  }
}
