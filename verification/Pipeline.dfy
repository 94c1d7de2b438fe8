/** The packet pipeline as an object whose methods update its fields, refining the state machine. */
module Pipeline {
  import opened Types
  import opened Rules
  import Matcher
  import opened Validation
  import Selection
  import opened Decision
  import opened Runtime
  import QerEngine
  import opened FarEngine
  import UrrEngine
  import opened PipelineModel
  import Model = PipelineModel

  /** The selection loop: every candidate in list order, and the winner. */
  method Match(pdrs: seq<Pdr>, packet: Packet) returns (candidates: seq<Matcher.MatchCandidate>, winner: Option<Pdr>)
    ensures candidates == Selection.Candidates(pdrs, packet)
    ensures winner == Selection.Winner(pdrs, packet)
  {
    candidates, winner := [], None;
    for i := 0 to |pdrs|
      invariant candidates == Selection.Candidates(pdrs[..i], packet)
      invariant winner == Selection.Winner(pdrs[..i], packet)
    {
      var candidate := Matcher.EvaluateCandidate(pdrs[i], packet);
      candidates := candidates + [candidate];
      if candidate.matched && (winner.None? || pdrs[i].precedence < winner.value.precedence) {
        winner := Some(pdrs[i]);
      }
      assert pdrs[..i + 1] == pdrs[..i] + [pdrs[i]];
    }
    assert pdrs[..|pdrs|] == pdrs;
  }

  class PacketPipeline {
    const limits: CapacityLimits
    var rules: Option<RuleSet>
    var runtime: RuntimeState
    var n3Sink: seq<Packet>
    var n6Sink: seq<Packet>
    var decisions: seq<PacketDecision>
    var reports: seq<string>
    var events: seq<TerminalResult>
    var droppedEvents: uint64

    ghost function State(): PipelineState
      reads this
    {
      PipelineState(limits, rules, runtime, n3Sink, n6Sink, decisions, reports, events, droppedEvents)
    }

    ghost predicate Valid()
      reads this
    {
      Ready(State())
    }

    constructor (limits: CapacityLimits)
      ensures Valid() && State() == Initial(limits)
    {
      this.limits := limits;
      rules, runtime := None, EMPTY_RUNTIME;
      n3Sink, n6Sink, decisions, reports := [], [], [], [];
      events, droppedEvents := [], 0;
    }

    method Retain(decision: PacketDecision) returns (r: PacketDecision)
      modifies `events, `droppedEvents, `decisions
      ensures State() == Model.Retain(old(State()), decision)
      ensures r == Retained(old(State()), decision)
    {
      r := decision;
      if |events| < limits.events {
        events := events + [decision.terminalResult];
      } else {
        r := r.(observabilityDegraded := true);
        if droppedEvents != U64_MAX {
          droppedEvents := droppedEvents + 1;
        }
      }
      decisions := decisions + [r];
    }

    /** The QER loop of `install`; reading a generation inserts a zero for an absent key. */
    method MigrateQers(candidate: RuleSet)
      returns (qers: map<uint32, TokenBucketState>, generations: map<uint32, uint32>)
      requires UniqueIds(candidate.qers, QerKey)
      modifies `runtime
      ensures runtime == old(runtime).(qerGenerations := runtime.qerGenerations)
      ensures qers == Rebuilt(candidate.qers, QerKey, InstalledBuckets(old(runtime)))
      ensures generations == Rebuilt(candidate.qers, QerKey, QerGeneration)
    {
      ghost var prior := runtime;
      qers, generations := map[], map[];
      for i := 0 to |candidate.qers|
        invariant runtime == prior.(qerGenerations := runtime.qerGenerations)
        invariant forall id ::
            GenerationOrZero(runtime.qerGenerations, id) == GenerationOrZero(prior.qerGenerations, id)
        invariant qers == Rebuilt(candidate.qers[..i], QerKey, InstalledBuckets(prior))
        invariant generations == Rebuilt(candidate.qers[..i], QerKey, QerGeneration)
      {
        var qer := candidate.qers[i];
        if qer.id !in runtime.qerGenerations {
          runtime := runtime.(qerGenerations := runtime.qerGenerations[qer.id := 0]);
        }
        if runtime.qerGenerations[qer.id] == qer.generation && qer.id in runtime.qers {
          qers := qers[qer.id := runtime.qers[qer.id]];
        } else {
          qers := qers[qer.id := EMPTY_BUCKET.(tokensBytes := qer.burstBytes)];
        }
        generations := generations[qer.id := qer.generation];
        RebuiltExtends(candidate.qers, QerKey, InstalledBuckets(prior), i);
        RebuiltExtends(candidate.qers, QerKey, QerGeneration, i);
      }
      assert candidate.qers[..|candidate.qers|] == candidate.qers;
    }

    /** The URR loop of `install`. */
    method MigrateUrrs(candidate: RuleSet)
      returns (urrs: map<uint32, UsageCounterState>, generations: map<uint32, uint32>)
      requires UniqueIds(candidate.urrs, UrrKey)
      modifies `runtime
      ensures runtime == old(runtime).(urrGenerations := runtime.urrGenerations)
      ensures urrs == Rebuilt(candidate.urrs, UrrKey, InstalledCounters(old(runtime)))
      ensures generations == Rebuilt(candidate.urrs, UrrKey, UrrGeneration)
    {
      ghost var prior := runtime;
      urrs, generations := map[], map[];
      for i := 0 to |candidate.urrs|
        invariant runtime == prior.(urrGenerations := runtime.urrGenerations)
        invariant forall id ::
            GenerationOrZero(runtime.urrGenerations, id) == GenerationOrZero(prior.urrGenerations, id)
        invariant urrs == Rebuilt(candidate.urrs[..i], UrrKey, InstalledCounters(prior))
        invariant generations == Rebuilt(candidate.urrs[..i], UrrKey, UrrGeneration)
      {
        var urr := candidate.urrs[i];
        if urr.id !in runtime.urrGenerations {
          runtime := runtime.(urrGenerations := runtime.urrGenerations[urr.id := 0]);
        }
        if runtime.urrGenerations[urr.id] == urr.generation && urr.id in runtime.urrs {
          urrs := urrs[urr.id := runtime.urrs[urr.id]];
        } else {
          urrs := urrs[urr.id := EMPTY_COUNTER];
        }
        generations := generations[urr.id := urr.generation];
        RebuiltExtends(candidate.urrs, UrrKey, InstalledCounters(prior), i);
        RebuiltExtends(candidate.urrs, UrrKey, UrrGeneration, i);
      }
      assert candidate.urrs[..|candidate.urrs|] == candidate.urrs;
    }

    /** The part of `install` after validation. */
    method Activate(candidate: RuleSet)
      requires UniqueIds(candidate.qers, QerKey) && UniqueIds(candidate.urrs, UrrKey)
      modifies `rules, `runtime
      ensures rules == Some(candidate)
      ensures runtime == InstalledRuntime(old(runtime), candidate)
    {
      rules := Some(candidate);
      ghost var prior := runtime;
      var qers, qerGenerations := MigrateQers(candidate);
      RebuiltSame(candidate.urrs, UrrKey, InstalledCounters(runtime), InstalledCounters(prior));
      var urrs, urrGenerations := MigrateUrrs(candidate);
      runtime := RuntimeState(qers, urrs, qerGenerations, urrGenerations);
    }

    method Install(candidate: RuleSet) returns (r: Validity)
      requires Valid()
      modifies `rules, `runtime
      ensures Valid()
      ensures State() == Model.Install(old(State()), candidate)
      ensures r.Valid? <==> Accepted(candidate, limits)
      ensures r.Invalid? ==> Defect(r.error, candidate, limits)
    {
      r := ValidateRuleSet(candidate, limits);
      InstallKeepsReady(State(), candidate);
      if r.Valid? {
        Activate(candidate);
      }
      assert State() == Model.Install(old(State()), candidate);
    }

    /** The sink check and the commit: tokens, usage and report, then the sink or the drop. */
    method Deliver(winner: Pdr, fe: FarEvaluation, planned: PacketDecision,
                   nextTokens: TokenBucketState, tokenChange: bool, usage: UrrEngine.UrrEvaluation, usageChange: bool)
      returns (decision: PacketDecision)
      requires tokenChange ==> winner.qerId.Some? && winner.qerId.value in runtime.qers
      requires usageChange ==> winner.urrId.Some? && winner.urrId.value in runtime.urrs
      requires planned.sink.None? && planned.transformed.None?
      modifies `runtime, `n3Sink, `n6Sink, `reports, `events, `droppedEvents, `decisions
      ensures var e := PlanDelivery(old(State()), fe, planned.qer, planned.far, planned.urr,
                         if tokenChange then Some((winner.qerId.value, nextTokens)) else None,
                         if usageChange then Some((winner.urrId.value, usage.next)) else None,
                         if usageChange && usage.reportGenerated then Some(usage.decision.reportId) else None);
              && State() == Model.Retain(Model.Commit(old(State()), e), Explaining(planned, e))
              && decision == Retained(old(State()), Explaining(planned, e))
    {
      decision := planned;
      var sinkSize := if fe.destination == N3 then |n3Sink| else |n6Sink|;
      if fe.forwarded && sinkSize >= limits.sinkPackets {
        decision := decision.(terminalResult := CapacityError);
        decision := Retain(decision);
        return;
      }
      if tokenChange {
        runtime := runtime.(qers := runtime.qers[winner.qerId.value := nextTokens]);
      }
      if usageChange {
        runtime := runtime.(urrs := runtime.urrs[winner.urrId.value := usage.next]);
        if usage.reportGenerated {
          reports := reports + [usage.decision.reportId];
        }
      }
      if !fe.forwarded {
        decision := decision.(terminalResult := FarDropped);
      } else {
        if fe.destination == N3 {
          n3Sink := n3Sink + [fe.packet];
        } else {
          n6Sink := n6Sink + [fe.packet];
        }
        decision := decision.(
          transformed := Some(fe.packet), sink := Some(fe.destination),
          terminalResult := if fe.destination == N3 then ForwardedToN3 else ForwardedToN6);
      }
      decision := Retain(decision);
    }

    /** The URR of an admitted packet and the report check, then its delivery. */
    method ProcessUsage(active: RuleSet, winner: Pdr, packet: Packet, fe: FarEvaluation, planned: PacketDecision,
                        nextTokens: TokenBucketState, tokenChange: bool)
      returns (decision: PacketDecision)
      requires rules == Some(active) && Resolved(State(), active, winner, packet)
      requires tokenChange ==> winner.qerId.Some?
      requires planned.sink.None? && planned.transformed.None? && planned.urr == NO_URR
      modifies `runtime, `n3Sink, `n6Sink, `reports, `events, `droppedEvents, `decisions
      ensures var bucket := if tokenChange then Some((winner.qerId.value, nextTokens)) else None;
              var meter := MeterOf(active, winner);
              var e := PlanUsage(old(State()), active, meter, packet, fe, planned.qer, planned.far, bucket);
              && State() == Model.Retain(Model.Commit(old(State()), e), Explaining(planned, e))
              && decision == Retained(old(State()), Explaining(planned, e))
    {
      decision := planned;
      var usage := UrrEngine.UrrEvaluation(EMPTY_COUNTER, NO_URR, false, false);
      if winner.urrId.Some? {
        var urr := FindUrr(active, winner.urrId.value);
        usage := UrrEngine.EvaluateUrr(urr.value, runtime.urrs[urr.value.id], packet.payloadBytes, active.sessionId,
          active.version);
        decision := decision.(urr := usage.decision);
        if usage.overflow {
          decision := decision.(terminalResult := ArithmeticError);
          decision := Retain(decision);
          return;
        }
        if usage.reportGenerated && |reports| >= limits.reports {
          decision := decision.(terminalResult := CapacityError);
          decision := Retain(decision);
          return;
        }
      }
      decision := Deliver(winner, fe, decision, nextTokens, tokenChange, usage, winner.urrId.Some?);
    }

    /** The FAR of an admitted packet, then everything after it. */
    method ProcessAdmitted(active: RuleSet, winner: Pdr, packet: Packet, admitted: PacketDecision,
                           nextTokens: TokenBucketState, tokenChange: bool)
      returns (decision: PacketDecision)
      requires rules == Some(active) && Resolved(State(), active, winner, packet)
      requires tokenChange ==> winner.qerId.Some?
      requires admitted.sink.None? && admitted.transformed.None? && admitted.urr == NO_URR
      modifies `runtime, `n3Sink, `n6Sink, `reports, `events, `droppedEvents, `decisions
      ensures var bucket := if tokenChange then Some((winner.qerId.value, nextTokens)) else None;
              var e := PlanAdmitted(old(State()), active, winner, packet, admitted.qer, bucket);
              && State() == Model.Retain(Model.Commit(old(State()), e), Explaining(admitted, e))
              && decision == Retained(old(State()), Explaining(admitted, e))
    {
      decision := admitted;
      var far := FindFar(active, winner.farId);
      var farEvaluation := EvaluateFar(far.value, packet);
      // The exit for an invalid FAR cannot be taken, and forwarding is the same test as not dropping.
      ValidatedFarApplies(active, winner, packet);
      assert farEvaluation.valid && (farEvaluation.forwarded <==> far.value.action != Drop);
      decision := decision.(far := FarDecision(true, far.value.id, far.value.action, farEvaluation.destination,
        packet.tunnel, farEvaluation.packet.tunnel));
      decision := ProcessUsage(active, winner, packet, farEvaluation, decision, nextTokens, tokenChange);
    }

    /** The QER of the selected PDR, then everything after it. */
    method ProcessWinner(active: RuleSet, winner: Pdr, packet: Packet, selected: PacketDecision)
      returns (decision: PacketDecision)
      requires rules == Some(active) && Resolved(State(), active, winner, packet)
      requires selected.qer == NO_QER && selected.far == NO_FAR && selected.urr == NO_URR
      requires selected.sink.None? && selected.transformed.None?
      modifies `runtime, `n3Sink, `n6Sink, `reports, `events, `droppedEvents, `decisions
      ensures var e := PlanWinner(old(State()), active, winner, packet);
              && State() == Model.Retain(Model.Commit(old(State()), e), Explaining(selected, e))
              && decision == Retained(old(State()), Explaining(selected, e))
    {
      decision := selected;
      var nextTokens := EMPTY_BUCKET;
      var tokenChange := false;
      if winner.qerId.Some? {
        var qer := FindQer(active, winner.qerId.value);
        var evaluation :=
          QerEngine.EvaluateQer(qer.value, runtime.qers[qer.value.id], packet.payloadBytes, packet.arrivalTimeMicros);
        decision := decision.(qer := evaluation.decision);
        if !evaluation.decision.allowed {
          if evaluation.failure == RateLimited {
            runtime := runtime.(qers := runtime.qers[qer.value.id := evaluation.next]);
          }
          decision := decision.(terminalResult := evaluation.failure);
          decision := Retain(decision);
          return;
        }
        nextTokens := evaluation.next;
        tokenChange := true;
      } else {
        decision := decision.(qer := decision.qer.(outcome := OutcomeNotApplicable));
        decision := decision.(qer := decision.qer.(allowed := true));
      }
      decision := ProcessAdmitted(active, winner, packet, decision, nextTokens, tokenChange);
    }

    method Process(packet: Packet, runId: string, scenarioId: string) returns (decision: PacketDecision)
      requires Valid()
      modifies this
      ensures Valid()
      ensures (State(), decision) == Model.Process(old(State()), packet, runId, scenarioId)
    {
      ProcessKeepsReady(State(), packet, runId, scenarioId);
      decision := PacketDecision(
        runId, scenarioId, packet.packetId, packet.sessionId, packet.arrivalTimeMicros, packet.ingress,
        0, [], 0, NO_QER, NO_FAR, NO_URR, NoMatch, None, None, false);
      if rules.Some? {
        decision := decision.(rulesetVersion := rules.value.version);
      }
      if |decisions| >= limits.results {
        decision := decision.(terminalResult := CapacityError);
        return;
      }
      if rules.None? || !ValidPacket(packet) || packet.sessionId != rules.value.sessionId {
        decision := decision.(terminalResult := if rules.Some? then MalformedPacket else NoMatch);
        decision := Retain(decision);
        return;
      }
      var active := rules.value;
      var candidates, winner := Match(active.pdrs, packet);
      decision := decision.(candidates := Selection.SortById(candidates));
      if winner.None? {
        decision := decision.(terminalResult := NoMatch);
        decision := Retain(decision);
        return;
      }
      decision := decision.(selectedPdrId := winner.value.id);
      WinnerResolved(State(), packet);
      decision := ProcessWinner(active, winner.value, packet, decision);
    }
  }
}
