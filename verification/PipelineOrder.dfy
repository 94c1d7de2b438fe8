/** The order in which rules are listed is invisible. */
module PipelineOrder {
  import opened Types
  import opened Rules
  import opened Validation
  import Selection
  import opened Decision
  import Runtime
  import QerEngine
  import opened PipelineModel
  import opened PipelineRuns

  ghost predicate SameRules(a: Option<RuleSet>, b: Option<RuleSet>) {
    match (a, b)
    case (None, None) => true
    case (Some(x), Some(y)) => PermutedRules(x, y)
    case _ => false
  }

  /** Two states that differ at most in the order in which the active rules are listed. */
  ghost predicate Alike(s: PipelineState, t: PipelineState) {
    SameRules(s.rules, t.rules) && t == s.(rules := t.rules)
  }

  ghost predicate SameOp(a: Op, b: Op) {
    match (a, b)
    case (InstallOp(x), InstallOp(y)) => PermutedRules(x, y)
    case _ => a == b
  }

  ghost predicate SameOps(a: seq<Op>, b: seq<Op>) {
    |a| == |b| && forall i | 0 <= i < |a| :: SameOp(a[i], b[i])
  }

  lemma PermutedRulesSymmetric(a: RuleSet, b: RuleSet)
    requires PermutedRules(a, b)
    ensures PermutedRules(b, a)
  {
  }

  lemma AcceptedAlike(a: RuleSet, b: RuleSet, limits: CapacityLimits)
    requires PermutedRules(a, b)
    ensures Accepted(a, limits) <==> Accepted(b, limits)
  {
    if Accepted(a, limits) {
      PermutedAccepted(a, b, limits);
    } else if Accepted(b, limits) {
      PermutedRulesSymmetric(a, b);
      PermutedAccepted(b, a, limits);
    }
  }

  lemma InstallAlike(s: PipelineState, t: PipelineState, a: RuleSet, b: RuleSet)
    requires Ready(s) && Ready(t) && Alike(s, t) && PermutedRules(a, b)
    ensures Alike(Install(s, a), Install(t, b))
  {
    AcceptedAlike(a, b, s.limits);
    if Accepted(a, s.limits) {
      Runtime.InstalledPermuted(s.runtime, a, b);
    }
  }

  lemma LookupsAlike(a: RuleSet, b: RuleSet, limits: CapacityLimits, w: Pdr)
    requires PermutedRules(a, b) && Accepted(a, limits)
    ensures Find(a.fars, FarKey, w.farId) == Find(b.fars, FarKey, w.farId)
    ensures w.qerId.Some? ==> Find(a.qers, QerKey, w.qerId.value) == Find(b.qers, QerKey, w.qerId.value)
    ensures w.urrId.Some? ==> Find(a.urrs, UrrKey, w.urrId.value) == Find(b.urrs, UrrKey, w.urrId.value)
  {
    PermutedFind(a.fars, b.fars, FarKey, w.farId);
    if w.qerId.Some? {
      PermutedFind(a.qers, b.qers, QerKey, w.qerId.value);
    }
    if w.urrId.Some? {
      PermutedFind(a.urrs, b.urrs, UrrKey, w.urrId.value);
    }
  }

  lemma AdmittedAlike(s: PipelineState, t: PipelineState, a: RuleSet, b: RuleSet, w: Pdr, packet: Packet,
                      qer: QerDecision, bucket: Option<(uint32, TokenBucketState)>)
    requires Alike(s, t) && a.sessionId == b.sessionId && a.version == b.version
    requires Resolved(s, a, w, packet) && Resolved(t, b, w, packet)
    requires bucket.Some? ==> bucket.value.0 in s.runtime.qers
    requires Find(a.fars, FarKey, w.farId) == Find(b.fars, FarKey, w.farId)
    requires w.urrId.Some? ==> Find(a.urrs, UrrKey, w.urrId.value) == Find(b.urrs, UrrKey, w.urrId.value)
    ensures PlanAdmitted(s, a, w, packet, qer, bucket) == PlanAdmitted(t, b, w, packet, qer, bucket)
  {
  }

  lemma WinnerAlike(s: PipelineState, t: PipelineState, a: RuleSet, b: RuleSet, w: Pdr, packet: Packet)
    requires Alike(s, t) && PermutedRules(a, b) && Accepted(a, s.limits)
    requires Resolved(s, a, w, packet) && Resolved(t, b, w, packet)
    ensures PlanWinner(s, a, w, packet) == PlanWinner(t, b, w, packet)
  {
    LookupsAlike(a, b, s.limits, w);
    if w.qerId.None? {
      AdmittedAlike(s, t, a, b, w, packet, QER_NOT_APPLICABLE, None);
    } else {
      var v := VerdictOn(s, a, w, packet);
      if v.Charged? {
        var qer := Find(a.qers, QerKey, w.qerId.value).value;
        var e := QerEngine.QerResult(qer, s.runtime.qers[qer.id], packet.payloadBytes, packet.arrivalTimeMicros);
        AdmittedAlike(s, t, a, b, w, packet, e.decision, Some((qer.id, e.next)));
      }
    }
  }

  lemma PlanAlike(s: PipelineState, t: PipelineState, packet: Packet)
    requires Ready(s) && Ready(t) && Alike(s, t)
    ensures Plan(s, packet) == Plan(t, packet)
    ensures forall d :: Selecting(s, packet, d) == Selecting(t, packet, d)
  {
    if Selectable(s, packet) {
      var a, b := s.rules.value, t.rules.value;
      assert Accepted(a, s.limits);
      Selection.WinnerPermuted(a, b, s.limits, packet);
      Selection.CandidatesPermuted(a.pdrs, b.pdrs, packet);
      var w := Selection.Winner(a.pdrs, packet);
      if w.Some? {
        WinnerResolved(s, packet);
        WinnerResolved(t, packet);
        WinnerAlike(s, t, a, b, w.value, packet);
      }
    }
  }

  lemma CommitAlike(s: PipelineState, t: PipelineState, e: Effect, d: PacketDecision)
    requires Alike(s, t)
    ensures Alike(Retain(Commit(s, e), d), Retain(Commit(t, e), d)) && Retained(s, d) == Retained(t, d)
  {
  }

  lemma ProcessAlike(s: PipelineState, t: PipelineState, packet: Packet, runId: string, scenarioId: string)
    requires Ready(s) && Ready(t) && Alike(s, t)
    ensures DecisionOn(s, packet, runId, scenarioId) == DecisionOn(t, packet, runId, scenarioId)
    ensures Alike(Process(s, packet, runId, scenarioId).0, Process(t, packet, runId, scenarioId).0)
  {
    PlanAlike(s, t, packet);
    assert Opening(s, packet, runId, scenarioId) == Opening(t, packet, runId, scenarioId);
    if |s.decisions| < s.limits.results {
      var e := Plan(s, packet);
      var d := Explaining(Selecting(s, packet, Opening(s, packet, runId, scenarioId)), e);
      CommitAlike(s, t, e, d);
    }
  }

  /** What a call returns: whether an install succeeded, or the decision on a packet. */
  datatype Answer = Installed(ok: bool) | Decided(decision: PacketDecision)

  ghost function AnswerTo(s: PipelineState, op: Op): Answer
    requires Ready(s)
  {
    match op
    case InstallOp(rules) => Installed(Accepted(rules, s.limits))
    case PacketOp(packet, runId, scenarioId) => Decided(DecisionOn(s, packet, runId, scenarioId))
  }

  /** What the calls of a run return, in order, whether or not there was room to retain it. */
  ghost function Answers(s: PipelineState, ops: seq<Op>): seq<Answer>
    requires Ready(s)
    decreases |ops|
  {
    if ops == [] then [] else [AnswerTo(s, ops[0])] + Answers(Step(s, ops[0]), ops[1..])
  }

  lemma StepAlike(s: PipelineState, t: PipelineState, a: Op, b: Op)
    requires Ready(s) && Ready(t) && Alike(s, t) && SameOp(a, b)
    ensures Alike(Step(s, a), Step(t, b)) && AnswerTo(s, a) == AnswerTo(t, b)
  {
    if a.InstallOp? {
      AcceptedAlike(a.rules, b.rules, s.limits);
      InstallAlike(s, t, a.rules, b.rules);
    } else {
      ProcessAlike(s, t, a.packet, a.runId, a.scenarioId);
    }
  }

  // Rule order is irrelevant: two runs that process the same packets and install rulesets equal up to the order of
  // their lists return the same answers (decisions beyond the results limit and candidate lists included), and agree on
  // every retained decision, sink, report, event and runtime state.
  lemma {:induction false} RuleOrderIrrelevant(s: PipelineState, t: PipelineState, a: seq<Op>, b: seq<Op>)
    requires Ready(s) && Ready(t) && Alike(s, t) && SameOps(a, b)
    ensures var s', t' := Run(s, a), Run(t, b);
            && Answers(s, a) == Answers(t, b)
            && s'.decisions == t'.decisions
            && s'.runtime == t'.runtime
            && s'.n3Sink == t'.n3Sink
            && s'.n6Sink == t'.n6Sink
            && s'.reports == t'.reports
            && s'.events == t'.events
            && s'.droppedEvents == t'.droppedEvents
            && SameRules(s'.rules, t'.rules)
    decreases |a|
  {
    if a != [] {
      assert SameOp(a[0], b[0]);
      StepAlike(s, t, a[0], b[0]);
      RuleOrderIrrelevant(Step(s, a[0]), Step(t, b[0]), a[1..], b[1..]);
    }
  }
}
