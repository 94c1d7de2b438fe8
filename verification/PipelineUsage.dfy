/** Usage accounting over whole runs: what the counter of a URR holds, and which reports are appended. */
module PipelineUsage {
  import opened Types
  import opened Rules
  import Validation
  import opened Decision
  import Runtime
  import opened UrrEngine
  import opened Text
  import opened PipelineModel
  import opened PipelineRuns

  // ----- The URR that is active under an ID

  function UrrAt(s: PipelineState, id: uint32): Option<Urr> {
    if s.rules.Some? then Find(s.rules.value.urrs, UrrKey, id) else None
  }

  /** The active ruleset defines the URR with this generation. */
  predicate Holds(s: PipelineState, id: uint32, generation: uint32) {
    UrrAt(s, id).Some? && UrrAt(s, id).value.generation == generation
  }

  function CounterOf(s: PipelineState, id: uint32): UsageCounterState {
    if id in s.runtime.urrs then s.runtime.urrs[id] else EMPTY_COUNTER
  }

  lemma RuntimeHolds(s: PipelineState, id: uint32)
    requires Ready(s)
    ensures id in s.runtime.urrs <==> UrrAt(s, id).Some?
    ensures id in s.runtime.urrGenerations <==> UrrAt(s, id).Some?
    ensures UrrAt(s, id).Some? ==> s.runtime.urrGenerations[id] == UrrAt(s, id).value.generation
  {
    if s.rules.Some? {
      assert Runtime.RuntimeOf(s.runtime, s.rules.value);
      var u := UrrAt(s, id);
      if u.Some? {
        assert UrrKey(u.value) in Ids(s.rules.value.urrs, UrrKey);
      }
    }
  }

  lemma DefinedUrr(s: PipelineState, urr: Urr)
    requires Ready(s) && s.rules.Some? && urr in s.rules.value.urrs
    ensures UrrAt(s, urr.id) == Some(urr)
  {
    assert Validation.Accepted(s.rules.value, s.limits);
    FindUnique(s.rules.value.urrs, UrrKey, urr);
  }

  // ----- What a run counts

  ghost predicate CountedBy(s: PipelineState, op: Op, id: uint32)
    requires Ready(s)
  {
    var w := CommittedPdr(s, op);
    w.Some? && w.value.urrId == Some(id)
  }

  ghost function PacketsCounted(s: PipelineState, ops: seq<Op>, id: uint32): nat
    requires Ready(s)
    decreases |ops|
  {
    if ops == [] then 0
    else (if CountedBy(s, ops[0], id) then 1 else 0) + PacketsCounted(Step(s, ops[0]), ops[1..], id)
  }

  ghost function BytesCounted(s: PipelineState, ops: seq<Op>, id: uint32): nat
    requires Ready(s)
    decreases |ops|
  {
    if ops == [] then 0
    else (if CountedBy(s, ops[0], id) then ops[0].packet.payloadBytes else 0)
         + BytesCounted(Step(s, ops[0]), ops[1..], id)
  }

  /** The reports one op appends. */
  ghost function StepReports(s: PipelineState, op: Op): seq<string>
    requires Ready(s)
  {
    var after := Step(s, op).reports;
    if |s.reports| <= |after| then after[|s.reports|..] else []
  }

  /** The reports a run appends, in order. */
  ghost function Appended(s: PipelineState, ops: seq<Op>): seq<string>
    requires Ready(s)
    decreases |ops|
  {
    if ops == [] then [] else StepReports(s, ops[0]) + Appended(Step(s, ops[0]), ops[1..])
  }

  // ----- One step

  lemma EffectOnCounter(s: PipelineState, rules: RuleSet, w: Pdr, packet: Packet, e: Effect, urr: Urr)
    requires Resolved(s, rules, w, packet) && Explained(s, rules, w, packet, e)
    requires urr.id in s.runtime.urrs && Find(rules.urrs, UrrKey, urr.id) == Some(urr)
    ensures var c := s.runtime.urrs[urr.id];
            var urrs := CommittedRuntime(s.runtime, e).urrs;
            && urr.id in urrs
            && if w.urrId == Some(urr.id) && Committed(e.result)
               then
                 && !Overflows(c, packet.payloadBytes)
                 && urrs[urr.id] == Counted(urr, c, packet.payloadBytes)
                 && e.report == (if Reports(urr, c, packet.payloadBytes)
                                 then Some(ReportId(rules.sessionId, urr.id, urr.generation, rules.version)) else None)
               else urrs[urr.id] == c
  {
  }

  // A committed packet whose PDR names the URR is counted and reports once the threshold is met; any other packet
  // leaves the counter alone.
  lemma PacketOnCounter(s: PipelineState, op: Op, urr: Urr)
    requires Ready(s) && op.PacketOp? && UrrAt(s, urr.id) == Some(urr)
    ensures UrrAt(Step(s, op), urr.id) == Some(urr)
    ensures var c, bytes := CounterOf(s, urr.id), op.packet.payloadBytes;
            if CountedBy(s, op, urr.id)
            then !Overflows(c, bytes)
                 && CounterOf(Step(s, op), urr.id) == Counted(urr, c, bytes)
                 && Step(s, op).reports == s.reports +
                    (if Reports(urr, c, bytes)
                     then [ReportId(s.rules.value.sessionId, urr.id, urr.generation, s.rules.value.version)] else [])
            else CounterOf(Step(s, op), urr.id) == c
  {
    RuntimeHolds(s, urr.id);
    PacketStep(s, op);
    if |s.decisions| < s.limits.results {
      PlanExplained(s, op.packet);
      var w := Deciding(s, op.packet);
      if w.Some? {
        EffectOnCounter(s, s.rules.value, w.value, op.packet, Plan(s, op.packet), urr);
      }
    }
  }

  // Only a packet counted on a URR appends anything.
  lemma UncountedReports(s: PipelineState, op: Op)
    requires Ready(s)
    ensures Step(s, op).reports == s.reports
            || (op.PacketOp? && exists urr: Urr :: UrrAt(s, urr.id) == Some(urr) && CountedBy(s, op, urr.id))
  {
    if op.PacketOp? && Step(s, op).reports != s.reports {
      PacketStep(s, op);
      PlanExplained(s, op.packet);
      var w := Deciding(s, op.packet).value;
      var urr := MeterOf(s.rules.value, w).value;
      assert UrrAt(s, urr.id) == Some(urr) && CountedBy(s, op, urr.id);
    }
  }

  /** The text is the identity of a report. */
  ghost predicate Identity(report: string) {
    exists session: string, id: uint32, generation: uint32, version: uint64 ::
      report == ReportId(session, id, generation, version)
  }

  ghost predicate AreIdentities(reports: seq<string>) {
    forall i | 0 <= i < |reports| :: Identity(reports[i])
  }

  lemma IdentitiesCompose(a: seq<string>, b: seq<string>)
    requires AreIdentities(a) && AreIdentities(b)
    ensures AreIdentities(a + b)
  {
  }

  lemma TailOfConcatenation<T>(a: seq<T>, b: seq<T>)
    ensures (a + b)[|a|..] == b
  {
  }

  lemma CountedAppends(s: PipelineState, op: Op, urr: Urr)
    requires Ready(s) && UrrAt(s, urr.id) == Some(urr) && CountedBy(s, op, urr.id)
    ensures exists appended :: Step(s, op).reports == s.reports + appended && AreIdentities(appended)
  {
    PacketOnCounter(s, op, urr);
    var report := ReportId(s.rules.value.sessionId, urr.id, urr.generation, s.rules.value.version);
    var appended := if Reports(urr, CounterOf(s, urr.id), op.packet.payloadBytes) then [report] else [];
    assert Identity(report);
    assert AreIdentities(appended);
    assert Step(s, op).reports == s.reports + appended;
  }

  lemma StepAppends(s: PipelineState, op: Op)
    requires Ready(s)
    ensures Step(s, op).reports == s.reports + StepReports(s, op)
    ensures op.InstallOp? ==> StepReports(s, op) == []
    ensures AreIdentities(StepReports(s, op))
  {
    UncountedReports(s, op);
    if Step(s, op).reports != s.reports {
      var urr: Urr :| UrrAt(s, urr.id) == Some(urr) && CountedBy(s, op, urr.id);
      CountedAppends(s, op, urr);
      var appended :| Step(s, op).reports == s.reports + appended && AreIdentities(appended);
      TailOfConcatenation(s.reports, appended);
    }
  }

  lemma Reassociates<T>(a: seq<T>, b: seq<T>, c: seq<T>)
    ensures (a + b) + c == a + (b + c)
  {
  }

  lemma {:induction false} RunAppends(s: PipelineState, ops: seq<Op>)
    requires Ready(s)
    ensures Run(s, ops).reports == s.reports + Appended(s, ops)
    decreases |ops|
  {
    if ops != [] {
      StepAppends(s, ops[0]);
      RunAppends(Step(s, ops[0]), ops[1..]);
      Reassociates(s.reports, StepReports(s, ops[0]), Appended(Step(s, ops[0]), ops[1..]));
    } else {
      assert s.reports + [] == s.reports;
    }
  }

  lemma {:induction false} AppendedAreIdentities(s: PipelineState, ops: seq<Op>)
    requires Ready(s)
    ensures AreIdentities(Appended(s, ops))
    decreases |ops|
  {
    if ops != [] {
      StepAppends(s, ops[0]);
      AppendedAreIdentities(Step(s, ops[0]), ops[1..]);
      IdentitiesCompose(StepReports(s, ops[0]), Appended(Step(s, ops[0]), ops[1..]));
    }
  }

  lemma AppendedAfterInstall(s: PipelineState, rules: RuleSet, ops: seq<Op>)
    requires Ready(s)
    ensures Appended(s, [InstallOp(rules)] + ops) == Appended(Step(s, InstallOp(rules)), ops)
  {
    assert ([InstallOp(rules)] + ops)[1..] == ops;
    StepAppends(s, InstallOp(rules));
  }

  lemma {:induction false} AppendedComposes(s: PipelineState, first: seq<Op>, second: seq<Op>)
    requires Ready(s)
    ensures Appended(s, first + second) == Appended(s, first) + Appended(Run(s, first), second)
    decreases |first|
  {
    if first == [] {
      assert first + second == second;
    } else {
      assert (first + second)[1..] == first[1..] + second;
      var m := Step(s, first[0]);
      AppendedComposes(m, first[1..], second);
      Reassociates(StepReports(s, first[0]), Appended(m, first[1..]), Appended(Run(m, first[1..]), second));
    }
  }

  // An install carries the counter of a generation that is already held and starts every other one at zero.
  lemma InstallOnCounter(s: PipelineState, op: Op, id: uint32, generation: uint32)
    requires Ready(s) && op.InstallOp? && Holds(Step(s, op), id, generation)
    ensures CounterOf(Step(s, op), id) == if Holds(s, id, generation) then CounterOf(s, id) else EMPTY_COUNTER
  {
    if Validation.Accepted(op.rules, s.limits) {
      RuntimeHolds(s, id);
      Runtime.InstalledRuntimeOf(s.runtime, op.rules);
      var urr := UrrAt(Step(s, op), id).value;
      assert Step(s, op).runtime.urrs[urr.id] == Runtime.InstalledCounter(s.runtime, urr);
    }
  }

  // ----- Exact counting

  /** The URR has this generation all along. */
  ghost predicate KeepsGeneration(s: PipelineState, ops: seq<Op>, id: uint32, generation: uint32)
    requires Ready(s)
    decreases |ops|
  {
    && Holds(s, id, generation)
    && (ops != [] ==> KeepsGeneration(Step(s, ops[0]), ops[1..], id, generation))
  }

  lemma StepCounts(s: PipelineState, op: Op, id: uint32, generation: uint32)
    requires Ready(s) && Holds(s, id, generation) && Holds(Step(s, op), id, generation)
    ensures var c, c' := CounterOf(s, id), CounterOf(Step(s, op), id);
            && c'.packets == c.packets + (if CountedBy(s, op, id) then 1 else 0)
            && c'.payloadBytes == c.payloadBytes + (if CountedBy(s, op, id) then op.packet.payloadBytes else 0)
  {
    if op.PacketOp? {
      PacketOnCounter(s, op, UrrAt(s, id).value);
    } else {
      InstallOnCounter(s, op, id, generation);
    }
  }

  lemma {:induction false} RunCounts(s: PipelineState, ops: seq<Op>, id: uint32, generation: uint32)
    requires Ready(s) && KeepsGeneration(s, ops, id, generation)
    ensures var c, c' := CounterOf(s, id), CounterOf(Run(s, ops), id);
            && c'.packets == c.packets + PacketsCounted(s, ops, id)
            && c'.payloadBytes == c.payloadBytes + BytesCounted(s, ops, id)
    decreases |ops|
  {
    if ops != [] {
      StepCounts(s, ops[0], id, generation);
      RunCounts(Step(s, ops[0]), ops[1..], id, generation);
    }
  }

  // An install that brings a generation that was not held starts its counter at zero.
  lemma FreshInstallIsEmpty(s: PipelineState, rules: RuleSet, urr: Urr)
    requires Ready(s) && Validation.Accepted(rules, s.limits) && urr in rules.urrs && !Holds(s, urr.id, urr.generation)
    ensures UrrAt(Step(s, InstallOp(rules)), urr.id) == Some(urr)
    ensures CounterOf(Step(s, InstallOp(rules)), urr.id) == EMPTY_COUNTER
  {
    DefinedUrr(Step(s, InstallOp(rules)), urr);
    InstallOnCounter(s, InstallOp(rules), urr.id, urr.generation);
  }

  // Exact usage accounting: from an install that brings a URR generation that was not held, and for as long as that
  // generation stays, whatever becomes of the threshold, the counter is the number and the payload of the committed
  // packets whose PDR names the URR.
  lemma UsageIsExact(s: PipelineState, rules: RuleSet, ops: seq<Op>, urr: Urr)
    requires Ready(s) && Validation.Accepted(rules, s.limits) && urr in rules.urrs && !Holds(s, urr.id, urr.generation)
    requires KeepsGeneration(Step(s, InstallOp(rules)), ops, urr.id, urr.generation)
    ensures var m := Step(s, InstallOp(rules));
            var c := CounterOf(Run(m, ops), urr.id);
            c.packets == PacketsCounted(m, ops, urr.id) && c.payloadBytes == BytesCounted(m, ops, urr.id)
  {
    FreshInstallIsEmpty(s, rules, urr);
    RunCounts(Step(s, InstallOp(rules)), ops, urr.id, urr.generation);
  }
}
