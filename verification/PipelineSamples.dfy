/** Concrete runs in which the pipeline does not do what is said about it. */
module PipelineSamples {
  import opened Types
  import Address
  import opened Rules
  import opened Validation
  import opened Decision
  import opened Text
  import opened PipelineModel
  import opened PipelineRuns
  import PipelineExplanation
  import opened PipelineUsage
  import PipelineAccounting

  const ANY_PREFIX: Address.IpPrefix := Address.IpPrefix(Address.IpAddress(Address.IPv4, Address.ZERO_BYTES), 0)
  const METERED_PDR := Pdr(1, 0, N6, None, ANY_PREFIX, None, None, None, None, 1, None, Some(1))
  const DISCARD := Far(1, Drop, None, TunnelNone, None)

  /** Every packet reaches the threshold. */
  function Metered(generation: uint32): Urr {
    Urr(1, 0, generation)
  }

  function MeteredRules(version: uint64, generation: uint32): RuleSet {
    RuleSet("s", version, [METERED_PDR], [DISCARD], [], [Metered(generation)])
  }

  function PlainRules(version: uint64): RuleSet {
    RuleSet("s", version, [], [], [], [])
  }

  const SAMPLE := Packet("p", "s", N6, None,
    Address.IpAddress(Address.IPv4, Address.ZERO_BYTES), Address.IpAddress(Address.IPv4, Address.ZERO_BYTES),
    Tcp, 0, 0, 1, 0)
  const SAMPLE_OP: Op := PacketOp(SAMPLE, "", "")

  lemma SampleRulesAccepted(limits: CapacityLimits, version: uint64, generation: uint32)
    requires limits.rulesPerType >= 1 && version != 0
    ensures Accepted(MeteredRules(version, generation), limits) && Accepted(PlainRules(version), limits)
  {
  }

  lemma SampleDecides(s: PipelineState, version: uint64, generation: uint32)
    requires Ready(s) && s.rules == Some(MeteredRules(version, generation)) && |s.decisions| < s.limits.results
    ensures Deciding(s, SAMPLE) == Some(METERED_PDR)
    ensures UrrAt(s, 1) == MeterOf(s.rules.value, METERED_PDR) == Some(Metered(generation))
  {
    Address.ContainsOwnNetwork(ANY_PREFIX);
    assert s.rules.value.pdrs[..0] == [];
    DefinedUrr(s, Metered(generation));
  }

  // With an unused counter the packet is admitted, meets the threshold, and is committed if the report has room.
  lemma SamplePlan(s: PipelineState, version: uint64, generation: uint32)
    requires Ready(s) && s.rules == Some(MeteredRules(version, generation)) && |s.decisions| < s.limits.results
    requires CounterOf(s, 1) == EMPTY_COUNTER
    ensures var e := Plan(s, SAMPLE);
            && e.urr.packetsAfter == 1 && e.urr.thresholdReached
            && e.urr.reportId == ReportId("s", 1, generation, version)
            && e.result == (if |s.reports| < s.limits.reports then FarDropped else CapacityError)
  {
    SampleDecides(s, version, generation);
    PipelineExplanation.PlansExplainThemselves(s, SAMPLE);
    RuntimeHolds(s, 1);
    assert Find([DISCARD], FarKey, 1) == Some(DISCARD);
  }

  lemma SampleReports(s: PipelineState, version: uint64, generation: uint32)
    requires Ready(s) && s.rules == Some(MeteredRules(version, generation)) && CounterOf(s, 1) == EMPTY_COUNTER
    requires |s.decisions| < s.limits.results && |s.reports| < s.limits.reports
    ensures Step(s, SAMPLE_OP).reports == s.reports + [ReportId("s", 1, generation, version)]
    ensures |Step(s, SAMPLE_OP).decisions| == |s.decisions| + 1
  {
    SampleDecides(s, version, generation);
    SamplePlan(s, version, generation);
    PacketStep(s, SAMPLE_OP);
    PacketOnCounter(s, SAMPLE_OP, Metered(generation));
  }

  // An install of the sample rules, unless they were active with the same generation, and the packet after it.
  lemma SampleRun(s: PipelineState, version: uint64, generation: uint32)
    requires Ready(s) && s.limits.rulesPerType >= 1 && version != 0 && !Holds(s, 1, generation)
    requires |s.decisions| < s.limits.results && |s.reports| < s.limits.reports
    ensures var t := Run(s, [InstallOp(MeteredRules(version, generation)), SAMPLE_OP]);
            && t.reports == s.reports + [ReportId("s", 1, generation, version)]
            && |t.decisions| == |s.decisions| + 1
  {
    SampleRulesAccepted(s.limits, version, generation);
    FreshInstallIsEmpty(s, MeteredRules(version, generation), Metered(generation));
    var m := Step(s, InstallOp(MeteredRules(version, generation)));
    SampleReports(m, version, generation);
    RunTwo(s, InstallOp(MeteredRules(version, generation)), SAMPLE_OP);
  }

  lemma RunTwo(s: PipelineState, first: Op, second: Op)
    requires Ready(s)
    ensures Run(s, [first, second]) == Step(Step(s, first), second)
  {
    assert [first, second][1..] == [second] && [second][1..] == [];
    var m := Step(s, first);
    assert Run(m, [second]) == Run(Step(m, second), []);
  }

  lemma RunOne(s: PipelineState, op: Op)
    requires Ready(s)
    ensures Run(s, [op]) == Step(s, op)
  {
    assert [op][1..] == [];
    assert Run(Step(s, op), []) == Step(s, op);
  }

  // The counter of a pair does not survive a ruleset that does not define it, whether that ruleset drops the URR or
  // gives it another generation.
  lemma ReturnedGenerationStartsAfresh(s: PipelineState, between: RuleSet, again: RuleSet, urr: Urr)
    requires Ready(s) && Accepted(between, s.limits) && Accepted(again, s.limits) && urr in again.urrs
    requires forall u | u in between.urrs :: !(u.id == urr.id && u.generation == urr.generation)
    ensures !Holds(Run(s, [InstallOp(between)]), urr.id, urr.generation)
    ensures CounterOf(Run(s, [InstallOp(between), InstallOp(again)]), urr.id) == EMPTY_COUNTER
  {
    RunOne(s, InstallOp(between));
    RunTwo(s, InstallOp(between), InstallOp(again));
    FreshInstallIsEmpty(Step(s, InstallOp(between)), again, urr);
  }

  lemma SampleRerun(s: PipelineState, between: RuleSet)
    requires Ready(s) && s.limits.rulesPerType >= 1
    requires between == PlainRules(2) || between == MeteredRules(2, 2)
    requires |s.decisions| < s.limits.results && |s.reports| < s.limits.reports
    ensures Run(s, [InstallOp(between)] + [InstallOp(MeteredRules(3, 1)), SAMPLE_OP]).reports ==
            s.reports + [ReportId("s", 1, 1, 3)]
  {
    var last := [InstallOp(MeteredRules(3, 1)), SAMPLE_OP];
    SampleRulesAccepted(s.limits, 2, 2);
    SampleRulesAccepted(s.limits, 3, 1);
    ReturnedGenerationStartsAfresh(s, between, MeteredRules(3, 1), Metered(1));
    RunOne(s, InstallOp(between));
    SampleRun(Run(s, [InstallOp(between)]), 3, 1);
    RunComposes(s, [InstallOp(between)], last);
  }

  // One threshold report per generation is not guaranteed: versions 1, 2 and 3 are installed in order, and a URR that
  // the second ruleset drops, or gives another generation, reports twice under its generation.
  lemma TwoReportsOneGeneration(limits: CapacityLimits, between: RuleSet)
    requires limits.rulesPerType >= 1 && limits.results >= 2 && limits.reports >= 2
    requires between == PlainRules(2) || between == MeteredRules(2, 2)
    ensures Run(Initial(limits),
                [InstallOp(MeteredRules(1, 1)), SAMPLE_OP]
                + ([InstallOp(between)] + [InstallOp(MeteredRules(3, 1)), SAMPLE_OP])).reports ==
            [ReportId("s", 1, 1, 1), ReportId("s", 1, 1, 3)]
  {
    var s := Initial(limits);
    var first := [InstallOp(MeteredRules(1, 1)), SAMPLE_OP];
    SampleRun(s, 1, 1);
    SampleRerun(Run(s, first), between);
    RunComposes(s, first, [InstallOp(between)] + [InstallOp(MeteredRules(3, 1)), SAMPLE_OP]);
  }

  lemma SampleRefused(s: PipelineState)
    requires Ready(s) && s.rules == Some(MeteredRules(1, 1)) && CounterOf(s, 1) == EMPTY_COUNTER
    requires |s.decisions| < s.limits.results && s.limits.reports == 0
    ensures var (s', d) := Process(s, SAMPLE, "", "");
            && d.terminalResult == CapacityError
            && d.urr.thresholdReached && d.urr.reportId == ReportId("s", 1, 1, 1) && d.urr.packetsAfter == 1
            && s'.reports == s.reports
            && CounterOf(s', 1) == EMPTY_COUNTER
  {
    SamplePlan(s, 1, 1);
    PipelineExplanation.DecisionCarriesPlan(s, SAMPLE, "", "");
  }

  // With no room for reports the decision tells of a threshold, a report and a total that the state does not have.
  lemma RefusedDecisionOverstates(limits: CapacityLimits)
    requires limits.rulesPerType >= 1 && limits.results >= 1 && limits.reports == 0
    ensures var (s', d) := Process(Step(Initial(limits), InstallOp(MeteredRules(1, 1))), SAMPLE, "", "");
            && d.terminalResult == CapacityError
            && d.urr.thresholdReached && d.urr.reportId == ReportId("s", 1, 1, 1) && d.urr.packetsAfter == 1
            && s'.reports == []
            && CounterOf(s', 1) == EMPTY_COUNTER
  {
    var s := Initial(limits);
    SampleRulesAccepted(limits, 1, 1);
    FreshInstallIsEmpty(s, MeteredRules(1, 1), Metered(1));
    SampleRefused(Step(s, InstallOp(MeteredRules(1, 1))));
  }

  const DRY := Qer(1, Open, 0, 0, 1)
  const DRY_RULES := RuleSet("s", 1, [METERED_PDR.(qerId := Some(1), urrId := None)], [DISCARD], [DRY], [])
  const EMPTY_SAMPLE := SAMPLE.(payloadBytes := 0)

  lemma DryDecides(s: PipelineState)
    requires Ready(s) && s.rules == Some(DRY_RULES) && |s.decisions| < s.limits.results
    ensures Deciding(s, EMPTY_SAMPLE) == Some(DRY_RULES.pdrs[0])
  {
    Address.ContainsOwnNetwork(ANY_PREFIX);
    assert s.rules.value.pdrs[..0] == [];
  }

  lemma DryAllows(s: PipelineState)
    requires PipelineAccounting.Serves(s, DRY) && s.rules == Some(DRY_RULES) && |s.decisions| < s.limits.results
    requires PipelineAccounting.BucketOf(s, DRY) == EMPTY_BUCKET
    ensures DecisionOn(s, EMPTY_SAMPLE, "", "").qer.allowed
  {
    DryDecides(s);
    PipelineAccounting.ZeroBurstAdmitsEmptyPackets(s, PacketOp(EMPTY_SAMPLE, "", ""), DRY);
  }

  lemma DryAdmits(s: PipelineState)
    requires PipelineAccounting.Serves(s, DRY) && s.rules == Some(DRY_RULES) && |s.decisions| < s.limits.results
    requires DecisionOn(s, EMPTY_SAMPLE, "", "").qer.allowed
    ensures DecisionOn(s, EMPTY_SAMPLE, "", "").terminalResult == FarDropped
  {
    DryDecides(s);
    PipelineExplanation.DecisionCarriesPlan(s, EMPTY_SAMPLE, "", "");
    PipelineExplanation.PlansExplainThemselves(s, EMPTY_SAMPLE);
    assert Find([DISCARD], FarKey, 1) == Some(DISCARD);
  }

  // A burst size of zero does not keep out every packet: one without payload is admitted and committed.
  lemma ZeroBurstAdmitsOne(limits: CapacityLimits)
    requires limits.rulesPerType >= 1 && limits.results >= 1
    ensures var d := DecisionOn(Step(Initial(limits), InstallOp(DRY_RULES)), EMPTY_SAMPLE, "", "");
            d.qer.allowed && d.terminalResult == FarDropped
  {
    assert Accepted(DRY_RULES, limits);
    PipelineAccounting.FreshInstallIsBucketed(Initial(limits), DRY_RULES, DRY);
    DryAllows(Step(Initial(limits), InstallOp(DRY_RULES)));
    DryAdmits(Step(Initial(limits), InstallOp(DRY_RULES)));
  }
}
