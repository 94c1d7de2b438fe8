/** Which threshold reports a run appends: one for every period of a URR generation that crosses its threshold. */
module PipelineReports {
  import opened Types
  import opened Rules
  import Validation
  import opened Decision
  import opened Text
  import opened PipelineModel
  import opened PipelineRuns
  import opened PipelineUsage

  // ----- Reports of one URR generation

  /** The session and version a report may be issued under, or none for any. */
  type Issuer = Option<(string, uint64)>

  ghost predicate Names(report: string, id: uint32, generation: uint32, issuer: Issuer) {
    exists session: string, version: uint64 ::
      report == ReportId(session, id, generation, version) && (issuer.Some? ==> issuer.value == (session, version))
  }

  /** The number of reports in a list that name the URR, the generation and the issuer. */
  ghost function Named(reports: seq<string>, id: uint32, generation: uint32, issuer: Issuer): nat {
    if reports == [] then 0
    else (if Names(reports[0], id, generation, issuer) then 1 else 0) + Named(reports[1..], id, generation, issuer)
  }

  // ----- Periods

  /** What was counted since the current period of a generation began, and whether the threshold was met in it. */
  datatype Tally = Tally(bytes: nat, crossed: bool)

  /** The packet is counted and brings the volume of the period to the threshold for the first time. */
  ghost predicate Crosses(s: PipelineState, op: Op, id: uint32, generation: uint32, t: Tally)
    requires Ready(s)
  {
    && Holds(s, id, generation)
    && CountedBy(s, op, id)
    && !t.crossed
    && t.bytes + op.packet.payloadBytes >= UrrAt(s, id).value.volumeThresholdBytes
  }

  /** A period lasts for as long as the URR is defined with this generation, through any number of installs. */
  ghost function NextTally(s: PipelineState, op: Op, id: uint32, generation: uint32, t: Tally): Tally
    requires Ready(s)
  {
    if !Holds(s, id, generation) || !Holds(Step(s, op), id, generation) then Tally(0, false)
    else if CountedBy(s, op, id) then
      Tally(t.bytes + op.packet.payloadBytes, t.crossed || Crosses(s, op, id, generation, t))
    else t
  }

  ghost predicate IssuesAs(s: PipelineState, issuer: Issuer) {
    issuer.Some? ==> s.rules.Some? && issuer.value == (s.rules.value.sessionId, s.rules.value.version)
  }

  /** The number of periods of (URR, generation) in which the volume counted since the period began meets the
      threshold, given what the current period counted so far. With an issuer, only periods that do so under it. */
  ghost function Crossings(s: PipelineState, ops: seq<Op>, id: uint32, generation: uint32, t: Tally, issuer: Issuer)
    : nat
    requires Ready(s)
    decreases |ops|
  {
    if ops == [] then 0
    else (if Crosses(s, ops[0], id, generation, t) && IssuesAs(s, issuer) then 1 else 0)
         + Crossings(Step(s, ops[0]), ops[1..], id, generation, NextTally(s, ops[0], id, generation, t), issuer)
  }

  function TallyOf(s: PipelineState, id: uint32): Tally {
    Tally(CounterOf(s, id).payloadBytes, CounterOf(s, id).reportEmitted)
  }

  // ----- Reports count crossings

  lemma OneNamed(session: string, id: uint32, generation: uint32, version: uint64,
                 id': uint32, generation': uint32, issuer: Issuer)
    ensures Named([ReportId(session, id, generation, version)], id', generation', issuer) ==
            if id == id' && generation == generation' && (issuer.Some? ==> issuer.value == (session, version))
            then 1 else 0
  {
    var report := ReportId(session, id, generation, version);
    assert Named([report][1..], id', generation', issuer) == 0;
    if Names(report, id', generation', issuer) {
      var session': string, version': uint64 :| report == ReportId(session', id', generation', version')
                                && (issuer.Some? ==> issuer.value == (session', version'));
      ReportIdInjective(session, id, generation, version, session', id', generation', version');
    }
  }

  lemma {:induction false} NamedComposes(a: seq<string>, b: seq<string>, id: uint32, generation: uint32, issuer: Issuer)
    ensures Named(a + b, id, generation, issuer) == Named(a, id, generation, issuer) + Named(b, id, generation, issuer)
  {
    if a == [] {
      assert a + b == b;
    } else {
      assert (a + b)[1..] == a[1..] + b;
      NamedComposes(a[1..], b, id, generation, issuer);
    }
  }

  lemma PacketKeepsTally(s: PipelineState, op: Op, urr: Urr)
    requires Ready(s) && op.PacketOp? && UrrAt(s, urr.id) == Some(urr)
    ensures NextTally(s, op, urr.id, urr.generation, TallyOf(s, urr.id)) == TallyOf(Step(s, op), urr.id)
  {
    PacketOnCounter(s, op, urr);
  }

  // The counter in the runtime keeps the tally of the current period.
  lemma StepKeepsTally(s: PipelineState, op: Op, id: uint32, generation: uint32, t: Tally)
    requires Ready(s) && (Holds(s, id, generation) ==> t == TallyOf(s, id))
    ensures Holds(Step(s, op), id, generation) ==>
              NextTally(s, op, id, generation, t) == TallyOf(Step(s, op), id)
  {
    if Holds(Step(s, op), id, generation) {
      if op.InstallOp? {
        InstallOnCounter(s, op, id, generation);
      } else {
        PacketKeepsTally(s, op, UrrAt(s, id).value);
      }
    }
  }

  lemma StepReportsCrossing(s: PipelineState, op: Op, id: uint32, generation: uint32, t: Tally, issuer: Issuer)
    requires Ready(s) && (Holds(s, id, generation) ==> t == TallyOf(s, id))
    ensures Named(StepReports(s, op), id, generation, issuer) ==
            if Crosses(s, op, id, generation, t) && IssuesAs(s, issuer) then 1 else 0
  {
    StepAppends(s, op);
    UncountedReports(s, op);
    if op.PacketOp? && CommittedPdr(s, op).Some? && CommittedPdr(s, op).value.urrId.Some? {
      var id' := CommittedPdr(s, op).value.urrId.value;
      if UrrAt(s, id').Some? {
        var urr := UrrAt(s, id').value;
        PacketOnCounter(s, op, urr);
        OneNamed(s.rules.value.sessionId, id', urr.generation, s.rules.value.version, id, generation, issuer);
      }
    }
  }

  // Over every run, from any state the pipeline can be in, the reports appended under a URR and generation number the
  // periods that cross, whatever installs drop the pair, bring it back or change its threshold.
  lemma {:induction false} ReportsCountCrossings(
      s: PipelineState, ops: seq<Op>, id: uint32, generation: uint32, t: Tally, issuer: Issuer)
    requires Ready(s) && (Holds(s, id, generation) ==> t == TallyOf(s, id))
    ensures Named(Appended(s, ops), id, generation, issuer) == Crossings(s, ops, id, generation, t, issuer)
    decreases |ops|
  {
    if ops != [] {
      var op := ops[0];
      StepKeepsTally(s, op, id, generation, t);
      StepReportsCrossing(s, op, id, generation, t, issuer);
      ReportsCountCrossings(Step(s, op), ops[1..], id, generation, NextTally(s, op, id, generation, t), issuer);
      NamedComposes(StepReports(s, op), Appended(Step(s, op), ops[1..]), id, generation, issuer);
    }
  }

  // ----- At most one report per generation

  lemma {:induction false} NamedOccurs(reports: seq<string>, id: uint32, generation: uint32, issuer: Issuer)
    returns (i: nat)
    requires Named(reports, id, generation, issuer) > 0
    ensures i < |reports| && Names(reports[i], id, generation, issuer)
  {
    if Names(reports[0], id, generation, issuer) {
      i := 0;
    } else {
      var k := NamedOccurs(reports[1..], id, generation, issuer);
      i := k + 1;
    }
  }

  lemma {:induction false} NamedAt(reports: seq<string>, i: nat, id: uint32, generation: uint32, issuer: Issuer)
    requires i < |reports| && Names(reports[i], id, generation, issuer)
    ensures Named(reports, id, generation, issuer) > 0
  {
    if i > 0 {
      NamedAt(reports[1..], i - 1, id, generation, issuer);
    }
  }

  /** No two reports of the list name the URR, the generation and the issuer. */
  ghost predicate AtMostOne(reports: seq<string>, id: uint32, generation: uint32, issuer: Issuer) {
    forall i, j | 0 <= i < j < |reports| ::
      !(Names(reports[i], id, generation, issuer) && Names(reports[j], id, generation, issuer))
  }

  lemma {:induction false} AtMostOneIffNamed(reports: seq<string>, id: uint32, generation: uint32, issuer: Issuer)
    ensures AtMostOne(reports, id, generation, issuer) <==> Named(reports, id, generation, issuer) <= 1
  {
    if reports != [] {
      var rest := reports[1..];
      AtMostOneIffNamed(rest, id, generation, issuer);
      if !AtMostOne(rest, id, generation, issuer) {
        var i, j :| 0 <= i < j < |rest| && Names(rest[i], id, generation, issuer)
                    && Names(rest[j], id, generation, issuer);
        assert reports[i + 1] == rest[i] && reports[j + 1] == rest[j];
      } else if Names(reports[0], id, generation, issuer) {
        if Named(rest, id, generation, issuer) > 0 {
          var i := NamedOccurs(rest, id, generation, issuer);
          assert reports[i + 1] == rest[i];
        } else {
          forall j | 0 < j < |reports|
            ensures !Names(reports[j], id, generation, issuer)
          {
            if Names(rest[j - 1], id, generation, issuer) {
              NamedAt(rest, j - 1, id, generation, issuer);
            }
          }
        }
      }
    }
  }

  // One report per generation, exactly: over a run no two reports name the same URR and generation just when at most
  // one period of that pair crosses the threshold.
  lemma OneReportIffOneCrossing(s: PipelineState, ops: seq<Op>, id: uint32, generation: uint32)
    requires Ready(s)
    ensures AtMostOne(Appended(s, ops), id, generation, None) <==>
            Crossings(s, ops, id, generation, TallyOf(s, id), None) <= 1
  {
    ReportsCountCrossings(s, ops, id, generation, TallyOf(s, id), None);
    AtMostOneIffNamed(Appended(s, ops), id, generation, None);
  }

  /** Once it was held and lost, no install brings the pair back. */
  ghost predicate NeverReturns(s: PipelineState, ops: seq<Op>, id: uint32, generation: uint32, held: bool)
    requires Ready(s)
    decreases |ops|
  {
    ops != [] ==>
      var m := Step(s, ops[0]);
      && (held && !Holds(s, id, generation) ==> !Holds(m, id, generation))
      && NeverReturns(m, ops[1..], id, generation, held || Holds(m, id, generation))
  }

  lemma PacketKeepsHeld(s: PipelineState, op: Op, id: uint32, generation: uint32)
    requires Ready(s) && op.PacketOp?
    ensures Step(s, op).rules == s.rules
    ensures Holds(Step(s, op), id, generation) <==> Holds(s, id, generation)
  {
  }

  lemma {:induction false} SpentPair(s: PipelineState, ops: seq<Op>, id: uint32, generation: uint32, t: Tally)
    requires Ready(s) && NeverReturns(s, ops, id, generation, true)
    requires Holds(s, id, generation) ==> t.crossed
    ensures Crossings(s, ops, id, generation, t, None) == 0
    decreases |ops|
  {
    if ops != [] {
      SpentPair(Step(s, ops[0]), ops[1..], id, generation, NextTally(s, ops[0], id, generation, t));
    }
  }

  lemma {:induction false} CrossesOnce(
      s: PipelineState, ops: seq<Op>, id: uint32, generation: uint32, held: bool, t: Tally)
    requires Ready(s) && NeverReturns(s, ops, id, generation, held) && (Holds(s, id, generation) ==> held)
    ensures Crossings(s, ops, id, generation, t, None) <= 1
    decreases |ops|
  {
    if ops != [] {
      var m := Step(s, ops[0]);
      var t' := NextTally(s, ops[0], id, generation, t);
      if Crosses(s, ops[0], id, generation, t) {
        PacketKeepsHeld(s, ops[0], id, generation);
        SpentPair(m, ops[1..], id, generation, t');
      } else {
        CrossesOnce(m, ops[1..], id, generation, held || Holds(m, id, generation), t');
      }
    }
  }

  // A pair that never returns reports at most once, even if its threshold changes.
  lemma NeverReturningReportsOnce(s: PipelineState, ops: seq<Op>, id: uint32, generation: uint32)
    requires Ready(s) && NeverReturns(s, ops, id, generation, Holds(s, id, generation))
    ensures AtMostOne(Appended(s, ops), id, generation, None)
  {
    CrossesOnce(s, ops, id, generation, Holds(s, id, generation), TallyOf(s, id));
    OneReportIffOneCrossing(s, ops, id, generation);
  }

  /** The generation a ruleset gives the URR, if it defines it. */
  function GenerationIn(rules: Option<RuleSet>, id: uint32): Option<uint32> {
    if rules.None? then None
    else
      var urr := Find(rules.value.urrs, UrrKey, id);
      if urr.Some? then Some(urr.value.generation) else None
  }

  function Used(generation: Option<uint32>): set<uint32> {
    if generation.Some? then {generation.value} else {}
  }

  /** Every ruleset activated on the way drops the URR, keeps its generation, or gives it one never used before. */
  ghost predicate RenewsGenerations(s: PipelineState, ops: seq<Op>, id: uint32, used: set<uint32>)
    requires Ready(s)
    decreases |ops|
  {
    ops != [] ==>
      && (ops[0].InstallOp? && Validation.Accepted(ops[0].rules, s.limits) ==>
            var g := GenerationIn(Some(ops[0].rules), id);
            g.None? || g == GenerationIn(s.rules, id) || g.value !in used)
      && var m := Step(s, ops[0]);
         RenewsGenerations(m, ops[1..], id, used + Used(GenerationIn(m.rules, id)))
  }

  lemma {:induction false} RenewedNeverReturns(
      s: PipelineState, ops: seq<Op>, id: uint32, generation: uint32, used: set<uint32>)
    requires Ready(s) && RenewsGenerations(s, ops, id, used)
    ensures NeverReturns(s, ops, id, generation, generation in used)
    decreases |ops|
  {
    if ops != [] {
      var m := Step(s, ops[0]);
      if ops[0].PacketOp? {
        PacketKeepsHeld(s, ops[0], id, generation);
      }
      RenewedNeverReturns(m, ops[1..], id, generation, used + Used(GenerationIn(m.rules, id)));
    }
  }

  // A condition an installer can check: if every activated ruleset keeps the generation of the URR or gives it one
  // that was never used before, every generation reports at most once, however often the URR is dropped.
  lemma RenewedGenerationsReportOnce(s: PipelineState, ops: seq<Op>, id: uint32, generation: uint32)
    requires Ready(s) && RenewsGenerations(s, ops, id, Used(GenerationIn(s.rules, id)))
    ensures AtMostOne(Appended(s, ops), id, generation, None)
  {
    RenewedNeverReturns(s, ops, id, generation, Used(GenerationIn(s.rules, id)));
    NeverReturningReportsOnce(s, ops, id, generation);
  }

  // ----- A generation that returns reports again

  /** The same URR is defined all along. */
  ghost predicate KeepsUrr(s: PipelineState, ops: seq<Op>, urr: Urr)
    requires Ready(s)
    decreases |ops|
  {
    && UrrAt(s, urr.id) == Some(urr)
    && (ops != [] ==> KeepsUrr(Step(s, ops[0]), ops[1..], urr))
  }

  /** The one-shot rule: a report has been raised exactly when something was counted and the threshold is met. */
  predicate OneShot(urr: Urr, c: UsageCounterState) {
    c.reportEmitted <==> c.packets > 0 && c.payloadBytes >= urr.volumeThresholdBytes
  }

  function Emitted(c: UsageCounterState): nat {
    if c.reportEmitted then 1 else 0
  }

  lemma StepReportsOnce(s: PipelineState, op: Op, urr: Urr)
    requires Ready(s) && UrrAt(s, urr.id) == UrrAt(Step(s, op), urr.id) == Some(urr)
    requires OneShot(urr, CounterOf(s, urr.id))
    ensures var c, c' := CounterOf(s, urr.id), CounterOf(Step(s, op), urr.id);
            && OneShot(urr, c')
            && Emitted(c') == Emitted(c) + Named(StepReports(s, op), urr.id, urr.generation, None)
  {
    StepReportsCrossing(s, op, urr.id, urr.generation, TallyOf(s, urr.id), None);
    if op.PacketOp? {
      PacketOnCounter(s, op, urr);
    } else {
      InstallOnCounter(s, op, urr.id, urr.generation);
    }
  }

  lemma {:induction false} RunReportsOnce(s: PipelineState, ops: seq<Op>, urr: Urr)
    requires Ready(s) && KeepsUrr(s, ops, urr) && OneShot(urr, CounterOf(s, urr.id))
    ensures var c, c' := CounterOf(s, urr.id), CounterOf(Run(s, ops), urr.id);
            && OneShot(urr, c')
            && Emitted(c') == Emitted(c) + Named(Appended(s, ops), urr.id, urr.generation, None)
            && c'.packets == c.packets + PacketsCounted(s, ops, urr.id)
            && c'.payloadBytes == c.payloadBytes + BytesCounted(s, ops, urr.id)
    decreases |ops|
  {
    if ops != [] {
      var m := Step(s, ops[0]);
      assert UrrAt(m, urr.id) == Some(urr);
      StepReportsOnce(s, ops[0], urr);
      StepCounts(s, ops[0], urr.id, urr.generation);
      RunReportsOnce(m, ops[1..], urr);
      NamedComposes(StepReports(s, ops[0]), Appended(m, ops[1..]), urr.id, urr.generation, None);
    }
  }

  /** Something is counted on the URR, and the volume meets its threshold. */
  ghost predicate MeetsThreshold(s: PipelineState, ops: seq<Op>, urr: Urr)
    requires Ready(s)
  {
    PacketsCounted(s, ops, urr.id) > 0 && BytesCounted(s, ops, urr.id) >= urr.volumeThresholdBytes
  }

  // The one-shot report is exact: after an install that brings a generation that was not held, and for as long as
  // that URR stays defined, the report flag is set just when something was counted and the volume meets the
  // threshold, and then exactly one report of the generation was appended.
  lemma ThresholdReportIsExact(s: PipelineState, rules: RuleSet, ops: seq<Op>, urr: Urr)
    requires Ready(s) && Validation.Accepted(rules, s.limits) && urr in rules.urrs && !Holds(s, urr.id, urr.generation)
    requires KeepsUrr(Step(s, InstallOp(rules)), ops, urr)
    ensures var m := Step(s, InstallOp(rules));
            && (CounterOf(Run(m, ops), urr.id).reportEmitted <==> MeetsThreshold(m, ops, urr))
            && Named(Appended(m, ops), urr.id, urr.generation, None) == (if MeetsThreshold(m, ops, urr) then 1 else 0)
  {
    FreshInstallIsEmpty(s, rules, urr);
    RunReportsOnce(Step(s, InstallOp(rules)), ops, urr);
  }

  // So a generation that was lost and is brought back reports once more, over and above whatever it reported before,
  // exactly when its new period counts something and meets the threshold.
  lemma ReturnedGenerationReportsAgainIff(s: PipelineState, before: seq<Op>, rules: RuleSet, ops: seq<Op>, urr: Urr)
    requires Ready(s) && Validation.Accepted(rules, s.limits) && urr in rules.urrs
    requires !Holds(Run(s, before), urr.id, urr.generation)
    requires KeepsUrr(Step(Run(s, before), InstallOp(rules)), ops, urr)
    ensures var m := Step(Run(s, before), InstallOp(rules));
            Named(Appended(s, before + ([InstallOp(rules)] + ops)), urr.id, urr.generation, None) ==
            Named(Appended(s, before), urr.id, urr.generation, None) + (if MeetsThreshold(m, ops, urr) then 1 else 0)
  {
    var b, install := Run(s, before), InstallOp(rules);
    ThresholdReportIsExact(b, rules, ops, urr);
    AppendedComposes(s, before, [install] + ops);
    AppendedAfterInstall(b, rules, ops);
    NamedComposes(Appended(s, before), Appended(Step(b, install), ops), urr.id, urr.generation, None);
  }

  // ----- When all reports are distinct

  predicate Distinct(reports: seq<string>) {
    forall i, j | 0 <= i < j < |reports| :: reports[i] != reports[j]
  }

  lemma NamesExactly(report: string, session: string, id: uint32, generation: uint32, version: uint64)
    ensures Names(report, id, generation, Some((session, version))) <==>
            report == ReportId(session, id, generation, version)
  {
  }

  /** No identity crosses in more than one period. */
  ghost predicate CrossesOncePerIdentity(s: PipelineState, ops: seq<Op>)
    requires Ready(s)
  {
    forall session: string, id: uint32, generation: uint32, version: uint64 ::
      Crossings(s, ops, id, generation, TallyOf(s, id), Some((session, version))) <= 1
  }

  // All reports of a run are pairwise distinct exactly when, for every URR generation, at most one period crosses
  // under the same session and version.
  lemma DistinctIffCrossesOncePerIdentity(s: PipelineState, ops: seq<Op>)
    requires Ready(s)
    ensures Distinct(Appended(s, ops)) <==> CrossesOncePerIdentity(s, ops)
  {
    var reports := Appended(s, ops);
    if Distinct(reports) {
      forall session: string, id: uint32, generation: uint32, version: uint64
        ensures Crossings(s, ops, id, generation, TallyOf(s, id), Some((session, version))) <= 1
      {
        DistinctNamesOnce(reports, session, id, generation, version);
        ReportsCountCrossings(s, ops, id, generation, TallyOf(s, id), Some((session, version)));
      }
    } else {
      var i, j :| 0 <= i < j < |reports| && reports[i] == reports[j];
      AppendedAreIdentities(s, ops);
      assert Identity(reports[i]);
      var session: string, id: uint32, generation: uint32, version: uint64 :|
        reports[i] == ReportId(session, id, generation, version);
      NamedTwice(reports, i, j, session, id, generation, version);
      ReportsCountCrossings(s, ops, id, generation, TallyOf(s, id), Some((session, version)));
    }
  }

  lemma DistinctNamesOnce(reports: seq<string>, session: string, id: uint32, generation: uint32, version: uint64)
    requires Distinct(reports)
    ensures Named(reports, id, generation, Some((session, version))) <= 1
  {
    forall i | 0 <= i < |reports|
      ensures Names(reports[i], id, generation, Some((session, version))) <==>
              reports[i] == ReportId(session, id, generation, version)
    {
      NamesExactly(reports[i], session, id, generation, version);
    }
    AtMostOneIffNamed(reports, id, generation, Some((session, version)));
  }

  lemma NamedTwice(reports: seq<string>, i: nat, j: nat, session: string, id: uint32, generation: uint32,
                   version: uint64)
    requires i < j < |reports| && reports[i] == reports[j] == ReportId(session, id, generation, version)
    ensures Named(reports, id, generation, Some((session, version))) > 1
  {
    NamesExactly(reports[i], session, id, generation, version);
    NamesExactly(reports[j], session, id, generation, version);
    AtMostOneIffNamed(reports, id, generation, Some((session, version)));
  }

  // ----- Versions that increase

  /** Every ruleset activated on the way has a higher version than the one it replaces. */
  ghost predicate VersionsIncrease(s: PipelineState, ops: seq<Op>)
    requires Ready(s)
    decreases |ops|
  {
    ops != [] ==>
      && (ops[0].InstallOp? && Validation.Accepted(ops[0].rules, s.limits) && s.rules.Some? ==>
            ops[0].rules.version > s.rules.value.version)
      && VersionsIncrease(Step(s, ops[0]), ops[1..])
  }

  /** Nothing more can be issued under the version: it is past, or the period that runs under it has crossed. */
  predicate VersionSpent(s: PipelineState, id: uint32, generation: uint32, version: uint64, t: Tally) {
    && s.rules.Some?
    && version <= s.rules.value.version
    && (version == s.rules.value.version && Holds(s, id, generation) ==> t.crossed)
  }

  lemma {:induction false} SpentVersion(s: PipelineState, ops: seq<Op>, id: uint32, generation: uint32, t: Tally,
                                        session: string, version: uint64)
    requires Ready(s) && VersionsIncrease(s, ops) && VersionSpent(s, id, generation, version, t)
    ensures Crossings(s, ops, id, generation, t, Some((session, version))) == 0
    decreases |ops|
  {
    if ops != [] {
      if ops[0].PacketOp? {
        PacketKeepsHeld(s, ops[0], id, generation);
      }
      var t' := NextTally(s, ops[0], id, generation, t);
      SpentVersion(Step(s, ops[0]), ops[1..], id, generation, t', session, version);
    }
  }

  lemma {:induction false} CrossesOncePerVersion(s: PipelineState, ops: seq<Op>, id: uint32, generation: uint32,
                                                 t: Tally, session: string, version: uint64)
    requires Ready(s) && VersionsIncrease(s, ops)
    ensures Crossings(s, ops, id, generation, t, Some((session, version))) <= 1
    decreases |ops|
  {
    if ops != [] {
      var m, t' := Step(s, ops[0]), NextTally(s, ops[0], id, generation, t);
      if Crosses(s, ops[0], id, generation, t) && IssuesAs(s, Some((session, version))) {
        PacketKeepsHeld(s, ops[0], id, generation);
        SpentVersion(m, ops[1..], id, generation, t', session, version);
      } else {
        CrossesOncePerVersion(m, ops[1..], id, generation, t', session, version);
      }
    }
  }

  // From any state of the pipeline, all reports appended by a run whose activations increase the version (in
  // particular by any run under one ruleset) are pairwise distinct.
  lemma ReportsAreDistinct(s: PipelineState, ops: seq<Op>)
    requires Ready(s) && VersionsIncrease(s, ops)
    ensures Run(s, ops).reports == s.reports + Appended(s, ops)
    ensures Distinct(Appended(s, ops))
  {
    RunAppends(s, ops);
    forall session: string, id: uint32, generation: uint32, version: uint64
      ensures Crossings(s, ops, id, generation, TallyOf(s, id), Some((session, version))) <= 1
    {
      CrossesOncePerVersion(s, ops, id, generation, TallyOf(s, id), session, version);
    }
    DistinctIffCrossesOncePerIdentity(s, ops);
  }
}
