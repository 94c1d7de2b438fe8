# A verified model of the UPF rule pipeline

The repository is a simulation of a user-plane function driven by PFCP-style rules. This project models its decision
engine and its control plane in Dafny and proves properties of the model:

- **Rules and validation** (`Address`, `Rules`, `Matcher`, `Validation`, `Selection`): prefix matching down to single
  bits, the seven match criteria, the validator with its nested loops, and the selection of one packet detection rule.
- **Evaluators** (`Qer`, `Urr`, `Far`, `Text`): the token bucket in checked 64-bit arithmetic against a bucket over
  unbounded integers, usage counting with its one-shot report, forwarding, and the textual identities.
- **Pipeline** (`Runtime`, `PipelineModel`, `Pipeline`): installing a ruleset migrates the runtime state; processing a
  packet plans every effect and then commits all of them or none. `PipelineModel` is the state machine, `Pipeline` the
  object that refines it. `PipelineRuns` and the modules after it state what holds over whole runs, with installs and
  packets interleaved in any order: every answer written out and sessions kept apart (`PipelineOutcomes`),
  all-or-nothing processing and outputs that are projections of the decision log (`PipelineSafety`), what an
  explanation says of the state before and when it holds of the state after (`PipelineExplanation`), invisibility of
  rule order (`PipelineOrder`), rate conformance in both directions (`PipelineAccounting`), exact usage accounting
  (`PipelineUsage`), how many threshold reports there are and when they are distinct (`PipelineReports`), and the
  concrete runs behind the differences below (`PipelineSamples`).
- **Control plane** (`RuleServiceModel`, `RuleService`, `Dataplane`, `Reconciliation`, `Scheduler`): versioned intent
  and acknowledgement, the scripted idempotent adapter, bounded retries with their termination measure, and three
  bounded queues served round-robin.

An object of the source is a class with the same fields; every method of a class is proved to return and leave exactly
what a function of the old state says, and the theorems are about those functions. A buffer of the source is a
sequence, an ordered map a Dafny map, a thrown or returned error a datatype.

## Where the code differs from what is said about it

- The repository's README (line 20) promises one threshold report per generation. A usage counter lives only as long
  as its URR is defined with the same generation. If a ruleset drops the URR, or gives it another generation, and a
  later ruleset brings the old generation back, the counter starts afresh and the generation can report again. Over
  every run the reports of a generation number the periods in which it crosses its threshold
  (`PipelineReports.ReportsCountCrossings`), so there is at most one report exactly when at most one period crosses
  (`PipelineReports.OneReportIffOneCrossing`). That holds whenever the pair never returns
  (`PipelineReports.NeverReturningReportsOnce`), in particular if every activated ruleset keeps the generation or uses
  one never used before (`PipelineReports.RenewedGenerationsReportOnce`); a generation that does return reports once
  more exactly when its new period counts a packet and meets the threshold
  (`PipelineReports.ReturnedGenerationReportsAgainIff`). `PipelineSamples.TwoReportsOneGeneration` has both failing
  runs, `PipelineSamples.ReturnedGenerationStartsAfresh` their cause.
- A decision is composed before the room for reports and in the sinks is checked. What it says of the rules and of the
  state before is true, but the usage totals, the report and the tokens it tells of are those of the state after
  exactly if the packet is committed, unless they say that nothing changes:
  `PipelineExplanation.ExplanationHoldsIffCommitted`, with `PipelineSamples.RefusedDecisionOverstates` as an input. An
  admitted packet is committed exactly when counting it does not overflow and its report and its sink have room (part
  of `PipelineExplanation.PlansExplainThemselves`).
- The repository's README (line 89) says that a zero burst permits none. It permits no payload
  (`PipelineAccounting.ZeroBurstChargesNothing`), but packets without payload are admitted exactly while the bucket
  can be evaluated (`PipelineAccounting.ZeroBurstAdmitsEmptyPackets`, with `PipelineSamples.ZeroBurstAdmitsOne` as
  input). That a zero rate spends only the initial burst holds as it stands
  (`PipelineAccounting.ZeroRateSpendsTokens`).
- `RuleService::remove` clears the version guard but keeps the applied version, so a later update back to that version
  reports CONVERGED without an acknowledgement. `RuleServiceModel.ConvergedIffAcknowledgedOrCollided` says for every
  run when CONVERGED is reported; the extra case is an update whose version equals the recorded applied version, which
  a caller can compare beforehand. `RuleServiceModel.RemovalForgetsAcknowledgement` is the failing run, and
  `RuleServiceModel.ConvergedIffAcknowledged` the plain equivalence for runs without removal.
- The overlap test of the validator is exact over all packets, but over-approximates among the packets the pipeline
  admits: `Validation.OverlapAmongValidPackets` gives the exact condition and `Validation.UnreachableOverlap` a
  ruleset rejected for two PDRs of equal precedence that no valid packet reaches.
- The two migration loops agree whenever states and generations have the same keys, which the pipeline and `update`
  both maintain; `Runtime.BucketsAgreeIffKeysAgree` and `Runtime.CountersAgreeIff` say exactly when they agree
  otherwise, as the rule service hands out a mutable reference to its runtime.
- The attempt counter of `reconcile` has 32 bits and is compared with `<=`, so a maximum of 2^32 - 1 attempts never
  ends the loop by itself; the loop still terminates because the script does.
  `Reconciliation.ConsumesMoreThanMaximumIff` and `Reconciliation.AttemptsExceedMaximumIff` say exactly when a call
  exceeds its maximum, `Reconciliation.AttemptsReportedIff` when the attempts it reports are the attempts it made, and
  `Reconciliation.LargestMaximumDoesNotBound` is the failing script.

## Model

| member | source | states |
|---|---|---|
| Types.CheckedAdd | include/upf/domain/types.hpp:66-70 | succeeds exactly when the sum fits 64 bits; on failure the out value is untouched |
| Types.CheckedMultiply | include/upf/domain/types.hpp:72-76 | the quotient test decides exactly whether the product fits 64 bits |
| Address.IntegerWidths | include/upf/domain/types.hpp:66-76 | the limits of the fixed-width types are one below 2^8, 2^16, 2^32 and 2^64 |
| Address.ContainsIffBitsAgree | src/domain/address.cpp:63-73 | the byte compare and masked byte hold exactly when families agree and the first `length` bits agree, for every length of both families |
| Address.ContainsIffInterval | src/domain/address.cpp:41-73 | for a prefix without host bits, containment is the interval [network, network + 2^(width - length)) of address values |
| Address.BitsValueIsBigEndian | include/upf/domain/address.hpp:12-23 | the address values of the interval theorem are the big-endian values of the address bytes |
| Address.SharedAddressNests | src/domain/validation.cpp:41 | two prefixes with a common address are nested, so one contains the other's network |
| Address.ContainsOwnNetwork | src/domain/address.cpp:63-73 | a prefix contains its own network |
| Address.ParsePrefix | src/domain/address.cpp:48-60 | accepts an IPv4 network exactly with a length from 0 to 32 and an IPv6 network exactly with a length from 0 to 128, in both cases with every later bit zero |
| Address.AddressValueOfBytes | include/upf/domain/address.hpp:12-23 | an IPv4 address is the big-endian number of its first four bytes, an IPv6 address that of all sixteen |
| Address.IPv4Interval | src/domain/address.cpp:41-73 | an IPv4 prefix contains exactly the IPv4 addresses in [network, network + 2^(32 - length)) |
| Address.IPv6Interval | src/domain/address.cpp:41-73 | an IPv6 prefix contains exactly the IPv6 addresses in [network, network + 2^(128 - length)) |
| Text.AdapterKeyInjective | src/adapters/simulated_dataplane.cpp:9-11 | request keys are equal only for equal update ID and version, even if the ID contains a colon |
| Text.ReportIdInjective | src/domain/urr.cpp:27-30 | report IDs are equal only for equal session, URR, generation and version |
| Text.DecimalDenotes | src/domain/urr.cpp:27-30 | the printed text of a number denotes that number and has no leading zero |
| Text.IdentityFormats | src/domain/urr.cpp:27-30 | the texts of a report ID and of a request key at concrete numbers |
| Rules.FindFar | src/domain/validation.cpp:6-10 | the loop returns the first FAR with the ID, or none |
| Rules.FindQer | src/domain/validation.cpp:11-15 | the loop returns the first QER with the ID, or none |
| Rules.FindUrr | src/domain/validation.cpp:16-20 | the loop returns the first URR with the ID, or none |
| Rules.FindIsFirst | src/domain/validation.cpp:6-20 | of several rules with one ID the one listed first is found |
| Rules.PermutedFind | src/domain/validation.cpp:6-20 | with unique IDs lookup does not depend on list order |
| Matcher.EvaluateCandidate | src/domain/matcher.cpp:15-45 | builds the seven criteria in order and their verdict |
| Matcher.UplinkCriteria | src/domain/matcher.cpp:18-43 | for an uplink packet each of the seven criteria by position and name: the prefix is compared with the leading bits of the source address, the local port is the source port, the remote port the destination port |
| Matcher.DownlinkCriteria | src/domain/matcher.cpp:18-43 | the same for a downlink packet, with the destination address and the ports exchanged |
| Matcher.CandidateIffInMatchSpace | src/domain/matcher.cpp:15-45 | a candidate matches exactly if the packet lies in the match space given by address bits, port numbers, protocol, TEID and QFI |
| Matcher.CriteriaExplainVerdict | src/domain/matcher.cpp:15-45 | the verdict is the conjunction of the criteria, and a criterion that is not configured never decides it |
| Validation.OverlapIffSharedPacket | src/domain/validation.cpp:29-44 | the static overlap test holds exactly when some packet matches both PDRs |
| Validation.OverlapAmongValidPackets | src/domain/validation.cpp:38-44 | among valid packets the test is exact just when both PDRs have reachable tunnel criteria |
| Validation.UnreachableOverlap | src/domain/validation.cpp:79-82 | a ruleset is rejected for two PDRs of equal precedence that no valid packet reaches, and accepted with either one alone |
| Validation.HasUniqueIds | src/domain/validation.cpp:22-27 | the growing set decides that all IDs are non-zero and pairwise distinct |
| Validation.CheckPdr | src/domain/validation.cpp:54-78 | accepts exactly a PDR whose references, interface, ports and FAR are consistent, and otherwise names the first check it fails |
| Validation.CheckFar | src/domain/validation.cpp:69-78 | accepts exactly a FAR consistent with the PDR's direction and names a true defect otherwise |
| Validation.CheckPdrs | src/domain/validation.cpp:53-83 | the nested loops report the first PDR with a defect or an overlap with a later one, the PDRs before it having none |
| Validation.ValidateRuleSet | src/domain/validation.cpp:46-85 | comparing each PDR only with later ones decides the order-free predicate, and the reported error is true and the first in the order of the checks |
| Validation.AcceptedIffUnobjectionable | src/domain/validation.cpp:46-85 | a ruleset is rejected exactly for an empty session, version zero, one of four lists too long, a zero or repeated ID, a PDR whose reference, FAR, interface or ports are bad, or two PDRs of equal precedence for which some packet lies in both match spaces |
| Validation.DefectRejects | src/domain/validation.cpp:46-85 | every reported defect is a reason not to accept |
| Validation.EqualPrecedenceMatchesAreEqual | src/domain/validation.cpp:79-82 | in a validated ruleset two PDRs of equal precedence that match one packet are the same PDR |
| Validation.PermutedAccepted | src/domain/validation.cpp:46-85 | acceptance does not depend on the order of any list |
| Selection.WinnerIffBeatsAll | src/application/packet_pipeline.cpp:72-78 | under a validated ruleset a PDR wins exactly when it strictly beats every other PDR that matches |
| Selection.WinnerPermuted | src/application/packet_pipeline.cpp:72-78 | the winner does not depend on list order |
| Selection.SortedUnique | src/application/packet_pipeline.cpp:79-80 | with distinct IDs the sorted candidate list is determined by its members |
| Selection.CandidatesPermuted | src/application/packet_pipeline.cpp:73-80 | the sorted candidate list does not depend on list order |
| QerEngine.EvaluateQer | src/domain/qer.cpp:6-53 | computes the unbounded-integer bucket: ARITHMETIC_ERROR exactly when time goes back or the earned amount exceeds 2^64 - 1, and no operation wraps otherwise |
| QerEngine.RefilledTwice | src/domain/qer.cpp:27-42 | refilling in two steps is refilling once, remainder included |
| QerEngine.RejectedAttemptsInvisible | src/domain/qer.cpp:27-52 | any number of rejected evaluations before a packet changes neither its verdict nor the bucket it leaves |
| QerEngine.ConformsStep | src/domain/qer.cpp:27-52 | one evaluation extends a history in which remainders telescope and charges are covered by tokens and earnings |
| QerEngine.AdmitKeepsBucket | src/domain/qer.cpp:36-48 | remainder below one byte, time and tokens monotone but for the charge, tokens within burst |
| QerEngine.AllChargedIffConforming | src/domain/qer.cpp:12-52 | from any bucket within its burst and over any length of time, every attempt of a series is charged exactly when the gate is open, time does not go back, no step between two attempts overflows, the total asked is covered by tokens and earnings, and every window by one burst and its earnings |
| QerEngine.FullBucketPassesIffWindowsFit | src/domain/qer.cpp:12-52 | from a full bucket the windows alone decide, next to gate, order and overflow |
| UrrEngine.EvaluateUrr | src/domain/urr.cpp:6-34 | counts exactly unless a total would overflow, rolls back then, and reports once when the threshold is met |
| FarEngine.EvaluateFar | src/domain/far.cpp:5-25 | removes the tunnel uplink, adds it downlink, and is valid exactly in the consistent cases |
| FarEngine.ForwardingByDirection | src/domain/far.cpp:5-25 | for each direction exactly when a FAR forwards, where to and with which tunnel, and when it is valid |
| FarEngine.ValidatedFarApplies | src/domain/validation.cpp:69-78 | for a validated PDR the FAR is found and valid, forwards unless it drops, and fits its sink |
| Runtime.MigrationsAgree | src/application/packet_pipeline.cpp:24-46 | with agreeing keys, the pipeline's and the rule service's migration produce the same runtime |
| Runtime.BucketsAgreeIffKeysAgree | src/application/rule_service.cpp:14-26 | the two agree on every QER exactly when bucket and generation keys are equal |
| Runtime.CountersAgreeIff | src/application/rule_service.cpp:27-36 | the two agree on every URR exactly when no used counter lacks a generation |
| Runtime.MigrationCarries | src/application/packet_pipeline.cpp:25-45 | the new keys are the ruleset's IDs; state of an unchanged generation is carried bit for bit, anything else starts afresh |
| Runtime.InstalledPermuted | src/application/packet_pipeline.cpp:24-46 | migration does not depend on rule order |
| PipelineModel.WinnerResolved | src/application/packet_pipeline.cpp:86-113 | after a successful install no lookup and no map access for a winner can fail |
| PipelineModel.InstallKeepsReady | src/application/packet_pipeline.cpp:20-48 | an install leaves a validated ruleset with exactly its runtime entries |
| PipelineModel.ProcessKeepsReady | src/application/packet_pipeline.cpp:57-143 | processing keeps the ruleset and the key sets of the runtime |
| Pipeline.Match | src/application/packet_pipeline.cpp:72-78 | the loop lists every candidate and finds the first matching PDR of least precedence |
| Pipeline.PacketPipeline.constructor | src/application/packet_pipeline.cpp:7 | a new pipeline has no rules, no state and empty outputs |
| Pipeline.PacketPipeline.Retain | src/application/packet_pipeline.cpp:9-18 | logs the decision, or marks it degraded and counts the dropped event |
| Pipeline.PacketPipeline.MigrateQers | src/application/packet_pipeline.cpp:25-36 | the QER loop, with the zero generation that reading inserts, builds one entry per QER |
| Pipeline.PacketPipeline.MigrateUrrs | src/application/packet_pipeline.cpp:37-45 | the URR loop builds one entry per URR |
| Pipeline.PacketPipeline.Install | src/application/packet_pipeline.cpp:20-48 | activates exactly the accepted rulesets; a rejected one changes nothing and is explained |
| Pipeline.PacketPipeline.Deliver | src/application/packet_pipeline.cpp:123-142 | commits tokens, usage, report and sink together, or refuses for lack of room |
| Pipeline.PacketPipeline.ProcessUsage | src/application/packet_pipeline.cpp:110-122 | overflow and report capacity refuse the packet before anything is committed |
| Pipeline.PacketPipeline.ProcessAdmitted | src/application/packet_pipeline.cpp:103-108 | resolves the FAR; its invalid exit is unreachable |
| Pipeline.PacketPipeline.ProcessWinner | src/application/packet_pipeline.cpp:84-101 | a rate-limited packet commits its refill, other denials commit nothing |
| Pipeline.PacketPipeline.Process | src/application/packet_pipeline.cpp:57-143 | returns the decision and leaves the state that the state machine gives |
| PipelineOutcomes.RefusalsBeforeSelection | src/application/packet_pipeline.cpp:50-71 | for every packet: CAPACITY_ERROR and no change without room for a result; MALFORMED_PACKET exactly if rules are active and one of the written-out conditions holds, another session among them; NO_MATCH exactly if no rules are active or a well-formed packet lies in no match space |
| PipelineOutcomes.AnswersIdentifyPackets | src/application/packet_pipeline.cpp:59-63 | every answer carries the identity of its run, packet and session, the arrival time and ingress, and the active version |
| PipelineOutcomes.EarlyAnswersAreEmpty | src/application/packet_pipeline.cpp:64-71 | an answer before selection explains nothing and delivers nothing |
| PipelineOutcomes.ResultWrittenOut | src/application/packet_pipeline.cpp:72-141 | the terminal result of every packet decided by a PDR, from the rules it names, bucket, counter, reports and sinks, with limits and constants written out |
| PipelineOutcomes.SomePdrDecides | src/application/packet_pipeline.cpp:72-78 | every packet in some match space has a deciding PDR whose rules all exist |
| PipelineOutcomes.SessionsAreSeparate | src/application/packet_pipeline.cpp:68-71 | over every run no packet of a session other than the active ruleset's is delivered, charged, counted or reported, or refills a bucket |
| PipelineRuns.PlanExplained | src/application/packet_pipeline.cpp:81-141 | every effect of a packet is determined by the deciding PDR and the terminal result |
| PipelineSafety.AllOrNothing | src/application/packet_pipeline.cpp:64-131 | uncommitted packets change no bucket, counter, sink or report; a rate-limited one refills one bucket; a full results buffer changes nothing |
| PipelineSafety.RunKeepsLogged | src/application/packet_pipeline.cpp:9-18 | every op keeps the outputs projections of the decision log |
| PipelineSafety.OutputsAreProjections | src/application/packet_pipeline.cpp:9-143 | over every run sinks and reports can be read off the log in order, events plus dropped events count the decisions, buffers keep their limits, and sinks hold only fitting traffic |
| PipelineExplanation.PlansExplainThemselves | src/application/packet_pipeline.cpp:84-142 | for every packet that reaches selection, committed or not, the QER part is exact about tokens, earnings and outcome, the FAR part about tunnel and sink, the URR part about totals before, totals to be and report; an admitted packet is committed exactly when there is room |
| PipelineExplanation.DecisionsExplainThemselves | src/application/packet_pipeline.cpp:57-82 | the decision lists exactly the candidates in ID order, names the PDR that beats all others, and carries the explanation of the plan |
| PipelineExplanation.ExplanationHoldsIffCommitted | src/application/packet_pipeline.cpp:110-142 | the totals, report and tokens a decision tells of are those of the state left behind exactly if the packet is committed (or nothing was to change) |
| PipelineSamples.RefusedDecisionOverstates | src/application/packet_pipeline.cpp:116-120 | with no room for reports a refused decision tells of a threshold, a report and a total that the state does not have |
| PipelineOrder.RuleOrderIrrelevant | src/application/packet_pipeline.cpp:20-143 | runs that install rulesets equal up to list order return the same answers, also beyond the results limit, and agree on every retained decision, sink, report, event and runtime state |
| PipelineAccounting.RateConformance | src/domain/qer.cpp:27-52 | over any run whose activated rulesets keep a QER, the payload charged to it is at most burst + floor((rate * elapsed + remainder) / 8000000), and remainders telescope |
| PipelineAccounting.RateConformanceInWindow | src/domain/qer.cpp:27-52 | the same bound with the opening packet of the window included |
| PipelineAccounting.ConformingTrafficPasses | src/application/packet_pipeline.cpp:86-95 | over any run that keeps the QER, from a bucket within its burst, traffic covered by the tokens at the start, the earnings and one burst in every window is never rate limited; if no asking packet is refused otherwise, the converse holds, and the traffic was in order and no step overflowed |
| PipelineAccounting.OverdueForever | src/application/packet_pipeline.cpp:88-95 | once the earnings since the last refill exceed 64 bits, every later packet of the QER fails with an arithmetic error and the bucket never changes again |
| PipelineAccounting.FreshBucketIsOverdue | src/application/packet_pipeline.cpp:30-34 | a fresh bucket counts from time zero, so it is overdue exactly when rate times time exceeds 64 bits |
| PipelineAccounting.ZeroRateSpendsTokens | src/domain/qer.cpp:27-48 | with rate zero, charges and tokens left add up to the tokens at the start over every run |
| PipelineAccounting.ZeroBurstChargesNothing | src/domain/qer.cpp:36-48 | with burst size zero no payload is charged over any run |
| PipelineAccounting.ZeroBurstAdmitsEmptyPackets | src/domain/qer.cpp:36-52 | with burst size zero a packet is admitted exactly if it has no payload and the bucket can be evaluated |
| PipelineSamples.ZeroBurstAdmitsOne | src/domain/qer.cpp:40-52 | a concrete packet that a burst size of zero admits |
| PipelineAccounting.FreshInstallIsBucketed | src/application/packet_pipeline.cpp:30-34 | a fresh bucket starts full at the burst size with no remainder, within its invariant |
| PipelineAccounting.UnchargedRunInvisible | src/application/packet_pipeline.cpp:86-95 | after any run that charges a QER nothing, a packet meets the verdict it would have met before that run |
| PipelineUsage.PacketOnCounter | src/application/packet_pipeline.cpp:110-131 | a committed packet whose PDR names the URR is counted and appends its report exactly when it first meets the threshold; any other packet leaves the counter |
| PipelineUsage.InstallOnCounter | src/application/packet_pipeline.cpp:37-45 | an install carries the counter of a generation already held and starts every other at zero |
| PipelineUsage.UsageIsExact | src/application/packet_pipeline.cpp:110-131 | from a fresh counter on, while the generation stays and whatever its threshold, packets and bytes equal the committed packets naming the URR |
| PipelineReports.ReportsCountCrossings | src/domain/urr.cpp:24-32 | over every run the reports appended under a URR generation (and, if given, a session and version) number the periods that cross the threshold |
| PipelineReports.OneReportIffOneCrossing | src/domain/urr.cpp:24-32 | no two reports of a run name the same URR generation exactly when at most one of its periods crosses |
| PipelineReports.NeverReturningReportsOnce | src/application/packet_pipeline.cpp:37-45 | a URR generation that no install brings back reports at most once, even if its threshold changes |
| PipelineReports.RenewedGenerationsReportOnce | src/application/packet_pipeline.cpp:37-45 | if every activated ruleset drops the URR, keeps its generation or uses a new one, every generation reports at most once |
| PipelineReports.ThresholdReportIsExact | src/domain/urr.cpp:24-32 | from a fresh counter on and while the URR is unchanged, the flag is set exactly when something was counted and the threshold is met, and then exactly one report was appended |
| PipelineReports.ReturnedGenerationReportsAgainIff | src/application/packet_pipeline.cpp:37-45 | a generation brought back reports once more exactly when its new period counts something and meets the threshold |
| PipelineReports.DistinctIffCrossesOncePerIdentity | src/domain/urr.cpp:27-30 | all reports of a run are pairwise distinct exactly when no URR generation crosses in two periods under one session and version |
| PipelineReports.ReportsAreDistinct | src/domain/urr.cpp:24-32 | reports appended by a run whose activations increase the version are pairwise distinct |
| PipelineSamples.ReturnedGenerationStartsAfresh | src/application/packet_pipeline.cpp:37-45 | a ruleset without the URR generation in between, by dropping or by renumbering it, resets its counter |
| PipelineSamples.TwoReportsOneGeneration | src/application/packet_pipeline.cpp:37-45 | two concrete runs in which one URR generation reports twice |
| RuleService.RuleService.constructor | src/application/rule_service.cpp:5 | a new service has no intent and no applied version |
| RuleService.RuleService.MigrateQers | src/application/rule_service.cpp:14-26 | the QER loop of update builds one entry per QER |
| RuleService.RuleService.MigrateUrrs | src/application/rule_service.cpp:27-36 | the URR loop of update builds one entry per URR |
| RuleService.RuleService.Update | src/application/rule_service.cpp:7-43 | accepts exactly a named, newer, valid candidate and makes it intended and active; a failed update changes nothing and is explained |
| RuleService.RuleService.Remove | src/application/rule_service.cpp:45-52 | clears intended and active exactly with a ruleset active, an update ID and a version above the active one; runtime and applied version stay, and any other removal changes nothing |
| RuleService.RuleService.MarkApplied | src/application/rule_service.cpp:60-63 | only the latest update and its version are recorded; stale acknowledgements have no effect |
| RuleServiceModel.ConvergedIffAcknowledgedOrCollided | src/application/rule_service.cpp:54-63 | over every run CONVERGED is reported exactly when the intent was acknowledged after its update or its version was already the applied one |
| RuleServiceModel.ConvergedIffAcknowledged | src/application/rule_service.cpp:54-63 | without removals CONVERGED means acknowledged |
| RuleServiceModel.RemovalForgetsAcknowledgement | src/application/rule_service.cpp:45-52 | with removals some run reports CONVERGED unacknowledged |
| RuleServiceModel.RemovalClearsIff | src/application/rule_service.cpp:45-52 | over every run a removal clears the intent exactly if it is named and newer than an accepted update that still stands, and otherwise leaves the whole state unchanged |
| RuleServiceModel.IntentStands | src/application/rule_service.cpp:37-52 | over every run active and intended are the same, come from an accepted update that still stands, and have a named latest update |
| RuleServiceModel.EmptyAndDivergentIff | src/application/rule_service.cpp:54-58 | over every run EMPTY means nothing intended and nothing ever acknowledged; the exact condition for DIVERGENT |
| RuleServiceModel.RemoveFreeInvariant | src/application/rule_service.cpp:37-41 | without removals active and intended are the same snapshot and the applied version never exceeds the intended one |
| RuleServiceModel.AcceptedVersionsIncrease | src/application/rule_service.cpp:9-10 | without removals accepted versions strictly increase |
| RuleServiceModel.UpdatedRuntimeOf | src/application/rule_service.cpp:13-38 | whatever the runtime held, an update leaves exactly the new ruleset's states and generations |
| Dataplane.SimulatedDataplane.constructor | src/adapters/simulated_dataplane.cpp:6-7 | a new adapter has its whole script ahead |
| Dataplane.SimulatedDataplane.ApplyRequest | src/adapters/simulated_dataplane.cpp:13-22 | an applied request succeeds without using the script; otherwise one outcome is used, or success once the script is spent |
| Dataplane.SimulatedDataplane.CompleteDelayedRequest | src/adapters/simulated_dataplane.cpp:24-34 | completes exactly a delayed request that is still the latest, or one already applied |
| Dataplane.AppliedIffSucceeded | src/adapters/simulated_dataplane.cpp:13-34 | over every run a request is applied exactly when an operation reported success for that very pair |
| Dataplane.AppliedIffBroughtAbout | src/adapters/simulated_dataplane.cpp:13-34 | over every run a request is applied exactly if it was asked for when the script said success or was spent, or was delayed earlier and completed while named as the latest |
| Dataplane.CompletionSucceedsIff | src/adapters/simulated_dataplane.cpp:24-34 | after any run a completion succeeds exactly if its request is applied already or was delayed and is the latest |
| Dataplane.StepUsesScript | src/adapters/simulated_dataplane.cpp:17-21 | only a request not yet applied uses an outcome, and it is answered with that outcome |
| Dataplane.AppliedForever | src/adapters/simulated_dataplane.cpp:17 | a request that succeeded succeeds forever and uses no outcome |
| Reconciliation.ReconciliationController.Retry | src/application/reconciliation.cpp:9-23 | the loop's result is fixed by the first non-transient outcome within the bound, and so is the number of attempts, which the status keeps modulo 2^32 |
| Reconciliation.ReconciliationController.Reconcile | src/application/reconciliation.cpp:5-24 | the whole call on service, adapter and status, with the number of attempts |
| Reconciliation.AttemptRepeats | src/application/reconciliation.cpp:9-22 | after n transient failures another one is consumed and the call goes on |
| Reconciliation.AttemptSettles | src/application/reconciliation.cpp:9-22 | after n transient failures any other outcome settles the call after n + 1 attempts |
| Reconciliation.ConsumesMoreThanMaximumIff | src/application/reconciliation.cpp:9-22 | a call consumes more outcomes than its maximum exactly if that is 2^32 - 1 and the script goes on with as many transient failures and is longer |
| Reconciliation.AttemptsExceedMaximumIff | src/application/reconciliation.cpp:9-22 | the exact condition for more attempts than the maximum |
| Reconciliation.AttemptsReportedIff | src/application/reconciliation.cpp:10 | the reported attempts are the attempts made exactly if these fit 32 bits |
| Reconciliation.LargestMaximumDoesNotBound | src/application/reconciliation.cpp:9-10 | a script of 2^32 transient failures is used up by one call, which reports one attempt |
| Reconciliation.CallProgresses | src/application/reconciliation.cpp:5-24 | a live call converges, with the service CONVERGED, or consumes a scripted outcome |
| Reconciliation.CallUsesScript | src/application/reconciliation.cpp:9-23 | a call retries transient failures only; the last outcome it uses says exactly whether it converges, is delayed or gives up |
| Reconciliation.IdleCall | src/application/reconciliation.cpp:6-8 | without intent or without attempts a call does nothing |
| Reconciliation.StaleCompletionsAreInert | src/adapters/simulated_dataplane.cpp:29-30 | leaving all stale completions out of a run leaves the same service and dataplane |
| Reconciliation.OnlyCurrentWorkIsApplied | src/adapters/simulated_dataplane.cpp:29-30 | over every run the dataplane takes on only what is the latest update and intended version at that moment |
| Reconciliation.FailedCallsBounded | src/application/reconciliation.cpp:5-24 | with updates, removals, acknowledgements and completions interleaved, failing calls number at most the outcomes left |
| Reconciliation.DelayedThenCompletedConverges | src/adapters/simulated_dataplane.cpp:24-34 | after a completed delayed success the next call converges at once without the script |
| Reconciliation.ExhaustedScriptConverges | src/adapters/simulated_dataplane.cpp:18 | with the script spent every live call converges at its first attempt |
| Reconciliation.ConvergedMeansApplied | src/application/reconciliation.cpp:12-16 | over every run of updates, calls and delayed completions CONVERGED means the dataplane has applied the intended version under the latest update ID |
| Reconciliation.StepConvergedIsApplied | src/application/rule_service.cpp:54-63 | one op keeps CONVERGED meaning applied exactly unless it is an accepted update back to the recorded version, or an effective acknowledgement, of a request not applied |
| Reconciliation.AlwaysAppliedIffNoneUnfounded | src/application/rule_service.cpp:45-63 | over every run, removals and outside acknowledgements included, CONVERGED means applied throughout exactly if no op is of that kind |
| Scheduler.Scheduler.EnqueueControl | src/application/scheduler.cpp:5-14 | admits exactly while accepting and below the limit, at the back |
| Scheduler.Scheduler.EnqueuePacket | src/application/scheduler.cpp:15-17 | admits exactly while accepting and below the limit, at the back |
| Scheduler.Scheduler.EnqueueReconciliation | src/application/scheduler.cpp:18-20 | admits exactly while accepting and below the limit, at the back |
| Scheduler.Scheduler.TakeCycle | src/application/scheduler.cpp:22-37 | hands out the head of each non-empty queue in fixed order |
| Scheduler.Scheduler.PendingItems | src/application/scheduler.cpp:39-41 | counts what waits, the number that DrainsExactly speaks of, and is zero exactly when all three queues are empty |
| Scheduler.Scheduler.ClassifyRemainder | src/application/scheduler.cpp:43-56 | hands out everything, kind by kind, and empties the queues |
| Scheduler.Conservation | src/application/scheduler.cpp:5-56 | per kind, over every run, waiting plus accepted equals handed out followed by still waiting |
| Scheduler.AcceptedIffRoom | src/application/scheduler.cpp:5-20 | after any run an item is accepted exactly if admission was not stopped and fewer items than the limit of its queue are accepted but not handed out |
| Scheduler.OutputInTurn | src/application/scheduler.cpp:22-56 | a cycle hands out at most one item per kind, control before packets before reconciliation; classification everything in that order |
| Scheduler.ServedInTurn | src/application/scheduler.cpp:22-37 | n cycles serve exactly the first n waiting items, whatever else is enqueued |
| Scheduler.QueuesStayBounded | src/application/scheduler.cpp:5-10 | queues never exceed their limits |
| Scheduler.DrainsExactly | src/application/scheduler.cpp:22-41 | after admission stops, nothing is pending exactly from as many cycles as the longest queue is long |

## Left out

- JSON input and output, human output, the command line and file reading: I/O and library glue.
- Text conversion of addresses and numbers (`inet_pton`, `inet_ntop`, `strtol`): the model starts from bytes and a
  length.
- `ScenarioRunner` and `runFiles`: fixed fixtures and composition; their queue-full and shutdown results are
  constants.
- `BoundedEventSink`, `InMemoryPacketSink`, `SimulatedClock` and the port interfaces: the pipeline keeps its own
  buffers.
- Explanation strings of a criterion and the wording of error messages: names and errors are datatypes, event texts
  are the terminal results they name.
- Fields the engine does not read or never sets: the PDR generation, the QFI of a QER, the session limit,
  `dueTimeMicros`, the attempt number passed to the adapter, `updateId` of a decision, and the two terminal results
  that only the scenario runner produces.
- Heap ownership and exceptions: snapshots are immutable values, optional values are options with preconditions.
- Selection.SortedUnique: the sorting algorithm of the standard library is represented by an insertion sort; the lemma
  shows that the choice does not matter for distinct IDs.
- Reconciliation.ReconciliationController.Reconcile: the adapter is the simulated one, not an arbitrary implementation
  of the interface; its script is arbitrary, so for a request not yet applied it stands for any finite series of
  answers.
- Reconciliation.ReconciliationController.Retry: the adapter is the simulated one, as for Reconcile.
- PipelineReports.ReportsAreDistinct: the pipeline's own install has no version guard, so the increase of versions is
  a condition on the run. The rule service enforces it over runs without removal
  (`RuleServiceModel.AcceptedVersionsIncrease`), but nothing in the source routes the pipeline's installs through it.
