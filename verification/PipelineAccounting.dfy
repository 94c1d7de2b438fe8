/** Rate accounting over whole runs: what is charged to a QER, and what its bucket earned meanwhile. */
module PipelineAccounting {
  import opened Types
  import opened Rules
  import Validation
  import opened Decision
  import Runtime
  import opened QerEngine
  import opened PipelineModel
  import opened PipelineRuns
  import opened PipelineExplanation

  // ----- What a run charges

  ghost function ChargedBy(s: PipelineState, op: Op, qerId: uint32): nat
    requires Ready(s)
  {
    var w := CommittedPdr(s, op);
    if w.Some? && w.value.qerId == Some(qerId) then op.packet.payloadBytes else 0
  }

  /** The payload of every committed packet charged to a QER, whichever PDR named it and whatever its FAR did. */
  ghost function TotalCharged(s: PipelineState, ops: seq<Op>, qerId: uint32): nat
    requires Ready(s)
    decreases |ops|
  {
    if ops == [] then 0 else ChargedBy(s, ops[0], qerId) + TotalCharged(Step(s, ops[0]), ops[1..], qerId)
  }

  /** If the op activates a ruleset, that ruleset defines the same QER; a rejected install changes nothing. */
  ghost predicate StepKeepsQer(s: PipelineState, op: Op, qer: Qer) {
    op.InstallOp? && Validation.Accepted(op.rules, s.limits) ==> qer in op.rules.qers
  }

  /** Every ruleset activated on the way defines the same QER. */
  ghost predicate KeepsQer(s: PipelineState, ops: seq<Op>, qer: Qer)
    requires Ready(s)
    decreases |ops|
  {
    ops != [] ==> StepKeepsQer(s, ops[0], qer) && KeepsQer(Step(s, ops[0]), ops[1..], qer)
  }

  ghost predicate Serves(s: PipelineState, qer: Qer) {
    Ready(s) && s.rules.Some? && qer in s.rules.value.qers
  }

  lemma ServedBucket(s: PipelineState, qer: Qer)
    requires Serves(s, qer)
    ensures qer.id in s.runtime.qers && qer.id in s.runtime.qerGenerations
    ensures s.runtime.qerGenerations[qer.id] == qer.generation
    ensures Find(s.rules.value.qers, QerKey, qer.id) == Some(qer)
  {
    assert Validation.Accepted(s.rules.value, s.limits) && Runtime.RuntimeOf(s.runtime, s.rules.value);
    FindUnique(s.rules.value.qers, QerKey, qer);
    assert QerKey(qer) in Ids(s.rules.value.qers, QerKey);
  }

  function BucketOf(s: PipelineState, qer: Qer): TokenBucketState {
    if qer.id in s.runtime.qers then s.runtime.qers[qer.id] else EMPTY_BUCKET
  }

  // ----- One step of a bucket

  lemma EffectOnBucket(s: PipelineState, rules: RuleSet, w: Pdr, packet: Packet, e: Effect, qer: Qer)
    requires Resolved(s, rules, w, packet) && Explained(s, rules, w, packet, e)
    requires qer.id in s.runtime.qers && Find(rules.qers, QerKey, qer.id) == Some(qer)
    ensures var b := s.runtime.qers[qer.id];
            var v := Admit(qer, b, packet.payloadBytes, packet.arrivalTimeMicros);
            var qers := CommittedRuntime(s.runtime, e).qers;
            && qer.id in qers
            && qers[qer.id] ==
               (if w.qerId == Some(qer.id) && (v.Limited? || Committed(e.result)) then Settled(b, v) else b)
            && (w.qerId == Some(qer.id) && v.Limited? ==> !Committed(e.result))
            && (w.qerId == Some(qer.id) && Committed(e.result) ==> v.Charged?)
            && (w.qerId == Some(qer.id) && v.Denied? ==> e.result == v.reason)
  {
  }

  lemma PacketOnBucket(s: PipelineState, op: Op, qer: Qer)
    requires Serves(s, qer) && op.PacketOp?
    ensures Serves(Step(s, op), qer)
    ensures var v := Admit(qer, BucketOf(s, qer), op.packet.payloadBytes, op.packet.arrivalTimeMicros);
            var b' := BucketOf(Step(s, op), qer);
            || (b' == BucketOf(s, qer) && ChargedBy(s, op, qer.id) == 0)
            || (b' == Settled(BucketOf(s, qer), v) && ChargedBy(s, op, qer.id) == ChargeOf(v, op.packet.payloadBytes))
  {
    ServedBucket(s, qer);
    PacketStep(s, op);
    if |s.decisions| < s.limits.results {
      PlanExplained(s, op.packet);
      var w := Deciding(s, op.packet);
      if w.Some? {
        EffectOnBucket(s, s.rules.value, w.value, op.packet, Plan(s, op.packet), qer);
      }
    }
  }

  lemma InstallOnBucket(s: PipelineState, op: Op, qer: Qer)
    requires Serves(s, qer) && op.InstallOp? && StepKeepsQer(s, op, qer)
    ensures Serves(Step(s, op), qer)
    ensures BucketOf(Step(s, op), qer) == BucketOf(s, qer)
  {
    ServedBucket(s, qer);
    if Validation.Accepted(op.rules, s.limits) {
      Runtime.InstalledRuntimeOf(s.runtime, op.rules);
      ServedBucket(Step(s, op), qer);
    }
  }

  lemma StepConforms(s: PipelineState, op: Op, qer: Qer, from: TokenBucketState, charged: nat)
    requires Serves(s, qer) && StepKeepsQer(s, op, qer)
    requires Conforms(qer, from, BucketOf(s, qer), charged)
    ensures Serves(Step(s, op), qer)
    ensures Conforms(qer, from, BucketOf(Step(s, op), qer), charged + ChargedBy(s, op, qer.id))
  {
    if op.PacketOp? {
      PacketOnBucket(s, op, qer);
      ConformsStep(qer, from, BucketOf(s, qer), charged, op.packet.payloadBytes, op.packet.arrivalTimeMicros);
    } else {
      InstallOnBucket(s, op, qer);
    }
  }

  lemma {:induction false} RunConforms(s: PipelineState, ops: seq<Op>, qer: Qer, from: TokenBucketState, charged: nat)
    requires Serves(s, qer) && KeepsQer(s, ops, qer)
    requires Conforms(qer, from, BucketOf(s, qer), charged)
    ensures Serves(Run(s, ops), qer)
    ensures Conforms(qer, from, BucketOf(Run(s, ops), qer), charged + TotalCharged(s, ops, qer.id))
    decreases |ops|
  {
    if ops != [] {
      StepConforms(s, ops[0], qer, from, charged);
      RunConforms(Step(s, ops[0]), ops[1..], qer, from, charged + ChargedBy(s, ops[0], qer.id));
    }
  }

  // ----- The bucket's own invariant

  /** The remainder is below one byte and the tokens do not exceed the burst size. */
  predicate Bucketed(qer: Qer, b: TokenBucketState) {
    b.remainderBitMicros < BIT_MICROS_PER_BYTE && b.tokensBytes <= qer.burstBytes
  }

  lemma StepBucketed(s: PipelineState, op: Op, qer: Qer)
    requires Serves(s, qer) && StepKeepsQer(s, op, qer) && Bucketed(qer, BucketOf(s, qer))
    ensures Serves(Step(s, op), qer) && Bucketed(qer, BucketOf(Step(s, op), qer))
    ensures ChargedBy(s, op, qer.id) + BucketOf(Step(s, op), qer).tokensBytes <= qer.burstBytes
  {
    if op.PacketOp? {
      PacketOnBucket(s, op, qer);
      AdmitKeepsBucket(qer, BucketOf(s, qer), op.packet.payloadBytes, op.packet.arrivalTimeMicros);
    } else {
      InstallOnBucket(s, op, qer);
    }
  }

  lemma {:induction false} RunBucketed(s: PipelineState, ops: seq<Op>, qer: Qer)
    requires Serves(s, qer) && KeepsQer(s, ops, qer) && Bucketed(qer, BucketOf(s, qer))
    ensures Serves(Run(s, ops), qer) && Bucketed(qer, BucketOf(Run(s, ops), qer))
    decreases |ops|
  {
    if ops != [] {
      StepBucketed(s, ops[0], qer);
      RunBucketed(Step(s, ops[0]), ops[1..], qer);
    }
  }

  // An install that gives the QER a fresh bucket starts it full, with no remainder.
  lemma FreshInstallIsBucketed(s: PipelineState, rules: RuleSet, qer: Qer)
    requires Ready(s) && Validation.Accepted(rules, s.limits) && qer in rules.qers
    requires qer.id in s.runtime.qerGenerations ==> s.runtime.qerGenerations[qer.id] != qer.generation
    ensures Serves(Step(s, InstallOp(rules)), qer)
    ensures BucketOf(Step(s, InstallOp(rules)), qer) == TokenBucketState(qer.burstBytes, 0, 0)
    ensures Bucketed(qer, BucketOf(Step(s, InstallOp(rules)), qer))
  {
    Runtime.InstalledRuntimeOf(s.runtime, rules);
    ServedBucket(Step(s, InstallOp(rules)), qer);
  }

  /** Between two bucket states at most one burst plus what the rate earned was charged; the remainder telescoped. */
  predicate RateBounded(qer: Qer, b: TokenBucketState, b': TokenBucketState, charged: nat) {
    && b.lastRefillMicros <= b'.lastRefillMicros
    && var earned := qer.rateBitsPerSecond * (b'.lastRefillMicros - b.lastRefillMicros) + b.remainderBitMicros;
       && charged <= qer.burstBytes + earned / 8000000
       && b'.remainderBitMicros == earned % 8000000
  }

  lemma ConformsBounds(qer: Qer, b: TokenBucketState, b': TokenBucketState, charged: nat, before: nat)
    requires Conforms(qer, b, b', charged) && before + b.tokensBytes <= qer.burstBytes
    ensures RateBounded(qer, b, b', before + charged)
  {
    var elapsed := b'.lastRefillMicros - b.lastRefillMicros;
    assert elapsed * qer.rateBitsPerSecond == qer.rateBitsPerSecond * elapsed;
  }

  // Rate conformance, from any point at which the bucket is within its burst: over any further run in which the QER
  // stays defined, the committed payload charged to it is at most one burst plus what its rate earned between the
  // first and the last refill, and the remainders telescope exactly.
  lemma RateConformance(s: PipelineState, ops: seq<Op>, qer: Qer)
    requires Serves(s, qer) && KeepsQer(s, ops, qer) && Bucketed(qer, BucketOf(s, qer))
    ensures RateBounded(qer, BucketOf(s, qer), BucketOf(Run(s, ops), qer), TotalCharged(s, ops, qer.id))
    ensures Bucketed(qer, BucketOf(Run(s, ops), qer))
  {
    ConformsInitially(qer, BucketOf(s, qer));
    RunConforms(s, ops, qer, BucketOf(s, qer), 0);
    RunBucketed(s, ops, qer);
    ConformsBounds(qer, BucketOf(s, qer), BucketOf(Run(s, ops), qer), TotalCharged(s, ops, qer.id), 0);
  }

  // The same bound over a closed window: the packet that opens the window is included, and the rate is counted only
  // from the refill that packet made.
  lemma RateConformanceInWindow(s: PipelineState, opening: Op, rest: seq<Op>, qer: Qer)
    requires Serves(s, qer) && Bucketed(qer, BucketOf(s, qer))
    requires StepKeepsQer(s, opening, qer) && KeepsQer(Step(s, opening), rest, qer)
    ensures var m := Step(s, opening);
            RateBounded(qer, BucketOf(m, qer), BucketOf(Run(m, rest), qer),
                        ChargedBy(s, opening, qer.id) + TotalCharged(m, rest, qer.id))
  {
    StepBucketed(s, opening, qer);
    var m := Step(s, opening);
    ConformsInitially(qer, BucketOf(m, qer));
    RunConforms(m, rest, qer, BucketOf(m, qer), 0);
    ConformsBounds(qer, BucketOf(m, qer), BucketOf(Run(m, rest), qer), TotalCharged(m, rest, qer.id),
      ChargedBy(s, opening, qer.id));
  }

  // ----- Packets that are not charged leave no trace

  /** Nothing happened to the bucket but refilling. */
  predicate RefilledSince(qer: Qer, b: TokenBucketState, b': TokenBucketState) {
    b' == b || (b.lastRefillMicros <= b'.lastRefillMicros && b' == Refilled(qer, b, b'.lastRefillMicros))
  }

  lemma UnchargedStep(qer: Qer, from: TokenBucketState, b: TokenBucketState, bytes: uint64, now: uint64)
    requires RefilledSince(qer, from, b)
    ensures var v := Admit(qer, b, bytes, now);
            ChargeOf(v, bytes) == 0 ==> RefilledSince(qer, from, Settled(b, v))
  {
    var v := Admit(qer, b, bytes, now);
    if !v.Denied? && b != from {
      RefilledTwice(qer, from, b.lastRefillMicros, now);
    }
  }

  lemma {:induction false} UnchargedRunRefills(s: PipelineState, ops: seq<Op>, qer: Qer, from: TokenBucketState)
    requires Serves(s, qer) && KeepsQer(s, ops, qer) && RefilledSince(qer, from, BucketOf(s, qer))
    requires TotalCharged(s, ops, qer.id) == 0
    ensures RefilledSince(qer, from, BucketOf(Run(s, ops), qer))
    decreases |ops|
  {
    if ops != [] {
      var op := ops[0];
      if op.PacketOp? {
        PacketOnBucket(s, op, qer);
        UnchargedStep(qer, from, BucketOf(s, qer), op.packet.payloadBytes, op.packet.arrivalTimeMicros);
      } else {
        InstallOnBucket(s, op, qer);
      }
      UnchargedRunRefills(Step(s, op), ops[1..], qer, from);
    }
  }

  lemma RefillIsInvisible(qer: Qer, b: TokenBucketState, b': TokenBucketState, bytes: uint64, now: uint64)
    requires RefilledSince(qer, b, b') && b'.lastRefillMicros <= now && Earned(qer, b, now) <= U64_MAX
    ensures Admit(qer, b', bytes, now) == Admit(qer, b, bytes, now)
  {
    if b' != b {
      EarnedAfterRefill(qer, b, b'.lastRefillMicros, now);
      RefilledTwice(qer, b, b'.lastRefillMicros, now);
    }
  }

  // Rejected packets are invisible in the pipeline: after any run that charges nothing to a QER, however many of its
  // packets were rate limited or refused for lack of capacity, a packet that is not late meets the same verdict and
  // leaves the same bucket as if that run had not happened.
  lemma UnchargedRunInvisible(s: PipelineState, ops: seq<Op>, qer: Qer, bytes: uint64, now: uint64)
    requires Serves(s, qer) && KeepsQer(s, ops, qer) && TotalCharged(s, ops, qer.id) == 0
    requires BucketOf(Run(s, ops), qer).lastRefillMicros <= now
    requires BucketOf(s, qer).lastRefillMicros <= now && Earned(qer, BucketOf(s, qer), now) <= U64_MAX
    ensures Admit(qer, BucketOf(Run(s, ops), qer), bytes, now) == Admit(qer, BucketOf(s, qer), bytes, now)
  {
    UnchargedRunRefills(s, ops, qer, BucketOf(s, qer));
    RefillIsInvisible(qer, BucketOf(s, qer), BucketOf(Run(s, ops), qer), bytes, now);
  }

  // ----- Conforming traffic passes

  /** The packet gets as far as the QER. */
  ghost predicate Asks(s: PipelineState, op: Op, qerId: uint32) {
    op.PacketOp? && Deciding(s, op.packet).Some? && Deciding(s, op.packet).value.qerId == Some(qerId)
  }

  ghost function ResultOf(s: PipelineState, op: Op): TerminalResult
    requires Ready(s) && op.PacketOp?
  {
    DecisionOn(s, op.packet, op.runId, op.scenarioId).terminalResult
  }

  /** What a run asks of a QER, in order. */
  ghost function AsksOf(s: PipelineState, ops: seq<Op>, qerId: uint32): seq<Attempt>
    requires Ready(s)
    decreases |ops|
  {
    if ops == [] then []
    else
      var rest := AsksOf(Step(s, ops[0]), ops[1..], qerId);
      if Asks(s, ops[0], qerId) then [Attempt(ops[0].packet.payloadBytes, ops[0].packet.arrivalTimeMicros)] + rest
      else rest
  }

  ghost predicate NoneLimited(s: PipelineState, ops: seq<Op>, qerId: uint32)
    requires Ready(s)
    decreases |ops|
  {
    ops != [] ==>
      && (Asks(s, ops[0], qerId) ==> ResultOf(s, ops[0]) != RateLimited)
      && NoneLimited(Step(s, ops[0]), ops[1..], qerId)
  }

  /** Every packet the QER admits has room for all its effects. */
  ghost predicate NoneRefused(s: PipelineState, ops: seq<Op>, qerId: uint32)
    requires Ready(s)
    decreases |ops|
  {
    ops != [] ==>
      && (Asks(s, ops[0], qerId) ==> ResultOf(s, ops[0]) == RateLimited || Committed(ResultOf(s, ops[0])))
      && NoneRefused(Step(s, ops[0]), ops[1..], qerId)
  }

  lemma AskOnBucket(s: PipelineState, op: Op, qer: Qer)
    requires Serves(s, qer) && op.PacketOp?
    ensures var v := Admit(qer, BucketOf(s, qer), op.packet.payloadBytes, op.packet.arrivalTimeMicros);
            if Asks(s, op, qer.id)
            then (ResultOf(s, op) == RateLimited <==> v.Limited?)
                 && (Committed(ResultOf(s, op)) ==> v.Charged?)
                 && (v.Denied? ==> ResultOf(s, op) == v.reason && BucketOf(Step(s, op), qer) == BucketOf(s, qer))
                 && (v.Charged? ==>
                       BucketOf(Step(s, op), qer) == (if Committed(ResultOf(s, op)) then v.next else BucketOf(s, qer)))
            else BucketOf(Step(s, op), qer) == BucketOf(s, qer)
  {
    ServedBucket(s, qer);
    PacketStep(s, op);
    if |s.decisions| < s.limits.results {
      PlanExplained(s, op.packet);
      var w := Deciding(s, op.packet);
      if w.Some? {
        EffectOnBucket(s, s.rules.value, w.value, op.packet, Plan(s, op.packet), qer);
      }
    }
  }

  // One packet that asks: traffic that fits is not limited at it and fits after it, and if the packet is committed it
  // conformed just when the rest does.
  lemma AskConforms(s: PipelineState, op: Op, qer: Qer, asks: seq<Attempt>)
    requires Serves(s, qer) && Bucketed(qer, BucketOf(s, qer))
    requires op.PacketOp? && Asks(s, op, qer.id)
    requires asks != [] && asks[0] == Attempt(op.packet.payloadBytes, op.packet.arrivalTimeMicros)
    ensures var b, b' := BucketOf(s, qer), BucketOf(Step(s, op), qer);
            && (Fits(qer, b, asks) ==> ResultOf(s, op) != RateLimited && Fits(qer, b', asks[1..]))
            && (Committed(ResultOf(s, op)) ==> (Conforming(qer, b, asks) <==> Conforming(qer, b', asks[1..])))
  {
    var b := BucketOf(s, qer);
    AskOnBucket(s, op, qer);
    FirstChargedIff(qer, b, asks);
    if Committed(ResultOf(s, op)) {
      ConformingAfterFirst(qer, b, asks);
    }
    if Fits(qer, b, asks) {
      if Committed(ResultOf(s, op)) {
        FitsAfterFirst(qer, b, asks);
      } else {
        FitsWithoutFirst(qer, b, asks);
      }
    }
  }

  // Conforming traffic passes, over any length of time: as long as what a run asks of a QER is covered by the tokens at
  // the start and what is earned since, and over every window by one burst and what is earned in it, no packet is rate
  // limited, whatever else the run does and whatever the QER denies. If every packet it admits has room and none is
  // denied, the converse holds as well, and then time did not go back and no step overflowed.
  lemma {:induction false} ConformingTrafficPasses(s: PipelineState, ops: seq<Op>, qer: Qer)
    requires Serves(s, qer) && KeepsQer(s, ops, qer) && Bucketed(qer, BucketOf(s, qer))
    ensures Fits(qer, BucketOf(s, qer), AsksOf(s, ops, qer.id)) ==> NoneLimited(s, ops, qer.id)
    ensures NoneRefused(s, ops, qer.id) ==>
              && (NoneLimited(s, ops, qer.id) <==> Fits(qer, BucketOf(s, qer), AsksOf(s, ops, qer.id)))
              && (NoneLimited(s, ops, qer.id) <==> Conforming(qer, BucketOf(s, qer), AsksOf(s, ops, qer.id)))
    decreases |ops|
  {
    if ops != [] {
      var op, m := ops[0], Step(s, ops[0]);
      StepBucketed(s, op, qer);
      if op.InstallOp? {
        InstallOnBucket(s, op, qer);
      } else {
        AskOnBucket(s, op, qer);
        if Asks(s, op, qer.id) {
          AskConforms(s, op, qer, AsksOf(s, ops, qer.id));
          assert AsksOf(s, ops, qer.id)[1..] == AsksOf(m, ops[1..], qer.id);
        }
      }
      ConformingTrafficPasses(m, ops[1..], qer);
    }
  }

  // ----- An overflow that never ends

  /** The bucket was last refilled so long ago that what it earned no longer fits 64 bits. */
  predicate Overdue(qer: Qer, b: TokenBucketState, now: uint64) {
    b.lastRefillMicros <= now && Earned(qer, b, now) > U64_MAX
  }

  /** Every packet that asks fails with an arithmetic error. */
  ghost predicate NoneEvaluated(s: PipelineState, ops: seq<Op>, qerId: uint32)
    requires Ready(s)
    decreases |ops|
  {
    ops != [] ==>
      && (Asks(s, ops[0], qerId) ==> ResultOf(s, ops[0]) == ArithmeticError)
      && NoneEvaluated(Step(s, ops[0]), ops[1..], qerId)
  }

  lemma OverdueStays(qer: Qer, b: TokenBucketState, t: uint64, now: uint64)
    requires Overdue(qer, b, t) && t <= now
    ensures Overdue(qer, b, now)
  {
    EarnedSplits(qer, b, t, now);
  }

  predicate Outside(asks: seq<Attempt>, from: uint64, to: uint64) {
    forall i | 0 <= i < |asks| :: asks[i].time < from || to <= asks[i].time
  }

  lemma OverdueStep(s: PipelineState, op: Op, qer: Qer, t: uint64)
    requires Serves(s, qer) && StepKeepsQer(s, op, qer) && qer.gate == Open && Overdue(qer, BucketOf(s, qer), t)
    requires Asks(s, op, qer.id) ==>
               op.packet.arrivalTimeMicros < BucketOf(s, qer).lastRefillMicros || t <= op.packet.arrivalTimeMicros
    ensures Serves(Step(s, op), qer) && BucketOf(Step(s, op), qer) == BucketOf(s, qer)
    ensures Asks(s, op, qer.id) ==> ResultOf(s, op) == ArithmeticError
  {
    if op.InstallOp? {
      InstallOnBucket(s, op, qer);
    } else {
      PacketOnBucket(s, op, qer);
      AskOnBucket(s, op, qer);
      if t <= op.packet.arrivalTimeMicros {
        OverdueStays(qer, BucketOf(s, qer), t, op.packet.arrivalTimeMicros);
      }
    }
  }

  lemma OutsideSplits(first: Attempt, rest: seq<Attempt>, from: uint64, to: uint64)
    requires Outside([first] + rest, from, to)
    ensures (first.time < from || to <= first.time) && Outside(rest, from, to)
  {
    var all := [first] + rest;
    assert all[0] == first && forall i | 0 <= i < |rest| :: all[i + 1] == rest[i];
  }

  // Overflow is absorbing: once a bucket is overdue, every packet from that time on (and every late one) fails with an
  // arithmetic error, and as a failed packet does not refill the bucket it stays as it is for good.
  lemma {:induction false} OverdueForever(s: PipelineState, ops: seq<Op>, qer: Qer, t: uint64)
    requires Serves(s, qer) && KeepsQer(s, ops, qer) && qer.gate == Open && Overdue(qer, BucketOf(s, qer), t)
    requires Outside(AsksOf(s, ops, qer.id), BucketOf(s, qer).lastRefillMicros, t)
    ensures BucketOf(Run(s, ops), qer) == BucketOf(s, qer)
    ensures NoneEvaluated(s, ops, qer.id)
    decreases |ops|
  {
    if ops != [] {
      var op := ops[0];
      if Asks(s, op, qer.id) {
        OutsideSplits(Attempt(op.packet.payloadBytes, op.packet.arrivalTimeMicros),
          AsksOf(Step(s, op), ops[1..], qer.id), BucketOf(s, qer).lastRefillMicros, t);
      }
      OverdueStep(s, op, qer, t);
      OverdueForever(Step(s, op), ops[1..], qer, t);
    }
  }

  // A fresh bucket counts from time zero, so it is overdue as soon as rate times time exceeds 64 bits.
  lemma FreshBucketIsOverdue(s: PipelineState, rules: RuleSet, qer: Qer, t: uint64)
    requires Ready(s) && Validation.Accepted(rules, s.limits) && qer in rules.qers
    requires qer.id in s.runtime.qerGenerations ==> s.runtime.qerGenerations[qer.id] != qer.generation
    ensures Overdue(qer, BucketOf(Step(s, InstallOp(rules)), qer), t) <==> t * qer.rateBitsPerSecond > U64_MAX
  {
    FreshInstallIsBucketed(s, rules, qer);
    FullBucketIsOverdue(qer, t);
  }

  lemma FullBucketIsOverdue(qer: Qer, t: uint64)
    ensures Overdue(qer, Runtime.FreshBucket(qer), t) <==> t * qer.rateBitsPerSecond > U64_MAX
  {
  }

  // ----- No rate and no burst

  lemma ZeroRateAdmits(qer: Qer, b: TokenBucketState, bytes: uint64, now: uint64)
    requires Bucketed(qer, b) && qer.rateBitsPerSecond == 0
    ensures var v := Admit(qer, b, bytes, now);
            ChargeOf(v, bytes) + Settled(b, v).tokensBytes == b.tokensBytes
  {
    if b.lastRefillMicros <= now {
      assert Earned(qer, b, now) == b.remainderBitMicros;
    }
  }

  // A QER with rate zero only spends what is in its bucket.
  lemma {:induction false} ZeroRateSpendsTokens(s: PipelineState, ops: seq<Op>, qer: Qer)
    requires Serves(s, qer) && KeepsQer(s, ops, qer) && Bucketed(qer, BucketOf(s, qer)) && qer.rateBitsPerSecond == 0
    ensures TotalCharged(s, ops, qer.id) + BucketOf(Run(s, ops), qer).tokensBytes == BucketOf(s, qer).tokensBytes
    decreases |ops|
  {
    if ops != [] {
      StepBucketed(s, ops[0], qer);
      if ops[0].PacketOp? {
        PacketOnBucket(s, ops[0], qer);
        ZeroRateAdmits(qer, BucketOf(s, qer), ops[0].packet.payloadBytes, ops[0].packet.arrivalTimeMicros);
      } else {
        InstallOnBucket(s, ops[0], qer);
      }
      ZeroRateSpendsTokens(Step(s, ops[0]), ops[1..], qer);
    }
  }

  // A QER with burst size zero lets no payload through.
  lemma {:induction false} ZeroBurstChargesNothing(s: PipelineState, ops: seq<Op>, qer: Qer)
    requires Serves(s, qer) && KeepsQer(s, ops, qer) && Bucketed(qer, BucketOf(s, qer)) && qer.burstBytes == 0
    ensures TotalCharged(s, ops, qer.id) == 0
    decreases |ops|
  {
    if ops != [] {
      StepBucketed(s, ops[0], qer);
      ZeroBurstChargesNothing(Step(s, ops[0]), ops[1..], qer);
    }
  }

  // It does admit packets, though: exactly those without payload, as long as the bucket can be evaluated.
  lemma ZeroBurstAdmitsEmptyPackets(s: PipelineState, op: Op, qer: Qer)
    requires Serves(s, qer) && Bucketed(qer, BucketOf(s, qer)) && qer.burstBytes == 0
    requires op.PacketOp? && Asks(s, op, qer.id)
    ensures DecisionOn(s, op.packet, op.runId, op.scenarioId).qer.allowed <==>
            op.packet.payloadBytes == 0 && Evaluable(qer, BucketOf(s, qer), op.packet.arrivalTimeMicros)
  {
    ServedBucket(s, qer);
    PlansExplainThemselves(s, op.packet);
    DecisionCarriesPlan(s, op.packet, op.runId, op.scenarioId);
  }
}
