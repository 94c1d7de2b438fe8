/** The token bucket: checked 64-bit arithmetic against an unbounded-integer bucket. */
module QerEngine {
  import opened Types
  import opened Rules
  import opened Decision

  datatype QerEvaluation = QerEvaluation(decision: QerDecision, next: TokenBucketState, failure: TerminalResult)

  const BIT_MICROS_PER_BYTE := 8000000

  // ----- The bucket over unbounded integers

  /** The bit-microseconds a bucket has earned by `now`, the carried remainder included. */
  function Earned(qer: Qer, s: TokenBucketState, now: uint64): nat
    requires s.lastRefillMicros <= now
  {
    ProductIsNat(now - s.lastRefillMicros, qer.rateBitsPerSecond);
    (now - s.lastRefillMicros) * qer.rateBitsPerSecond + s.remainderBitMicros
  }

  /** Filling stops at the burst size, but tokens already above it are kept. */
  function Filled(tokens: nat, burst: nat, refill: nat): (r: nat)
    ensures tokens <= r <= Max(tokens, burst)
    ensures r <= tokens + refill
  {
    Max(tokens, Min(burst, tokens + refill))
  }

  function Refilled(qer: Qer, s: TokenBucketState, now: uint64): TokenBucketState
    requires s.lastRefillMicros <= now
  {
    var earned := Earned(qer, s, now);
    TokenBucketState(
      Filled(s.tokensBytes, qer.burstBytes, earned / BIT_MICROS_PER_BYTE), now, earned % BIT_MICROS_PER_BYTE)
  }

  datatype Verdict = Denied(reason: TerminalResult) | Limited(next: TokenBucketState) | Charged(next: TokenBucketState)

  function Admit(qer: Qer, s: TokenBucketState, bytes: uint64, now: uint64): Verdict {
    if qer.gate == Closed then Denied(GateClosed)
    else if now < s.lastRefillMicros || Earned(qer, s, now) > U64_MAX then Denied(ArithmeticError)
    else
      var filled := Refilled(qer, s, now);
      if bytes > filled.tokensBytes then Limited(filled)
      else Charged(filled.(tokensBytes := filled.tokensBytes - bytes))
  }

  /** The state a verdict leaves behind once it is committed. */
  function Settled(s: TokenBucketState, v: Verdict): TokenBucketState {
    if v.Denied? then s else v.next
  }

  // ----- The evaluator

  function QerExplanation(qer: Qer, s: TokenBucketState, bytes: uint64, now: uint64): QerDecision {
    var v := Admit(qer, s, bytes, now);
    QerDecision(
      true, qer.id, qer.gate, s.tokensBytes,
      if v.Denied? then 0 else Earned(qer, s, now) / BIT_MICROS_PER_BYTE,
      bytes, Settled(s, v).tokensBytes, v.Charged?,
      match v
      case Denied(reason) => if reason == GateClosed then OutcomeGateClosed else OutcomeArithmeticError
      case Limited(_) => OutcomeRateLimited
      case Charged(_) => OutcomeAllow)
  }

  function QerResult(qer: Qer, s: TokenBucketState, bytes: uint64, now: uint64): QerEvaluation {
    var v := Admit(qer, s, bytes, now);
    QerEvaluation(QerExplanation(qer, s, bytes, now), Settled(s, v), if v.Denied? then v.reason else RateLimited)
  }

  // Every sum, product and difference of the source fits its 64-bit type whenever it is used, and an overflow is
  // reported exactly when the unbounded amount does not fit.
  method EvaluateQer(qer: Qer, current: TokenBucketState, packetBytes: uint64, nowMicros: uint64)
    returns (result: QerEvaluation)
    ensures result == QerResult(qer, current, packetBytes, nowMicros)
  {
    var decision := NO_QER.(applicable := true, qerId := qer.id, gate := qer.gate,
      tokensBefore := current.tokensBytes, packetChargeBytes := packetBytes, tokensAfter := current.tokensBytes);
    var next := current;
    if qer.gate == Closed {
      return QerEvaluation(decision.(outcome := OutcomeGateClosed), next, GateClosed);
    }
    if nowMicros < current.lastRefillMicros {
      return QerEvaluation(decision.(outcome := OutcomeArithmeticError), next, ArithmeticError);
    }
    var elapsed: uint64 := nowMicros - current.lastRefillMicros;
    var ok, product := CheckedMultiply(elapsed, qer.rateBitsPerSecond, 0);
    var numerator: uint64 := 0;
    if ok {
      ok, numerator := CheckedAdd(product, current.remainderBitMicros, numerator);
    }
    if !ok {
      return QerEvaluation(decision.(outcome := OutcomeArithmeticError), next, ArithmeticError);
    }
    decision := decision.(refillBytes := numerator / 8000000);
    next := next.(remainderBitMicros := numerator % 8000000);
    next := next.(lastRefillMicros := nowMicros);
    var room: uint64 := if qer.burstBytes > current.tokensBytes then qer.burstBytes - current.tokensBytes else 0;
    var added: uint64 := if decision.refillBytes < room then decision.refillBytes else room;
    next := next.(tokensBytes := current.tokensBytes + added);
    if packetBytes > next.tokensBytes {
      decision := decision.(tokensAfter := next.tokensBytes, outcome := OutcomeRateLimited);
      return QerEvaluation(decision, next, RateLimited);
    }
    next := next.(tokensBytes := next.tokensBytes - packetBytes);
    decision := decision.(tokensAfter := next.tokensBytes, allowed := true, outcome := OutcomeAllow);
    return QerEvaluation(decision, next, RateLimited);
  }

  // ----- Splitting a refill changes nothing

  // Dividing in two steps and carrying the remainder is dividing the sum.
  lemma RemainderCarries(n: nat, m: nat)
    ensures (n % BIT_MICROS_PER_BYTE + m) % BIT_MICROS_PER_BYTE == (n + m) % BIT_MICROS_PER_BYTE
    ensures n / BIT_MICROS_PER_BYTE + (n % BIT_MICROS_PER_BYTE + m) / BIT_MICROS_PER_BYTE ==
            (n + m) / BIT_MICROS_PER_BYTE
  {
  }

  lemma FilledTwice(tokens: nat, burst: nat, first: nat, second: nat)
    ensures Filled(Filled(tokens, burst, first), burst, second) == Filled(tokens, burst, first + second)
  {
  }

  /** The bit-microseconds the rate earns over some time. */
  function Earnings(qer: Qer, elapsed: nat): nat {
    ProductIsNat(elapsed, qer.rateBitsPerSecond);
    elapsed * qer.rateBitsPerSecond
  }

  lemma EarnedSplits(qer: Qer, s: TokenBucketState, t1: uint64, t2: uint64)
    requires s.lastRefillMicros <= t1 <= t2
    ensures Earned(qer, s, t2) == Earned(qer, s, t1) + Earnings(qer, t2 - t1)
  {
    ProductDistributes(t1 - s.lastRefillMicros, t2 - t1, qer.rateBitsPerSecond);
  }

  lemma EarnedAfterRefill(qer: Qer, s: TokenBucketState, t1: uint64, t2: uint64)
    requires s.lastRefillMicros <= t1 <= t2
    ensures Earned(qer, Refilled(qer, s, t1), t2) ==
            Earned(qer, s, t1) % BIT_MICROS_PER_BYTE + Earnings(qer, t2 - t1)
    ensures Earned(qer, Refilled(qer, s, t1), t2) <= Earned(qer, s, t2)
  {
    EarnedSplits(qer, s, t1, t2);
  }

  // Refilling at t1 and again at t2 is refilling once at t2, remainder included.
  lemma RefilledTwice(qer: Qer, s: TokenBucketState, t1: uint64, t2: uint64)
    requires s.lastRefillMicros <= t1 <= t2
    ensures Refilled(qer, Refilled(qer, s, t1), t2) == Refilled(qer, s, t2)
  {
    EarnedSplits(qer, s, t1, t2);
    EarnedAfterRefill(qer, s, t1, t2);
    var n, m := Earned(qer, s, t1), Earnings(qer, t2 - t1);
    RemainderCarries(n, m);
    FilledTwice(s.tokensBytes, qer.burstBytes, n / BIT_MICROS_PER_BYTE,
      (n % BIT_MICROS_PER_BYTE + m) / BIT_MICROS_PER_BYTE);
  }

  datatype Attempt = Attempt(bytes: uint64, time: uint64)

  /** The bucket after a series of evaluations, each committed as the pipeline commits it. */
  function AfterAttempts(qer: Qer, s: TokenBucketState, attempts: seq<Attempt>): TokenBucketState
    decreases |attempts|
  {
    if attempts == [] then s
    else AfterAttempts(qer, Settled(s, Admit(qer, s, attempts[0].bytes, attempts[0].time)), attempts[1..])
  }

  predicate NothingCharged(qer: Qer, s: TokenBucketState, attempts: seq<Attempt>)
    decreases |attempts|
  {
    attempts != [] ==>
      var v := Admit(qer, s, attempts[0].bytes, attempts[0].time);
      !v.Charged? && NothingCharged(qer, Settled(s, v), attempts[1..])
  }

  // Rejected packets are invisible: however many of them were evaluated before `now`, and whatever they asked
  // for, a packet at `now` meets the same verdict and leaves the same bucket as if they had never arrived.
  lemma {:induction false} RejectedAttemptsInvisible(
      qer: Qer, s: TokenBucketState, attempts: seq<Attempt>, bytes: uint64, now: uint64)
    requires qer.gate == Open && s.lastRefillMicros <= now && Earned(qer, s, now) <= U64_MAX
    requires forall i | 0 <= i < |attempts| :: attempts[i].time <= now
    requires NothingCharged(qer, s, attempts)
    ensures Admit(qer, AfterAttempts(qer, s, attempts), bytes, now) == Admit(qer, s, bytes, now)
    ensures !Admit(qer, s, bytes, now).Denied?
    decreases |attempts|
  {
    if attempts != [] {
      var first := attempts[0];
      var v := Admit(qer, s, first.bytes, first.time);
      var s' := Settled(s, v);
      if v.Limited? {
        EarnedAfterRefill(qer, s, first.time, now);
        RefilledTwice(qer, s, first.time, now);
      }
      RejectedAttemptsInvisible(qer, s', attempts[1..], bytes, now);
    }
  }

  // ----- Rate conformance

  /** Between two bucket states: time advanced, the remainder telescoped, and `charged` bytes plus the tokens left
      are covered by the tokens at the start and the bytes earned meanwhile. */
  predicate Conforms(qer: Qer, from: TokenBucketState, to: TokenBucketState, charged: nat) {
    && from.lastRefillMicros <= to.lastRefillMicros
    && var earned := Earned(qer, from, to.lastRefillMicros);
       && to.remainderBitMicros == earned % BIT_MICROS_PER_BYTE
       && charged + to.tokensBytes <= from.tokensBytes + earned / BIT_MICROS_PER_BYTE
  }

  function ChargeOf(v: Verdict, bytes: uint64): nat {
    if v.Charged? then bytes else 0
  }

  lemma ConformsInitially(qer: Qer, s: TokenBucketState)
    requires s.remainderBitMicros < BIT_MICROS_PER_BYTE
    ensures Conforms(qer, s, s, 0)
  {
  }

  // One evaluation extends a conforming history, whatever its verdict.
  lemma ConformsStep(qer: Qer, from: TokenBucketState, s: TokenBucketState, charged: nat, bytes: uint64, now: uint64)
    requires Conforms(qer, from, s, charged)
    ensures var v := Admit(qer, s, bytes, now);
            Conforms(qer, from, Settled(s, v), charged + ChargeOf(v, bytes))
  {
    if !Admit(qer, s, bytes, now).Denied? {
      EarnedSplits(qer, from, s.lastRefillMicros, now);
      RemainderCarries(Earned(qer, from, s.lastRefillMicros), Earnings(qer, now - s.lastRefillMicros));
      assert Earned(qer, s, now) == s.remainderBitMicros + Earnings(qer, now - s.lastRefillMicros);
    }
  }

  // The bucket keeps its invariant, and time and tokens never go back except for what is charged.
  lemma AdmitKeepsBucket(qer: Qer, s: TokenBucketState, bytes: uint64, now: uint64)
    ensures var v := Admit(qer, s, bytes, now);
            var s' := Settled(s, v);
            && (s.remainderBitMicros < BIT_MICROS_PER_BYTE ==> s'.remainderBitMicros < BIT_MICROS_PER_BYTE)
            && s.lastRefillMicros <= s'.lastRefillMicros
            && s.tokensBytes <= s'.tokensBytes + ChargeOf(v, bytes) <= Max(s.tokensBytes, qer.burstBytes)
            && (v.Limited? ==> s.tokensBytes <= s'.tokensBytes < bytes)
  {
  }

  // ----- Exactly the conforming traffic passes

  /** Whole bytes earned since the state `s`, at a refill at time `t`; none before its last refill. */
  function EarnedBytes(qer: Qer, s: TokenBucketState, t: uint64): nat {
    if t < s.lastRefillMicros then 0 else Earned(qer, s, t) / BIT_MICROS_PER_BYTE
  }

  /** The bytes asked for by the attempts from `i` up to and including `j`. */
  function Asked(attempts: seq<Attempt>, i: nat, j: nat): nat
    requires i <= j + 1 <= |attempts|
    decreases j + 1 - i
  {
    if i == j + 1 then 0 else attempts[i].bytes + Asked(attempts, i + 1, j)
  }

  predicate AllCharged(qer: Qer, s: TokenBucketState, attempts: seq<Attempt>)
    decreases |attempts|
  {
    attempts != [] ==>
      var v := Admit(qer, s, attempts[0].bytes, attempts[0].time);
      v.Charged? && AllCharged(qer, v.next, attempts[1..])
  }

  /** Time does not go back. */
  predicate InOrder(s: TokenBucketState, attempts: seq<Attempt>) {
    && (forall i | 0 <= i < |attempts| :: s.lastRefillMicros <= attempts[i].time)
    && (forall i, j | 0 <= i < j < |attempts| :: attempts[i].time <= attempts[j].time)
  }

  /** What is earned from one attempt to the next, on top of the remainder the one leaves, fits 64 bits. */
  predicate StepFits(qer: Qer, s: TokenBucketState, attempts: seq<Attempt>, i: nat)
    requires InOrder(s, attempts) && i < |attempts|
  {
    var before := if i == 0 then 0 else BIT_MICROS_PER_BYTE * EarnedBytes(qer, s, attempts[i - 1].time);
    Earned(qer, s, attempts[i].time) - before <= U64_MAX
  }

  ghost predicate StepsFit(qer: Qer, s: TokenBucketState, attempts: seq<Attempt>)
    requires InOrder(s, attempts)
  {
    forall i | 0 <= i < |attempts| :: StepFits(qer, s, attempts, i)
  }

  /** What is asked up to `j` is covered by the tokens at hand and what was earned since. */
  predicate Covered(qer: Qer, s: TokenBucketState, attempts: seq<Attempt>, j: nat)
    requires j < |attempts|
  {
    Asked(attempts, 0, j) <= s.tokensBytes + EarnedBytes(qer, s, attempts[j].time)
  }

  /** What is asked from `i` to `j` is at most one burst and what is earned between the two. */
  predicate WindowFits(qer: Qer, s: TokenBucketState, attempts: seq<Attempt>, i: nat, j: nat)
    requires i <= j < |attempts|
  {
    Asked(attempts, i, j) + EarnedBytes(qer, s, attempts[i].time) <=
    qer.burstBytes + EarnedBytes(qer, s, attempts[j].time)
  }

  ghost predicate Fits(qer: Qer, s: TokenBucketState, attempts: seq<Attempt>) {
    && (forall j | 0 <= j < |attempts| :: Covered(qer, s, attempts, j))
    && (forall i, j | 0 <= i <= j < |attempts| :: WindowFits(qer, s, attempts, i, j))
  }

  lemma {:induction false} AskedShifts(attempts: seq<Attempt>, i: nat, j: nat)
    requires i <= j + 1 < |attempts|
    ensures Asked(attempts, i + 1, j + 1) == Asked(attempts[1..], i, j)
    decreases j + 1 - i
  {
    if i <= j {
      AskedShifts(attempts, i + 1, j);
    }
  }

  // A longer window asks at least as much.
  lemma {:induction false} AskedGrows(attempts: seq<Attempt>, i: nat, j: nat)
    requires i <= j < |attempts|
    ensures Asked(attempts, i, j) <= Asked(attempts, 0, j)
    decreases i
  {
    if i > 0 {
      AskedGrows(attempts, i - 1, j);
    }
  }

  lemma EarnedBytesGrow(qer: Qer, s: TokenBucketState, t1: uint64, t2: uint64)
    requires t1 <= t2
    ensures EarnedBytes(qer, s, t1) <= EarnedBytes(qer, s, t2)
  {
    if s.lastRefillMicros <= t1 {
      EarnedSplits(qer, s, t1, t2);
    }
  }

  /** The bucket after the first attempt was charged. */
  function AfterFirst(qer: Qer, s: TokenBucketState, first: Attempt): TokenBucketState {
    Settled(s, Admit(qer, s, first.bytes, first.time))
  }

  // What is earned after the first attempt is what is earned altogether without the bytes earned up to it.
  lemma EarnedAfterFirst(qer: Qer, s: TokenBucketState, first: Attempt, t: uint64)
    requires Admit(qer, s, first.bytes, first.time).Charged? && first.time <= t
    ensures Earned(qer, AfterFirst(qer, s, first), t) ==
            Earned(qer, s, t) - BIT_MICROS_PER_BYTE * EarnedBytes(qer, s, first.time)
    ensures EarnedBytes(qer, AfterFirst(qer, s, first), t) ==
            EarnedBytes(qer, s, t) - EarnedBytes(qer, s, first.time)
  {
    EarnedAfterRefill(qer, s, first.time, t);
    EarnedSplits(qer, s, first.time, t);
    RemainderCarries(Earned(qer, s, first.time), Earnings(qer, t - first.time));
    assert Earned(qer, AfterFirst(qer, s, first), t) == Earned(qer, Refilled(qer, s, first.time), t);
  }

  lemma EarnedBytesAfterFirst(qer: Qer, s: TokenBucketState, first: Attempt, t: uint64)
    requires Admit(qer, s, first.bytes, first.time).Charged?
    ensures EarnedBytes(qer, AfterFirst(qer, s, first), t) ==
            Max(0, EarnedBytes(qer, s, t) - EarnedBytes(qer, s, first.time))
  {
    if first.time <= t {
      EarnedAfterFirst(qer, s, first, t);
    } else {
      EarnedBytesGrow(qer, s, t, first.time);
    }
  }

  // ----- One attempt fewer

  lemma CoverAfterFirst(qer: Qer, s: TokenBucketState, attempts: seq<Attempt>, j: nat)
    requires j + 1 < |attempts| && s.tokensBytes <= qer.burstBytes
    requires Admit(qer, s, attempts[0].bytes, attempts[0].time).Charged?
    ensures Covered(qer, s, attempts, j + 1) && WindowFits(qer, s, attempts, 0, j + 1) ==>
              Covered(qer, AfterFirst(qer, s, attempts[0]), attempts[1..], j)
    ensures attempts[0].time <= attempts[j + 1].time && Covered(qer, AfterFirst(qer, s, attempts[0]), attempts[1..], j)
            ==> Covered(qer, s, attempts, j + 1) && WindowFits(qer, s, attempts, 0, j + 1)
  {
    AskedShifts(attempts, 0, j);
    EarnedBytesAfterFirst(qer, s, attempts[0], attempts[j + 1].time);
    if attempts[0].time <= attempts[j + 1].time {
      EarnedBytesGrow(qer, s, attempts[0].time, attempts[j + 1].time);
    }
  }

  lemma WindowAfterFirst(qer: Qer, s: TokenBucketState, attempts: seq<Attempt>, i: nat, j: nat)
    requires i <= j && j + 1 < |attempts|
    requires Admit(qer, s, attempts[0].bytes, attempts[0].time).Charged?
    ensures WindowFits(qer, s, attempts, i + 1, j + 1) && WindowFits(qer, s, attempts, 0, j + 1) ==>
              WindowFits(qer, AfterFirst(qer, s, attempts[0]), attempts[1..], i, j)
    ensures attempts[0].time <= attempts[i + 1].time && attempts[0].time <= attempts[j + 1].time
            && WindowFits(qer, AfterFirst(qer, s, attempts[0]), attempts[1..], i, j)
            ==> WindowFits(qer, s, attempts, i + 1, j + 1)
  {
    AskedShifts(attempts, i, j);
    AskedGrows(attempts, i + 1, j + 1);
    EarnedBytesAfterFirst(qer, s, attempts[0], attempts[i + 1].time);
    EarnedBytesAfterFirst(qer, s, attempts[0], attempts[j + 1].time);
    if attempts[0].time <= attempts[i + 1].time && attempts[0].time <= attempts[j + 1].time {
      EarnedBytesGrow(qer, s, attempts[0].time, attempts[i + 1].time);
      EarnedBytesGrow(qer, s, attempts[0].time, attempts[j + 1].time);
    }
  }

  // What fits before a charge fits after it, in whatever order the attempts are.
  lemma FitsAfterFirst(qer: Qer, s: TokenBucketState, attempts: seq<Attempt>)
    requires attempts != [] && s.tokensBytes <= qer.burstBytes && Fits(qer, s, attempts)
    requires Admit(qer, s, attempts[0].bytes, attempts[0].time).Charged?
    ensures Fits(qer, AfterFirst(qer, s, attempts[0]), attempts[1..])
  {
    var rest, s1 := attempts[1..], AfterFirst(qer, s, attempts[0]);
    forall j | 0 <= j < |rest|
      ensures Covered(qer, s1, rest, j)
    {
      CoverAfterFirst(qer, s, attempts, j);
    }
    forall i, j | 0 <= i <= j < |rest|
      ensures WindowFits(qer, s1, rest, i, j)
    {
      WindowAfterFirst(qer, s, attempts, i, j);
    }
  }

  // The converse needs the rest to be no earlier than the first attempt.
  lemma FitsBeforeFirst(qer: Qer, s: TokenBucketState, attempts: seq<Attempt>)
    requires attempts != [] && s.tokensBytes <= qer.burstBytes
    requires Admit(qer, s, attempts[0].bytes, attempts[0].time).Charged?
    requires forall i | 0 <= i < |attempts| :: attempts[0].time <= attempts[i].time
    requires Fits(qer, AfterFirst(qer, s, attempts[0]), attempts[1..])
    ensures Fits(qer, s, attempts)
  {
    FirstChargedIff(qer, s, attempts);
    forall j | 0 <= j < |attempts|
      ensures Covered(qer, s, attempts, j) && WindowFits(qer, s, attempts, 0, j)
    {
      if j > 0 {
        CoverAfterFirst(qer, s, attempts, j - 1);
      }
    }
    forall i, j | 0 <= i <= j < |attempts|
      ensures WindowFits(qer, s, attempts, i, j)
    {
      if i > 0 {
        WindowAfterFirst(qer, s, attempts, i - 1, j - 1);
      }
    }
  }

  // Leaving out the first attempt, when it was not charged, keeps the rest within bounds.
  lemma FitsWithoutFirst(qer: Qer, s: TokenBucketState, attempts: seq<Attempt>)
    requires attempts != [] && Fits(qer, s, attempts)
    ensures Fits(qer, s, attempts[1..])
  {
    var rest := attempts[1..];
    forall j | 0 <= j < |rest|
      ensures Covered(qer, s, rest, j)
    {
      assert Covered(qer, s, attempts, j + 1);
      AskedShifts(attempts, 0, j);
      AskedGrows(attempts, 1, j + 1);
    }
    forall i, j | 0 <= i <= j < |rest|
      ensures WindowFits(qer, s, rest, i, j)
    {
      assert WindowFits(qer, s, attempts, i + 1, j + 1);
      AskedShifts(attempts, i, j);
    }
  }

  // An attempt that is not denied is charged just when it fits by itself.
  lemma FirstChargedIff(qer: Qer, s: TokenBucketState, attempts: seq<Attempt>)
    requires attempts != [] && s.tokensBytes <= qer.burstBytes
    ensures var v := Admit(qer, s, attempts[0].bytes, attempts[0].time);
            !v.Denied? ==> (v.Charged? <==> Covered(qer, s, attempts, 0) && WindowFits(qer, s, attempts, 0, 0))
  {
    assert Asked(attempts, 1, 0) == 0;
    assert Asked(attempts, 0, 0) == attempts[0].bytes;
  }

  lemma OrderAfterFirst(qer: Qer, s: TokenBucketState, attempts: seq<Attempt>)
    requires attempts != [] && Admit(qer, s, attempts[0].bytes, attempts[0].time).Charged?
    ensures InOrder(s, attempts) <==> InOrder(AfterFirst(qer, s, attempts[0]), attempts[1..])
  {
    var rest, s1 := attempts[1..], AfterFirst(qer, s, attempts[0]);
    if InOrder(s1, rest) {
      forall i | 0 <= i < |attempts|
        ensures attempts[0].time <= attempts[i].time
      {
        assert i > 0 ==> attempts[i] == rest[i - 1];
      }
      forall i, j | 0 <= i < j < |attempts|
        ensures attempts[i].time <= attempts[j].time
      {
        assert i > 0 ==> attempts[i] == rest[i - 1] && attempts[j] == rest[j - 1];
      }
    }
  }

  lemma StepAfterFirst(qer: Qer, s: TokenBucketState, attempts: seq<Attempt>, i: nat)
    requires InOrder(s, attempts) && i + 1 < |attempts|
    requires Admit(qer, s, attempts[0].bytes, attempts[0].time).Charged?
    requires InOrder(AfterFirst(qer, s, attempts[0]), attempts[1..])
    ensures StepFits(qer, AfterFirst(qer, s, attempts[0]), attempts[1..], i) <==> StepFits(qer, s, attempts, i + 1)
  {
    EarnedAfterFirst(qer, s, attempts[0], attempts[i + 1].time);
    if i > 0 {
      EarnedAfterFirst(qer, s, attempts[0], attempts[i].time);
    }
  }

  lemma StepsAfterFirst(qer: Qer, s: TokenBucketState, attempts: seq<Attempt>)
    requires attempts != [] && InOrder(s, attempts)
    requires Admit(qer, s, attempts[0].bytes, attempts[0].time).Charged?
    requires InOrder(AfterFirst(qer, s, attempts[0]), attempts[1..])
    ensures StepsFit(qer, s, attempts) <==> StepsFit(qer, AfterFirst(qer, s, attempts[0]), attempts[1..])
  {
    var rest, s1 := attempts[1..], AfterFirst(qer, s, attempts[0]);
    forall i | 0 <= i < |rest|
      ensures StepFits(qer, s1, rest, i) <==> StepFits(qer, s, attempts, i + 1)
    {
      StepAfterFirst(qer, s, attempts, i);
    }
    if StepsFit(qer, s1, rest) {
      forall i | 0 <= i < |attempts|
        ensures StepFits(qer, s, attempts, i)
      {
        assert i > 0 ==> StepFits(qer, s1, rest, i - 1);
      }
    }
  }

  /** The gate is open, time does not go back, no step overflows, and the traffic fits. */
  ghost predicate Conforming(qer: Qer, s: TokenBucketState, attempts: seq<Attempt>) {
    attempts != [] ==> qer.gate == Open && InOrder(s, attempts) && StepsFit(qer, s, attempts) && Fits(qer, s, attempts)
  }

  lemma ConformingAfterFirst(qer: Qer, s: TokenBucketState, attempts: seq<Attempt>)
    requires attempts != [] && s.tokensBytes <= qer.burstBytes
    requires Admit(qer, s, attempts[0].bytes, attempts[0].time).Charged?
    ensures Conforming(qer, s, attempts) <==> Conforming(qer, AfterFirst(qer, s, attempts[0]), attempts[1..])
  {
    var rest, s1 := attempts[1..], AfterFirst(qer, s, attempts[0]);
    OrderAfterFirst(qer, s, attempts);
    if Conforming(qer, s, attempts) {
      StepsAfterFirst(qer, s, attempts);
      FitsAfterFirst(qer, s, attempts);
    }
    if Conforming(qer, s1, rest) {
      assert InOrder(s1, rest) && StepsFit(qer, s1, rest) && Fits(qer, s1, rest);
      StepsAfterFirst(qer, s, attempts);
      FitsBeforeFirst(qer, s, attempts);
    }
  }

  // Exactly the conforming traffic passes: of any series of attempts, from any bucket within its burst and over any
  // length of time, every one is charged just when the gate is open, time does not go back, what is earned from one
  // attempt to the next fits 64 bits, what is asked is covered by the tokens at the start and the bytes earned since,
  // and over every window by one burst and the bytes earned in it.
  lemma {:induction false} AllChargedIffConforming(qer: Qer, s: TokenBucketState, attempts: seq<Attempt>)
    requires s.tokensBytes <= qer.burstBytes
    ensures AllCharged(qer, s, attempts) <==> Conforming(qer, s, attempts)
    decreases |attempts|
  {
    if attempts != [] {
      FirstChargedIff(qer, s, attempts);
      if Admit(qer, s, attempts[0].bytes, attempts[0].time).Charged? {
        ConformingAfterFirst(qer, s, attempts);
        AllChargedIffConforming(qer, AfterFirst(qer, s, attempts[0]), attempts[1..]);
      } else if qer.gate == Open && InOrder(s, attempts) {
        assert StepsFit(qer, s, attempts) ==> StepFits(qer, s, attempts, 0);
      }
    }
  }

  // From a full bucket only the windows matter.
  lemma FullBucketPassesIffWindowsFit(qer: Qer, s: TokenBucketState, attempts: seq<Attempt>)
    requires s.tokensBytes == qer.burstBytes
    ensures AllCharged(qer, s, attempts) <==>
            attempts != [] ==>
              && qer.gate == Open && InOrder(s, attempts) && StepsFit(qer, s, attempts)
              && forall i, j | 0 <= i <= j < |attempts| :: WindowFits(qer, s, attempts, i, j)
  {
    AllChargedIffConforming(qer, s, attempts);
    if forall i, j | 0 <= i <= j < |attempts| :: WindowFits(qer, s, attempts, i, j) {
      forall j | 0 <= j < |attempts|
        ensures Covered(qer, s, attempts, j)
      {
        assert WindowFits(qer, s, attempts, 0, j);
      }
    }
  }
}
