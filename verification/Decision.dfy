/** The outcome of one packet and its explanation, and the per-rule runtime state. */
module Decision {
  import opened Types
  import opened Rules
  import Matcher

  datatype TerminalResult =
    | ForwardedToN3
    | ForwardedToN6
    | FarDropped
    | NoMatch
    | MalformedPacket
    | GateClosed
    | RateLimited
    | ArithmeticError
    | CapacityError

  /** The results after which the packet's effects have been committed. */
  predicate Committed(result: TerminalResult) {
    result == ForwardedToN3 || result == ForwardedToN6 || result == FarDropped
  }

  datatype QerOutcome =
    | Unset
    | OutcomeNotApplicable
    | OutcomeGateClosed
    | OutcomeArithmeticError
    | OutcomeRateLimited
    | OutcomeAllow

  datatype QerDecision = QerDecision(
    applicable: bool,
    qerId: uint32,
    gate: GateStatus,
    tokensBefore: uint64,
    refillBytes: uint64,
    packetChargeBytes: uint64,
    tokensAfter: uint64,
    allowed: bool,
    outcome: QerOutcome)

  datatype FarDecision = FarDecision(
    applicable: bool,
    farId: uint32,
    action: FarAction,
    destination: Interface,
    before: Option<TunnelMetadata>,
    after: Option<TunnelMetadata>)

  datatype UrrDecision = UrrDecision(
    applicable: bool,
    urrId: uint32,
    counted: bool,
    packetsBefore: uint64,
    packetsAfter: uint64,
    bytesBefore: uint64,
    bytesAfter: uint64,
    thresholdReached: bool,
    reportId: string)

  const NO_QER := QerDecision(false, 0, Open, 0, 0, 0, 0, false, Unset)
  const NO_FAR := FarDecision(false, 0, Drop, N6, None, None)
  const NO_URR := UrrDecision(false, 0, false, 0, 0, 0, 0, false, "")

  /** A presence flag and the value it guards are one option here. */
  datatype PacketDecision = PacketDecision(
    runId: string,
    scenarioId: string,
    packetId: string,
    sessionId: string,
    arrivalTimeMicros: uint64,
    ingress: Interface,
    rulesetVersion: uint64,
    candidates: seq<Matcher.MatchCandidate>,
    selectedPdrId: uint32,
    qer: QerDecision,
    far: FarDecision,
    urr: UrrDecision,
    terminalResult: TerminalResult,
    sink: Option<Interface>,
    transformed: Option<Packet>,
    observabilityDegraded: bool)

  datatype TokenBucketState = TokenBucketState(
    tokensBytes: uint64,
    lastRefillMicros: uint64,
    remainderBitMicros: uint64)

  datatype UsageCounterState = UsageCounterState(packets: uint64, payloadBytes: uint64, reportEmitted: bool)

  const EMPTY_BUCKET := TokenBucketState(0, 0, 0)
  const EMPTY_COUNTER := UsageCounterState(0, 0, false)
}
