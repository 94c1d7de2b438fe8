/** Ruleset validation: the invariant that selection and forwarding rest on. */
module Validation {
  import opened Types
  import opened Address
  import opened Rules
  import opened Matcher

  // ----- Overlap of match spaces

  predicate RangesOverlap(a: Option<PortRange>, b: Option<PortRange>) {
    a.None? || b.None? || (a.value.first <= b.value.last && b.value.first <= a.value.last)
  }

  predicate OptionalValuesOverlap<T(==)>(a: Option<T>, b: Option<T>) {
    a.None? || b.None? || a.value == b.value
  }

  predicate MatchSpacesOverlap(a: Pdr, b: Pdr) {
    && a.sourceInterface == b.sourceInterface
    && OptionalValuesOverlap(a.teid, b.teid)
    && (Contains(a.uePrefix, b.uePrefix.network) || Contains(b.uePrefix, a.uePrefix.network))
    && OptionalValuesOverlap(a.protocol, b.protocol)
    && RangesOverlap(a.localPorts, b.localPorts)
    && RangesOverlap(a.remotePorts, b.remotePorts)
    && OptionalValuesOverlap(a.qfi, b.qfi)
  }

  predicate ValidPorts(pdr: Pdr) {
    && (pdr.localPorts.Some? ==> pdr.localPorts.value.Valid())
    && (pdr.remotePorts.Some? ==> pdr.remotePorts.value.Valid())
  }

  function EitherOr<T>(a: Option<T>, b: Option<T>, default: T): T {
    if a.Some? then a.value else if b.Some? then b.value else default
  }

  /** The least port two overlapping valid ranges share. */
  function SharedPort(a: Option<PortRange>, b: Option<PortRange>): uint16 {
    Max(if a.Some? then a.value.first else 0, if b.Some? then b.value.first else 0)
  }

  /** The network of the longer prefix lies in both prefixes whenever they overlap. */
  function SharedAddress(a: IpPrefix, b: IpPrefix): IpAddress {
    if Contains(a, b.network) then b.network else a.network
  }

  /** A packet in both match spaces when they overlap; its tunnel is present exactly when `tunneled`. */
  function SharedPacket(a: Pdr, b: Pdr, tunneled: bool): Packet {
    var ue := SharedAddress(a.uePrefix, b.uePrefix);
    var local := SharedPort(a.localPorts, b.localPorts);
    var remote := SharedPort(a.remotePorts, b.remotePorts);
    var uplink := a.sourceInterface == N3;
    Packet(
      "p", "s", a.sourceInterface,
      if tunneled then Some(TunnelMetadata(EitherOr(a.teid, b.teid, 1), EitherOr(a.qfi, b.qfi, 1))) else None,
      ue, ue,
      EitherOr(a.protocol, b.protocol, Tcp),
      if uplink then local else remote,
      if uplink then remote else local,
      0, 0)
  }

  lemma OverlapHasPacket(a: Pdr, b: Pdr, tunneled: bool)
    requires ValidPorts(a) && ValidPorts(b) && MatchSpacesOverlap(a, b)
    requires tunneled || (a.teid.None? && b.teid.None? && a.qfi.None? && b.qfi.None?)
    ensures Matches(a, SharedPacket(a, b, tunneled)) && Matches(b, SharedPacket(a, b, tunneled))
  {
    ContainsOwnNetwork(a.uePrefix);
    ContainsOwnNetwork(b.uePrefix);
  }

  lemma SharedPacketOverlaps(a: Pdr, b: Pdr, packet: Packet)
    requires Matches(a, packet) && Matches(b, packet)
    ensures MatchSpacesOverlap(a, b)
  {
    SharedAddressNests(a.uePrefix, b.uePrefix, UeAddress(packet));
  }

  // The static overlap test is exact: it holds just when some packet matches both PDRs.
  lemma OverlapIffSharedPacket(a: Pdr, b: Pdr)
    requires ValidPorts(a) && ValidPorts(b)
    ensures MatchSpacesOverlap(a, b) <==> exists packet :: Matches(a, packet) && Matches(b, packet)
  {
    if MatchSpacesOverlap(a, b) {
      OverlapHasPacket(a, b, true);
    }
    if packet :| Matches(a, packet) && Matches(b, packet) {
      SharedPacketOverlaps(a, b, packet);
    }
  }

  lemma OverlapSymmetric(a: Pdr, b: Pdr)
    ensures MatchSpacesOverlap(a, b) <==> MatchSpacesOverlap(b, a)
  {
  }

  // ----- Overlap among the packets the pipeline admits to selection

  /** What the pipeline asks of a packet before it looks at any PDR. */
  predicate ValidPacket(packet: Packet) {
    && packet.packetId != ""
    && packet.sessionId != ""
    && packet.sourceIp.family == packet.destinationIp.family
    && (if packet.ingress == N3
        then packet.tunnel.Some? && packet.tunnel.value.Valid()
        else packet.tunnel.None?)
  }

  /** Some valid packet can meet the PDR's tunnel criteria. */
  predicate TunnelReachable(pdr: Pdr) {
    if pdr.sourceInterface == N3
    then (pdr.teid.Some? ==> pdr.teid.value != 0) && (pdr.qfi.Some? ==> 1 <= pdr.qfi.value <= 63)
    else pdr.teid.None? && pdr.qfi.None?
  }

  // Restricted to valid packets the test over-approximates: it is exact just when both PDRs are reachable.
  lemma OverlapAmongValidPackets(a: Pdr, b: Pdr)
    requires ValidPorts(a) && ValidPorts(b)
    ensures (exists packet :: ValidPacket(packet) && Matches(a, packet) && Matches(b, packet)) <==>
            MatchSpacesOverlap(a, b) && TunnelReachable(a) && TunnelReachable(b)
  {
    if MatchSpacesOverlap(a, b) && TunnelReachable(a) && TunnelReachable(b) {
      var packet := SharedPacket(a, b, a.sourceInterface == N3);
      OverlapHasPacket(a, b, a.sourceInterface == N3);
      assert ValidPacket(packet);
    }
    if packet :| ValidPacket(packet) && Matches(a, packet) && Matches(b, packet) {
      SharedPacketOverlaps(a, b, packet);
    }
  }

  // ----- The ruleset predicate

  predicate ConsistentFar(pdr: Pdr, far: Far) {
    if far.action == Forward then
      && far.destination.Some?
      && (pdr.sourceInterface == N3 ==> far.destination.value == N6 && far.operation == Remove)
      && (pdr.sourceInterface == N6 ==>
            far.destination.value == N3 && far.operation == Add && far.tunnel.Some? && far.tunnel.value.Valid())
    else
      far.destination.None? && far.operation == TunnelNone
  }

  /** The references, interface, ports and FAR of one PDR. */
  predicate AcceptedPdr(rules: RuleSet, pdr: Pdr) {
    var far := Find(rules.fars, FarKey, pdr.farId);
    && far.Some? && ConsistentFar(pdr, far.value)
    && (pdr.qerId.Some? ==> Find(rules.qers, QerKey, pdr.qerId.value).Some?)
    && (pdr.urrId.Some? ==> Find(rules.urrs, UrrKey, pdr.urrId.value).Some?)
    && (pdr.sourceInterface == N3 <==> pdr.teid.Some?)
    && ValidPorts(pdr)
  }

  predicate Conflict(p: Pdr, q: Pdr) {
    p.precedence == q.precedence && MatchSpacesOverlap(p, q)
  }

  predicate WithinCapacity(rules: RuleSet, limits: CapacityLimits) {
    && |rules.pdrs| <= limits.rulesPerType
    && |rules.fars| <= limits.rulesPerType
    && |rules.qers| <= limits.rulesPerType
    && |rules.urrs| <= limits.rulesPerType
  }

  ghost predicate UniqueRuleIds(rules: RuleSet) {
    && UniqueIds(rules.pdrs, PdrKey)
    && UniqueIds(rules.fars, FarKey)
    && UniqueIds(rules.qers, QerKey)
    && UniqueIds(rules.urrs, UrrKey)
  }

  /** The rulesets the engine may activate, stated without reference to the order of any list. */
  ghost predicate Accepted(rules: RuleSet, limits: CapacityLimits) {
    && rules.sessionId != ""
    && rules.version != 0
    && WithinCapacity(rules, limits)
    && UniqueRuleIds(rules)
    && (forall p | p in rules.pdrs :: AcceptedPdr(rules, p))
    && (forall p, q | p in rules.pdrs && q in rules.pdrs && p != q :: !Conflict(p, q))
  }

  // So a ruleset is rejected because of two PDRs of equal precedence that no valid packet reaches: here two downlink
  // PDRs that ask for a QFI. With either of them alone it is accepted.
  lemma UnreachableOverlap(limits: CapacityLimits) returns (rules: RuleSet, a: Pdr, b: Pdr)
    requires limits.rulesPerType >= 2
    ensures rules.pdrs == [a, b] && a.precedence == b.precedence && MatchSpacesOverlap(a, b)
    ensures forall packet :: ValidPacket(packet) ==> !Matches(a, packet) && !Matches(b, packet)
    ensures !Accepted(rules, limits)
    ensures Accepted(rules.(pdrs := [a]), limits) && Accepted(rules.(pdrs := [b]), limits)
  {
    var any: IpPrefix := IpPrefix(IpAddress(IPv4, ZERO_BYTES), 0);
    a := Pdr(1, 0, N6, None, any, None, None, None, Some(5), 1, None, None);
    b := a.(id := 2);
    rules := RuleSet("s", 1, [a, b], [Far(1, Drop, None, TunnelNone, None)], [], []);
    ContainsOwnNetwork(any);
    assert MatchSpacesOverlap(a, b);
    assert a in rules.pdrs && b in rules.pdrs && Conflict(a, b);
  }

  datatype RuleError =
    | InvalidSessionOrVersion
    | RuleCapacityExceeded
    | InvalidOrDuplicateId
    | MissingFar
    | MissingQer
    | MissingUrr
    | UplinkRequiresTeid
    | DownlinkForbidsTeid
    | InvalidLocalPorts
    | InvalidRemotePorts
    | ForwardDestinationMissing
    | InvalidUplinkFar
    | InvalidDownlinkFar
    | DropHasForwardingParameters
    | EqualPrecedenceOverlap

  datatype Validity = Valid | Invalid(error: RuleError)

  /** What each error says about the FAR of a PDR. */
  predicate FarDefect(error: RuleError, pdr: Pdr, far: Far) {
    match error
    case ForwardDestinationMissing => far.action == Forward && far.destination.None?
    case InvalidUplinkFar =>
      && far.action == Forward && pdr.sourceInterface == N3
      && (far.destination == Some(N3) || far.operation != Remove)
    case InvalidDownlinkFar =>
      && far.action == Forward && pdr.sourceInterface == N6
      && (far.destination == Some(N6) || far.operation != Add || far.tunnel.None? || !far.tunnel.value.Valid())
    case DropHasForwardingParameters =>
      far.action == Drop && (far.destination.Some? || far.operation != TunnelNone)
    case _ => false
  }

  /** What each error says about one PDR. */
  predicate PdrDefect(error: RuleError, rules: RuleSet, pdr: Pdr) {
    var far := Find(rules.fars, FarKey, pdr.farId);
    match error
    case MissingFar => far.None?
    case MissingQer => pdr.qerId.Some? && Find(rules.qers, QerKey, pdr.qerId.value).None?
    case MissingUrr => pdr.urrId.Some? && Find(rules.urrs, UrrKey, pdr.urrId.value).None?
    case UplinkRequiresTeid => pdr.sourceInterface == N3 && pdr.teid.None?
    case DownlinkForbidsTeid => pdr.sourceInterface == N6 && pdr.teid.Some?
    case InvalidLocalPorts => pdr.localPorts.Some? && !pdr.localPorts.value.Valid()
    case InvalidRemotePorts => pdr.remotePorts.Some? && !pdr.remotePorts.value.Valid()
    case _ => far.Some? && FarDefect(error, pdr, far.value)
  }

  /** What each error says about the ruleset. */
  ghost predicate Defect(error: RuleError, rules: RuleSet, limits: CapacityLimits) {
    match error
    case InvalidSessionOrVersion => rules.sessionId == "" || rules.version == 0
    case RuleCapacityExceeded => !WithinCapacity(rules, limits)
    case InvalidOrDuplicateId => !UniqueRuleIds(rules)
    case EqualPrecedenceOverlap => exists p, q :: p in rules.pdrs && q in rules.pdrs && p != q && Conflict(p, q)
    case _ => exists p :: p in rules.pdrs && PdrDefect(error, rules, p)
  }

  // ----- Which defect is reported

  /** The order in which the checks of one PDR are made; the last three exclude each other. */
  function Rank(error: RuleError): nat {
    match error
    case MissingFar => 1
    case MissingQer => 2
    case MissingUrr => 3
    case UplinkRequiresTeid => 4
    case DownlinkForbidsTeid => 5
    case InvalidLocalPorts => 6
    case InvalidRemotePorts => 7
    case ForwardDestinationMissing => 8
    case InvalidUplinkFar => 9
    case InvalidDownlinkFar => 9
    case DropHasForwardingParameters => 9
    case _ => 0
  }

  /** The PDR passes every check made before this one. */
  predicate Passes(rules: RuleSet, pdr: Pdr, rank: nat) {
    && (rank > 1 ==> !PdrDefect(MissingFar, rules, pdr))
    && (rank > 2 ==> !PdrDefect(MissingQer, rules, pdr))
    && (rank > 3 ==> !PdrDefect(MissingUrr, rules, pdr))
    && (rank > 4 ==> !PdrDefect(UplinkRequiresTeid, rules, pdr))
    && (rank > 5 ==> !PdrDefect(DownlinkForbidsTeid, rules, pdr))
    && (rank > 6 ==> !PdrDefect(InvalidLocalPorts, rules, pdr))
    && (rank > 7 ==> !PdrDefect(InvalidRemotePorts, rules, pdr))
    && (rank > 8 ==> !PdrDefect(ForwardDestinationMissing, rules, pdr))
  }

  predicate Earliest(error: RuleError, rules: RuleSet, pdr: Pdr) {
    PdrDefect(error, rules, pdr) && Passes(rules, pdr, Rank(error))
  }

  /** Nothing is wrong with the PDRs before position `i`. */
  predicate Clean(rules: RuleSet, i: nat)
    requires i <= |rules.pdrs|
  {
    && (forall k | 0 <= k < i :: AcceptedPdr(rules, rules.pdrs[k]))
    && (forall k, l | 0 <= k < i && k < l < |rules.pdrs| :: !Conflict(rules.pdrs[k], rules.pdrs[l]))
  }

  /** The error names the first defect of the PDR at position `i`, and the PDRs before it have none. */
  ghost predicate ReportedAt(error: RuleError, rules: RuleSet, i: nat)
    requires i < |rules.pdrs|
  {
    && Clean(rules, i)
    && if error == EqualPrecedenceOverlap
       then AcceptedPdr(rules, rules.pdrs[i])
            && exists j :: i < j < |rules.pdrs| && Conflict(rules.pdrs[i], rules.pdrs[j])
       else Earliest(error, rules, rules.pdrs[i])
  }

  /** The error names the first defect: session and version, then capacity, then IDs, then PDR by PDR the earliest
      check it fails or else an overlap with a later PDR. */
  ghost predicate FirstReported(error: RuleError, rules: RuleSet, limits: CapacityLimits) {
    if rules.sessionId == "" || rules.version == 0 then error == InvalidSessionOrVersion
    else if !WithinCapacity(rules, limits) then error == RuleCapacityExceeded
    else if !UniqueRuleIds(rules) then error == InvalidOrDuplicateId
    else exists i :: 0 <= i < |rules.pdrs| && ReportedAt(error, rules, i)
  }

  // ----- The loops

  method HasUniqueIds<T>(values: seq<T>, key: T -> uint32) returns (unique: bool)
    ensures unique <==> UniqueIds(values, key)
  {
    var ids: set<uint32> := {};
    for i := 0 to |values|
      invariant UniqueIds(values[..i], key)
      invariant forall id :: id in ids <==> exists k | 0 <= k < i :: key(values[k]) == id
    {
      var id := key(values[i]);
      if id == 0 || id in ids {
        assert values[i] in values;
        return false;
      }
      ids := ids + {id};
      assert values[..i + 1] == values[..i] + [values[i]];
    }
    assert values[..|values|] == values;
    return true;
  }

  /** The checks of one PDR, up to the comparison with the PDRs after it. */
  method CheckPdr(rules: RuleSet, pdr: Pdr) returns (r: Validity)
    ensures r.Valid? ==> AcceptedPdr(rules, pdr)
    ensures r.Invalid? ==> Earliest(r.error, rules, pdr)
  {
    var far := FindFar(rules, pdr.farId);
    if far.None? { return Invalid(MissingFar); }
    if pdr.qerId.Some? {
      var qer := FindQer(rules, pdr.qerId.value);
      if qer.None? { return Invalid(MissingQer); }
    }
    if pdr.urrId.Some? {
      var urr := FindUrr(rules, pdr.urrId.value);
      if urr.None? { return Invalid(MissingUrr); }
    }
    assert Passes(rules, pdr, 4);
    if pdr.sourceInterface == N3 && pdr.teid.None? { return Invalid(UplinkRequiresTeid); }
    if pdr.sourceInterface == N6 && pdr.teid.Some? { return Invalid(DownlinkForbidsTeid); }
    if pdr.localPorts.Some? && !pdr.localPorts.value.Valid() { return Invalid(InvalidLocalPorts); }
    if pdr.remotePorts.Some? && !pdr.remotePorts.value.Valid() { return Invalid(InvalidRemotePorts); }
    assert Passes(rules, pdr, 8);
    r := CheckFar(pdr, far.value);
  }

  /** The checks of a PDR's FAR. */
  method CheckFar(pdr: Pdr, far: Far) returns (r: Validity)
    ensures r.Valid? ==> ConsistentFar(pdr, far)
    ensures r.Invalid? ==> FarDefect(r.error, pdr, far)
    ensures r.Invalid? && r.error != ForwardDestinationMissing ==> !FarDefect(ForwardDestinationMissing, pdr, far)
  {
    if far.action == Forward {
      if far.destination.None? { return Invalid(ForwardDestinationMissing); }
      if pdr.sourceInterface == N3 && (far.destination.value != N6 || far.operation != Remove) {
        return Invalid(InvalidUplinkFar);
      }
      if pdr.sourceInterface == N6 && (far.destination.value != N3 || far.operation != Add
                                       || far.tunnel.None? || !far.tunnel.value.Valid()) {
        return Invalid(InvalidDownlinkFar);
      }
    } else if far.destination.Some? || far.operation != TunnelNone {
      return Invalid(DropHasForwardingParameters);
    }
    return Valid;
  }

  // The nested loops compare each PDR only with the PDRs after it, yet decide the order-free predicate, and a
  // reported error is true of the ruleset.
  method ValidateRuleSet(rules: RuleSet, limits: CapacityLimits) returns (r: Validity)
    ensures r.Valid? <==> Accepted(rules, limits)
    ensures r.Invalid? ==> Defect(r.error, rules, limits)
    ensures r.Invalid? ==> FirstReported(r.error, rules, limits)
  {
    if rules.sessionId == "" || rules.version == 0 {
      return Invalid(InvalidSessionOrVersion);
    }
    if |rules.pdrs| > limits.rulesPerType || |rules.fars| > limits.rulesPerType
       || |rules.qers| > limits.rulesPerType || |rules.urrs| > limits.rulesPerType {
      return Invalid(RuleCapacityExceeded);
    }
    var pdrIds := HasUniqueIds(rules.pdrs, PdrKey);
    var farIds := HasUniqueIds(rules.fars, FarKey);
    var qerIds := HasUniqueIds(rules.qers, QerKey);
    var urrIds := HasUniqueIds(rules.urrs, UrrKey);
    if !pdrIds || !farIds || !qerIds || !urrIds {
      return Invalid(InvalidOrDuplicateId);
    }
    r := CheckPdrs(rules);
    if r.Valid? {
      PairwiseIsOrderFree(rules.pdrs);
    } else {
      ReportedRejects(r.error, rules, limits);
    }
  }

  /** The nested loops. */
  method CheckPdrs(rules: RuleSet) returns (r: Validity)
    requires UniqueIds(rules.pdrs, PdrKey)
    ensures r.Valid? ==> Clean(rules, |rules.pdrs|)
    ensures r.Invalid? ==> exists i :: 0 <= i < |rules.pdrs| && ReportedAt(r.error, rules, i)
  {
    var pdrs := rules.pdrs;
    for i := 0 to |pdrs|
      invariant Clean(rules, i)
    {
      var checked := CheckPdr(rules, pdrs[i]);
      if checked.Invalid? {
        assert ReportedAt(checked.error, rules, i);
        return checked;
      }
      for j := i + 1 to |pdrs|
        invariant forall l | i < l < j :: !Conflict(pdrs[i], pdrs[l])
      {
        if pdrs[i].precedence == pdrs[j].precedence && MatchSpacesOverlap(pdrs[i], pdrs[j]) {
          assert Conflict(pdrs[i], pdrs[j]);
          assert ReportedAt(EqualPrecedenceOverlap, rules, i);
          return Invalid(EqualPrecedenceOverlap);
        }
      }
    }
    return Valid;
  }

  lemma ReportedRejects(error: RuleError, rules: RuleSet, limits: CapacityLimits)
    requires UniqueIds(rules.pdrs, PdrKey)
    requires exists i :: 0 <= i < |rules.pdrs| && ReportedAt(error, rules, i)
    ensures Defect(error, rules, limits) && !Accepted(rules, limits)
  {
    var i :| 0 <= i < |rules.pdrs| && ReportedAt(error, rules, i);
    var p := rules.pdrs[i];
    if error == EqualPrecedenceOverlap {
      var j :| i < j < |rules.pdrs| && Conflict(p, rules.pdrs[j]);
      assert PdrKey(p) != PdrKey(rules.pdrs[j]);
      assert p in rules.pdrs && rules.pdrs[j] in rules.pdrs;
    } else {
      PdrDefectRejects(error, rules, p);
    }
  }

  lemma PdrDefectRejects(error: RuleError, rules: RuleSet, pdr: Pdr)
    requires pdr in rules.pdrs && PdrDefect(error, rules, pdr)
    ensures !AcceptedPdr(rules, pdr)
    ensures forall limits :: Defect(error, rules, limits)
  {
  }

  // Every reported defect is a reason not to accept, so the two halves of the contract fit together.
  lemma DefectRejects(error: RuleError, rules: RuleSet, limits: CapacityLimits)
    requires Defect(error, rules, limits)
    ensures !Accepted(rules, limits)
  {
    match error
    case InvalidSessionOrVersion =>
    case RuleCapacityExceeded =>
    case InvalidOrDuplicateId =>
    case EqualPrecedenceOverlap =>
    case _ =>
      var p :| p in rules.pdrs && PdrDefect(error, rules, p);
      PdrDefectRejects(error, rules, p);
  }

  lemma PairwiseIsOrderFree(pdrs: seq<Pdr>)
    requires forall k, l | 0 <= k < l < |pdrs| :: !Conflict(pdrs[k], pdrs[l])
    ensures forall p, q | p in pdrs && q in pdrs && p != q :: !Conflict(p, q)
  {
    forall p, q | p in pdrs && q in pdrs && p != q
      ensures !Conflict(p, q)
    {
      var i :| 0 <= i < |pdrs| && pdrs[i] == p;
      var j :| 0 <= j < |pdrs| && pdrs[j] == q;
      OverlapSymmetric(p, q);
      if i < j {
        assert !Conflict(pdrs[i], pdrs[j]);
      } else {
        assert !Conflict(pdrs[j], pdrs[i]);
      }
    }
  }

  // ----- What acceptance buys

  // At most one PDR of minimal precedence matches a packet, which is what makes selection well defined.
  lemma EqualPrecedenceMatchesAreEqual(rules: RuleSet, limits: CapacityLimits, packet: Packet, p: Pdr, q: Pdr)
    requires Accepted(rules, limits)
    requires p in rules.pdrs && q in rules.pdrs && p.precedence == q.precedence
    requires Matches(p, packet) && Matches(q, packet)
    ensures p == q
  {
    SharedPacketOverlaps(p, q, packet);
    assert p != q ==> !Conflict(p, q);
  }

  // Acceptance does not depend on the order in which rules are listed.
  lemma PermutedAccepted(a: RuleSet, b: RuleSet, limits: CapacityLimits)
    requires PermutedRules(a, b) && Accepted(a, limits)
    ensures Accepted(b, limits)
  {
    PermutedLength(a.pdrs, b.pdrs);
    PermutedLength(a.fars, b.fars);
    PermutedLength(a.qers, b.qers);
    PermutedLength(a.urrs, b.urrs);
    PermutedUniqueIds(a.pdrs, b.pdrs, PdrKey);
    PermutedUniqueIds(a.fars, b.fars, FarKey);
    PermutedUniqueIds(a.qers, b.qers, QerKey);
    PermutedUniqueIds(a.urrs, b.urrs, UrrKey);
    forall p | p in b.pdrs
      ensures p in a.pdrs && AcceptedPdr(b, p)
    {
      PermutedMembers(a.pdrs, b.pdrs, p);
      PermutedFind(a.fars, b.fars, FarKey, p.farId);
      if p.qerId.Some? { PermutedFind(a.qers, b.qers, QerKey, p.qerId.value); }
      if p.urrId.Some? { PermutedFind(a.urrs, b.urrs, UrrKey, p.urrId.value); }
    }
  }

  // ----- Acceptance written out

  function IdsOf<T>(rules: seq<T>, id: T -> uint32): (ids: seq<uint32>)
    ensures |ids| == |rules| && forall i | 0 <= i < |rules| :: ids[i] == id(rules[i])
  {
    seq(|rules|, i requires 0 <= i < |rules| => id(rules[i]))
  }

  /** Some ID is zero or given twice. */
  predicate BadIds(ids: seq<uint32>) {
    (exists i :: 0 <= i < |ids| && ids[i] == 0) || (exists i, j :: 0 <= i < j < |ids| && ids[i] == ids[j])
  }

  predicate BadTunnel(tunnel: Option<TunnelMetadata>) {
    tunnel.None? || tunnel.value.teid == 0 || tunnel.value.qfi < 1 || tunnel.value.qfi > 63
  }

  predicate BadPorts(range: Option<PortRange>) {
    range.Some? && range.value.first > range.value.last
  }

  /** A drop that names a destination or a tunnel operation, or a forward that is not N3 to N6 without tunnel or N6 to
      N3 into a valid tunnel. */
  predicate BadFar(pdr: Pdr, far: Far) {
    || (far.action == Drop && (far.destination.Some? || far.operation != TunnelNone))
    || (far.action == Forward && pdr.sourceInterface == N3 && (far.destination != Some(N6) || far.operation != Remove))
    || (far.action == Forward && pdr.sourceInterface == N6
        && (far.destination != Some(N3) || far.operation != Add || BadTunnel(far.tunnel)))
  }

  ghost predicate BadPdr(rules: RuleSet, pdr: Pdr) {
    || (forall f | f in rules.fars :: f.id != pdr.farId)
    || (exists f :: f in rules.fars && f.id == pdr.farId && BadFar(pdr, f))
    || (pdr.qerId.Some? && forall q | q in rules.qers :: q.id != pdr.qerId.value)
    || (pdr.urrId.Some? && forall u | u in rules.urrs :: u.id != pdr.urrId.value)
    || (pdr.sourceInterface == N3 && pdr.teid.None?)
    || (pdr.sourceInterface == N6 && pdr.teid.Some?)
    || BadPorts(pdr.localPorts)
    || BadPorts(pdr.remotePorts)
  }

  ghost predicate ShareAPacket(a: Pdr, b: Pdr) {
    exists packet :: InMatchSpace(a, packet) && InMatchSpace(b, packet)
  }

  /** Everything a ruleset can be rejected for. */
  ghost predicate Objectionable(rules: RuleSet, limits: CapacityLimits) {
    || rules.sessionId == "" || rules.version == 0
    || |rules.pdrs| > limits.rulesPerType || |rules.fars| > limits.rulesPerType
    || |rules.qers| > limits.rulesPerType || |rules.urrs| > limits.rulesPerType
    || BadIds(IdsOf(rules.pdrs, (p: Pdr) => p.id)) || BadIds(IdsOf(rules.fars, (f: Far) => f.id))
    || BadIds(IdsOf(rules.qers, (q: Qer) => q.id)) || BadIds(IdsOf(rules.urrs, (u: Urr) => u.id))
    || (exists p :: p in rules.pdrs && BadPdr(rules, p))
    || (exists p, q :: p in rules.pdrs && q in rules.pdrs && p != q && p.precedence == q.precedence
                       && ShareAPacket(p, q))
  }

  lemma BadIdsIff<T>(rules: seq<T>, key: T -> uint32, id: T -> uint32)
    requires forall x | x in rules :: key(x) == id(x)
    ensures BadIds(IdsOf(rules, id)) <==> !UniqueIds(rules, key)
  {
    var ids := IdsOf(rules, id);
    assert forall i | 0 <= i < |rules| :: rules[i] in rules && ids[i] == key(rules[i]);
    if !UniqueIds(rules, key) {
      if x :| x in rules && key(x) == 0 {
        var i :| 0 <= i < |rules| && rules[i] == x;
        assert ids[i] == 0;
      } else {
        var i, j :| 0 <= i < j < |rules| && key(rules[i]) == key(rules[j]);
        assert ids[i] == ids[j];
      }
    }
  }

  lemma BadPdrIff(rules: RuleSet, pdr: Pdr)
    requires UniqueIds(rules.fars, FarKey)
    ensures BadPdr(rules, pdr) <==> !AcceptedPdr(rules, pdr)
  {
    forall f | f in rules.fars && f.id == pdr.farId
      ensures Find(rules.fars, FarKey, pdr.farId) == Some(f)
    {
      assert FarKey(f) == pdr.farId;
      FindUnique(rules.fars, FarKey, f);
    }
  }

  lemma ConflictIffShareAPacket(p: Pdr, q: Pdr)
    requires ValidPorts(p) && ValidPorts(q)
    ensures Conflict(p, q) <==> p.precedence == q.precedence && ShareAPacket(p, q)
  {
    OverlapIffSharedPacket(p, q);
    forall packet
      ensures Matches(p, packet) <==> InMatchSpace(p, packet)
      ensures Matches(q, packet) <==> InMatchSpace(q, packet)
    {
      CandidateIffInMatchSpace(p, packet);
      CandidateIffInMatchSpace(q, packet);
    }
  }

  // The validator rejects a ruleset exactly for one of these reasons; in particular two PDRs are held against it just
  // when they have equal precedence and some packet lies in both match spaces.
  lemma AcceptedIffUnobjectionable(rules: RuleSet, limits: CapacityLimits)
    ensures Accepted(rules, limits) <==> !Objectionable(rules, limits)
  {
    BadIdsIff(rules.pdrs, PdrKey, (p: Pdr) => p.id);
    BadIdsIff(rules.fars, FarKey, (f: Far) => f.id);
    BadIdsIff(rules.qers, QerKey, (q: Qer) => q.id);
    BadIdsIff(rules.urrs, UrrKey, (u: Urr) => u.id);
    if UniqueRuleIds(rules) {
      forall p | p in rules.pdrs
        ensures BadPdr(rules, p) <==> !AcceptedPdr(rules, p)
      {
        BadPdrIff(rules, p);
      }
      forall p, q | p in rules.pdrs && q in rules.pdrs && AcceptedPdr(rules, p) && AcceptedPdr(rules, q)
        ensures Conflict(p, q) <==> p.precedence == q.precedence && ShareAPacket(p, q)
      {
        ConflictIffShareAPacket(p, q);
      }
    }
  }
}
