/** Matching one packet against one PDR, criterion by criterion. */
module Matcher {
  import opened Types
  import Address
  import opened Rules

  datatype CriterionName = Ingress | Tunnel | Prefix | Protocol | LocalPorts | RemotePorts | Qfi

  datatype CriterionResult = CriterionResult(name: CriterionName, applicable: bool, matched: bool)

  datatype MatchCandidate = MatchCandidate(
    pdrId: uint32,
    precedence: uint32,
    matched: bool,
    criteria: seq<CriterionResult>)

  function UeAddress(packet: Packet): Address.IpAddress {
    if packet.ingress == N3 then packet.sourceIp else packet.destinationIp
  }

  function LocalPort(packet: Packet): uint16 {
    if packet.ingress == N3 then packet.sourcePort else packet.destinationPort
  }

  function RemotePort(packet: Packet): uint16 {
    if packet.ingress == N3 then packet.destinationPort else packet.sourcePort
  }

  predicate TeidMatches(pdr: Pdr, packet: Packet) {
    pdr.teid.None? || (packet.tunnel.Some? && packet.tunnel.value.teid == pdr.teid.value)
  }

  predicate QfiMatches(pdr: Pdr, packet: Packet) {
    pdr.qfi.None? || (packet.tunnel.Some? && packet.tunnel.value.qfi == pdr.qfi.value)
  }

  predicate ProtocolMatches(pdr: Pdr, packet: Packet) {
    pdr.protocol.None? || pdr.protocol.value == packet.protocol
  }

  predicate PortMatches(range: Option<Address.PortRange>, port: uint16) {
    range.None? || range.value.Contains(port)
  }

  /** A packet lies in a PDR's match space when it satisfies every configured criterion. */
  predicate Matches(pdr: Pdr, packet: Packet) {
    && pdr.sourceInterface == packet.ingress
    && TeidMatches(pdr, packet)
    && Address.Contains(pdr.uePrefix, UeAddress(packet))
    && ProtocolMatches(pdr, packet)
    && PortMatches(pdr.localPorts, LocalPort(packet))
    && PortMatches(pdr.remotePorts, RemotePort(packet))
    && QfiMatches(pdr, packet)
  }

  function Criteria(pdr: Pdr, packet: Packet): seq<CriterionResult> {
    [CriterionResult(Ingress, true, pdr.sourceInterface == packet.ingress),
     CriterionResult(Tunnel, pdr.teid.Some?, TeidMatches(pdr, packet)),
     CriterionResult(Prefix, true, Address.Contains(pdr.uePrefix, UeAddress(packet))),
     CriterionResult(Protocol, pdr.protocol.Some?, ProtocolMatches(pdr, packet)),
     CriterionResult(LocalPorts, pdr.localPorts.Some?, PortMatches(pdr.localPorts, LocalPort(packet))),
     CriterionResult(RemotePorts, pdr.remotePorts.Some?, PortMatches(pdr.remotePorts, RemotePort(packet))),
     CriterionResult(Qfi, pdr.qfi.Some?, QfiMatches(pdr, packet))]
  }

  function Candidate(pdr: Pdr, packet: Packet): MatchCandidate {
    MatchCandidate(pdr.id, pdr.precedence, Matches(pdr, packet), Criteria(pdr, packet))
  }

  // The verdict is exactly the conjunction of the explained criteria, and a criterion that the PDR does not
  // configure never decides it.
  lemma CriteriaExplainVerdict(pdr: Pdr, packet: Packet)
    ensures var c := Candidate(pdr, packet);
            && (c.matched <==> forall i | 0 <= i < |c.criteria| :: c.criteria[i].matched)
            && (c.matched <==> forall i | 0 <= i < |c.criteria| :: c.criteria[i].applicable ==> c.criteria[i].matched)
  {
    var s := Criteria(pdr, packet);
    assert s[0].matched && s[1].matched && s[2].matched && s[3].matched && s[4].matched && s[5].matched && s[6].matched
        <==> Matches(pdr, packet);
    assert s[0].applicable && s[2].applicable;
    assert !s[1].matched ==> s[1].applicable;
    assert !s[3].matched ==> s[3].applicable;
    assert !s[4].matched ==> s[4].applicable;
    assert !s[5].matched ==> s[5].applicable;
    assert !s[6].matched ==> s[6].applicable;
  }

  method EvaluateCandidate(pdr: Pdr, packet: Packet) returns (result: MatchCandidate)
    ensures result == Candidate(pdr, packet)
  {
    result := MatchCandidate(pdr.id, pdr.precedence, true, []);
    var ingress := pdr.sourceInterface == packet.ingress;
    var criteria := [CriterionResult(Ingress, true, ingress)];
    assert criteria == Criteria(pdr, packet)[..1];
    result := result.(matched := result.matched && ingress);
    var tunnel := pdr.teid.None? || (packet.tunnel.Some? && packet.tunnel.value.teid == pdr.teid.value);
    criteria := criteria + [CriterionResult(Tunnel, pdr.teid.Some?, tunnel)];
    assert criteria == Criteria(pdr, packet)[..2];
    result := result.(matched := result.matched && tunnel);
    var ue := if packet.ingress == N3 then packet.sourceIp else packet.destinationIp;
    var prefix := Address.Contains(pdr.uePrefix, ue);
    criteria := criteria + [CriterionResult(Prefix, true, prefix)];
    assert criteria == Criteria(pdr, packet)[..3];
    result := result.(matched := result.matched && prefix);
    var protocol := pdr.protocol.None? || pdr.protocol.value == packet.protocol;
    criteria := criteria + [CriterionResult(Protocol, pdr.protocol.Some?, protocol)];
    assert criteria == Criteria(pdr, packet)[..4];
    result := result.(matched := result.matched && protocol);
    var local := if packet.ingress == N3 then packet.sourcePort else packet.destinationPort;
    var remote := if packet.ingress == N3 then packet.destinationPort else packet.sourcePort;
    var localMatch := pdr.localPorts.None? || pdr.localPorts.value.Contains(local);
    var remoteMatch := pdr.remotePorts.None? || pdr.remotePorts.value.Contains(remote);
    criteria := criteria + [CriterionResult(LocalPorts, pdr.localPorts.Some?, localMatch)];
    assert criteria == Criteria(pdr, packet)[..5];
    criteria := criteria + [CriterionResult(RemotePorts, pdr.remotePorts.Some?, remoteMatch)];
    assert criteria == Criteria(pdr, packet)[..6];
    result := result.(matched := result.matched && localMatch && remoteMatch);
    var qfi := pdr.qfi.None? || (packet.tunnel.Some? && packet.tunnel.value.qfi == pdr.qfi.value);
    criteria := criteria + [CriterionResult(Qfi, pdr.qfi.Some?, qfi)];
    assert criteria == Criteria(pdr, packet);
    result := result.(matched := result.matched && qfi, criteria := criteria);
  }

  // ----- The criteria written out for each direction

  predicate PortWithin(range: Option<Address.PortRange>, port: int) {
    range.Some? ==> range.value.first <= port <= range.value.last
  }

  ghost predicate InPrefix(prefix: Address.IpPrefix, a: Address.IpAddress) {
    prefix.network.family == a.family && Address.LeadingBitsAgree(prefix.network, a, prefix.length)
  }

  /** The seven criteria by position and name, given the packet's UE address and its local and remote port. */
  ghost predicate CriteriaAre(c: seq<CriterionResult>, pdr: Pdr, packet: Packet, ue: Address.IpAddress,
                              local: int, remote: int) {
    && |c| == 7
    && c[0] == CriterionResult(Ingress, true, pdr.sourceInterface == packet.ingress)
    && (c[1].name == Tunnel && c[1].applicable == pdr.teid.Some?)
    && (c[1].matched <==> pdr.teid.Some? ==> packet.tunnel.Some? && packet.tunnel.value.teid == pdr.teid.value)
    && c[2] == CriterionResult(Prefix, true, InPrefix(pdr.uePrefix, ue))
    && (c[3].name == Protocol && c[3].applicable == pdr.protocol.Some?)
    && (c[3].matched <==> pdr.protocol.Some? ==> packet.protocol == pdr.protocol.value)
    && c[4] == CriterionResult(LocalPorts, pdr.localPorts.Some?, PortWithin(pdr.localPorts, local))
    && c[5] == CriterionResult(RemotePorts, pdr.remotePorts.Some?, PortWithin(pdr.remotePorts, remote))
    && (c[6].name == Qfi && c[6].applicable == pdr.qfi.Some?)
    && (c[6].matched <==> pdr.qfi.Some? ==> packet.tunnel.Some? && packet.tunnel.value.qfi == pdr.qfi.value)
  }

  // Uplink the UE is the source: its address and port are the packet's source, the remote port its destination.
  lemma UplinkCriteria(pdr: Pdr, packet: Packet)
    requires packet.ingress == N3
    ensures CriteriaAre(Candidate(pdr, packet).criteria, pdr, packet,
              packet.sourceIp, packet.sourcePort, packet.destinationPort)
  {
    Address.ContainsIffBitsAgree(pdr.uePrefix, packet.sourceIp);
  }

  // Downlink the UE is the destination.
  lemma DownlinkCriteria(pdr: Pdr, packet: Packet)
    requires packet.ingress == N6
    ensures CriteriaAre(Candidate(pdr, packet).criteria, pdr, packet,
              packet.destinationIp, packet.destinationPort, packet.sourcePort)
  {
    Address.ContainsIffBitsAgree(pdr.uePrefix, packet.destinationIp);
  }

  /** The packets a PDR is meant for, in terms of address bits and port numbers. */
  ghost predicate InMatchSpace(pdr: Pdr, packet: Packet) {
    && pdr.sourceInterface == packet.ingress
    && (pdr.teid.Some? ==> packet.tunnel.Some? && packet.tunnel.value.teid == pdr.teid.value)
    && (pdr.qfi.Some? ==> packet.tunnel.Some? && packet.tunnel.value.qfi == pdr.qfi.value)
    && (pdr.protocol.Some? ==> packet.protocol == pdr.protocol.value)
    && (packet.ingress == N3 ==>
          && InPrefix(pdr.uePrefix, packet.sourceIp)
          && PortWithin(pdr.localPorts, packet.sourcePort)
          && PortWithin(pdr.remotePorts, packet.destinationPort))
    && (packet.ingress == N6 ==>
          && InPrefix(pdr.uePrefix, packet.destinationIp)
          && PortWithin(pdr.localPorts, packet.destinationPort)
          && PortWithin(pdr.remotePorts, packet.sourcePort))
  }

  lemma CandidateIffInMatchSpace(pdr: Pdr, packet: Packet)
    ensures Candidate(pdr, packet).matched <==> Matches(pdr, packet)
    ensures Matches(pdr, packet) <==> InMatchSpace(pdr, packet)
    ensures Candidate(pdr, packet).pdrId == pdr.id && Candidate(pdr, packet).precedence == pdr.precedence
  {
    Address.ContainsIffBitsAgree(pdr.uePrefix, packet.sourceIp);
    Address.ContainsIffBitsAgree(pdr.uePrefix, packet.destinationIp);
  }
}
