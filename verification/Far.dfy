/** Forwarding: direction and tunnel transformation. */
module FarEngine {
  import opened Types
  import opened Rules
  import Validation

  datatype FarEvaluation = FarEvaluation(valid: bool, forwarded: bool, destination: Interface, packet: Packet)

  predicate LeavesUplink(far: Far, packet: Packet) {
    far.action == Forward && packet.ingress == N3 && far.destination == Some(N6) && far.operation == Remove
  }

  predicate LeavesDownlink(far: Far, packet: Packet) {
    && far.action == Forward && packet.ingress == N6 && far.destination == Some(N3)
    && far.operation == Add && far.tunnel.Some?
  }

  function FarResult(far: Far, packet: Packet): FarEvaluation {
    if LeavesUplink(far, packet) then FarEvaluation(true, true, N6, packet.(tunnel := None))
    else if LeavesDownlink(far, packet) then FarEvaluation(true, true, N3, packet.(tunnel := far.tunnel))
    else if far.action == Drop then
      FarEvaluation(far.destination.None? && far.operation == TunnelNone, false, N6, packet)
    else
      FarEvaluation(false, false, if far.destination.Some? then far.destination.value else N6, packet)
  }

  method EvaluateFar(far: Far, packet: Packet) returns (result: FarEvaluation)
    ensures result == FarResult(far, packet)
  {
    result := FarEvaluation(false, false, N6, packet);
    if far.action == Drop {
      result := result.(valid := far.destination.None? && far.operation == TunnelNone);
      return;
    }
    if far.destination.None? {
      return;
    }
    result := result.(destination := far.destination.value);
    if packet.ingress == N3 && result.destination == N6 && far.operation == Remove {
      result := result.(packet := result.packet.(tunnel := None));
      result := result.(valid := true, forwarded := true);
    } else if packet.ingress == N6 && result.destination == N3 && far.operation == Add && far.tunnel.Some? {
      result := result.(packet := result.packet.(tunnel := far.tunnel));
      result := result.(valid := true, forwarded := true);
    }
  }

  /** What a sink may hold: uplink traffic without a tunnel on N6, downlink traffic in a valid tunnel on N3. */
  predicate FitsSink(sink: Interface, packet: Packet) {
    if sink == N6 then packet.ingress == N3 && packet.tunnel.None?
    else packet.ingress == N6 && packet.tunnel.Some? && packet.tunnel.value.Valid()
  }

  // Validation makes forwarding total: for a packet that arrives where the PDR listens, the FAR it names is found and
  // valid, it forwards unless it drops, and a forwarded packet fits the sink it is sent to.
  lemma ValidatedFarApplies(rules: RuleSet, pdr: Pdr, packet: Packet)
    requires Validation.AcceptedPdr(rules, pdr) && pdr.sourceInterface == packet.ingress
    ensures Find(rules.fars, FarKey, pdr.farId).Some?
    ensures var far := Find(rules.fars, FarKey, pdr.farId).value;
            var e := FarResult(far, packet);
            && e.valid
            && (e.forwarded <==> far.action == Forward)
            && (e.forwarded ==>
                  FitsSink(e.destination, e.packet) && e.packet == packet.(tunnel := e.packet.tunnel))
            && (!e.forwarded ==> e.packet == packet)
  {
  }

  // By direction: a FAR forwards an uplink packet exactly as N3 to N6 with the tunnel removed, a downlink packet
  // exactly as N6 to N3 with its own tunnel added, drops exactly without forwarding parameters, and else is invalid.
  lemma ForwardingByDirection(far: Far, packet: Packet)
    ensures var e := FarResult(far, packet);
            && (packet.ingress == N3 ==>
                  (e.forwarded <==> far.action == Forward && far.destination == Some(N6) && far.operation == Remove)
                  && (e.forwarded ==> e.destination == N6 && e.packet == packet.(tunnel := None)))
            && (packet.ingress == N6 ==>
                  (e.forwarded <==> far.action == Forward && far.destination == Some(N3) && far.operation == Add
                                    && far.tunnel.Some?)
                  && (e.forwarded ==> e.destination == N3 && e.packet == packet.(tunnel := far.tunnel)))
            && (!e.forwarded ==> e.packet == packet)
            && (!e.forwarded ==>
                  (e.valid <==> far.action == Drop && far.destination.None? && far.operation == TunnelNone))
            && (e.forwarded ==> e.valid)
            && (far.action == Drop ==> e.destination == N6)
  {
  }
}
