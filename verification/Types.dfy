/** Fixed-width integers, enumerations and the checked arithmetic of the engine. */
module Types {

  const U8_MAX: int := 0xFF
  const U16_MAX: int := 0xFFFF
  const U32_MAX: int := 0xFFFF_FFFF
  const U64_MAX: int := 0xFFFF_FFFF_FFFF_FFFF

  type uint8 = x: int | 0 <= x <= U8_MAX
  type uint16 = x: int | 0 <= x <= U16_MAX
  type uint32 = x: int | 0 <= x <= U32_MAX
  type uint64 = x: int | 0 <= x <= U64_MAX

  datatype Option<+T> = None | Some(value: T)

  datatype Interface = N3 | N6
  datatype TransportProtocol = Tcp | Udp | Icmp | IcmpV6
  datatype GateStatus = Open | Closed
  datatype FarAction = Forward | Drop
  datatype TunnelOperation = TunnelNone | Add | Remove
  datatype AdapterOutcome = Success | DelayedSuccess | TransientFailure | PermanentFailure
  datatype ConvergenceStatus = Empty | Converged | Divergent

  /** The limits the engine reads; sizes are 64-bit as `std::size_t` is. */
  datatype CapacityLimits = CapacityLimits(
    controlQueue: uint64,
    packetQueue: uint64,
    reconciliationQueue: uint64,
    reports: uint64,
    results: uint64,
    events: uint64,
    sinkPackets: uint64,
    rulesPerType: uint64)

  function Max(a: int, b: int): int {
    if a < b then b else a
  }

  function Min(a: int, b: int): int {
    if b < a then b else a
  }

  /** `target` is the value behind the out reference before the call; it is kept when the sum does not fit. */
  method CheckedAdd(a: uint64, b: uint64, target: uint64) returns (ok: bool, out: uint64)
    ensures ok <==> a + b <= U64_MAX
    ensures out == if ok then a + b else target
  {
    if b > U64_MAX - a {
      return false, target;
    }
    return true, a + b;
  }

  lemma ProductIsNat(a: nat, b: nat)
    ensures 0 <= a * b
  {
  }

  lemma ProductDistributes(a: int, b: int, c: int)
    ensures (a + b) * c == a * c + b * c
  {
  }

  lemma QuotientBoundsProduct(a: int, b: int, m: int)
    requires 0 < a && 0 <= b && 0 <= m
    ensures b > m / a <==> a * b > m
  {
    var q := m / a;
    assert m == a * q + m % a;
    if b > q {
      assert a * b >= a * (q + 1);
    } else {
      assert a * b <= a * q;
    }
  }

  method CheckedMultiply(a: uint64, b: uint64, target: uint64) returns (ok: bool, out: uint64)
    ensures ok <==> a * b <= U64_MAX
    ensures out == if ok then a * b else target
  {
    if a != 0 {
      QuotientBoundsProduct(a, b, U64_MAX);
    }
    if a != 0 && b > U64_MAX / a {
      return false, target;
    }
    return true, a * b;
  }
}
