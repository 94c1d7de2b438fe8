/** Packets, rules and rulesets, with lookup by ID. */
module Rules {
  import opened Types
  import Address

  datatype TunnelMetadata = TunnelMetadata(teid: uint32, qfi: uint8) {
    predicate Valid() {
      teid != 0 && 1 <= qfi <= 63
    }
  }

  datatype Packet = Packet(
    packetId: string,
    sessionId: string,
    ingress: Interface,
    tunnel: Option<TunnelMetadata>,
    sourceIp: Address.IpAddress,
    destinationIp: Address.IpAddress,
    protocol: TransportProtocol,
    sourcePort: uint16,
    destinationPort: uint16,
    payloadBytes: uint32,
    arrivalTimeMicros: uint64)

  datatype Pdr = Pdr(
    id: uint32,
    precedence: uint32,
    sourceInterface: Interface,
    teid: Option<uint32>,
    uePrefix: Address.IpPrefix,
    protocol: Option<TransportProtocol>,
    localPorts: Option<Address.PortRange>,
    remotePorts: Option<Address.PortRange>,
    qfi: Option<uint8>,
    farId: uint32,
    qerId: Option<uint32>,
    urrId: Option<uint32>)

  datatype Far = Far(
    id: uint32,
    action: FarAction,
    destination: Option<Interface>,
    operation: TunnelOperation,
    tunnel: Option<TunnelMetadata>)

  datatype Qer = Qer(id: uint32, gate: GateStatus, rateBitsPerSecond: uint64, burstBytes: uint64, generation: uint32)

  datatype Urr = Urr(id: uint32, volumeThresholdBytes: uint64, generation: uint32)

  datatype RuleSet = RuleSet(
    sessionId: string,
    version: uint64,
    pdrs: seq<Pdr>,
    fars: seq<Far>,
    qers: seq<Qer>,
    urrs: seq<Urr>)

  function PdrKey(pdr: Pdr): uint32 { pdr.id }
  function FarKey(far: Far): uint32 { far.id }
  function QerKey(qer: Qer): uint32 { qer.id }
  function UrrKey(urr: Urr): uint32 { urr.id }

  // ----- Lookup by ID, once for the four rule types

  /** The first rule with the given ID. */
  function Find<T>(rules: seq<T>, key: T -> uint32, id: uint32): (r: Option<T>)
    ensures r.Some? ==> r.value in rules && key(r.value) == id
    ensures r.None? ==> forall x | x in rules :: key(x) != id
  {
    if rules == [] then None
    else if key(rules[0]) == id then Some(rules[0])
    else Find(rules[1..], key, id)
  }

  lemma {:induction false} FindAppended<T>(rules: seq<T>, key: T -> uint32, x: T, id: uint32)
    ensures Find(rules + [x], key, id) ==
            if Find(rules, key, id).Some? then Find(rules, key, id)
            else if key(x) == id then Some(x) else None
    decreases |rules|
  {
    if rules != [] {
      assert (rules + [x])[1..] == rules[1..] + [x];
      FindAppended(rules[1..], key, x, id);
    }
  }

  ghost predicate UniqueIds<T>(rules: seq<T>, key: T -> uint32) {
    && (forall x | x in rules :: key(x) != 0)
    && forall i, j | 0 <= i < j < |rules| :: key(rules[i]) != key(rules[j])
  }

  function Ids<T(==)>(rules: seq<T>, key: T -> uint32): set<uint32> {
    set x | x in rules :: key(x)
  }

  lemma UniqueIdsDetermine<T>(rules: seq<T>, key: T -> uint32, x: T, y: T)
    requires UniqueIds(rules, key) && x in rules && y in rules && key(x) == key(y)
    ensures x == y
  {
    var i :| 0 <= i < |rules| && rules[i] == x;
    var j :| 0 <= j < |rules| && rules[j] == y;
    assert !(i < j) && !(j < i);
  }

  lemma FindUnique<T>(rules: seq<T>, key: T -> uint32, x: T)
    requires UniqueIds(rules, key) && x in rules
    ensures Find(rules, key, key(x)) == Some(x)
  {
    var r := Find(rules, key, key(x));
    assert r.Some?;
    UniqueIdsDetermine(rules, key, x, r.value);
  }

  // ----- Reordering

  ghost predicate Permuted<T>(xs: seq<T>, ys: seq<T>) {
    multiset(xs) == multiset(ys)
  }

  lemma PermutedMembers<T>(xs: seq<T>, ys: seq<T>, x: T)
    requires Permuted(xs, ys)
    ensures x in xs <==> x in ys
  {
    assert x in xs <==> x in multiset(xs);
    assert x in ys <==> x in multiset(ys);
  }

  lemma PermutedLength<T>(xs: seq<T>, ys: seq<T>)
    requires Permuted(xs, ys)
    ensures |xs| == |ys|
  {
    assert |xs| == |multiset(xs)| && |ys| == |multiset(ys)|;
  }

  lemma TwiceInMultiset<T>(xs: seq<T>, i: nat, j: nat)
    requires i < j < |xs| && xs[i] == xs[j]
    ensures multiset(xs)[xs[i]] >= 2
  {
    assert xs == xs[..j] + [xs[j]] + xs[j + 1..];
    assert xs[i] in xs[..j];
    assert multiset(xs) == multiset(xs[..j]) + multiset{xs[j]} + multiset(xs[j + 1..]);
    assert xs[i] in multiset(xs[..j]);
  }

  lemma {:induction false} UniqueOnceInMultiset<T>(xs: seq<T>, key: T -> uint32, x: T)
    requires UniqueIds(xs, key)
    ensures multiset(xs)[x] <= 1
    decreases |xs|
  {
    if xs != [] {
      var tail := xs[1..];
      assert xs == [xs[0]] + tail;
      assert forall i | 0 <= i < |tail| :: tail[i] == xs[i + 1];
      UniqueOnceInMultiset(tail, key, x);
      assert multiset(xs) == multiset{xs[0]} + multiset(tail);
      if x == xs[0] {
        assert x !in tail;
      }
    }
  }

  lemma PermutedUniqueIds<T>(xs: seq<T>, ys: seq<T>, key: T -> uint32)
    requires Permuted(xs, ys) && UniqueIds(xs, key)
    ensures UniqueIds(ys, key)
  {
    forall y | y in ys
      ensures key(y) != 0
    {
      PermutedMembers(xs, ys, y);
    }
    forall i, j | 0 <= i < j < |ys|
      ensures key(ys[i]) != key(ys[j])
    {
      if key(ys[i]) == key(ys[j]) {
        PermutedMembers(xs, ys, ys[i]);
        PermutedMembers(xs, ys, ys[j]);
        UniqueIdsDetermine(xs, key, ys[i], ys[j]);
        TwiceInMultiset(ys, i, j);
        UniqueOnceInMultiset(xs, key, ys[i]);
      }
    }
  }

  // Lookup does not see the order in which the rules are listed.
  lemma PermutedFind<T>(xs: seq<T>, ys: seq<T>, key: T -> uint32, id: uint32)
    requires Permuted(xs, ys) && UniqueIds(xs, key)
    ensures Find(xs, key, id) == Find(ys, key, id)
  {
    var r, r' := Find(xs, key, id), Find(ys, key, id);
    if r.Some? {
      PermutedMembers(xs, ys, r.value);
      PermutedUniqueIds(xs, ys, key);
      FindUnique(ys, key, r.value);
    } else if r'.Some? {
      PermutedMembers(xs, ys, r'.value);
    }
  }

  ghost predicate PermutedRules(a: RuleSet, b: RuleSet) {
    && a.sessionId == b.sessionId
    && a.version == b.version
    && Permuted(a.pdrs, b.pdrs)
    && Permuted(a.fars, b.fars)
    && Permuted(a.qers, b.qers)
    && Permuted(a.urrs, b.urrs)
  }

  // ----- The lookups of the source

  method FindFar(rules: RuleSet, id: uint32) returns (r: Option<Far>)
    ensures r == Find(rules.fars, FarKey, id)
  {
    for i := 0 to |rules.fars|
      invariant Find(rules.fars, FarKey, id) == Find(rules.fars[i..], FarKey, id)
    {
      if rules.fars[i].id == id {
        return Some(rules.fars[i]);
      }
    }
    return None;
  }

  method FindQer(rules: RuleSet, id: uint32) returns (r: Option<Qer>)
    ensures r == Find(rules.qers, QerKey, id)
  {
    for i := 0 to |rules.qers|
      invariant Find(rules.qers, QerKey, id) == Find(rules.qers[i..], QerKey, id)
    {
      if rules.qers[i].id == id {
        return Some(rules.qers[i]);
      }
    }
    return None;
  }

  method FindUrr(rules: RuleSet, id: uint32) returns (r: Option<Urr>)
    ensures r == Find(rules.urrs, UrrKey, id)
  {
    for i := 0 to |rules.urrs|
      invariant Find(rules.urrs, UrrKey, id) == Find(rules.urrs[i..], UrrKey, id)
    {
      if rules.urrs[i].id == id {
        return Some(rules.urrs[i]);
      }
    }
    return None;
  }

  // Of several rules with one ID the lookup returns the one listed first.
  lemma {:induction false} FindIsFirst<T>(rules: seq<T>, key: T -> uint32, i: nat)
    requires i < |rules| && forall k | 0 <= k < i :: key(rules[k]) != key(rules[i])
    ensures Find(rules, key, key(rules[i])) == Some(rules[i])
    decreases i
  {
    if i > 0 {
      assert key(rules[0]) != key(rules[i]);
      FindIsFirst(rules[1..], key, i - 1);
    }
  }
}
