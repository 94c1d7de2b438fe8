/** IP addresses and prefixes: byte and mask comparison against the mathematical prefix. */
module Address {
  import opened Types

  datatype AddressFamily = IPv4 | IPv6

  datatype AddressData = IpAddress(family: AddressFamily, bytes: seq<bv8>)

  const ZERO_BYTES: seq<bv8> := [0, 0, 0, 0, 0, 0, 0, 0, 0, 0, 0, 0, 0, 0, 0, 0]

  /** Both families share a 16-byte array; an IPv4 address occupies its first four bytes. */
  type IpAddress = a: AddressData | |a.bytes| == 16 witness AddressData.IpAddress(IPv4, ZERO_BYTES)

  function Width(family: AddressFamily): nat {
    if family == IPv4 then 32 else 128
  }

  datatype PrefixData = IpPrefix(network: IpAddress, length: nat)

  /** `parse` is the only way to build a non-default prefix, so the length never exceeds the family's width. */
  type IpPrefix = p: PrefixData | p.length <= Width(p.network.family)
    witness PrefixData.IpPrefix(AddressData.IpAddress(IPv4, ZERO_BYTES), 0)

  datatype PortRange = PortRange(first: uint16, last: uint16) {
    predicate Valid() {
      first <= last
    }

    predicate Contains(port: uint16) {
      Valid() && first <= port <= last
    }
  }

  /** Bit `i` of a byte, the most significant bit being bit 0: the top bit after shifting `i` times. */
  predicate BitSet(b: bv8, i: nat)
    requires i < 8
    decreases i
  {
    if i == 0 then b & 0x80 != 0 else BitSet(b << 1, i - 1)
  }

  /** Bit `i` of an address in network order. */
  predicate BitAt(a: IpAddress, i: nat)
    requires i < 128
  {
    BitSet(a.bytes[i / 8], i % 8)
  }

  function Mask(rest: nat): bv8
    requires 0 < rest < 8
  {
    (0xFF as bv8) << (8 - rest)
  }

  predicate Contains(p: IpPrefix, a: IpAddress) {
    && p.network.family == a.family
    && var whole := p.length / 8;
       var rest := p.length % 8;
       && p.network.bytes[..whole] == a.bytes[..whole]
       && (rest == 0 ||
           p.network.bytes[whole] & Mask(rest) == a.bytes[whole] & Mask(rest))
  }

  ghost predicate LeadingBitsAgree(a: IpAddress, b: IpAddress, n: nat)
    requires n <= 128
  {
    forall i | 0 <= i < n :: BitAt(a, i) == BitAt(b, i)
  }

  ghost predicate SameLeadingBits(x: bv8, y: bv8, n: nat)
    requires n <= 8
  {
    forall i | 0 <= i < n :: BitSet(x, i) == BitSet(y, i)
  }

  /** A byte whose first `n` bits are one. */
  function LeadingOnes(n: nat): bv8
    requires n <= 8
  {
    if n == 0 then 0 else 0x80 | (LeadingOnes(n - 1) >> 1)
  }

  lemma MaskStep(x: bv8, y: bv8, m: bv8)
    ensures x & (0x80 | (m >> 1)) == y & (0x80 | (m >> 1)) <==>
            (x & 0x80 != 0) == (y & 0x80 != 0) && (x << 1) & m == (y << 1) & m
  {
  }

  lemma {:induction false} MaskKeepsLeadingBits(x: bv8, y: bv8, n: nat)
    requires n <= 8
    ensures x & LeadingOnes(n) == y & LeadingOnes(n) <==> SameLeadingBits(x, y, n)
    decreases n
  {
    if n > 0 {
      MaskStep(x, y, LeadingOnes(n - 1));
      MaskKeepsLeadingBits(x << 1, y << 1, n - 1);
      LeadingBitsShift(x, y, n);
    }
  }

  lemma LeadingBitsShift(x: bv8, y: bv8, n: nat)
    requires 0 < n <= 8
    ensures SameLeadingBits(x, y, n) <==>
            (x & 0x80 != 0) == (y & 0x80 != 0) && SameLeadingBits(x << 1, y << 1, n - 1)
  {
    var x', y' := x << 1, y << 1;
    if SameLeadingBits(x, y, n) {
      assert BitSet(x, 0) == BitSet(y, 0);
      forall i | 0 <= i < n - 1
        ensures BitSet(x', i) == BitSet(y', i)
      {
        assert BitSet(x, i + 1) == BitSet(y, i + 1);
      }
    } else {
      var i :| 0 <= i < n && BitSet(x, i) != BitSet(y, i);
      if i > 0 {
        assert BitSet(x', i - 1) != BitSet(y', i - 1);
      }
    }
  }

  lemma LeadingOnesAreLiterals()
    ensures LeadingOnes(1) == 0x80 && LeadingOnes(2) == 0xC0 && LeadingOnes(3) == 0xE0 && LeadingOnes(4) == 0xF0
    ensures LeadingOnes(5) == 0xF8 && LeadingOnes(6) == 0xFC && LeadingOnes(7) == 0xFE && LeadingOnes(8) == 0xFF
  {
    assert LeadingOnes(2) == 0xC0;
    assert LeadingOnes(4) == 0xF0;
    assert LeadingOnes(6) == 0xFC;
  }

  // The truncated shift of `contains` is the byte of leading ones.
  lemma MaskIsLeadingOnes(rest: nat)
    requires 0 < rest < 8
    ensures Mask(rest) == LeadingOnes(rest)
  {
    LeadingOnesAreLiterals();
  }

  lemma EqualBytes(x: bv8, y: bv8)
    ensures x == y <==> SameLeadingBits(x, y, 8)
  {
    LeadingOnesAreLiterals();
    MaskKeepsLeadingBits(x, y, 8);
    assert x & 0xFF == x && y & 0xFF == y;
  }

  // The code's test against its specification: families and the first `length` bits.
  lemma ContainsIffBitsAgree(p: IpPrefix, a: IpAddress)
    ensures Contains(p, a) <==> p.network.family == a.family && LeadingBitsAgree(p.network, a, p.length)
  {
    var whole, rest := p.length / 8, p.length % 8;
    var left, right := p.network.bytes, a.bytes;
    if p.network.family == a.family {
      WholeBytesAgree(p.network, a, whole);
      if rest > 0 {
        MaskIsLeadingOnes(rest);
        MaskKeepsLeadingBits(left[whole], right[whole], rest);
        LeadingBitsSplit(p.network, a, whole, rest);
      }
    }
  }

  lemma {:induction false} WholeBytesAgree(a: IpAddress, b: IpAddress, n: nat)
    requires n <= 16
    ensures a.bytes[..n] == b.bytes[..n] <==> LeadingBitsAgree(a, b, 8 * n)
  {
    if n > 0 {
      var last := n - 1;
      WholeBytesAgree(a, b, last);
      EqualBytes(a.bytes[last], b.bytes[last]);
      LeadingBitsSplit(a, b, last, 8);
      assert a.bytes[..n] == a.bytes[..last] + [a.bytes[last]];
      assert b.bytes[..n] == b.bytes[..last] + [b.bytes[last]];
    }
  }

  lemma LeadingBitsSplit(a: IpAddress, b: IpAddress, whole: nat, rest: nat)
    requires whole < 16 && rest <= 8
    ensures LeadingBitsAgree(a, b, 8 * whole + rest) <==>
            LeadingBitsAgree(a, b, 8 * whole) && SameLeadingBits(a.bytes[whole], b.bytes[whole], rest)
  {
    var x, y := a.bytes[whole], b.bytes[whole];
    forall i | 0 <= i < rest
      ensures BitAt(a, 8 * whole + i) == BitSet(x, i) && BitAt(b, 8 * whole + i) == BitSet(y, i)
    {
      assert (8 * whole + i) / 8 == whole && (8 * whole + i) % 8 == i;
    }
    if LeadingBitsAgree(a, b, 8 * whole + rest) {
      forall i | 0 <= i < rest
        ensures BitSet(x, i) == BitSet(y, i)
      {
        assert BitAt(a, 8 * whole + i) == BitAt(b, 8 * whole + i);
      }
    } else {
      var i :| 0 <= i < 8 * whole + rest && BitAt(a, i) != BitAt(b, i);
      if i >= 8 * whole {
        assert BitSet(x, i - 8 * whole) != BitSet(y, i - 8 * whole);
      }
    }
  }

  // ----- The prefix as an interval of integers

  function Pow2(n: nat): (r: nat)
    ensures 0 < r
  {
    if n == 0 then 1 else 2 * Pow2(n - 1)
  }

  /** The number formed by the first `n` bits of an address, in network order. */
  function BitsValue(a: IpAddress, n: nat): nat
    requires n <= 128
  {
    if n == 0 then 0 else 2 * BitsValue(a, n - 1) + BitValue(BitAt(a, n - 1))
  }

  function AddressValue(a: IpAddress): nat {
    BitsValue(a, Width(a.family))
  }

  ghost predicate NoHostBits(p: IpPrefix) {
    forall i | p.length <= i < Width(p.network.family) :: !BitAt(p.network, i)
  }

  lemma {:induction false} BitsValueInjective(a: IpAddress, b: IpAddress, n: nat)
    requires n <= 128
    ensures BitsValue(a, n) == BitsValue(b, n) <==> LeadingBitsAgree(a, b, n)
  {
    if n > 0 {
      BitsValueInjective(a, b, n - 1);
      assert LeadingBitsAgree(a, b, n) <==> LeadingBitsAgree(a, b, n - 1) && BitAt(a, n - 1) == BitAt(b, n - 1);
    }
  }

  function BitValue(bit: bool): nat {
    if bit then 1 else 0
  }

  lemma BitSetLiterals(b: bv8)
    ensures BitSet(b, 0) == (b & 0x80 != 0) && BitSet(b, 1) == (b & 0x40 != 0)
    ensures BitSet(b, 2) == (b & 0x20 != 0) && BitSet(b, 3) == (b & 0x10 != 0)
    ensures BitSet(b, 4) == (b & 0x08 != 0) && BitSet(b, 5) == (b & 0x04 != 0)
    ensures BitSet(b, 6) == (b & 0x02 != 0) && BitSet(b, 7) == (b & 0x01 != 0)
  {
    assert BitSet(b, 2) == BitSet(b << 1, 1) && BitSet(b, 3) == BitSet(b << 2, 1);
    assert BitSet(b, 4) == BitSet(b << 2, 2) == BitSet(b << 3, 1);
    assert BitSet(b, 5) == BitSet(b << 2, 3) == BitSet(b << 4, 1);
    assert BitSet(b, 6) == BitSet(b << 2, 4) == BitSet(b << 4, 2) == BitSet(b << 5, 1);
    assert BitSet(b, 7) == BitSet(b << 2, 5) == BitSet(b << 4, 3) == BitSet(b << 6, 1);
  }

  lemma MasksAsNumber(b: bv8)
    ensures b as nat ==
            128 * BitValue(b & 0x80 != 0) + 64 * BitValue(b & 0x40 != 0) + 32 * BitValue(b & 0x20 != 0)
            + 16 * BitValue(b & 0x10 != 0) + 8 * BitValue(b & 0x08 != 0) + 4 * BitValue(b & 0x04 != 0)
            + 2 * BitValue(b & 0x02 != 0) + BitValue(b & 0x01 != 0)
  {
  }

  /** The number formed by the first `n` bits of a byte. */
  function ByteBits(b: bv8, n: nat): nat
    requires n <= 8
  {
    if n == 0 then 0 else 2 * ByteBits(b, n - 1) + BitValue(BitSet(b, n - 1))
  }

  lemma ByteAsNumber(b: bv8)
    ensures ByteBits(b, 8) == b as nat
  {
    BitSetLiterals(b);
    MasksAsNumber(b);
    assert ByteBits(b, 1) == BitValue(b & 0x80 != 0);
    assert ByteBits(b, 2) == 2 * BitValue(b & 0x80 != 0) + BitValue(b & 0x40 != 0);
    assert ByteBits(b, 4) == 4 * ByteBits(b, 2) + 2 * BitValue(b & 0x20 != 0) + BitValue(b & 0x10 != 0);
    assert ByteBits(b, 6) == 4 * ByteBits(b, 4) + 2 * BitValue(b & 0x08 != 0) + BitValue(b & 0x04 != 0);
  }

  lemma DoubleBlock(size: nat, high: nat)
    ensures 2 * (size * high) == (2 * size) * high
  {
  }

  lemma {:induction false} BitsOfByte(a: IpAddress, k: nat, n: nat)
    requires k < 16 && n <= 8
    ensures BitsValue(a, 8 * k + n) == Pow2(n) * BitsValue(a, 8 * k) + ByteBits(a.bytes[k], n)
  {
    if n == 0 {
      assert Pow2(0) == 1;
    } else {
      var last := 8 * k + (n - 1);
      BitsOfByte(a, k, n - 1);
      assert last / 8 == k && last % 8 == n - 1;
      assert BitAt(a, last) == BitSet(a.bytes[k], n - 1);
      assert BitsValue(a, last + 1) == 2 * BitsValue(a, last) + BitValue(BitAt(a, last));
      DoubleBlock(Pow2(n - 1), BitsValue(a, 8 * k));
    }
  }

  // The bit-by-bit value is the big-endian value of the bytes.
  lemma BitsValueIsBigEndian(a: IpAddress, k: nat)
    requires k < 16
    ensures BitsValue(a, 8 * k + 8) == 256 * BitsValue(a, 8 * k) + a.bytes[k] as nat
  {
    BitsOfByte(a, k, 8);
    ByteAsNumber(a.bytes[k]);
    assert Pow2(4) == 16 && Pow2(8) == 256;
  }

  lemma BlockHalves(value: nat, high: nat, size: nat, bit: nat)
    requires high * size <= value < (high + 1) * size && bit <= 1
    ensures high * (2 * size) <= 2 * value + bit < (high + 1) * (2 * size)
    ensures bit == 0 && value == high * size ==> 2 * value + bit == high * (2 * size)
  {
    assert high * (2 * size) == 2 * (high * size);
    assert (high + 1) * (2 * size) == 2 * ((high + 1) * size);
  }

  lemma {:induction false} BitsValueSplit(a: IpAddress, length: nat, n: nat)
    requires length <= n <= 128
    ensures BitsValue(a, length) * Pow2(n - length) <= BitsValue(a, n)
    ensures BitsValue(a, n) < (BitsValue(a, length) + 1) * Pow2(n - length)
    ensures (forall i | length <= i < n :: !BitAt(a, i)) ==> BitsValue(a, n) == BitsValue(a, length) * Pow2(n - length)
  {
    if length < n {
      BitsValueSplit(a, length, n - 1);
      BlockHalves(BitsValue(a, n - 1), BitsValue(a, length), Pow2(n - 1 - length), BitValue(BitAt(a, n - 1)));
    }
  }

  lemma BlockOf(high: nat, low: nat, size: nat, value: nat)
    requires high * size <= value < (high + 1) * size
    ensures low * size <= value < low * size + size <==> low == high
  {
    if low < high {
      assert (low + 1) * size <= high * size;
    } else if high < low {
      assert (high + 1) * size <= low * size;
    }
  }

  // A prefix accepted by `ParsePrefix` contains exactly the addresses of its family in
  // [network, network + 2^(width - length)).
  lemma ContainsIffInterval(p: IpPrefix, a: IpAddress)
    requires NoHostBits(p)
    ensures Contains(p, a) <==>
            && p.network.family == a.family
            && AddressValue(p.network) <= AddressValue(a)
            && AddressValue(a) < AddressValue(p.network) + Pow2(Width(a.family) - p.length)
  {
    ContainsIffBitsAgree(p, a);
    if p.network.family == a.family {
      var width := Width(a.family);
      BitsValueSplit(a, p.length, width);
      BitsValueSplit(p.network, p.length, width);
      BlockOf(BitsValue(a, p.length), BitsValue(p.network, p.length), Pow2(width - p.length), AddressValue(a));
      BitsValueInjective(p.network, a, p.length);
    }
  }

  // Two prefixes that share an address are nested, so the longer network lies in the shorter prefix.
  lemma SharedAddressNests(p: IpPrefix, q: IpPrefix, a: IpAddress)
    requires Contains(p, a) && Contains(q, a)
    ensures Contains(p, q.network) || Contains(q, p.network)
  {
    ContainsIffBitsAgree(p, a);
    ContainsIffBitsAgree(q, a);
    ContainsIffBitsAgree(p, q.network);
    ContainsIffBitsAgree(q, p.network);
    if p.length <= q.length {
      assert forall i | 0 <= i < p.length :: BitAt(p.network, i) == BitAt(a, i) == BitAt(q.network, i);
    } else {
      assert forall i | 0 <= i < q.length :: BitAt(q.network, i) == BitAt(a, i) == BitAt(p.network, i);
    }
  }

  lemma ContainsOwnNetwork(p: IpPrefix)
    ensures Contains(p, p.network)
  {
    ContainsIffBitsAgree(p, p.network);
  }

  // The part of `IpPrefix::parse` after the text conversion: `length` is the number strtol read.
  method ParsePrefix(network: IpAddress, length: int) returns (r: Option<IpPrefix>)
    ensures r.Some? <==> 0 <= length <= Width(network.family) && NoHostBits(IpPrefix(network, length))
    ensures r.Some? ==> r.value == IpPrefix(network, length)
    ensures network.family == IPv4 ==> (r.Some? <==> 0 <= length <= 32 && ZeroBits(network, length, 32))
    ensures network.family == IPv6 ==> (r.Some? <==> 0 <= length <= 128 && ZeroBits(network, length, 128))
  {
    var maximum := Width(network.family);
    if length < 0 || length > maximum {
      return None;
    }
    var prefix: IpPrefix := IpPrefix(network, length);
    for bit := length to maximum
      invariant forall i | length <= i < bit :: !BitAt(network, i)
    {
      BitByLiteral(network.bytes[bit / 8], bit % 8);
      if network.bytes[bit / 8] & ((0x80 as bv8) >> (bit % 8)) != 0 {
        assert BitAt(network, bit);
        return None;
      }
    }
    return Some(prefix);
  }

  lemma BitByLiteral(b: bv8, i: nat)
    requires i < 8
    ensures b & ((0x80 as bv8) >> i) != 0 <==> BitSet(b, i)
  {
    BitSetLiterals(b);
  }

  ghost predicate ZeroBits(a: IpAddress, first: int, end: nat)
    requires 0 <= first && end <= 128
  {
    forall i | first <= i < end :: !BitAt(a, i)
  }

  // ----- The two families, written out

  /** The big-endian value of the first `n` bytes. */
  function BytesValue(bytes: seq<bv8>, n: nat): nat
    requires n <= |bytes|
  {
    if n == 0 then 0 else 256 * BytesValue(bytes, n - 1) + bytes[n - 1] as nat
  }

  lemma {:induction false} BitsAreBytes(a: IpAddress, n: nat)
    requires n <= 16
    ensures BitsValue(a, 8 * n) == BytesValue(a.bytes, n)
  {
    if n > 0 {
      BitsAreBytes(a, n - 1);
      BitsValueIsBigEndian(a, n - 1);
    }
  }

  // An IPv4 address is the number of its first four bytes, an IPv6 address that of all sixteen.
  lemma AddressValueOfBytes(a: IpAddress)
    ensures a.family == IPv4 ==> AddressValue(a) == BytesValue(a.bytes, 4)
    ensures a.family == IPv6 ==> AddressValue(a) == BytesValue(a.bytes, 16)
  {
    BitsAreBytes(a, 4);
    BitsAreBytes(a, 16);
  }

  lemma IPv4Interval(p: IpPrefix, a: IpAddress)
    requires p.network.family == IPv4 && ZeroBits(p.network, p.length, 32)
    ensures p.length <= 32
    ensures Contains(p, a) <==>
            && a.family == IPv4
            && BytesValue(p.network.bytes, 4) <= BytesValue(a.bytes, 4)
            && BytesValue(a.bytes, 4) < BytesValue(p.network.bytes, 4) + Pow2(32 - p.length)
  {
    ContainsIffInterval(p, a);
    AddressValueOfBytes(a);
    AddressValueOfBytes(p.network);
  }

  lemma IPv6Interval(p: IpPrefix, a: IpAddress)
    requires p.network.family == IPv6 && ZeroBits(p.network, p.length, 128)
    ensures Contains(p, a) <==>
            && a.family == IPv6
            && BytesValue(p.network.bytes, 16) <= BytesValue(a.bytes, 16)
            && BytesValue(a.bytes, 16) < BytesValue(p.network.bytes, 16) + Pow2(128 - p.length)
  {
    ContainsIffInterval(p, a);
    AddressValueOfBytes(a);
    AddressValueOfBytes(p.network);
  }

  // The limits of the fixed-width types are one below a power of two.
  lemma IntegerWidths()
    ensures U8_MAX == Pow2(8) - 1 && U16_MAX == Pow2(16) - 1
    ensures U32_MAX == Pow2(32) - 1 && U64_MAX == Pow2(64) - 1
  {
    assert Pow2(4) == 16 && Pow2(8) == 256 && Pow2(12) == 4096 && Pow2(16) == 65536;
    Pow2Adds(16, 16);
    Pow2Adds(32, 32);
  }

  lemma {:induction false} Pow2Adds(m: nat, n: nat)
    ensures Pow2(m + n) == Pow2(m) * Pow2(n)
  {
    if n > 0 {
      Pow2Adds(m, n - 1);
      assert Pow2(m + n) == 2 * Pow2(m + (n - 1));
      DoubleBlock(Pow2(n - 1), Pow2(m));
    }
  }
}
