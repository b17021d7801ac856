/** One route entry of a RIPv2 message and its 20-octet wire form
    (section 4 of RFC 2453): address family (2), route tag (2), IP address (4),
    subnet mask (4), next hop (4), metric (4), all big-endian. Besides the six
    wire fields the entry carries a soft-state lifetime `ttl` in seconds, which
    is never put on the wire. */
module RipV2Entry {
  import opened JavaTypes
  import opened ByteBuffer
  import opened Outcomes

  const ADDRESS_FAMILY_IPV4: int16 := 2
  /** The lifetime an entry gets on construction and on reset, in seconds. */
  const INITIAL_TTL: int16 := 30
  /** Two shorts and four ints. */
  const ENTRY_LENGTH: int := 2 * 2 + 4 * 4

  /** The six fields of an entry that go on the wire. */
  datatype WireEntry = WireEntry(
    addressFamily: int16,
    routeTag: int16,
    address: int32,
    subnetMask: int32,
    nextHopAddress: int32,
    metric: int32)

  /** The octets `serialize` produces for the wire fields `w`. */
  function Encode(w: WireEntry): (data: seq<uint8>)
    ensures |data| == ENTRY_LENGTH
    ensures GetShort(data, 0) == w.addressFamily && GetShort(data, 2) == w.routeTag
    ensures GetInt(data, 4) == w.address && GetInt(data, 8) == w.subnetMask
    ensures GetInt(data, 12) == w.nextHopAddress && GetInt(data, 16) == w.metric
  {
    var af, tag := PutShort(w.addressFamily), PutShort(w.routeTag);
    var addr, mask, hop, m := PutInt(w.address), PutInt(w.subnetMask), PutInt(w.nextHopAddress), PutInt(w.metric);
    GetPutShort(w.addressFamily, [], tag + addr + mask + hop + m);
    GetPutShort(w.routeTag, af, addr + mask + hop + m);
    GetPutInt(w.address, af + tag, mask + hop + m);
    GetPutInt(w.subnetMask, af + tag + addr, hop + m);
    GetPutInt(w.nextHopAddress, af + tag + addr + mask, m);
    GetPutInt(w.metric, af + tag + addr + mask + hop, []);
    assert af + tag + addr + mask + hop + m == [] + af + (tag + addr + mask + hop + m);
    assert af + tag + addr + mask + hop + m == af + tag + addr + mask + hop + m + [];
    af + tag + addr + mask + hop + m
  }

  /** The wire fields `deserialize` reads from the 20 octets at `offset`. */
  function Decode(data: seq<uint8>, offset: int): WireEntry
    requires 0 <= offset && offset + ENTRY_LENGTH <= |data|
  {
    WireEntry(
      GetShort(data, offset), GetShort(data, offset + 2),
      GetInt(data, offset + 4), GetInt(data, offset + 8),
      GetInt(data, offset + 12), GetInt(data, offset + 16))
  }

  /** Decoding an encoding restores every wire field. */
  lemma DecodeEncode(w: WireEntry)
    ensures Decode(Encode(w), 0) == w
  {
  }

  /** Encoding what was decoded reproduces the octets: the codec is a bijection
      between wire entries and 20-octet strings. */
  lemma EncodeDecode(data: seq<uint8>, offset: int)
    requires 0 <= offset && offset + ENTRY_LENGTH <= |data|
    ensures Encode(Decode(data, offset)) == data[offset..offset + ENTRY_LENGTH]
  {
    var w := Decode(data, offset);
    PutGetShort(data, offset);
    PutGetShort(data, offset + 2);
    PutGetInt(data, offset + 4);
    PutGetInt(data, offset + 8);
    PutGetInt(data, offset + 12);
    PutGetInt(data, offset + 16);
    var s := data[offset..offset + ENTRY_LENGTH];
    assert s == data[offset..offset + 2] + data[offset + 2..offset + 4] + data[offset + 4..offset + 8]
              + data[offset + 8..offset + 12] + data[offset + 12..offset + 16] + data[offset + 16..offset + 20];
  }

  /** The lifetime after `decreaseTtl(decrement)`: a decrement at least as large
      as the lifetime empties it, a negative one leaves it alone, and any other
      is subtracted. */
  function DecreasedTtl(ttl: int16, decrement: int16): (r: int16)
    ensures decrement >= ttl ==> r == 0
    ensures decrement < ttl && decrement < 0 ==> r == ttl
    ensures 0 <= decrement < ttl ==> r as int == ttl as int - decrement as int
  {
    if decrement >= ttl then 0
    else if decrement < 0 then ttl
    else ttl - decrement
  }

  /** A non-negative lifetime never grows and never goes negative, and it
      reaches 0 exactly when a non-negative decrement covers it. */
  lemma DecreasedTtlBounds(ttl: int16, decrement: int16)
    requires ttl >= 0
    ensures 0 <= DecreasedTtl(ttl, decrement) <= ttl
    ensures decrement >= 0 ==> (DecreasedTtl(ttl, decrement) == 0 <==> decrement >= ttl)
  {
  }

  /** The lifetime after `ticks` successive decrements by `step`. */
  function AgedTtl(ttl: int16, step: int16, ticks: nat): int16
  {
    if ticks == 0 then ttl else DecreasedTtl(AgedTtl(ttl, step, ticks - 1), step)
  }

  /** With a positive step, a non-negative lifetime after `n` ticks is the
      old lifetime less `n` steps, floored at 0. */
  lemma {:induction false} AgedTtlSaturates(ttl: int16, step: int16, ticks: nat)
    requires ttl >= 0 && step > 0
    ensures AgedTtl(ttl, step, ticks) as int == if ttl as int - ticks * step as int > 0 then ttl as int - ticks * step as int else 0
  {
    if ticks > 0 {
      AgedTtlSaturates(ttl, step, ticks - 1);
      var before := ttl as int - (ticks - 1) * step as int;
      assert ttl as int - ticks * step as int == before - step as int;
    }
  }

  /** A fresh or reset entry aged by 10-second ticks is still alive after two
      ticks and has lifetime 0 exactly on the third. */
  lemma ExpiresOnThirdTick()
    ensures AgedTtl(INITIAL_TTL, 10, 2) > 0
    ensures AgedTtl(INITIAL_TTL, 10, 3) == 0
  {
    AgedTtlSaturates(INITIAL_TTL, 10, 2);
    AgedTtlSaturates(INITIAL_TTL, 10, 3);
  }

  class RIPv2Entry {
    var addressFamily: int16
    var routeTag: int16
    var address: int32
    var subnetMask: int32
    var nextHopAddress: int32
    var metric: int32
    var ttl: int16

    /** The six fields that go on the wire. */
    function Wire(): WireEntry
      reads this
    {
      WireEntry(addressFamily, routeTag, address, subnetMask, nextHopAddress, metric)
    }

    /** The no-argument constructor: every field keeps Java's default 0. */
    constructor Empty()
      ensures Wire() == WireEntry(0, 0, 0, 0, 0, 0) && ttl == 0
    {
      addressFamily, routeTag := 0, 0;
      address, subnetMask, nextHopAddress, metric := 0, 0, 0, 0;
      ttl := 0;
    }

    /** An IPv4 entry with route tag 0 and a full lifetime. */
    constructor (address: int32, subnetMask: int32, nextHop: int32, metric: int32)
      ensures Wire() == WireEntry(ADDRESS_FAMILY_IPV4, 0, address, subnetMask, nextHop, metric)
      ensures ttl == INITIAL_TTL
    {
      this.routeTag := 0;
      this.addressFamily := ADDRESS_FAMILY_IPV4;
      this.address := address;
      this.subnetMask := subnetMask;
      this.nextHopAddress := nextHop;
      this.metric := metric;
      this.ttl := INITIAL_TTL;
    }

    /** A copy of all seven fields, the lifetime included. */
    constructor Copy(copy: RIPv2Entry)
      ensures Wire() == copy.Wire() && ttl == copy.ttl
    {
      this.routeTag := copy.routeTag;
      this.addressFamily := copy.addressFamily;
      this.address := copy.address;
      this.subnetMask := copy.subnetMask;
      this.nextHopAddress := copy.nextHopAddress;
      this.metric := copy.metric;
      this.ttl := copy.ttl;
    }

    method ResetTtl()
      modifies this`ttl
      ensures ttl == INITIAL_TTL
    {
      ttl := INITIAL_TTL;
    }

    /** Lowers the lifetime by `decrement` (see `DecreasedTtl`) and returns the new lifetime. */
    method DecreaseTtl(decrement: int16) returns (r: int16)
      modifies this`ttl
      ensures ttl == DecreasedTtl(old(ttl), decrement)
      ensures r == ttl
    {
      if decrement >= ttl {
        ttl := 0;
      } else if decrement < 0 {
        return ttl;
      } else {
        ttl := ttl - decrement;
      }
      return ttl;
    }

    method SetAddressFamily(addressFamily: int16)
      modifies this`addressFamily
      ensures this.addressFamily == addressFamily
    {
      this.addressFamily := addressFamily;
    }

    method SetRouteTag(routeTag: int16)
      modifies this`routeTag
      ensures this.routeTag == routeTag
    {
      this.routeTag := routeTag;
    }

    method SetAddress(address: int32)
      modifies this`address
      ensures this.address == address
    {
      this.address := address;
    }

    method SetSubnetMask(subnetMask: int32)
      modifies this`subnetMask
      ensures this.subnetMask == subnetMask
    {
      this.subnetMask := subnetMask;
    }

    method SetNextHopAddress(nextHopAddress: int32)
      modifies this`nextHopAddress
      ensures this.nextHopAddress == nextHopAddress
    {
      this.nextHopAddress := nextHopAddress;
    }

    method SetMetric(metric: int32)
      modifies this`metric
      ensures this.metric == metric
    {
      this.metric := metric;
    }

    /** The entry's 20 octets; reading them back gives the six wire fields. */
    function Serialize(): (data: seq<uint8>)
      reads this
      ensures |data| == ENTRY_LENGTH
      ensures Decode(data, 0) == Wire()
    {
      Encode(Wire())
    }

    /** Overwrites the wire fields from the octets `data[offset..offset + length]`,
        in wire order, as `ByteBuffer` reads them: a window outside `data` raises
        IndexOutOfBounds before anything is read; a window shorter than 20 octets
        raises BufferUnderflow at the first field that no longer fits, after the
        fields before it have been overwritten. The lifetime is never touched. */
    method Deserialize(data: seq<uint8>, offset: int, length: int) returns (r: Result<RIPv2Entry>)
      modifies this`addressFamily, this`routeTag, this`address, this`subnetMask, this`nextHopAddress, this`metric
      ensures r.Ok? <==> 0 <= offset <= |data| && 0 <= length <= |data| - offset && length >= ENTRY_LENGTH
      ensures r.Ok? ==> r.value == this && Wire() == Decode(data, offset)
      ensures r.Err? && r.error == IndexOutOfBounds <==> !(0 <= offset <= |data| && 0 <= length <= |data| - offset)
      ensures r.Err? && r.error == IndexOutOfBounds ==> Wire() == old(Wire())
      ensures r.Err? && r.error == BufferUnderflow ==>
        && addressFamily == (if length >= 2 then GetShort(data, offset) else old(addressFamily))
        && routeTag == (if length >= 4 then GetShort(data, offset + 2) else old(routeTag))
        && address == (if length >= 8 then GetInt(data, offset + 4) else old(address))
        && subnetMask == (if length >= 12 then GetInt(data, offset + 8) else old(subnetMask))
        && nextHopAddress == (if length >= 16 then GetInt(data, offset + 12) else old(nextHopAddress))
        && metric == old(metric)
    {
      if !(0 <= offset <= |data| && 0 <= length <= |data| - offset) {
        return Err(IndexOutOfBounds);
      }
      var position, limit := offset, offset + length;
      if limit - position < 2 { return Err(BufferUnderflow); }
      addressFamily := GetShort(data, position);
      position := position + 2;
      if limit - position < 2 { return Err(BufferUnderflow); }
      routeTag := GetShort(data, position);
      position := position + 2;
      if limit - position < 4 { return Err(BufferUnderflow); }
      address := GetInt(data, position);
      position := position + 4;
      if limit - position < 4 { return Err(BufferUnderflow); }
      subnetMask := GetInt(data, position);
      position := position + 4;
      if limit - position < 4 { return Err(BufferUnderflow); }
      nextHopAddress := GetInt(data, position);
      position := position + 4;
      if limit - position < 4 { return Err(BufferUnderflow); }
      metric := GetInt(data, position);
      return Ok(this);
    }

    /** Java `equals`: the same object, or another entry whose six wire fields
        all agree; the lifetime plays no part. */
    function Equals(obj: RIPv2Entry?): (r: bool)
      reads this, obj
      ensures r <==> obj != null && Wire() == obj.Wire()
    {
      if this == obj then true
      else if obj == null then false
      else if addressFamily != obj.addressFamily then false
      else if routeTag != obj.routeTag then false
      else if address != obj.address then false
      else if subnetMask != obj.subnetMask then false
      else if nextHopAddress != obj.nextHopAddress then false
      else if metric != obj.metric then false
      else true
    }
  }

  lemma EqualsReflexive(e: RIPv2Entry)
    ensures e.Equals(e)
  {
  }

  lemma EqualsSymmetric(a: RIPv2Entry, b: RIPv2Entry)
    ensures a.Equals(b) <==> b.Equals(a)
  {
  }

  lemma EqualsTransitive(a: RIPv2Entry, b: RIPv2Entry, c: RIPv2Entry)
    requires a.Equals(b) && b.Equals(c)
    ensures a.Equals(c)
  {
  }

  /** An entry deserialized from another's serialization `equals` it, whatever
      either lifetime is. */
  method SerializeRoundTrip(e: RIPv2Entry, target: RIPv2Entry) returns (r: Result<RIPv2Entry>)
    modifies target
    ensures r == Ok(target) && target.Equals(e)
  {
    r := target.Deserialize(e.Serialize(), 0, ENTRY_LENGTH);
  }
}
