/** The RIP engine: it keeps the list of RIPv2 entries, builds RIP packets,
    sends a REQUEST out every interface at start-up, and ages the entries on
    each 10-second tick. Removal of expired entries is not implemented (the
    aging tick only lowers lifetimes). */
module RipEngine {
  import opened JavaTypes
  import opened RipV2Entry
  import opened Packets
  import opened Device

  /** The RIPv2 multicast group 224.0.0.9 (section 4.5 of RFC 2453). */
  const MULTICAST_RIP_IP: int32 := IPv4Address(224, 0, 0, 9)
  const BROADCAST_MAC: MacAddress := [0xFF, 0xFF, 0xFF, 0xFF, 0xFF, 0xFF]
  /** Seconds taken off every entry's lifetime per tick. */
  const AGING_STEP: int16 := 10

  /** A RIP packet from `sourceIface`: Ethernet from the interface's MAC to
      `destinationMac` carrying IPv4, IPv4 UDP from the interface's address to
      `destinationIp`, UDP from the RIP port to the RIP port, and a RIPv2
      message with the given command and entries. The IPv4 TTL and the
      checksums are left at their initial 0. */
  function CreateRipPacket(sourceIface: Iface, destinationMac: MacAddress, destinationIp: int32,
                           commandType: uint8, entries: seq<WireEntry>): (packet: Ethernet)
    ensures packet.sourceMac == sourceIface.macAddress && packet.destinationMac == destinationMac
    ensures packet.etherType == TYPE_IPV4 && packet.payload.IpDatagram?
    ensures var ip := packet.payload.ip;
      && ip.protocol == PROTOCOL_UDP
      && ip.sourceAddress == sourceIface.ipAddress
      && ip.destinationAddress == destinationIp
      && ip.payload.UdpSegment?
    ensures var udp := packet.payload.ip.payload.udp;
      && udp.sourcePort == RIP_PORT && udp.destinationPort == RIP_PORT
      && udp.payload == RipPayload(RipMessage(commandType, entries))
  {
    var rip := RipMessage(commandType, entries);
    var udp := UdpPacket(RIP_PORT, RIP_PORT, 0, RipPayload(rip));
    var ip := IPv4Packet(0, PROTOCOL_UDP, 0, sourceIface.ipAddress, destinationIp, UdpSegment(udp));
    Ethernet(sourceIface.macAddress, destinationMac, TYPE_IPV4, IpDatagram(ip))
  }

  /** The start-up burst: one empty REQUEST per interface, in interface order,
      each built by `CreateRipPacket` for the interface it is sent out of, to
      224.0.0.9 and the broadcast MAC. */
  function RequestBurst(interfaces: seq<Iface>): (burst: seq<Transmission>)
    ensures |burst| == |interfaces|
    ensures forall i :: 0 <= i < |interfaces| ==>
      && burst[i].iface == interfaces[i]
      && burst[i].frame == CreateRipPacket(interfaces[i], BROADCAST_MAC, MULTICAST_RIP_IP, COMMAND_REQUEST, [])
      && burst[i].frame.sourceMac == interfaces[i].macAddress
      && burst[i].frame.destinationMac == BROADCAST_MAC
      && burst[i].frame.payload.IpDatagram?
      && burst[i].frame.payload.ip.sourceAddress == interfaces[i].ipAddress
      && burst[i].frame.payload.ip.destinationAddress == MULTICAST_RIP_IP
      && burst[i].frame.payload.ip.payload.UdpSegment?
      && burst[i].frame.payload.ip.payload.udp.payload == RipPayload(RipMessage(COMMAND_REQUEST, []))
  {
    if interfaces == [] then []
    else
      var last := interfaces[|interfaces| - 1];
      RequestBurst(interfaces[..|interfaces| - 1])
        + [Transmission(CreateRipPacket(last, BROADCAST_MAC, MULTICAST_RIP_IP, COMMAND_REQUEST, []), last)]
  }

  class RipProtocol {
    var entries: seq<RIPv2Entry>
    /** The router the engine sends through (absent for the no-argument constructor). */
    const rt: Device?

    /** No entry object is listed twice. */
    ghost predicate Valid()
      reads this
    {
      forall i, j :: 0 <= i < j < |entries| ==> entries[i] != entries[j]
    }

    constructor ()
      ensures Valid() && entries == [] && rt == null
    {
      entries := [];
      rt := null;
    }

    constructor OnDevice(rt: Device)
      ensures Valid() && entries == [] && this.rt == rt
    {
      entries := [];
      this.rt := rt;
    }

    /** The start of `startRip`: a REQUEST out every interface of the router. */
    method SendRequests()
      requires rt != null
      modifies rt`sent
      ensures rt.sent == old(rt.sent) + RequestBurst(rt.interfaces)
    {
      var interfaces := rt.interfaces;
      var i := 0;
      while i < |interfaces|
        invariant 0 <= i <= |interfaces|
        invariant rt.sent == old(rt.sent) + RequestBurst(interfaces[..i])
      {
        var iface := interfaces[i];
        rt.SendPacket(CreateRipPacket(iface, BROADCAST_MAC, MULTICAST_RIP_IP, COMMAND_REQUEST, []), iface);
        assert interfaces[..i + 1][..i] == interfaces[..i];
        i := i + 1;
      }
      assert interfaces[..|interfaces|] == interfaces;
    }

    /** One pass of the `startRip` loop after its sleep: every entry's lifetime
        drops by 10 seconds, floored at 0. No entry is removed and no wire field
        changes. */
    method AgeEntries()
      requires Valid()
      modifies set i | 0 <= i < |entries| :: entries[i]
      ensures entries == old(entries)
      ensures forall i :: 0 <= i < |entries| ==> entries[i].ttl == DecreasedTtl(old(entries[i].ttl), AGING_STEP)
      ensures forall i :: 0 <= i < |entries| ==> entries[i].Wire() == old(entries[i].Wire())
    {
      var i := 0;
      while i < |entries|
        invariant 0 <= i <= |entries|
        invariant forall j :: 0 <= j < i ==> entries[j].ttl == DecreasedTtl(old(entries[j].ttl), AGING_STEP)
        invariant forall j :: i <= j < |entries| ==> entries[j].ttl == old(entries[j].ttl)
        invariant forall j :: 0 <= j < |entries| ==> entries[j].Wire() == old(entries[j].Wire())
      {
        var remaining := entries[i].DecreaseTtl(AGING_STEP);
        i := i + 1;
      }
    }
  }

  /** One aging tick keeps a non-negative lifetime within [0, old lifetime]
      and empties it exactly when it was at most one step. */
  lemma AgingNeverIncreases(ttl: int16)
    requires ttl >= 0
    ensures 0 <= DecreasedTtl(ttl, AGING_STEP) <= ttl
    ensures DecreasedTtl(ttl, AGING_STEP) == 0 <==> ttl <= AGING_STEP
  {
    DecreasedTtlBounds(ttl, AGING_STEP);
  }
}
