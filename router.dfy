/** The router's per-frame logic: drop anything that is not IPv4, verify the
    IPv4 header checksum, decrement the TTL and drop at 0, hand RIP traffic
    addressed to the router to the RIP handlers, and forward everything else by
    route lookup and ARP. Collaborators the router only calls (the checksum
    computations, the RIP engine's merge and snapshot, the ARP cache) are fixed
    functions and a map; the route table is a value the router reassigns; the
    device's transmissions go to its output log. */
module Router {
  import opened JavaTypes
  import opened RipV2Entry
  import opened Packets
  import opened Device
  import opened RouteTable
  import opened RipEngine

  /** One call `addRIPEntry(entry, sourceIp)` made to the RIP engine. */
  datatype Offer = Offer(entry: WireEntry, sourceIp: int32)

  /** What the router consults but never changes. The RIP engine's answers are
      functions of the offers it has been made so far. */
  datatype Collaborators = Collaborators(
    arpCache: map<int32, MacAddress>,
    ipChecksum: IPv4Packet -> int16,
    udpChecksum: (IPv4Packet, UdpPacket) -> int16,
    addRipEntry: (seq<Offer>, Offer) -> bool,
    ripTableCopy: seq<Offer> -> seq<WireEntry>)

  /** What a frame can change: the route table, the offers made to the RIP
      engine, and the device's output log. */
  datatype RouterState = RouterState(routeTable: seq<RouteEntry>, offers: seq<Offer>, sent: seq<Transmission>)

  // ---------------------------------------------------------------------
  // The per-frame decision, as functions of the state before the frame.
  // ---------------------------------------------------------------------

  /** Addressed to the router: to one of its interface addresses, or to the RIP
      multicast group (which counts only once some interface exists, since the
      router checks it while walking its interfaces). */
  predicate IsLocalDestination(interfaces: seq<Iface>, dst: int32)
  {
    exists j :: 0 <= j < |interfaces| && (dst == interfaces[j].ipAddress || dst == MULTICAST_RIP_IP)
  }

  /** UDP from the RIP port to the RIP port. */
  predicate IsRipDatagram(ip: IPv4Packet)
  {
    && ip.protocol == PROTOCOL_UDP
    && ip.payload.UdpSegment?
    && ip.payload.udp.destinationPort == RIP_PORT
    && ip.payload.udp.sourcePort == RIP_PORT
  }

  /** The gateway when the route has one, else the destination itself. */
  function NextHop(route: RouteEntry, dst: int32): (hop: int32)
    ensures route.gatewayAddress != 0 ==> hop == route.gatewayAddress
    ensures route.gatewayAddress == 0 ==> hop == dst
  {
    if route.gatewayAddress == 0 then dst else route.gatewayAddress
  }

  function HandleFrame(interfaces: seq<Iface>, c: Collaborators, s: RouterState, frame: Ethernet, inIface: Iface): RouterState
  {
    if frame.etherType != TYPE_IPV4 then s
    else HandleIp(interfaces, c, s, frame, inIface)
  }

  function HandleIp(interfaces: seq<Iface>, c: Collaborators, s: RouterState, frame: Ethernet, inIface: Iface): RouterState
  {
    if frame.etherType != TYPE_IPV4 || !frame.payload.IpDatagram? then s
    else
      var ip := frame.payload.ip;
      if c.ipChecksum(ip.(checksum := 0)) != ip.checksum then s
      else if DecrementOctet(ip.ttl) == 0 then s
      else
        var ip' := ip.(ttl := DecrementOctet(ip.ttl), checksum := 0);
        if IsLocalDestination(interfaces, ip'.destinationAddress) then
          if IsRipDatagram(ip') then HandleRip(c, s, ip', inIface) else s
        else Forward(c, s, frame.(payload := IpDatagram(ip')), inIface)
  }

  function HandleRip(c: Collaborators, s: RouterState, ip: IPv4Packet, inIface: Iface): RouterState
  {
    match ip.payload
    case IpData(_) => s
    case UdpSegment(udp) =>
      if c.udpChecksum(ip, udp.(checksum := 0)) != udp.checksum then s
      else match udp.payload
        case UdpData(_) => s
        case RipPayload(rip) =>
          if rip.command == COMMAND_REQUEST then ReplyToRequest(c, s, inIface, ip.sourceAddress)
          else if rip.command == COMMAND_RESPONSE then ApplyResponse(c, s, rip.entries, ip.sourceAddress, inIface)
          else s
  }

  /** The RESPONSE sent back for a REQUEST: the RIP engine's current table, out
      the ingress interface, to the requester's IP address. */
  function Reply(c: Collaborators, s: RouterState, inIface: Iface, sourceIp: int32): Transmission
  {
    Transmission(CreateRipPacket(inIface, inIface.macAddress, sourceIp, COMMAND_RESPONSE, c.ripTableCopy(s.offers)), inIface)
  }

  function ReplyToRequest(c: Collaborators, s: RouterState, inIface: Iface, sourceIp: int32): RouterState
  {
    s.(sent := s.sent + [Reply(c, s, inIface, sourceIp)])
  }

  /** A carried entry one hop further away. */
  function Incremented(w: WireEntry): WireEntry
  {
    w.(metric := AddInt(w.metric, 1))
  }

  /** One `addRIPEntry` call and, when the engine accepts, the route-table
      update-or-insert for the entry's network via the sender. */
  function AcceptOffer(c: Collaborators, s: RouterState, offer: Offer, inIface: Iface): RouterState
  {
    var table :=
      if c.addRipEntry(s.offers, offer)
      then Install(s.routeTable, offer.entry.address, offer.entry.subnetMask, offer.sourceIp, inIface)
      else s.routeTable;
    RouterState(table, s.offers + [offer], s.sent)
  }

  /** The carried entries, in order, each offered with its metric plus one. */
  function ApplyResponse(c: Collaborators, s: RouterState, entries: seq<WireEntry>, sourceIp: int32, inIface: Iface): RouterState
    decreases |entries|
  {
    if entries == [] then s
    else
      var before := ApplyResponse(c, s, entries[..|entries| - 1], sourceIp, inIface);
      AcceptOffer(c, before, Offer(Incremented(entries[|entries| - 1]), sourceIp), inIface)
  }

  function Forward(c: Collaborators, s: RouterState, frame: Ethernet, inIface: Iface): RouterState
  {
    if frame.etherType != TYPE_IPV4 || !frame.payload.IpDatagram? then s
    else
      var dst := frame.payload.ip.destinationAddress;
      match Lookup(s.routeTable, dst)
      case None => s
      case Some(best) =>
        if best.iface == inIface then s
        else
          var nextHop := NextHop(best, dst);
          if nextHop !in c.arpCache then s
          else
            var out := frame.(sourceMac := best.iface.macAddress, destinationMac := c.arpCache[nextHop]);
            s.(sent := s.sent + [Transmission(out, best.iface)])
  }

  // ---------------------------------------------------------------------
  // The router object.
  // ---------------------------------------------------------------------

  class Router {
    const device: Device
    const collaborators: Collaborators
    var routeTable: seq<RouteEntry>
    /** Every call made to the RIP engine's `addRIPEntry`, oldest first. */
    var offers: seq<Offer>

    function Current(): RouterState
      reads this, device
    {
      RouterState(routeTable, offers, device.sent)
    }

    /** A router on `device` whose route table and ARP cache are already loaded. */
    constructor (device: Device, collaborators: Collaborators, routeTable: seq<RouteEntry>)
      ensures this.device == device && this.collaborators == collaborators
      ensures this.routeTable == routeTable && offers == []
    {
      this.device := device;
      this.collaborators := collaborators;
      this.routeTable := routeTable;
      offers := [];
    }

    method HandlePacket(etherPacket: Ethernet, inIface: Iface)
      modifies this, device
      ensures Current() == HandleFrame(device.interfaces, collaborators, old(Current()), etherPacket, inIface)
    {
      if etherPacket.etherType == TYPE_IPV4 {
        HandleIpPacket(etherPacket, inIface);
      }
    }

    method HandleRipRequest(rip: RipMessage, inIface: Iface, sourceIp: int32)
      modifies device
      ensures Current() == ReplyToRequest(collaborators, old(Current()), inIface, sourceIp)
    {
      var packet := CreateRipPacket(inIface, inIface.macAddress, sourceIp, COMMAND_RESPONSE, collaborators.ripTableCopy(offers));
      device.SendPacket(packet, inIface);
    }

    method HandleRipResponse(rip: RipMessage, inIface: Iface, sourceIp: int32)
      modifies this
      ensures Current() == ApplyResponse(collaborators, old(Current()), rip.entries, sourceIp, inIface)
    {
      var i := 0;
      while i < |rip.entries|
        invariant 0 <= i <= |rip.entries|
        invariant Current() == ApplyResponse(collaborators, old(Current()), rip.entries[..i], sourceIp, inIface)
      {
        var r := rip.entries[i];
        r := r.(metric := AddInt(r.metric, 1));
        var res := collaborators.addRipEntry(offers, Offer(r, sourceIp));
        offers := offers + [Offer(r, sourceIp)];
        if res {
          var (ex, updated) := Update(routeTable, r.address, r.subnetMask, sourceIp, inIface);
          routeTable := updated;
          if !ex {
            routeTable := Insert(routeTable, r.address, r.subnetMask, sourceIp, inIface);
          }
        }
        assert rip.entries[..i + 1][..i] == rip.entries[..i];
        i := i + 1;
      }
      assert rip.entries[..|rip.entries|] == rip.entries;
    }

    method HandleRipPacket(ipPacket: IPv4Packet, inIface: Iface)
      modifies this, device
      ensures Current() == HandleRip(collaborators, old(Current()), ipPacket, inIface)
    {
      if !ipPacket.payload.UdpSegment? {
        return;
      }
      var udpPacket := ipPacket.payload.udp;
      var origCksum := udpPacket.checksum;
      udpPacket := udpPacket.(checksum := 0);
      var calcCksum := collaborators.udpChecksum(ipPacket, udpPacket);
      udpPacket := udpPacket.(checksum := calcCksum);
      if origCksum != calcCksum {
        return;
      }
      if !udpPacket.payload.RipPayload? {
        return;  // the cast to a RIPv2 message fails
      }
      var ripPacket := udpPacket.payload.rip;
      var sourceIp := ipPacket.sourceAddress;
      if ripPacket.command == COMMAND_REQUEST {
        HandleRipRequest(ripPacket, inIface, sourceIp);
      } else if ripPacket.command == COMMAND_RESPONSE {
        HandleRipResponse(ripPacket, inIface, sourceIp);
      }
    }

    method HandleIpPacket(etherPacket: Ethernet, inIface: Iface)
      modifies this, device
      ensures Current() == HandleIp(device.interfaces, collaborators, old(Current()), etherPacket, inIface)
    {
      if etherPacket.etherType != TYPE_IPV4 {
        return;
      }
      if !etherPacket.payload.IpDatagram? {
        return;  // the cast to an IPv4 packet fails
      }
      var ipPacket := etherPacket.payload.ip;

      // Verify the checksum: recompute it over the header with the field zeroed.
      var origCksum := ipPacket.checksum;
      ipPacket := ipPacket.(checksum := 0);
      var calcCksum := collaborators.ipChecksum(ipPacket);
      ipPacket := ipPacket.(checksum := calcCksum);
      if origCksum != calcCksum {
        return;
      }

      ipPacket := ipPacket.(ttl := DecrementOctet(ipPacket.ttl));
      if ipPacket.ttl == 0 {
        return;
      }
      ipPacket := ipPacket.(checksum := 0);
      assert ipPacket == etherPacket.payload.ip.(ttl := DecrementOctet(etherPacket.payload.ip.ttl), checksum := 0);

      var interfaces := device.interfaces;
      var dst := ipPacket.destinationAddress;
      var i := 0;
      while i < |interfaces|
        invariant 0 <= i <= |interfaces|
        invariant !IsLocalDestination(interfaces[..i], dst)
        invariant Current() == old(Current())
      {
        if dst == interfaces[i].ipAddress || dst == MULTICAST_RIP_IP {
          assert IsLocalDestination(interfaces, dst);
          if ipPacket.protocol == PROTOCOL_UDP {
            if !ipPacket.payload.UdpSegment? {
              return;  // the cast to a UDP datagram fails
            }
            var udpPacket := ipPacket.payload.udp;
            if udpPacket.destinationPort == RIP_PORT && udpPacket.sourcePort == RIP_PORT {
              HandleRipPacket(ipPacket, inIface);
              return;
            }
          }
          assert !IsRipDatagram(ipPacket);
          return;
        }
        assert interfaces[..i + 1] == interfaces[..i] + [interfaces[i]];
        i := i + 1;
      }

      assert interfaces[..i] == interfaces;
      ForwardIpPacket(etherPacket.(payload := IpDatagram(ipPacket)), inIface);
    }

    method ForwardIpPacket(etherPacket: Ethernet, inIface: Iface)
      modifies device
      ensures Current() == Forward(collaborators, old(Current()), etherPacket, inIface)
    {
      if etherPacket.etherType != TYPE_IPV4 {
        return;
      }
      if !etherPacket.payload.IpDatagram? {
        return;
      }
      var ipPacket := etherPacket.payload.ip;
      var dstAddr := ipPacket.destinationAddress;

      var bestMatch := Lookup(routeTable, dstAddr);
      if bestMatch.None? {
        return;
      }

      // Never send a packet back out the interface it came in on.
      var outIface := bestMatch.value.iface;
      if outIface == inIface {
        return;
      }

      var frame := etherPacket.(sourceMac := outIface.macAddress);

      var nextHop := bestMatch.value.gatewayAddress;
      if nextHop == 0 {
        nextHop := dstAddr;
      }

      if nextHop !in collaborators.arpCache {
        return;
      }
      frame := frame.(destinationMac := collaborators.arpCache[nextHop]);

      device.SendPacket(frame, outIface);
    }
  }
}
