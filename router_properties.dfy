/** What the router's per-frame decision guarantees, proved about the
    functions the router's methods are verified against. */
module RouterProperties {
  import opened JavaTypes
  import opened RipV2Entry
  import opened Packets
  import opened RouteTable
  import opened RipEngine
  import opened Router

  /** The offers a RESPONSE makes: each carried entry, metric plus one, from the sender. */
  function OffersFor(entries: seq<WireEntry>, sourceIp: int32): (offers: seq<Offer>)
    ensures |offers| == |entries|
    ensures forall i :: 0 <= i < |entries| ==> offers[i] == Offer(Incremented(entries[i]), sourceIp)
  {
    seq(|entries|, i requires 0 <= i < |entries| => Offer(Incremented(entries[i]), sourceIp))
  }

  // ----- drops before any routing decision -----

  /** A frame that is not IPv4 changes nothing and sends nothing. */
  lemma NonIpv4FrameIgnored(interfaces: seq<Iface>, c: Collaborators, s: RouterState, frame: Ethernet, inIface: Iface)
    requires frame.etherType != TYPE_IPV4
    ensures HandleFrame(interfaces, c, s, frame, inIface) == s
  {
  }

  /** A header whose checksum differs from the recomputed one changes nothing. */
  lemma BadIpChecksumDropped(interfaces: seq<Iface>, c: Collaborators, s: RouterState, frame: Ethernet, inIface: Iface)
    requires frame.payload.IpDatagram?
    requires c.ipChecksum(frame.payload.ip.(checksum := 0)) != frame.payload.ip.checksum
    ensures HandleFrame(interfaces, c, s, frame, inIface) == s
  {
  }

  /** The packet is dropped exactly when its TTL arrives as 1: a TTL of 1
      changes nothing, and any other TTL (0 included, which wraps to 255) goes
      on to the routing decision with the decremented TTL and a cleared
      checksum. */
  lemma TtlExpiry(interfaces: seq<Iface>, c: Collaborators, s: RouterState, frame: Ethernet, inIface: Iface)
    requires frame.etherType == TYPE_IPV4 && frame.payload.IpDatagram?
    requires c.ipChecksum(frame.payload.ip.(checksum := 0)) == frame.payload.ip.checksum
    ensures var ip := frame.payload.ip;
      var ip' := ip.(ttl := DecrementOctet(ip.ttl), checksum := 0);
      && (ip.ttl == 1 ==> HandleFrame(interfaces, c, s, frame, inIface) == s)
      && (ip.ttl != 1 ==>
            HandleFrame(interfaces, c, s, frame, inIface) ==
              if IsLocalDestination(interfaces, ip.destinationAddress) then
                (if IsRipDatagram(ip') then HandleRip(c, s, ip', inIface) else s)
              else Forward(c, s, frame.(payload := IpDatagram(ip')), inIface))
      && (ip.ttl == 0 ==> ip'.ttl == 255)
  {
  }

  // ----- locally destined traffic -----

  /** Traffic for the router is never forwarded: anything not RIP is consumed
      with no effect, and RIP traffic can at most add the one RESPONSE sent
      back out the ingress interface to the sender. */
  lemma LocalTrafficNotForwarded(interfaces: seq<Iface>, c: Collaborators, s: RouterState, frame: Ethernet, inIface: Iface)
    requires frame.etherType == TYPE_IPV4 && frame.payload.IpDatagram?
    requires IsLocalDestination(interfaces, frame.payload.ip.destinationAddress)
    ensures var r := HandleFrame(interfaces, c, s, frame, inIface);
      var ip := frame.payload.ip;
      && (!IsRipDatagram(ip) ==> r == s)
      && (r.sent == s.sent || r.sent == s.sent + [Reply(c, s, inIface, ip.sourceAddress)])
  {
    var ip := frame.payload.ip;
    if c.ipChecksum(ip.(checksum := 0)) == ip.checksum && DecrementOctet(ip.ttl) != 0 {
      var ip' := ip.(ttl := DecrementOctet(ip.ttl), checksum := 0);
      if IsRipDatagram(ip') {
        RipHandling(c, s, ip', inIface);
      }
    }
  }

  /** The RIP handler ignores a datagram whose UDP checksum is wrong or whose
      command is neither REQUEST nor RESPONSE; a REQUEST adds exactly one
      RESPONSE out the ingress interface to the requester and changes nothing
      else; a RESPONSE sends nothing and offers every carried entry, metric
      plus one, in order. */
  lemma RipHandling(c: Collaborators, s: RouterState, ip: IPv4Packet, inIface: Iface)
    requires ip.payload.UdpSegment?
    ensures var r := HandleRip(c, s, ip, inIface);
      var udp := ip.payload.udp;
      && (c.udpChecksum(ip, udp.(checksum := 0)) != udp.checksum ==> r == s)
      && ((udp.payload.RipPayload? && udp.payload.rip.command != COMMAND_REQUEST
             && udp.payload.rip.command != COMMAND_RESPONSE) ==> r == s)
      && (r.sent == s.sent || r.sent == s.sent + [Reply(c, s, inIface, ip.sourceAddress)])
      && (c.udpChecksum(ip, udp.(checksum := 0)) == udp.checksum && udp.payload.RipPayload? ==>
            && (udp.payload.rip.command == COMMAND_REQUEST ==>
                  r == s.(sent := s.sent + [Reply(c, s, inIface, ip.sourceAddress)]))
            && (udp.payload.rip.command == COMMAND_RESPONSE ==>
                  && r.sent == s.sent
                  && r.offers == s.offers + OffersFor(udp.payload.rip.entries, ip.sourceAddress)))
  {
    var udp := ip.payload.udp;
    if udp.payload.RipPayload? {
      ResponseOffers(c, s, udp.payload.rip.entries, ip.sourceAddress, inIface);
    }
  }

  /** The REQUEST reply: out the ingress interface from its MAC and address,
      to the requester's IP address, carrying the RIP engine's table as a
      RESPONSE between RIP ports. Its destination MAC is the ingress
      interface's own MAC, as the router builds it. */
  lemma ReplyShape(c: Collaborators, s: RouterState, inIface: Iface, sourceIp: int32)
    ensures var t := Reply(c, s, inIface, sourceIp);
      && t.iface == inIface
      && t.frame.sourceMac == inIface.macAddress && t.frame.destinationMac == inIface.macAddress
      && t.frame.payload.IpDatagram?
      && t.frame.payload.ip.sourceAddress == inIface.ipAddress
      && t.frame.payload.ip.destinationAddress == sourceIp
      && IsRipDatagram(t.frame.payload.ip)
      && t.frame.payload.ip.payload.udp.payload == RipPayload(RipMessage(COMMAND_RESPONSE, c.ripTableCopy(s.offers)))
  {
  }

  // ----- RESPONSE handling -----

  /** A RESPONSE sends nothing, and the RIP engine is offered each carried
      entry in order, with exactly one added to its metric, from the sender. */
  lemma {:induction false} ResponseOffers(c: Collaborators, s: RouterState, entries: seq<WireEntry>, sourceIp: int32, inIface: Iface)
    ensures ApplyResponse(c, s, entries, sourceIp, inIface).sent == s.sent
    ensures ApplyResponse(c, s, entries, sourceIp, inIface).offers == s.offers + OffersFor(entries, sourceIp)
  {
    if entries != [] {
      var n := |entries| - 1;
      ResponseOffers(c, s, entries[..n], sourceIp, inIface);
      assert OffersFor(entries, sourceIp) == OffersFor(entries[..n], sourceIp) + [Offer(Incremented(entries[n]), sourceIp)];
    }
  }

  /** An offer the RIP engine turns down leaves the route table as it was. */
  lemma RejectedOfferLeavesTable(c: Collaborators, s: RouterState, offer: Offer, inIface: Iface)
    requires !c.addRipEntry(s.offers, offer)
    ensures AcceptOffer(c, s, offer, inIface).routeTable == s.routeTable
    ensures AcceptOffer(c, s, offer, inIface).offers == s.offers + [offer]
  {
  }

  /** An offer the RIP engine accepts installs a route for the entry's network
      via the sender and the ingress interface, keeps every route to another
      network, and adds no route to another network. */
  lemma AcceptedOfferInstallsRoute(c: Collaborators, s: RouterState, offer: Offer, inIface: Iface)
    requires c.addRipEntry(s.offers, offer)
    ensures var table := AcceptOffer(c, s, offer, inIface).routeTable;
      var network := Network(offer.entry.address, offer.entry.subnetMask);
      && RouteEntry(offer.entry.address, offer.entry.subnetMask, offer.sourceIp, inIface) in table
      && (forall e :: e in s.routeTable && Key(e) != network ==> e in table)
      && (forall e :: e in table && Key(e) != network ==> e in s.routeTable)
  {
    InstallSpec(s.routeTable, offer.entry.address, offer.entry.subnetMask, offer.sourceIp, inIface);
  }

  /** Every carried entry the RIP engine accepted has, after the whole
      RESPONSE, a route for its network via the sender out the ingress
      interface. */
  lemma {:induction false} AcceptedRoutesInstalled(c: Collaborators, s: RouterState, entries: seq<WireEntry>, sourceIp: int32, inIface: Iface, i: int)
    requires 0 <= i < |entries|
    requires c.addRipEntry(ApplyResponse(c, s, entries[..i], sourceIp, inIface).offers, Offer(Incremented(entries[i]), sourceIp))
    ensures RouteEntry(entries[i].address, entries[i].subnetMask, sourceIp, inIface) in ApplyResponse(c, s, entries, sourceIp, inIface).routeTable
  {
    var n := |entries| - 1;
    var before := ApplyResponse(c, s, entries[..n], sourceIp, inIface);
    var last := Offer(Incremented(entries[n]), sourceIp);
    var route := RouteEntry(entries[i].address, entries[i].subnetMask, sourceIp, inIface);
    if i == n {
      assert entries[..n] == entries[..i];
      AcceptedOfferInstallsRoute(c, before, last, inIface);
    } else {
      assert entries[..n][..i] == entries[..i] && entries[..n][i] == entries[i];
      AcceptedRoutesInstalled(c, s, entries[..n], sourceIp, inIface, i);
      assert route in before.routeTable;
      var after := AcceptOffer(c, before, last, inIface);
      assert ApplyResponse(c, s, entries, sourceIp, inIface) == after;
      if c.addRipEntry(before.offers, last) {
        AcceptedOfferInstallsRoute(c, before, last, inIface);
        if Key(route) == Network(last.entry.address, last.entry.subnetMask) {
          assert route == RouteEntry(last.entry.address, last.entry.subnetMask, last.sourceIp, inIface);
        }
      }
    }
  }

  /** A RESPONSE touches only the networks it carries: every route afterwards
      was there before or is a route via the sender for a carried network, and
      every route to a network the RESPONSE does not carry survives. */
  lemma {:induction false} ResponseTouchesOnlyCarriedNetworks(c: Collaborators, s: RouterState, entries: seq<WireEntry>, sourceIp: int32, inIface: Iface)
    ensures var table := ApplyResponse(c, s, entries, sourceIp, inIface).routeTable;
      && (forall e :: e in table ==>
            e in s.routeTable || exists k :: 0 <= k < |entries| && e == RouteEntry(entries[k].address, entries[k].subnetMask, sourceIp, inIface))
      && (forall e :: e in s.routeTable && (forall k :: 0 <= k < |entries| ==> Key(e) != Network(entries[k].address, entries[k].subnetMask)) ==>
            e in table)
  {
    if entries != [] {
      var n := |entries| - 1;
      var before := ApplyResponse(c, s, entries[..n], sourceIp, inIface);
      var last := Offer(Incremented(entries[n]), sourceIp);
      ResponseTouchesOnlyCarriedNetworks(c, s, entries[..n], sourceIp, inIface);
      var table := ApplyResponse(c, s, entries, sourceIp, inIface).routeTable;
      if c.addRipEntry(before.offers, last) {
        AcceptedOfferInstallsRoute(c, before, last, inIface);
        forall e | e in table
          ensures e in s.routeTable || exists k :: 0 <= k < |entries| && e == RouteEntry(entries[k].address, entries[k].subnetMask, sourceIp, inIface)
        {
          if Key(e) == Network(last.entry.address, last.entry.subnetMask) {
            InstallSpec(before.routeTable, last.entry.address, last.entry.subnetMask, sourceIp, inIface);
            if e !in before.routeTable {
              assert e == RouteEntry(entries[n].address, entries[n].subnetMask, sourceIp, inIface) by {
                InstallOnlyAddsItsRoute(before.routeTable, last.entry.address, last.entry.subnetMask, sourceIp, inIface, e);
              }
            } else {
              ExistsInPrefix(entries, n, sourceIp, inIface, e, s.routeTable);
            }
          } else {
            ExistsInPrefix(entries, n, sourceIp, inIface, e, s.routeTable);
          }
        }
      } else {
        forall e | e in table
          ensures e in s.routeTable || exists k :: 0 <= k < |entries| && e == RouteEntry(entries[k].address, entries[k].subnetMask, sourceIp, inIface)
        {
          ExistsInPrefix(entries, n, sourceIp, inIface, e, s.routeTable);
        }
      }
      forall e | e in s.routeTable && (forall k :: 0 <= k < |entries| ==> Key(e) != Network(entries[k].address, entries[k].subnetMask))
        ensures e in table
      {
        assert forall k :: 0 <= k < n ==> entries[..n][k] == entries[k];
        assert Key(e) != Network(entries[n].address, entries[n].subnetMask);
      }
    }
  }

  /** A route of a table built by `Install` for a network that was not there
      and is not in the old table is the installed route. */
  lemma InstallOnlyAddsItsRoute(table: seq<RouteEntry>, address: int32, mask: int32, gateway: int32, iface: Iface, e: RouteEntry)
    requires e in Install(table, address, mask, gateway, iface) && e !in table
    ensures e == RouteEntry(address, mask, gateway, iface)
  {
    var (found, updated) := Update(table, address, mask, gateway, iface);
    if found {
      var k :| 0 <= k < |table| && Key(table[k]) == Network(address, mask) && updated == table[k := RouteEntry(address, mask, gateway, iface)];
      var j :| 0 <= j < |updated| && updated[j] == e;
      assert j == k;
    }
  }

  /** Carries the "came from a carried entry" fact from the first `n` entries to all of them. */
  lemma ExistsInPrefix(entries: seq<WireEntry>, n: int, sourceIp: int32, inIface: Iface, e: RouteEntry, oldTable: seq<RouteEntry>)
    requires 0 <= n <= |entries|
    requires e in oldTable || exists k :: 0 <= k < |entries[..n]| && e == RouteEntry(entries[..n][k].address, entries[..n][k].subnetMask, sourceIp, inIface)
    ensures e in oldTable || exists k :: 0 <= k < |entries| && e == RouteEntry(entries[k].address, entries[k].subnetMask, sourceIp, inIface)
  {
    if e !in oldTable {
      var k :| 0 <= k < |entries[..n]| && e == RouteEntry(entries[..n][k].address, entries[..n][k].subnetMask, sourceIp, inIface);
      assert entries[..n][k] == entries[k];
    }
  }

  /** A RESPONSE keeps the route table at one route per network. */
  lemma {:induction false} ResponseKeepsUniqueRoutes(c: Collaborators, s: RouterState, entries: seq<WireEntry>, sourceIp: int32, inIface: Iface)
    requires UniqueKeys(s.routeTable)
    ensures UniqueKeys(ApplyResponse(c, s, entries, sourceIp, inIface).routeTable)
  {
    if entries != [] {
      var n := |entries| - 1;
      var before := ApplyResponse(c, s, entries[..n], sourceIp, inIface);
      ResponseKeepsUniqueRoutes(c, s, entries[..n], sourceIp, inIface);
      var last := Offer(Incremented(entries[n]), sourceIp);
      InstallSpec(before.routeTable, last.entry.address, last.entry.subnetMask, sourceIp, inIface);
    }
  }

  // ----- forwarding -----

  /** Forwarding sends at most one frame and changes nothing else. It sends
      exactly when the lookup finds a route whose interface is not the ingress
      interface and the ARP cache knows the next hop; the frame then goes out
      the route's interface, from that interface's MAC to the next hop's MAC,
      with the rest of the frame as it came. */
  lemma ForwardingDecision(c: Collaborators, s: RouterState, frame: Ethernet, inIface: Iface)
    requires frame.etherType == TYPE_IPV4 && frame.payload.IpDatagram?
    ensures var r := Forward(c, s, frame, inIface);
      var dst := frame.payload.ip.destinationAddress;
      var best := Lookup(s.routeTable, dst);
      var sends := best.Some? && best.value.iface != inIface && NextHop(best.value, dst) in c.arpCache;
      && r.routeTable == s.routeTable && r.offers == s.offers
      && (!sends ==> r.sent == s.sent)
      && (sends ==>
            && |r.sent| == |s.sent| + 1 && r.sent[..|s.sent|] == s.sent
            && var t := r.sent[|s.sent|];
            && t.iface == best.value.iface && t.iface != inIface
            && t.frame.sourceMac == t.iface.macAddress
            && t.frame.destinationMac == c.arpCache[NextHop(best.value, dst)]
            && t.frame.etherType == frame.etherType && t.frame.payload == frame.payload)
  {
  }

  /** A transit packet (one not addressed to the router) is never sent back
      out the interface it arrived on. */
  lemma NoReflection(interfaces: seq<Iface>, c: Collaborators, s: RouterState, frame: Ethernet, inIface: Iface)
    requires frame.payload.IpDatagram? && !IsLocalDestination(interfaces, frame.payload.ip.destinationAddress)
    ensures var r := HandleFrame(interfaces, c, s, frame, inIface);
      forall k :: |s.sent| <= k < |r.sent| ==> r.sent[k].iface != inIface
  {
    var ip := frame.payload.ip;
    if frame.etherType == TYPE_IPV4 && c.ipChecksum(ip.(checksum := 0)) == ip.checksum && DecrementOctet(ip.ttl) != 0 {
      var ip' := ip.(ttl := DecrementOctet(ip.ttl), checksum := 0);
      ForwardingDecision(c, s, frame.(payload := IpDatagram(ip')), inIface);
    }
  }

  // ----- whole-frame invariants -----

  /** Every frame adds at most one transmission and never rewrites the log. */
  lemma AtMostOneSendPerFrame(interfaces: seq<Iface>, c: Collaborators, s: RouterState, frame: Ethernet, inIface: Iface)
    ensures var r := HandleFrame(interfaces, c, s, frame, inIface);
      |s.sent| <= |r.sent| <= |s.sent| + 1 && r.sent[..|s.sent|] == s.sent
  {
    if frame.etherType == TYPE_IPV4 && frame.payload.IpDatagram? {
      var ip := frame.payload.ip;
      if c.ipChecksum(ip.(checksum := 0)) == ip.checksum && DecrementOctet(ip.ttl) != 0 {
        var ip' := ip.(ttl := DecrementOctet(ip.ttl), checksum := 0);
        if IsLocalDestination(interfaces, ip'.destinationAddress) {
          if IsRipDatagram(ip') {
            RipHandling(c, s, ip', inIface);
          }
        } else {
          ForwardingDecision(c, s, frame.(payload := IpDatagram(ip')), inIface);
        }
      }
    }
  }

  /** Every frame keeps the route table at one route per network. */
  lemma FrameKeepsUniqueRoutes(interfaces: seq<Iface>, c: Collaborators, s: RouterState, frame: Ethernet, inIface: Iface)
    requires UniqueKeys(s.routeTable)
    ensures UniqueKeys(HandleFrame(interfaces, c, s, frame, inIface).routeTable)
  {
    if frame.etherType == TYPE_IPV4 && frame.payload.IpDatagram? {
      var ip := frame.payload.ip;
      if c.ipChecksum(ip.(checksum := 0)) == ip.checksum && DecrementOctet(ip.ttl) != 0 {
        var ip' := ip.(ttl := DecrementOctet(ip.ttl), checksum := 0);
        if IsLocalDestination(interfaces, ip'.destinationAddress) && IsRipDatagram(ip') {
          var udp := ip'.payload.udp;
          if udp.payload.RipPayload? {
            ResponseKeepsUniqueRoutes(c, s, udp.payload.rip.entries, ip'.sourceAddress, inIface);
          }
        }
      }
    }
  }

  // ----- RIP packets between routers -----

  /** The packets the RIP engine builds are RIP datagrams, and the multicast
      group they go to counts as local on any router that has an interface. */
  lemma RipPacketsAreRipTraffic(sourceIface: Iface, destinationMac: MacAddress, commandType: uint8,
                                entries: seq<WireEntry>, interfaces: seq<Iface>)
    ensures IsRipDatagram(CreateRipPacket(sourceIface, destinationMac, MULTICAST_RIP_IP, commandType, entries).payload.ip)
    ensures |interfaces| > 0 <==> IsLocalDestination(interfaces, MULTICAST_RIP_IP)
  {
    if |interfaces| > 0 {
      assert interfaces[0].ipAddress == interfaces[0].ipAddress;
    }
  }
}
