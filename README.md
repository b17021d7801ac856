# A software router with simplified RIPv2, modelled in Dafny

The system is a small software router for an emulated network. It forwards
IPv4 frames between its interfaces, and it runs a simplified RIP version 2 to
learn routes from neighbouring routers. This project models three parts of it
and proves properties of them:

- **The RIPv2 route entry** (`RIPv2Entry`). It has six wire fields: address
  family, route tag, network address, subnet mask, next hop and metric. It also
  has a soft-state lifetime `ttl` in seconds. The 20-octet wire form follows
  section 4 of RFC 2453, big-endian. The model proves that the codec is a
  bijection between wire entries and 20-octet strings. It proves that `equals`
  compares exactly the wire fields. It proves how the saturating `decreaseTtl`
  moves the lifetime, and that an entry reset to 30 s reaches 0 exactly on its
  third 10-second tick.
- **The router's per-frame decision** (`Router`). The checks run in this order:
  EtherType, IPv4 header checksum, 8-bit TTL decrement. Then comes the
  local-delivery test against every interface address and the RIP multicast
  group 224.0.0.9 (section 4.5 of RFC 2453). Local traffic that is RIP goes to
  the RIP handlers; other traffic addressed to the router is dropped. Traffic
  not addressed to the router is forwarded by longest-prefix route lookup and
  the ARP cache.
  - The whole decision is a function of the state before the frame
    (`Router.HandleFrame`).
  - Each Java handler is an imperative method proved to produce exactly that
    function's state.
  - The guarantees are lemmas in `RouterProperties`: drops, no reflection, at
    most one send per frame, how a RESPONSE changes the route table, and one
    route per network.
- **The RIP engine** (`RipProtocol`). It builds RIP packets field by field,
  sends a REQUEST out every interface at start-up, and runs one aging tick over
  its entry list.

Java's fixed-width integers are written out explicitly (`JavaTypes`):

- `int` and `short` keep their signed range.
- A `byte` is kept as its bit pattern 0..255.
- `metric + 1` wraps around at 2^31 - 1.
- The IPv4 TTL decrement `(byte)(ttl - 1)` takes 0 to 255, so a packet that
  arrives with TTL 0 is not dropped.

The model follows the code in these details:

- The multicast group counts as local only while the router has at least one
  interface. The test sits inside the loop over interfaces.
- After the TTL decrement the header checksum is cleared to 0. It is not
  recomputed there; serialisation recomputes it later.
- The RESPONSE to a REQUEST is addressed to the requester's IP address. Its
  destination MAC is the ingress interface's own MAC.
- Aging only lowers lifetimes. Removing expired entries and periodic RESPONSEs
  are TODOs in the code (RipProtocol.java:100 and 104), so the model has
  neither.
- The modelled `RipProtocol` never creates entries for local networks.
- The merge rule behind `addRIPEntry` is not in the modelled class. The router
  consults it as a fixed function (see "Left out").

The modules follow the source: `JavaTypes`, `ByteBuffer`, `Outcomes`,
`RipV2Entry` (the entry class and its codec), `Packets` (the headers as values),
`Device` (interfaces and an output log), `RouteTable`, `RipEngine` (class
`RipProtocol`), `Router` (class `Router` and its specification) and
`RouterProperties`.

## Model

| member | source | states |
|---|---|---|
| `JavaTypes.AddInt` | src/edu/wisc/cs/sdn/vnet/rt/Router.java:119 | Java `int` addition: the exact sum modulo 2^32, and exactly the sum when it fits in 32 bits |
| `JavaTypes.AddOneWraps` | src/edu/wisc/cs/sdn/vnet/rt/Router.java:119 | adding one to a metric increases it by one, except at 2^31 - 1 where it wraps to -2^31 |
| `JavaTypes.DecrementOctet` | src/edu/wisc/cs/sdn/vnet/rt/Router.java:191-193 | the 8-bit TTL decrement gives one less, 0 wraps to 255, and the result is 0 exactly when the TTL was 1 |
| `ByteBuffer.PutShort` | src/net/floodlightcontroller/packet/RIPv2Entry.java:126-127 | a short is written as two octets, most significant first, holding its two's-complement bit pattern |
| `ByteBuffer.PutInt` | src/net/floodlightcontroller/packet/RIPv2Entry.java:128-131 | an int is written as four octets, most significant first, holding its two's-complement bit pattern |
| `ByteBuffer.GetShort` | src/net/floodlightcontroller/packet/RIPv2Entry.java:139-140 | a short is read from two octets, most significant first |
| `ByteBuffer.GetInt` | src/net/floodlightcontroller/packet/RIPv2Entry.java:141-144 | an int is read from four octets, most significant first |
| `RipV2Entry.Encode` | src/net/floodlightcontroller/packet/RIPv2Entry.java:120-133 | exactly 20 octets; address family at 0-1, route tag at 2-3, address at 4-7, mask at 8-11, next hop at 12-15, metric at 16-19, each big-endian |
| `RipV2Entry.DecodeEncode` | src/net/floodlightcontroller/packet/RIPv2Entry.java:120-146 | decoding a serialised entry restores all six wire fields |
| `RipV2Entry.EncodeDecode` | src/net/floodlightcontroller/packet/RIPv2Entry.java:120-146 | encoding the fields decoded from any 20 octets gives back those octets, so the codec is a bijection |
| `RipV2Entry.DecreasedTtl` | src/net/floodlightcontroller/packet/RIPv2Entry.java:65-78 | a decrement at least as large as the lifetime sets it to 0; a smaller negative one leaves it; otherwise it is subtracted |
| `RipV2Entry.DecreasedTtlBounds` | src/net/floodlightcontroller/packet/RIPv2Entry.java:65-78 | a non-negative lifetime stays within [0, old lifetime], and with a non-negative decrement it becomes 0 exactly when the decrement covers it |
| `RipV2Entry.AgedTtlSaturates` | src/net/floodlightcontroller/packet/RIPv2Entry.java:65-78 | after n decrements by a positive step, a non-negative lifetime is the old lifetime less n steps, floored at 0 |
| `RipV2Entry.ExpiresOnThirdTick` | src/edu/wisc/cs/sdn/vnet/rt/RipProtocol.java:96-99 | a lifetime of 30 aged by 10-second ticks is still positive after two ticks and 0 after the third |
| `RipV2Entry.RIPv2Entry.Empty` | src/net/floodlightcontroller/packet/RIPv2Entry.java:20-21 | the no-argument constructor leaves every field at 0 |
| `RipV2Entry.RIPv2Entry.constructor` | src/net/floodlightcontroller/packet/RIPv2Entry.java:23-32 | address family 2 (IPv4), route tag 0, the given address, mask, next hop and metric, lifetime 30 |
| `RipV2Entry.RIPv2Entry.Copy` | src/net/floodlightcontroller/packet/RIPv2Entry.java:34-42 | the copy has the same six wire fields and the same lifetime |
| `RipV2Entry.RIPv2Entry.ResetTtl` | src/net/floodlightcontroller/packet/RIPv2Entry.java:56-58 | the lifetime becomes 30 and no other field changes |
| `RipV2Entry.RIPv2Entry.DecreaseTtl` | src/net/floodlightcontroller/packet/RIPv2Entry.java:65-78 | the lifetime becomes `DecreasedTtl` of the old one and is returned; nothing else changes |
| `RipV2Entry.RIPv2Entry.SetAddressFamily` | src/net/floodlightcontroller/packet/RIPv2Entry.java:87-88 | sets the address family only |
| `RipV2Entry.RIPv2Entry.SetRouteTag` | src/net/floodlightcontroller/packet/RIPv2Entry.java:93-94 | sets the route tag only |
| `RipV2Entry.RIPv2Entry.SetAddress` | src/net/floodlightcontroller/packet/RIPv2Entry.java:99-100 | sets the address only |
| `RipV2Entry.RIPv2Entry.SetSubnetMask` | src/net/floodlightcontroller/packet/RIPv2Entry.java:105-106 | sets the subnet mask only |
| `RipV2Entry.RIPv2Entry.SetNextHopAddress` | src/net/floodlightcontroller/packet/RIPv2Entry.java:111-112 | sets the next-hop address only |
| `RipV2Entry.RIPv2Entry.SetMetric` | src/net/floodlightcontroller/packet/RIPv2Entry.java:117-118 | sets the metric only |
| `RipV2Entry.RIPv2Entry.Serialize` | src/net/floodlightcontroller/packet/RIPv2Entry.java:120-133 | 20 octets from which decoding gives back the entry's six wire fields |
| `RipV2Entry.RIPv2Entry.Deserialize` | src/net/floodlightcontroller/packet/RIPv2Entry.java:135-146 | succeeds and returns `this` exactly when the window lies inside the array and holds at least 20 octets, and then the wire fields are the decoded ones; a window outside the array changes nothing; a short window overwrites the fields read before the underflow; the lifetime is never touched |
| `RipV2Entry.RIPv2Entry.Equals` | src/net/floodlightcontroller/packet/RIPv2Entry.java:148-170 | true exactly when the other entry is non-null and all six wire fields agree; the lifetime is ignored |
| `RipV2Entry.EqualsReflexive` | src/net/floodlightcontroller/packet/RIPv2Entry.java:148-151 | every entry equals itself |
| `RipV2Entry.EqualsSymmetric` | src/net/floodlightcontroller/packet/RIPv2Entry.java:148-170 | a equals b exactly when b equals a |
| `RipV2Entry.EqualsTransitive` | src/net/floodlightcontroller/packet/RIPv2Entry.java:148-170 | equality of entries is transitive |
| `RipV2Entry.SerializeRoundTrip` | src/net/floodlightcontroller/packet/RIPv2Entry.java:120-170 | deserialising one entry's serialisation into any entry succeeds and makes it `equals` the first, whatever the lifetimes |
| `Packets.IPv4Address` | src/edu/wisc/cs/sdn/vnet/rt/RipProtocol.java:31 | the int for a dotted quad, first octet most significant (224.0.0.9 is the RIP group) |
| `Device.Device.SendPacket` | src/edu/wisc/cs/sdn/vnet/rt/RipProtocol.java:89 | sending appends exactly one (frame, interface) transmission to the device's output log |
| `RouteTable.Lookup` | src/edu/wisc/cs/sdn/vnet/rt/Router.java:233-237 | no result exactly when no route contains the destination; otherwise a containing route that no containing route beats in mask specificity |
| `RouteTable.Update` | src/edu/wisc/cs/sdn/vnet/rt/Router.java:124 | reports true exactly when a route for (address, mask) exists, and then replaces that one route's gateway and interface; on false the table is unchanged |
| `RouteTable.Insert` | src/edu/wisc/cs/sdn/vnet/rt/Router.java:126-129 | appends one route for (address, mask) and keeps every existing route in place; the table keeps one route per network when the network was not in it before |
| `RouteTable.InstallSpec` | src/edu/wisc/cs/sdn/vnet/rt/Router.java:122-130 | update-then-insert leaves the given route in the table, keeps and adds no route to another network, and keeps one route per network |
| `RipEngine.CreateRipPacket` | src/edu/wisc/cs/sdn/vnet/rt/RipProtocol.java:53-80 | Ethernet from the interface MAC to the given MAC carrying IPv4; IPv4 UDP from the interface address to the given address; UDP from port 520 to port 520; RIPv2 with the given command and entries |
| `RipEngine.RequestBurst` | src/edu/wisc/cs/sdn/vnet/rt/RipProtocol.java:86-90 | one empty REQUEST per interface, in interface order, each exactly the `CreateRipPacket` frame for that interface (so EtherType IPv4, UDP, ports 520 to 520); each goes out its own interface, from its own MAC and address, to 224.0.0.9 and FF:FF:FF:FF:FF:FF |
| `RipEngine.RipProtocol.constructor` | src/edu/wisc/cs/sdn/vnet/rt/RipProtocol.java:38-41 | a new engine has an empty entry list and no router |
| `RipEngine.RipProtocol.OnDevice` | src/edu/wisc/cs/sdn/vnet/rt/RipProtocol.java:43-46 | a new engine on a router has an empty entry list |
| `RipEngine.RipProtocol.SendRequests` | src/edu/wisc/cs/sdn/vnet/rt/RipProtocol.java:85-90 | the router's output log grows by exactly the start-up request burst |
| `RipEngine.RipProtocol.AgeEntries` | src/edu/wisc/cs/sdn/vnet/rt/RipProtocol.java:96-103 | every entry's lifetime drops by 10 s, floored at 0; the list is unchanged (nothing removed) and no wire field changes |
| `RipEngine.AgingNeverIncreases` | src/edu/wisc/cs/sdn/vnet/rt/RipProtocol.java:96-99 | a tick keeps a non-negative lifetime within [0, old lifetime] and empties it exactly when it was at most 10 |
| `Router.NextHop` | src/edu/wisc/cs/sdn/vnet/rt/Router.java:247-250 | the route's gateway when it is non-zero, otherwise the packet's destination |
| `Router.Router.constructor` | src/edu/wisc/cs/sdn/vnet/rt/Router.java:30-35 | a router on a device with a loaded route table that has made no RIP offers yet |
| `Router.Router.HandlePacket` | src/edu/wisc/cs/sdn/vnet/rt/Router.java:90-105 | the new route table, offers and output log are exactly `HandleFrame` of the old ones |
| `Router.Router.HandleIpPacket` | src/edu/wisc/cs/sdn/vnet/rt/Router.java:171-219 | checksum check, TTL decrement, and the walk over the interfaces with its early returns give exactly the state `HandleIp` specifies |
| `Router.Router.HandleRipPacket` | src/edu/wisc/cs/sdn/vnet/rt/Router.java:145-169 | the UDP checksum check and the dispatch on the command give exactly the state `HandleRip` specifies |
| `Router.Router.HandleRipRequest` | src/edu/wisc/cs/sdn/vnet/rt/Router.java:107-113 | exactly one reply is sent, and nothing else changes |
| `Router.Router.HandleRipResponse` | src/edu/wisc/cs/sdn/vnet/rt/Router.java:115-138 | the loop over the carried entries leaves exactly the route table and offers `ApplyResponse` specifies |
| `Router.Router.ForwardIpPacket` | src/edu/wisc/cs/sdn/vnet/rt/Router.java:221-259 | the lookup, the ingress check, the next-hop choice and the ARP lookup give exactly the output `Forward` specifies |
| `RouterProperties.NonIpv4FrameIgnored` | src/edu/wisc/cs/sdn/vnet/rt/Router.java:97-102 | a frame whose EtherType is not IPv4 changes nothing and sends nothing |
| `RouterProperties.BadIpChecksumDropped` | src/edu/wisc/cs/sdn/vnet/rt/Router.java:181-188 | an IPv4 header whose checksum differs from the recomputed one changes nothing |
| `RouterProperties.TtlExpiry` | src/edu/wisc/cs/sdn/vnet/rt/Router.java:190-196 | a packet is dropped exactly when it arrives with TTL 1; otherwise it continues with the decremented TTL (0 becomes 255) and a cleared checksum |
| `RouterProperties.LocalTrafficNotForwarded` | src/edu/wisc/cs/sdn/vnet/rt/Router.java:198-215 | traffic addressed to an interface or to 224.0.0.9 is never forwarded; non-RIP traffic has no effect; RIP traffic sends at most the one reply |
| `RouterProperties.RipHandling` | src/edu/wisc/cs/sdn/vnet/rt/Router.java:145-169 | a bad UDP checksum or an unknown command changes nothing; a REQUEST sends exactly one reply and changes nothing else; a RESPONSE sends nothing and offers every carried entry, metric plus one |
| `RouterProperties.ReplyShape` | src/edu/wisc/cs/sdn/vnet/rt/Router.java:107-113 | the reply goes out the ingress interface from its MAC and address to the requester's IP, as a RIP RESPONSE carrying the engine's table copy |
| `RouterProperties.ResponseOffers` | src/edu/wisc/cs/sdn/vnet/rt/Router.java:118-120 | a RESPONSE sends nothing, and it offers each carried entry to `addRIPEntry` in order, with its metric plus exactly one, from the sender's IP |
| `RouterProperties.RejectedOfferLeavesTable` | src/edu/wisc/cs/sdn/vnet/rt/Router.java:120-122 | an entry the engine rejects leaves the route table untouched |
| `RouterProperties.AcceptedOfferInstallsRoute` | src/edu/wisc/cs/sdn/vnet/rt/Router.java:122-130 | an entry the engine accepts installs the route (address, mask, sender, ingress interface) and leaves the routes to every other network alone |
| `RouterProperties.AcceptedRoutesInstalled` | src/edu/wisc/cs/sdn/vnet/rt/Router.java:118-131 | after the whole RESPONSE, every accepted entry's network is routed via the sender out the ingress interface |
| `RouterProperties.ResponseTouchesOnlyCarriedNetworks` | src/edu/wisc/cs/sdn/vnet/rt/Router.java:118-131 | after a RESPONSE, every route either was there before or goes via the sender to a carried network; every route to a network not carried survives |
| `RouterProperties.ResponseKeepsUniqueRoutes` | src/edu/wisc/cs/sdn/vnet/rt/Router.java:118-131 | a RESPONSE keeps at most one route per (address, mask) |
| `RouterProperties.ForwardingDecision` | src/edu/wisc/cs/sdn/vnet/rt/Router.java:221-259 | forwarding sends exactly when a route exists, its interface is not the ingress one and the next hop has an ARP entry; the one frame goes out the route's interface from its MAC to the next hop's MAC with the packet unchanged |
| `RouterProperties.NoReflection` | src/edu/wisc/cs/sdn/vnet/rt/Router.java:239-242 | a packet not addressed to the router is never sent out the interface it arrived on |
| `RouterProperties.AtMostOneSendPerFrame` | src/edu/wisc/cs/sdn/vnet/rt/Router.java:90-105 | every frame adds at most one transmission and never alters earlier ones |
| `RouterProperties.FrameKeepsUniqueRoutes` | src/edu/wisc/cs/sdn/vnet/rt/Router.java:115-138 | handling any frame keeps at most one route per (address, mask) |
| `RouterProperties.RipPacketsAreRipTraffic` | src/edu/wisc/cs/sdn/vnet/rt/RipProtocol.java:53-80 | a packet the engine builds for 224.0.0.9 is a RIP datagram, and 224.0.0.9 is local exactly on routers that have an interface |

## Left out

- Threads and timing are not modelled: `run`, the endless `while (true)` loop, `Thread.sleep` and the `RIP_ENTRIES_LOCK` blocks. One aging pass is `AgeEntries`, and the start-up burst is `SendRequests`.
- Deleting expired entries and sending unsolicited RESPONSEs are TODOs in the code, so the model has neither.
- The merge rule behind `addRIPEntry` and the table copy behind `getRIPTableCopy` are not in the modelled `RipProtocol` class. The router consults them as fixed functions of the offers made so far (`Collaborators.addRipEntry`, `Collaborators.ripTableCopy`). Changes the aging tick makes to the engine's answers are therefore not captured.
- The IPv4 and UDP checksum computations belong to header classes that are not part of this model. They are fixed functions (`Collaborators.ipChecksum`, `Collaborators.udpChecksum`) applied to the header with its checksum field zeroed.
- The route table, ARP cache and device are also not part of this model.
  - The route table is a list of routes. `Lookup` is longest-prefix match: masks are compared as unsigned numbers, and the first route wins a tie. `update` changes the first route for the exact network; `insert` appends.
  - The ARP cache is a fixed map.
  - `sendPacket` appends to an output log.
- Loading the route table and ARP cache from files (`loadRouteTable`, `loadArpCache`) is not modelled, nor the `System.exit` on failure. The constructor takes a table that is already loaded.
- `toString`, `ripP.print()` and all console output are diagnostics and are not modelled.
- The getters are not modelled as separate members; callers read the fields directly.
- `setRipProtocl` and `getRouteTable` are not modelled. The router consults the RIP engine through the functions above.
- Packets are values, not mutable objects, so aliasing of packet objects is not captured. For example, `forwardIpPacket` writes the source MAC into the caller's frame even when the ARP lookup then fails. The carried entries whose metric `handleRipResponse` increments are local values; what the rest of the system sees is the arguments passed to `addRIPEntry`, which the model logs as `offers`.
- Casts that would throw `ClassCastException` (a payload of the wrong type under a matching type field) are modelled as dropping the frame with no effect.
- `RipEngine.CreateRipPacket` also models the five-argument static variant that `Router` calls. That variant is not in the modelled file; it is modelled as the same builder carrying the given entries. The four-argument builder is the case with no entries.
- `RipEngine.CreateRipPacket` sets the IPv4 TTL and the checksums, which the Java builder leaves unset, to 0. Their real defaults live in header classes that are not part of this model, and no property depends on them.
- `RipV2Entry.RIPv2Entry.Equals` takes another `RIPv2Entry` or null. Java's `equals(Object)` also accepts objects of other classes, for which it returns false; those cannot be represented here.
- `RipV2Entry.RIPv2Entry.Deserialize` reports `ByteBuffer`'s exceptions as an error result; the Java exception would propagate to the caller instead.
- `RipEngine.RipProtocol.SendRequests` requires the engine to have a router. In Java, `startRip` on an engine built with the no-argument constructor throws `NullPointerException` at RipProtocol.java:86. The model does not capture that failure.
- `RipEngine.RipProtocol.OnDevice` accepts any `Device`, so it does not capture the `ClassCastException` that `(Router) rt` at RipProtocol.java:45 throws for a device that is not a `Router`. The model has a single device class.
- `Router.Router.HandleRipRequest` and `Router.Router.HandleRipResponse` always reach a RIP engine through `Collaborators`. The Java `Router` constructor never sets `ripP`. So a RIP REQUEST or RESPONSE that arrives before `setRipProtocl` throws `NullPointerException` at Router.java:111 or 120, and the model does not capture that.
- `RipEngine.RipProtocol.AgeEntries` requires that no entry object is listed twice. In Java, an object listed twice would be aged twice per tick.
- A metric of 16 is not treated as infinity, and no metric is capped, because the code does neither.
