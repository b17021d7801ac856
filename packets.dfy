/** The headers the router reads and writes, as values: Ethernet, IPv4, UDP and
    a RIPv2 message, each holding the next as its payload, plus the router's
    interfaces. Fields a header has on the wire but the router never looks at
    (IP version, fragment fields, lengths, ...) are left out. */
module Packets {
  import opened JavaTypes
  import opened RipV2Entry

  /** A 6-octet Ethernet address. */
  type MacAddress = seq<uint8>

  const TYPE_IPV4: int16 := 0x0800
  const PROTOCOL_UDP: uint8 := 0x11
  const RIP_PORT: int16 := 520
  const COMMAND_REQUEST: uint8 := 1
  const COMMAND_RESPONSE: uint8 := 2

  /** A router port: its name, IPv4 address, subnet mask and MAC address. */
  datatype Iface = Iface(name: string, ipAddress: int32, subnetMask: int32, macAddress: MacAddress)

  datatype RipMessage = RipMessage(command: uint8, entries: seq<WireEntry>)

  datatype UdpPayload = RipPayload(rip: RipMessage) | UdpData(data: seq<uint8>)

  datatype UdpPacket = UdpPacket(sourcePort: int16, destinationPort: int16, checksum: int16, payload: UdpPayload)

  datatype IpPayload = UdpSegment(udp: UdpPacket) | IpData(data: seq<uint8>)

  datatype IPv4Packet = IPv4Packet(
    ttl: uint8,
    protocol: uint8,
    checksum: int16,
    sourceAddress: int32,
    destinationAddress: int32,
    payload: IpPayload)

  datatype EthernetPayload = IpDatagram(ip: IPv4Packet) | EthernetData(data: seq<uint8>)

  datatype Ethernet = Ethernet(
    sourceMac: MacAddress,
    destinationMac: MacAddress,
    etherType: int16,
    payload: EthernetPayload)

  /** One frame handed to the device for sending out one interface. */
  datatype Transmission = Transmission(frame: Ethernet, iface: Iface)

  /** The int for the dotted quad a.b.c.d, first octet most significant. */
  function IPv4Address(a: uint8, b: uint8, c: uint8, d: uint8): (r: int32)
    ensures Unsigned32(r) == ((a as int * 0x100 + b as int) * 0x100 + c as int) * 0x100 + d as int
  {
    Signed32(((a as int * 0x100 + b as int) * 0x100 + c as int) * 0x100 + d as int)
  }
}
