/** The device a router runs on: a fixed set of interfaces and a frame
    transmitter. Transmitting is recorded as appending to an output log. */
module Device {
  import opened Packets

  class Device {
    /** The interfaces, in the order the device enumerates them. */
    const interfaces: seq<Iface>
    /** Every frame handed to `SendPacket`, oldest first. */
    var sent: seq<Transmission>

    constructor (interfaces: seq<Iface>)
      ensures this.interfaces == interfaces && sent == []
    {
      this.interfaces := interfaces;
      sent := [];
    }

    method SendPacket(frame: Ethernet, iface: Iface)
      modifies this`sent
      ensures sent == old(sent) + [Transmission(frame, iface)]
    {
      sent := sent + [Transmission(frame, iface)];
    }
  }
}
