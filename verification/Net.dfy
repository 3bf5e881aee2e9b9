/** The network interface as the protocols see it: our addresses and a log of the frames sent. */
module Net {
  import opened Bytes

  type Mac = m: seq<byte> | |m| == 6 witness [0, 0, 0, 0, 0, 0]

  const BROADCAST: Mac := [0xff, 0xff, 0xff, 0xff, 0xff, 0xff]

  /** struct arp_header followed by struct arp_ipv4; 16-bit fields as loaded from memory. */
  datatype ArpPacket = ArpPacket(
    hwType: u16, proType: u16, hwSize: byte, proSize: byte, opcode: u16,
    srcMac: Mac, srcIp: u32, dstMac: Mac, dstIp: u32)

  datatype Payload = Arp(packet: ArpPacket) | Ipv4(bytes: seq<byte>)

  datatype Frame = Frame(dst: Mac, src: Mac, payload: Payload)

  class NetInterface {
    /** In network byte order, as loaded from memory. */
    const ip: u32
    const mac: Mac
    var sent: seq<Frame>

    constructor (ip: u32, mac: Mac)
      ensures this.ip == ip && this.mac == mac && sent == []
    {
      this.ip, this.mac, sent := ip, mac, [];
    }

    /** net_interface_send; the device write is the log. */
    method Send(payload: Payload, dst: Mac)
      modifies this
      ensures sent == old(sent) + [Frame(dst, mac, payload)]
    {
      sent := sent + [Frame(dst, mac, payload)];
    }
  }
}
