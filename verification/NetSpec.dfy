/**
 What the network stack does with one inbound frame, as a function: the frames
 it sends, the datagrams it hands to the socket table, and what its ARP cache
 learns. `Panic` is the slice out of range in `ip::handle` or the overflow of the
 sequence number in `tcp::handle`.
 */
module NetSpec {
  import opened Bytes
  import opened Packets

  type Frame = seq<byte>

  datatype Host = Host(mac: MacAddr, cache: map<IpAddr, MacAddr>)
  datatype Delivery = Delivery(port: u16, src: IpAddr, srcPort: u16, data: seq<byte>)
  datatype Outcome = Panic | Handled(host: Host, sent: seq<Frame>, delivered: seq<Delivery>)

  // ---- sending ----

  /** A cached address, else the gateway's, else broadcast. */
  function NextHop(h: Host, dst: IpAddr): (m: MacAddr) {
    if dst in h.cache then h.cache[dst]
    else if GATEWAY in h.cache then h.cache[GATEWAY]
    else BROADCAST
  }

  function IpPacket(proto: byte, dst: IpAddr, payload: seq<byte>): (p: seq<byte>) {
    IpHeader(proto, IP, dst, Low16(20 + |payload|)) + payload
  }

  function IpFrame(h: Host, dst: IpAddr, proto: byte, payload: seq<byte>): (f: Frame) {
    EthernetFrame(NextHop(h, dst), h.mac, ETHERTYPE_IP, IpPacket(proto, dst, payload))
  }

  function UdpFrame(h: Host, srcPort: u16, dst: IpAddr, dstPort: u16, data: seq<byte>): (f: Frame) {
    IpFrame(h, dst, PROTO_UDP, UdpDatagram(srcPort, dst, dstPort, data))
  }

  // ---- receiving ----

  function Ignored(h: Host): (o: Outcome) {
    Handled(h, [], [])
  }

  function HandleArp(h: Host, arp: seq<byte>): (o: Outcome) {
    if |arp| < 28 then Ignored(h)
    else
      var sha: MacAddr, spa: IpAddr, tpa: IpAddr := arp[8..14], arp[14..18], arp[24..28];
      var h' := h.(cache := h.cache[spa := sha]);
      if FromBe16(arp[6], arp[7]) == 1 && tpa == IP then
        Handled(h', [EthernetFrame(sha, h.mac, ETHERTYPE_ARP, ArpPayload(2, h.mac, IP, sha, spa))], [])
      else Ignored(h')
  }

  function HandleIcmp(h: Host, src: IpAddr, msg: seq<byte>): (o: Outcome) {
    if |msg| >= 8 && msg[0] == 8 then Handled(h, [IpFrame(h, src, PROTO_ICMP, EchoReply(msg))], [])
    else Ignored(h)
  }

  function HandleUdp(h: Host, src: IpAddr, d: seq<byte>): (o: Outcome) {
    if |d| < 8 then Ignored(h)
    else
      var length := FromBe16(d[4], d[5]);
      var end := Min(Max(length, 8), |d|);
      Handled(h, [], [Delivery(FromBe16(d[2], d[3]), src, FromBe16(d[0], d[1]), d[8..end])])
  }

  const SYN: u16 := 0x02
  const ACK: u16 := 0x10
  /** The sequence number whose successor overflows 32 bits. */
  const LAST_SEQ: u32 := 0xFFFF_FFFF

  predicate HasFlag(flags: u16, flag: u16)
    requires flag > 0
  {
    flags / flag % 2 == 1
  }

  function HandleTcp(h: Host, src: IpAddr, t: seq<byte>): (o: Outcome) {
    if |t| < 20 then Ignored(h)
    else
      var flags := FromBe16(t[12], t[13]);
      var seqNo := FromBe32(t[4], t[5], t[6], t[7]);
      if !HasFlag(flags, SYN) || HasFlag(flags, ACK) then Ignored(h)
      else if seqNo == LAST_SEQ then Panic
      else
        Handled(h, [IpFrame(h, src, PROTO_TCP, TcpSegment(FromBe16(t[2], t[3]), FromBe16(t[0], t[1]),
                                                          1000, seqNo + 1, SYN + ACK, [], src))], [])
  }

  function HandleTransport(h: Host, proto: byte, src: IpAddr, body: seq<byte>): (o: Outcome) {
    if proto == PROTO_ICMP then HandleIcmp(h, src, body)
    else if proto == PROTO_UDP then HandleUdp(h, src, body)
    else if proto == PROTO_TCP then HandleTcp(h, src, body)
    else Ignored(h)
  }

  /** Where the body of an IPv4 packet starts and ends. */
  function BodyStart(pkt: seq<byte>): (lo: int)
    requires |pkt| >= 20
    ensures lo >= 20
  {
    Max(pkt[0] % 16 * 4, 20)
  }

  function BodyEnd(pkt: seq<byte>): (hi: int)
    requires |pkt| >= 20
    ensures hi <= |pkt|
  {
    Min(FromBe16(pkt[2], pkt[3]), |pkt|)
  }

  function HandleIp(h: Host, pkt: seq<byte>): (o: Outcome) {
    if |pkt| < 20 || pkt[0] / 16 != 4 then Ignored(h)
    else if BodyStart(pkt) > BodyEnd(pkt) then Panic
    else HandleTransport(h, pkt[9], pkt[12..16], pkt[BodyStart(pkt)..BodyEnd(pkt)])
  }

  function HandleFrame(h: Host, frame: Frame): (o: Outcome) {
    if |frame| < 14 then Ignored(h)
    else
      var ethertype := FromBe16(frame[12], frame[13]);
      if ethertype == ETHERTYPE_ARP then HandleArp(h, frame[14..])
      else if ethertype == ETHERTYPE_IP then HandleIp(h, frame[14..])
      else Ignored(h)
  }
}
