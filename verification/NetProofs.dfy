/** Layered round trips, and the absence of reply storms. */
module NetProofs {
  import opened Bytes
  import opened Checksum
  import opened Packets
  import opened NetSpec

  // ---- what a receiver reads back ----

  /** A frame built for IPv4, with any padding after it, reaches the IPv4 layer as its payload and the padding. */
  lemma FrameReachesIp(h: Host, dst: MacAddr, src: MacAddr, payload: seq<byte>, pad: seq<byte>)
    ensures HandleFrame(h, EthernetFrame(dst, src, ETHERTYPE_IP, payload) + pad) == HandleIp(h, payload + pad)
  {
    var f := EthernetFrame(dst, src, ETHERTYPE_IP, payload) + pad;
    assert f[14..] == payload + pad;
  }

  /** A packet from any address whose 16-bit total length is exact reaches its transport with its sender and exactly its payload. */
  lemma SenderReachesTransport(h: Host, proto: byte, src: IpAddr, dst: IpAddr, payload: seq<byte>, pad: seq<byte>)
    requires 20 + |payload| < 0x1_0000
    ensures HandleIp(h, IpHeader(proto, src, dst, 20 + |payload|) + payload + pad) == HandleTransport(h, proto, src, payload)
  {
    hide IpHeader, HandleTransport;
    PacketFields(proto, src, dst, payload, pad);
    var p := IpHeader(proto, src, dst, 20 + |payload|) + payload + pad;
    assert BodyStart(p) == 20 && BodyEnd(p) == 20 + |payload|;
  }

  lemma PacketReachesTransport(h: Host, proto: byte, dst: IpAddr, payload: seq<byte>, pad: seq<byte>)
    requires 20 + |payload| < 0x1_0000
    ensures HandleIp(h, IpPacket(proto, dst, payload) + pad) == HandleTransport(h, proto, IP, payload)
  {
    hide HandleIp, HandleTransport, IpHeader;
    SenderReachesTransport(h, proto, IP, dst, payload, pad);
  }

  /** The header fields `ip::handle` looks at. */
  lemma PacketFields(proto: byte, src: IpAddr, dst: IpAddr, payload: seq<byte>, pad: seq<byte>)
    ensures var p := IpHeader(proto, src, dst, Low16(20 + |payload|)) + payload + pad;
            && |p| == 20 + |payload| + |pad|
            && p[0] == 0x45 && p[9] == proto && p[12..16] == src
            && FromBe16(p[2], p[3]) == Low16(20 + |payload|)
            && p[20..20 + |payload|] == payload
  {}

  lemma DatagramFields(srcPort: u16, dst: IpAddr, dstPort: u16, data: seq<byte>)
    ensures var d := UdpDatagram(srcPort, dst, dstPort, data);
            && FromBe16(d[0], d[1]) == srcPort && FromBe16(d[2], d[3]) == dstPort
            && FromBe16(d[4], d[5]) == Low16(8 + |data|) && d[8..] == data
  {}

  // ---- a datagram through all layers ----

  const MAX_UDP: nat := 65507

  /** The outcome of receiving exactly what `udp::send` was given. */
  function Received(h: Host, srcPort: u16, dstPort: u16, data: seq<byte>): (o: Outcome) {
    Handled(h, [], [Delivery(dstPort, IP, srcPort, data)])
  }

  /**
   A datagram sent by one host, framed, padded on the wire and fed to the
   Ethernet layer of any host, is delivered with its ports, its sender and its
   exact bytes: exactly when it has at most 65507 of them.
   */
  lemma UdpRoundTripIff(sender: Host, receiver: Host, srcPort: u16, dst: IpAddr, dstPort: u16, data: seq<byte>, pad: seq<byte>)
    ensures HandleFrame(receiver, UdpFrame(sender, srcPort, dst, dstPort, data) + pad)
            == Received(receiver, srcPort, dstPort, data)
            <==> |data| <= MAX_UDP
  {
    hide UdpDatagram, IpPacket, EthernetFrame, HandleFrame, HandleIp, HandleTransport;
    var d := UdpDatagram(srcPort, dst, dstPort, data);
    FrameReachesIp(receiver, NextHop(sender, dst), sender.mac, IpPacket(PROTO_UDP, dst, d), pad);
    if |data| <= MAX_UDP {
      PacketReachesTransport(receiver, PROTO_UDP, dst, d, pad);
      DatagramArrives(receiver, srcPort, dst, dstPort, data);
    } else {
      TooLongIsCut(receiver, dst, d, pad);
    }
  }

  lemma DatagramArrives(h: Host, srcPort: u16, dst: IpAddr, dstPort: u16, data: seq<byte>)
    requires |data| <= MAX_UDP
    ensures HandleTransport(h, PROTO_UDP, IP, UdpDatagram(srcPort, dst, dstPort, data)) == Received(h, srcPort, dstPort, data)
  {
    hide UdpDatagram, FromBe16, HandleIcmp, HandleTcp;
    var d := UdpDatagram(srcPort, dst, dstPort, data);
    DatagramFields(srcPort, dst, dstPort, data);
    assert d[8..|d|] == d[8..];
  }

  /** A UDP payload whose packet does not fit 16 bits arrives shorter than it was, if it arrives. */
  lemma TooLongIsCut(h: Host, dst: IpAddr, d: seq<byte>, pad: seq<byte>)
    requires 20 + |d| >= 0x1_0000
    ensures var o := HandleIp(h, IpPacket(PROTO_UDP, dst, d) + pad);
            o.Handled? ==> forall x :: x in o.delivered ==> |x.data| + 8 < |d|
  {}

  // ---- no reply storms ----

  /** Nothing is sent in answer to `frame`, by any host, and nobody panics. */
  ghost predicate Quiet(frame: Frame) {
    forall h: Host :: HandleFrame(h, frame).Handled? && HandleFrame(h, frame).sent == []
  }

  lemma ArpReplyIsQuiet(dst: MacAddr, mac: MacAddr, tha: MacAddr, tpa: IpAddr)
    ensures Quiet(EthernetFrame(dst, mac, ETHERTYPE_ARP, ArpPayload(2, mac, IP, tha, tpa)))
  {}

  /** An IPv4 frame is quiet when its transport payload is. */
  lemma IpFrameIsQuiet(h: Host, dst: IpAddr, proto: byte, payload: seq<byte>)
    requires 20 + |payload| < 0x1_0000
    requires forall g: Host :: HandleTransport(g, proto, IP, payload) == Ignored(g)
    ensures Quiet(IpFrame(h, dst, proto, payload))
  {
    hide EthernetFrame, IpPacket;
    var f := IpFrame(h, dst, proto, payload);
    forall g: Host ensures HandleFrame(g, f) == Ignored(g) {
      FrameReachesIp(g, NextHop(h, dst), h.mac, IpPacket(proto, dst, payload), []);
      PacketReachesTransport(g, proto, dst, payload, []);
      assert f + [] == f;
    }
  }

  lemma EchoReplyIsQuiet(h: Host, dst: IpAddr, msg: seq<byte>)
    requires 8 <= |msg| < 0x1_0000 - 20
    ensures Quiet(IpFrame(h, dst, PROTO_ICMP, EchoReply(msg)))
  {}

  lemma SynAckIsQuiet(h: Host, srcPort: u16, dstPort: u16, ack: u32, dst: IpAddr)
    ensures Quiet(IpFrame(h, dst, PROTO_TCP, TcpSegment(srcPort, dstPort, 1000, ack, SYN + ACK, [], dst)))
  {
    var t := TcpSegment(srcPort, dstPort, 1000, ack, SYN + ACK, [], dst);
    assert HasFlag(FromBe16(t[12], t[13]), ACK) by { Be16RoundTrip(0x5012); }
    hide TcpSegment;
    IpFrameIsQuiet(h, dst, PROTO_TCP, t);
  }

  /**
   No reply storms: whatever frame comes in, if it does not make the stack
   panic then at most one frame goes out, and no host answers that one.
   */
  lemma NoReplyStorm(h: Host, frame: Frame)
    requires HandleFrame(h, frame).Handled?
    ensures |HandleFrame(h, frame).sent| <= 1
    ensures forall f :: f in HandleFrame(h, frame).sent ==> Quiet(f)
  {
    if |frame| >= 14 {
      var p := frame[14..];
      if FromBe16(frame[12], frame[13]) == ETHERTYPE_ARP {
        if |p| >= 28 { ArpReplyIsQuiet(p[8..14], h.mac, p[8..14], p[14..18]); }
      } else if FromBe16(frame[12], frame[13]) == ETHERTYPE_IP {
        IpAnswersAreQuiet(h, p);
      }
    }
  }

  lemma IpAnswersAreQuiet(h: Host, pkt: seq<byte>)
    requires HandleIp(h, pkt).Handled?
    ensures |HandleIp(h, pkt).sent| <= 1
    ensures forall f :: f in HandleIp(h, pkt).sent ==> Quiet(f)
  {
    hide Quiet, IpFrame, EchoReply, TcpSegment;
    if |pkt| >= 20 && pkt[0] / 16 == 4 {
      var src, body := pkt[12..16], pkt[BodyStart(pkt)..BodyEnd(pkt)];
      if pkt[9] == PROTO_ICMP && |body| >= 8 {
        EchoReplyIsQuiet(h, src, body);
      } else if pkt[9] == PROTO_TCP && |body| >= 20 {
        var seqNo := FromBe32(body[4], body[5], body[6], body[7]);
        if seqNo != LAST_SEQ {
          SynAckIsQuiet(h, FromBe16(body[2], body[3]), FromBe16(body[0], body[1]), seqNo + 1, src);
        }
      }
    }
  }

  /** A SYN without ACK whose sequence number has no successor in 32 bits. */
  predicate LastSyn(t: seq<byte>) {
    && |t| >= 20 && HasFlag(FromBe16(t[12], t[13]), SYN) && !HasFlag(FromBe16(t[12], t[13]), ACK)
    && t[4..8] == [255, 255, 255, 255]
  }

  /** Exactly when a frame makes the stack panic: the body is out of range, or it is such a SYN. */
  lemma PanicsIff(h: Host, frame: Frame)
    ensures HandleFrame(h, frame).Panic?
            <==> && |frame| >= 34 && FromBe16(frame[12], frame[13]) == ETHERTYPE_IP && frame[14] / 16 == 4
                 && var lo, hi := 14 + Max(frame[14] % 16 * 4, 20), Min(14 + FromBe16(frame[16], frame[17]), |frame|);
                    lo > hi || (frame[23] == PROTO_TCP && LastSyn(frame[lo..hi]))
  {
    hide HandleIp, LastSyn;
    if |frame| >= 14 {
      IpPanicsIff(h, frame[14..]);
    }
    if |frame| >= 34 {
      var p := frame[14..];
      var lo, hi := BodyStart(p), BodyEnd(p);
      assert lo <= hi ==> p[lo..hi] == frame[14 + lo..14 + hi];
    }
  }

  lemma IpPanicsIff(h: Host, p: seq<byte>)
    ensures HandleIp(h, p).Panic?
            <==> && |p| >= 20 && p[0] / 16 == 4
                 && (BodyStart(p) > BodyEnd(p) || (p[9] == PROTO_TCP && LastSyn(p[BodyStart(p)..BodyEnd(p)])))
  {
    hide HandleTcp, LastSyn;
    if |p| >= 20 && BodyStart(p) <= BodyEnd(p) {
      TcpPanicsIff(h, p[12..16], p[BodyStart(p)..BodyEnd(p)]);
    }
  }

  lemma TcpPanicsIff(h: Host, src: IpAddr, t: seq<byte>)
    ensures HandleTcp(h, src, t).Panic? <==> LastSyn(t)
  {
    hide HasFlag, IpFrame, TcpSegment;
    if |t| >= 20 {
      assert t[4..8] == [t[4], t[5], t[6], t[7]];
    }
  }

  // ---- what ARP teaches ----

  lemma ArpFields(oper: u16, sha: MacAddr, spa: IpAddr, tha: MacAddr, tpa: IpAddr)
    ensures var p := ArpPayload(oper, sha, spa, tha, tpa);
            FromBe16(p[6], p[7]) == oper && p[8..14] == sha && p[14..18] == spa && p[24..28] == tpa
  {}

  lemma FrameReachesArp(h: Host, dst: MacAddr, src: MacAddr, payload: seq<byte>)
    ensures HandleFrame(h, EthernetFrame(dst, src, ETHERTYPE_ARP, payload)) == HandleArp(h, payload)
  {}

  /** After any ARP frame the sender's address is bound, and replies to it go there. */
  lemma ArpTeaches(h: Host, oper: u16, sha: MacAddr, spa: IpAddr, tha: MacAddr, tpa: IpAddr, dst: MacAddr, src: MacAddr)
    ensures var o := HandleFrame(h, EthernetFrame(dst, src, ETHERTYPE_ARP, ArpPayload(oper, sha, spa, tha, tpa)));
            && o.Handled? && o.host == h.(cache := h.cache[spa := sha]) && NextHop(o.host, spa) == sha
            && (o.sent != [] <==> oper == 1 && tpa == IP)
  {
    hide ArpPayload, EthernetFrame, HandleFrame;
    ArpFields(oper, sha, spa, tha, tpa);
    FrameReachesArp(h, dst, src, ArpPayload(oper, sha, spa, tha, tpa));
  }

  /** Two hosts on one wire: a request for our address and its answer teach each side the other's binding. */
  lemma ArpResolves(asker: Host, answerer: Host, spa: IpAddr)
    requires spa != IP
    ensures var request := EthernetFrame(BROADCAST, asker.mac, ETHERTYPE_ARP,
                                         ArpPayload(1, asker.mac, spa, [0, 0, 0, 0, 0, 0], IP));
            var a := HandleFrame(answerer, request);
            && a.Handled? && |a.sent| == 1 && NextHop(a.host, spa) == asker.mac
            && a.sent[0][..6] == asker.mac && a.sent[0][6..12] == answerer.mac
            && var b := HandleFrame(asker, a.sent[0]);
               b.Handled? && b.sent == [] && NextHop(b.host, IP) == answerer.mac
  {
    hide ArpPayload, EthernetFrame, HandleFrame;
    var ask := ArpPayload(1, asker.mac, spa, [0, 0, 0, 0, 0, 0], IP);
    ArpFields(1, asker.mac, spa, [0, 0, 0, 0, 0, 0], IP);
    FrameReachesArp(answerer, BROADCAST, asker.mac, ask);
    ArpFields(2, answerer.mac, IP, asker.mac, spa);
    FrameReachesArp(asker, asker.mac, answerer.mac, ArpPayload(2, answerer.mac, IP, asker.mac, spa));
    FrameAddresses(asker.mac, answerer.mac, ETHERTYPE_ARP, ArpPayload(2, answerer.mac, IP, asker.mac, spa));
  }

  /** A frame names its receiver first, then its sender. */
  lemma FrameAddresses(dst: MacAddr, src: MacAddr, ethertype: u16, payload: seq<byte>)
    ensures var f := EthernetFrame(dst, src, ethertype, payload); f[..6] == dst && f[6..12] == src
  {}

  // ---- what the answers say ----

  /** An echo request is answered, to its sender, with a verifying echo reply that keeps identifier, sequence number and data. */
  lemma EchoIsAnswered(h: Host, src: IpAddr, id: u16, seqNo: u16, payload: seq<byte>)
    ensures var req := EchoRequest(id, seqNo, payload);
            var reply := EchoReply(req);
            && HandleTransport(h, PROTO_ICMP, src, req) == Handled(h, [IpFrame(h, src, PROTO_ICMP, reply)], [])
            && reply[0] == 0 && reply[4..] == Be16(id) + Be16(seqNo) + payload
            && InternetChecksum(reply) == 0
  {
    var req := EchoRequest(id, seqNo, payload);
    EchoVerifies(id, seqNo, payload, req);
  }

  lemma SegmentFields(srcPort: u16, dstPort: u16, seqNo: u32, ack: u32, flags: u16, payload: seq<byte>, dst: IpAddr)
    ensures var t := TcpSegment(srcPort, dstPort, seqNo, ack, flags, payload, dst);
            && FromBe16(t[0], t[1]) == srcPort && FromBe16(t[2], t[3]) == dstPort
            && FromBe32(t[4], t[5], t[6], t[7]) == seqNo && FromBe32(t[8], t[9], t[10], t[11]) == ack
            && FromBe16(t[12], t[13]) == OffsetAndFlags(flags)
  {}

  /**
   A SYN is answered with a SYN-ACK that swaps the ports and acknowledges the
   next sequence number; the last sequence number has none and panics.
   */
  lemma SynIsAnswered(h: Host, src: IpAddr, srcPort: u16, dstPort: u16, seqNo: u32, ack: u32, payload: seq<byte>, dst: IpAddr)
    ensures HandleTransport(h, PROTO_TCP, src, TcpSegment(srcPort, dstPort, seqNo, ack, SYN, payload, dst))
            == if seqNo == LAST_SEQ then Panic
               else Handled(h, [IpFrame(h, src, PROTO_TCP,
                                        TcpSegment(dstPort, srcPort, 1000, seqNo + 1, SYN + ACK, [], src))], [])
  {
    hide TcpSegment, IpFrame, HandleTcp, HasFlag, FromBe16, FromBe32;
    SegmentFields(srcPort, dstPort, seqNo, ack, SYN, payload, dst);
    SynFields(h, src, TcpSegment(srcPort, dstPort, seqNo, ack, SYN, payload, dst), srcPort, dstPort, seqNo);
  }

  lemma SynFields(h: Host, src: IpAddr, t: seq<byte>, srcPort: u16, dstPort: u16, seqNo: u32)
    requires |t| >= 20 && FromBe16(t[0], t[1]) == srcPort && FromBe16(t[2], t[3]) == dstPort
    requires FromBe32(t[4], t[5], t[6], t[7]) == seqNo && FromBe16(t[12], t[13]) == 0x5002
    ensures HandleTcp(h, src, t)
            == if seqNo == LAST_SEQ then Panic
               else Handled(h, [IpFrame(h, src, PROTO_TCP,
                                        TcpSegment(dstPort, srcPort, 1000, seqNo + 1, SYN + ACK, [], src))], [])
  {
    hide TcpSegment, IpFrame, FromBe16, FromBe32;
  }
}
