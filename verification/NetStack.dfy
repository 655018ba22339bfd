/**
 The stack with its cache, its wire and its deliveries updated in place. The
 branches are those of `NetSpec`; what is proved here is that the packets the
 builders of `Packets` assemble byte by byte are the ones `NetSpec` answers with.
 */
module NetStack {
  import opened Bytes
  import opened Checksum
  import opened Packets
  import opened NetSpec

  class Stack {
    const mac: MacAddr
    var cache: map<IpAddr, MacAddr>
    /** Frames handed to the driver, and datagrams handed to the socket table, in order. */
    var sent: seq<Frame>
    var delivered: seq<Delivery>

    constructor (mac: MacAddr)
      ensures this.mac == mac && cache == map[] && sent == [] && delivered == []
    {
      this.mac, cache, sent, delivered := mac, map[], [], [];
    }

    ghost function AsHost(): (h: Host)
      reads this
    {
      Host(mac, cache)
    }

    /** The state now is the earlier state with the outcome `o` applied. */
    twostate predicate Became(o: Outcome)
      reads this
    {
      o.Handled? && AsHost() == o.host && sent == old(sent) + o.sent && delivered == old(delivered) + o.delivered
    }

    method NextHopMac(dst: IpAddr) returns (m: MacAddr)
      ensures m == NextHop(AsHost(), dst)
    {
      if dst in cache {
        return cache[dst];
      }
      if GATEWAY in cache {
        return cache[GATEWAY];
      }
      return BROADCAST;
    }

    method Transmit(dst: MacAddr, ethertype: u16, payload: seq<byte>)
      modifies this`sent
      ensures sent == old(sent) + [EthernetFrame(dst, mac, ethertype, payload)]
      ensures sent[|old(sent)|][..6] == dst && sent[|old(sent)|][6..12] == mac
    {
      var f: seq<byte> := dst;
      f := f + mac;
      f := f + Be16(ethertype);
      f := f + payload;
      sent := sent + [f];
    }

    method SendIp(dst: IpAddr, proto: byte, payload: seq<byte>)
      modifies this`sent
      ensures sent == old(sent) + [IpFrame(AsHost(), dst, proto, payload)]
    {
      var pkt := BuildHeader(proto, IP, dst, Low16(20 + |payload|));
      pkt := pkt + payload;
      var hop := NextHopMac(dst);
      Transmit(hop, ETHERTYPE_IP, pkt);
    }

    method SendUdp(srcPort: u16, dst: IpAddr, dstPort: u16, data: seq<byte>)
      requires 20 + |data| <= MAX_LENGTH
      modifies this`sent
      ensures sent == old(sent) + [UdpFrame(AsHost(), srcPort, dst, dstPort, data)]
    {
      var d := BuildUdpDatagram(srcPort, dst, dstPort, data);
      SendIp(dst, PROTO_UDP, d);
    }

    method OnArp(arp: seq<byte>)
      modifies this
      ensures Became(HandleArp(old(AsHost()), arp))
    {
      if |arp| < 28 {
        return;
      }
      var oper := FromBe16(arp[6], arp[7]);
      var sha: MacAddr, spa: IpAddr, tpa: IpAddr := arp[8..14], arp[14..18], arp[24..28];
      cache := cache[spa := sha];
      if oper == 1 && tpa == IP {
        Transmit(sha, ETHERTYPE_ARP, ArpPayload(2, mac, IP, sha, spa));
      }
    }

    method OnIcmp(src: IpAddr, msg: seq<byte>)
      requires |msg| <= MAX_LENGTH
      modifies this
      ensures Became(HandleIcmp(old(AsHost()), src, msg))
    {
      if |msg| < 8 {
        return;
      }
      if msg[0] == 8 {
        var reply := BuildEchoReply(msg);
        SendIp(src, PROTO_ICMP, reply);
      }
    }

    method OnUdp(src: IpAddr, d: seq<byte>)
      modifies this
      ensures Became(HandleUdp(old(AsHost()), src, d))
    {
      if |d| < 8 {
        return;
      }
      var end := Min(Max(FromBe16(d[4], d[5]), 8), |d|);
      delivered := delivered + [Delivery(FromBe16(d[2], d[3]), src, FromBe16(d[0], d[1]), d[8..end])];
    }

    /** `ok` is false when the next sequence number would overflow. */
    method OnTcp(src: IpAddr, t: seq<byte>) returns (ok: bool)
      modifies this
      ensures ok <==> HandleTcp(old(AsHost()), src, t).Handled?
      ensures ok ==> Became(HandleTcp(old(AsHost()), src, t))
    {
      if |t| < 20 {
        return true;
      }
      var flags := FromBe16(t[12], t[13]);
      if HasFlag(flags, SYN) && !HasFlag(flags, ACK) {
        var seqNo := FromBe32(t[4], t[5], t[6], t[7]);
        if seqNo == LAST_SEQ {
          return false;
        }
        var synAck := BuildTcpSegment(FromBe16(t[2], t[3]), FromBe16(t[0], t[1]), 1000, seqNo + 1, SYN + ACK, [], src);
        SendIp(src, PROTO_TCP, synAck);
      }
      return true;
    }

    /** `ok` is false when slicing the body, or handling the segment in it, would panic. */
    method OnIp(pkt: seq<byte>) returns (ok: bool)
      modifies this
      ensures ok <==> HandleIp(old(AsHost()), pkt).Handled?
      ensures ok ==> Became(HandleIp(old(AsHost()), pkt))
    {
      if |pkt| < 20 || pkt[0] / 16 != 4 {
        return true;
      }
      var lo, hi := BodyStart(pkt), BodyEnd(pkt);
      if lo > hi {
        return false;
      }
      var src, body := pkt[12..16], pkt[lo..hi];
      if pkt[9] == PROTO_ICMP {
        OnIcmp(src, body);
      } else if pkt[9] == PROTO_UDP {
        OnUdp(src, body);
      } else if pkt[9] == PROTO_TCP {
        ok := OnTcp(src, body);
        return ok;
      }
      return true;
    }

    method OnFrame(frame: Frame) returns (ok: bool)
      modifies this
      ensures ok <==> HandleFrame(old(AsHost()), frame).Handled?
      ensures ok ==> Became(HandleFrame(old(AsHost()), frame))
    {
      if |frame| < 14 {
        return true;
      }
      var ethertype := FromBe16(frame[12], frame[13]);
      if ethertype == ETHERTYPE_ARP {
        OnArp(frame[14..]);
      } else if ethertype == ETHERTYPE_IP {
        ok := OnIp(frame[14..]);
        return ok;
      }
      return true;
    }
  }
}
