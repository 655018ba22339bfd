/**
 What the stack does, read off the bytes on the wire. Every offset and every
 value here comes from the standards (Ethernet II, RFC 826, 791, 792, 768 and
 section 3.1 of RFC 9293), not from the builders or the layered decoder: for
 every frame that comes in, what goes out, byte by byte, what is delivered, and
 what the ARP cache learns.
 */
module WireFormat {
  import opened Bytes
  import opened Checksum
  import opened Packets
  import opened NetSpec

  /** The two bytes at `at` are `v`, most significant byte first. */
  predicate WordAt(f: seq<byte>, at: nat, v: nat) {
    at + 2 <= |f| && f[at] == v / 256 && f[at + 1] == v % 256
  }

  /** The number in the four bytes at `at`. */
  function NumberAt(f: seq<byte>, at: nat): (v: nat)
    requires at + 4 <= |f|
  {
    f[at] as int * 0x100_0000 + f[at + 1] as int * 0x1_0000 + f[at + 2] as int * 0x100 + f[at + 3]
  }

  /** Where a packet for `dst` is sent: to its own binding, else to the gateway's, else to everybody. */
  function MacFor(h: Host, dst: IpAddr): (m: seq<byte>) {
    if dst in h.cache then h.cache[dst]
    else if [10, 0, 2, 2] in h.cache then h.cache[[10, 0, 2, 2]]
    else [255, 255, 255, 255, 255, 255]
  }

  /** An IPv4 packet without options, sent by us from `mac` to `dst` in one Ethernet frame. */
  predicate CarriesIp(f: seq<byte>, toMac: seq<byte>, mac: seq<byte>, proto: byte, dst: IpAddr) {
    && |f| >= 34 && f[..6] == toMac && f[6..12] == mac && f[12..14] == [8, 0]
    && f[14..16] == [0x45, 0] && WordAt(f, 16, |f| - 14) && f[18..20] == [0, 1] && f[20..22] == [0x40, 0]
    && f[22] == 64 && f[23] == proto && f[26..30] == [10, 0, 2, 15] && f[30..34] == dst
    && InternetChecksum(f[14..34]) == 0
  }

  // ---- what is sent ----

  lemma HeaderBytes(proto: byte, dst: IpAddr, total: u16)
    ensures var p := IpHeader(proto, IP, dst, total);
            && p[..2] == [0x45, 0] && WordAt(p, 2, total) && p[4..6] == [0, 1] && p[6..8] == [0x40, 0]
            && p[8] == 64 && p[9] == proto && p[12..16] == [10, 0, 2, 15] && p[16..20] == dst
  {
    hide InternetChecksum;
  }

  lemma EthernetBytes(dst: MacAddr, src: MacAddr, ethertype: u16, payload: seq<byte>)
    ensures var f := EthernetFrame(dst, src, ethertype, payload);
            f[..6] == dst && f[6..12] == src && WordAt(f, 12, ethertype) && f[14..] == payload
  {}

  lemma IpFrameBytes(h: Host, dst: IpAddr, proto: byte, payload: seq<byte>)
    requires 20 + |payload| < 0x1_0000
    ensures var f := IpFrame(h, dst, proto, payload);
            && |f| == 34 + |payload| && CarriesIp(f, MacFor(h, dst), h.mac, proto, dst) && f[34..] == payload
            && f[26..34] == [10, 0, 2, 15] + dst
  {
    var total := 20 + |payload|;
    var f, p := IpFrame(h, dst, proto, payload), IpHeader(proto, IP, dst, total);
    HeaderBytes(proto, dst, total);
    HeaderVerifies(proto, IP, dst, total);
    EthernetBytes(NextHop(h, dst), h.mac, ETHERTYPE_IP, p + payload);
    hide InternetChecksum, IpHeader, EthernetFrame, NextHop, MacFor;
    assert NextHop(h, dst) == MacFor(h, dst) by { NextHopIs(h, dst); }
    PacketInFrame(f, p, payload);
  }

  lemma NextHopIs(h: Host, dst: IpAddr)
    ensures NextHop(h, dst) == MacFor(h, dst)
  {}

  lemma PacketInFrame(f: seq<byte>, p: seq<byte>, payload: seq<byte>)
    requires |p| == 20 && |f| == 34 + |payload| && f[14..] == p + payload
    ensures f[14..34] == p && f[34..] == payload && f[14..16] == p[..2] && f[16] == p[2] && f[17] == p[3]
    ensures f[18..20] == p[4..6] && f[20..22] == p[6..8] && f[22] == p[8] && f[23] == p[9]
    ensures f[26..30] == p[12..16] && f[30..34] == p[16..20] && f[26..34] == p[12..16] + p[16..20]
  {
    assert forall i :: 0 <= i < |f| - 14 ==> f[14 + i] == (p + payload)[i];
  }

  /** A datagram as RFC 768 lays it out, with the pseudo-header taken from the packet around it. */
  predicate CarriesUdp(f: seq<byte>, srcPort: u16, dstPort: u16, data: seq<byte>) {
    && |f| == 42 + |data| && WordAt(f, 34, srcPort) && WordAt(f, 36, dstPort) && WordAt(f, 38, 8 + |data|)
    && f[42..] == data
    && InternetChecksum(f[26..34] + [0, 17] + f[38..40] + f[34..]) == 0
  }

  lemma UdpBytes(srcPort: u16, dst: IpAddr, dstPort: u16, data: seq<byte>)
    requires 8 + |data| < 0x1_0000
    ensures var d := UdpDatagram(srcPort, dst, dstPort, data);
            && WordAt(d, 0, srcPort) && WordAt(d, 2, dstPort) && WordAt(d, 4, 8 + |data|) && d[8..] == data
            && InternetChecksum([10, 0, 2, 15] + dst + [0, 17] + d[4..6] + d) == 0
  {
    var d := UdpDatagram(srcPort, dst, dstPort, data);
    UdpVerifies(srcPort, dst, dstPort, data);
    hide InternetChecksum;
    assert d[4..6] == Be16(8 + |data|);
    assert PseudoHeader(dst, PROTO_UDP, 8 + |data|) == [10, 0, 2, 15] + dst + [0, 17] + d[4..6];
  }

  /** What `udp::send` puts on the wire. */
  lemma SentUdpBytes(h: Host, srcPort: u16, dst: IpAddr, dstPort: u16, data: seq<byte>)
    requires |data| <= 65507
    ensures var f := UdpFrame(h, srcPort, dst, dstPort, data);
            CarriesIp(f, MacFor(h, dst), h.mac, 17, dst) && CarriesUdp(f, srcPort, dstPort, data)
  {
    var f, d := UdpFrame(h, srcPort, dst, dstPort, data), UdpDatagram(srcPort, dst, dstPort, data);
    IpFrameBytes(h, dst, PROTO_UDP, d);
    UdpBytes(srcPort, dst, dstPort, data);
    hide InternetChecksum, IpFrame, UdpDatagram, CarriesIp, MacFor;
    assert forall i :: 0 <= i < |d| ==> f[34 + i] == f[34..][i];
    assert f[38..40] == d[4..6] && f[42..] == d[8..];
  }

  // ---- what comes in ----

  /** The body of an IPv4 packet in a frame: from behind its options up to its total length. */
  function Lo(f: seq<byte>): (lo: nat)
    requires |f| >= 34
    ensures lo >= 34
  {
    if f[14] % 16 < 5 then 34 else 14 + f[14] % 16 * 4
  }

  function Hi(f: seq<byte>): (hi: nat)
    requires |f| >= 34
    ensures hi <= |f|
  {
    var total := f[16] as int * 256 + f[17];
    if 14 + total < |f| then 14 + total else |f|
  }

  function Body(f: seq<byte>): (b: seq<byte>)
    requires |f| >= 34 && Lo(f) <= Hi(f)
  {
    f[Lo(f)..Hi(f)]
  }

  predicate IsIp(f: seq<byte>) {
    |f| >= 34 && f[12..14] == [8, 0] && f[14] / 16 == 4 && Lo(f) <= Hi(f)
  }

  predicate IsEcho(f: seq<byte>) {
    IsIp(f) && f[23] == 1 && |Body(f)| >= 8 && Body(f)[0] == 8
  }

  /** SYN is bit 1 of the flags, ACK bit 4. */
  predicate OnlySyn(t: seq<byte>) {
    |t| >= 20 && t[13] / 2 % 2 == 1 && t[13] / 16 % 2 == 0
  }

  predicate IsSyn(f: seq<byte>) {
    IsIp(f) && f[23] == 6 && OnlySyn(Body(f))
  }

  predicate IsUdp(f: seq<byte>) {
    IsIp(f) && f[23] == 17 && |Body(f)| >= 8
  }

  predicate IsArp(f: seq<byte>) {
    |f| >= 42 && f[12..14] == [8, 6]
  }

  predicate AsksForUs(f: seq<byte>) {
    IsArp(f) && f[20..22] == [0, 1] && f[38..42] == [10, 0, 2, 15]
  }

  lemma ReachesTransport(h: Host, f: Frame)
    requires IsIp(f)
    ensures HandleFrame(h, f) == HandleTransport(h, f[23], f[26..30], Body(f))
  {
    hide HandleTransport;
    assert f[12] == f[12..14][0] && f[13] == f[12..14][1];
    var p := f[14..];
    assert BodyStart(p) == Lo(f) - 14 && BodyEnd(p) == Hi(f) - 14;
    assert p[12..16] == f[26..30] && p[BodyStart(p)..BodyEnd(p)] == Body(f);
  }

  /** The answer to a request for our address: to the asker, that our address is at our MAC. */
  lemma ArpAnswer(h: Host, f: Frame)
    requires AsksForUs(f)
    ensures HandleFrame(h, f)
            == Handled(h.(cache := h.cache[f[28..32] := f[22..28]]),
                       [f[22..28] + h.mac + [8, 6] + [0, 1, 8, 0, 6, 4, 0, 2]
                        + h.mac + [10, 0, 2, 15] + f[22..28] + f[28..32]], [])
  {
    assert f[12] == f[12..14][0] && f[13] == f[12..14][1] && f[20] == f[20..22][0] && f[21] == f[20..22][1];
    var p := f[14..];
    assert p[8..14] == f[22..28] && p[14..18] == f[28..32] && p[24..28] == f[38..42];
    ArpFrameBytes(h.mac, f[22..28], f[28..32]);
    hide EthernetFrame, ArpPayload;
  }

  lemma ArpFrameBytes(mac: MacAddr, sha: MacAddr, spa: IpAddr)
    ensures EthernetFrame(sha, mac, ETHERTYPE_ARP, ArpPayload(2, mac, IP, sha, spa))
            == sha + mac + [8, 6] + [0, 1, 8, 0, 6, 4, 0, 2] + mac + [10, 0, 2, 15] + sha + spa
  {}

  /** The answer to an echo request from any address: back to that address, with the same bytes behind the checksum. */
  lemma EchoAnswer(h: Host, f: Frame)
    requires IsEcho(f)
    ensures var o := HandleFrame(h, f);
            && o.Handled? && o.host == h && o.delivered == [] && |o.sent| == 1
            && var g := o.sent[0];
               && |g| == 34 + |Body(f)| && CarriesIp(g, MacFor(h, f[26..30]), h.mac, 1, f[26..30])
               && g[34..36] == [0, 0] && g[38..] == Body(f)[4..] && InternetChecksum(g[34..]) == 0
  {
    ReachesTransport(h, f);
    var src, body := f[26..30], Body(f);
    var m := EchoReply(body);
    hide IpFrame, InternetChecksum, Body, CarriesIp, MacFor, HandleFrame;
    EchoVerifies(0, 0, [], body);
    IpFrameBytes(h, src, PROTO_ICMP, m);
    var g := IpFrame(h, src, PROTO_ICMP, m);
    assert m[..2] == [0, 0] && m[4..] == body[4..];
    assert g[34..36] == m[..2] && g[38..] == m[4..];
  }

  lemma SynAckFields(srcPort: u16, dstPort: u16, ack: u32, dst: IpAddr)
    ensures var t := TcpSegment(srcPort, dstPort, 1000, ack, SYN + ACK, [], dst);
            && |t| == 20 && WordAt(t, 0, srcPort) && WordAt(t, 2, dstPort) && t[4..8] == [0, 0, 3, 232]
            && NumberAt(t, 8) == ack && t[12..14] == [0x50, 0x12] && t[14..16] == [2, 24] && t[18..20] == [0, 0]
  {
    hide InternetChecksum, PseudoHeader;
  }

  lemma SynAckBytes(srcPort: u16, dstPort: u16, ack: u32, dst: IpAddr)
    ensures var t := TcpSegment(srcPort, dstPort, 1000, ack, SYN + ACK, [], dst);
            && |t| == 20 && WordAt(t, 0, srcPort) && WordAt(t, 2, dstPort) && t[4..8] == [0, 0, 3, 232]
            && NumberAt(t, 8) == ack && t[12..14] == [0x50, 0x12] && t[14..16] == [2, 24] && t[18..20] == [0, 0]
            && InternetChecksum([10, 0, 2, 15] + dst + [0, 6, 0, 20] + t) == 0
  {
    hide InternetChecksum, TcpSegment;
    SynAckFields(srcPort, dstPort, ack, dst);
    TcpVerifies(srcPort, dstPort, 1000, ack, SYN + ACK, [], dst);
    assert PseudoHeader(dst, PROTO_TCP, 20) == [10, 0, 2, 15] + dst + [0, 6, 0, 20];
  }

  /** The answer to a SYN from any address: a SYN-ACK back to that address and port, acknowledging the next number. */
  lemma SynAnswer(h: Host, f: Frame)
    requires IsSyn(f) && NumberAt(Body(f), 4) < 0xFFFF_FFFF
    ensures var o := HandleFrame(h, f);
            && o.Handled? && o.host == h && o.delivered == [] && |o.sent| == 1
            && AnswersSyn(o.sent[0], h, f[26..30], Body(f))
  {
    ReachesTransport(h, f);
    hide Body, OnlySyn, AnswersSyn, HandleFrame, HandleTcp, NumberAt;
    SynTransport(h, f[26..30], Body(f));
  }

  /** The SYN-ACK that goes from us to `src` for the SYN `t`. */
  predicate AnswersSyn(g: seq<byte>, h: Host, src: IpAddr, t: seq<byte>)
    requires |t| >= 20
  {
    && |g| == 54 && CarriesIp(g, MacFor(h, src), h.mac, 6, src)
    && g[34..36] == t[2..4] && g[36..38] == t[..2]
    && g[38..42] == [0, 0, 3, 232] && NumberAt(g, 42) == NumberAt(t, 4) + 1
    && g[46..48] == [0x50, 0x12] && g[48..50] == [2, 24] && g[52..54] == [0, 0]
    && InternetChecksum(g[26..34] + [0, 6, 0, 20] + g[34..]) == 0
  }

  lemma SynTransport(h: Host, src: IpAddr, t: seq<byte>)
    requires OnlySyn(t) && NumberAt(t, 4) < 0xFFFF_FFFF
    ensures var o := HandleTcp(h, src, t);
            && o.Handled? && o.host == h && o.delivered == [] && |o.sent| == 1 && AnswersSyn(o.sent[0], h, src, t)
  {
    hide IpFrame, InternetChecksum, SynAckFor, HandleTcp, CarriesIp, MacFor, NumberAt;
    var r := SynAckFor(t, src);
    TcpAnswer(h, src, t);
    SynAckForBytes(t, src);
    IpFrameBytes(h, src, PROTO_TCP, r);
    SameFields(IpFrame(h, src, PROTO_TCP, r), r);
  }

  /** The segment that answers the SYN `t`. */
  function SynAckFor(t: seq<byte>, src: IpAddr): (r: seq<byte>)
    requires |t| >= 20 && NumberAt(t, 4) < 0xFFFF_FFFF
  {
    TcpSegment(FromBe16(t[2], t[3]), FromBe16(t[0], t[1]), 1000, NumberAt(t, 4) + 1, SYN + ACK, [], src)
  }

  lemma TcpAnswer(h: Host, src: IpAddr, t: seq<byte>)
    requires OnlySyn(t) && NumberAt(t, 4) < 0xFFFF_FFFF
    ensures HandleTcp(h, src, t) == Handled(h, [IpFrame(h, src, PROTO_TCP, SynAckFor(t, src))], [])
  {
    hide IpFrame, TcpSegment, HasFlag;
    FlagsAt(t);
  }

  lemma SynAckForBytes(t: seq<byte>, src: IpAddr)
    requires |t| >= 20 && NumberAt(t, 4) < 0xFFFF_FFFF
    ensures var r := SynAckFor(t, src);
            && |r| == 20 && r[..2] == t[2..4] && r[2..4] == t[..2] && r[4..8] == [0, 0, 3, 232]
            && NumberAt(r, 8) == NumberAt(t, 4) + 1
            && r[12..14] == [0x50, 0x12] && r[14..16] == [2, 24] && r[18..20] == [0, 0]
            && InternetChecksum([10, 0, 2, 15] + src + [0, 6, 0, 20] + r) == 0
  {
    hide TcpSegment, InternetChecksum;
    SynAckBytes(FromBe16(t[2], t[3]), FromBe16(t[0], t[1]), NumberAt(t, 4) + 1, src);
  }

  lemma SameFields(g: seq<byte>, t: seq<byte>)
    requires |g| == 54 && |t| == 20 && g[34..] == t
    ensures g[38..42] == t[4..8] && NumberAt(g, 42) == NumberAt(t, 8) && g[46..48] == t[12..14]
    ensures g[48..50] == t[14..16] && g[52..54] == t[18..20] && g[34..36] == t[..2] && g[36..38] == t[2..4]
  {
    assert forall i :: 0 <= i < 20 ==> g[34 + i] == t[i];
  }

  /** Which flags a segment has. */
  lemma FlagsAt(t: seq<byte>)
    requires |t| >= 20
    ensures HasFlag(FromBe16(t[12], t[13]), SYN) <==> t[13] / 2 % 2 == 1
    ensures HasFlag(FromBe16(t[12], t[13]), ACK) <==> t[13] / 16 % 2 == 1
  {}

  /** How far the data of a datagram reaches: to the end its length field gives, within the packet. */
  function DataEnd(d: seq<byte>): (end: nat)
    requires |d| >= 8
    ensures 8 <= end <= |d|
  {
    var length := d[4] as int * 256 + d[5];
    if length < 8 then 8 else if length < |d| then length else |d|
  }

  /** A datagram is delivered to its destination port with the address and port it came from. */
  lemma UdpDelivered(h: Host, f: Frame)
    requires IsUdp(f)
    ensures var o := HandleFrame(h, f);
            && o.Handled? && o.host == h && o.sent == [] && |o.delivered| == 1
            && var d := o.delivered[0];
               && WordAt(Body(f), 0, d.srcPort) && WordAt(Body(f), 2, d.port)
               && d.src == f[26..30] && d.data == Body(f)[8..DataEnd(Body(f))]
  {
    ReachesTransport(h, f);
    hide HandleFrame, Body;
  }

  /**
   Every frame that does not make the stack panic: it causes an answer exactly
   when it asks for our address, is an echo request or is a SYN; a delivery
   exactly when it carries a datagram; and it changes the cache exactly when it
   is an ARP frame, by the sender's binding.
   */
  lemma EveryFrame(h: Host, f: Frame)
    requires HandleFrame(h, f).Handled?
    ensures var o := HandleFrame(h, f);
            && |o.sent| == (if AsksForUs(f) || IsEcho(f) || IsSyn(f) then 1 else 0)
            && |o.delivered| == (if IsUdp(f) then 1 else 0)
            && o.host == (if IsArp(f) then h.(cache := h.cache[f[28..32] := f[22..28]]) else h)
  {
    if |f| >= 14 {
      assert f[12..14] == [f[12], f[13]];
      if f[12..14] == [8, 6] {
        ArpFrame(h, f);
      } else if IsIp(f) {
        ReachesTransport(h, f);
        IpBody(h, f);
      }
    }
  }

  lemma ArpFrame(h: Host, f: Frame)
    requires |f| >= 14 && f[12..14] == [8, 6]
    ensures var o := HandleFrame(h, f);
            && o.Handled? && o.delivered == [] && |o.sent| == (if AsksForUs(f) then 1 else 0)
            && o.host == (if IsArp(f) then h.(cache := h.cache[f[28..32] := f[22..28]]) else h)
  {
    hide EthernetFrame, ArpPayload;
    assert f[12] == f[12..14][0] && f[13] == f[12..14][1];
    if |f| >= 42 {
      var p := f[14..];
      assert f[20..22] == [p[6], p[7]] && p[8..14] == f[22..28] && p[14..18] == f[28..32] && p[24..28] == f[38..42];
    }
  }

  lemma IpBody(h: Host, f: Frame)
    requires IsIp(f)
    ensures var o := HandleTransport(h, f[23], f[26..30], Body(f));
            o.Handled? ==>
              && |o.sent| == (if IsEcho(f) || IsSyn(f) then 1 else 0)
              && |o.delivered| == (if IsUdp(f) then 1 else 0) && o.host == h
  {
    hide IpFrame, EchoReply, TcpSegment, HasFlag, Body;
    if |Body(f)| >= 20 { FlagsAt(Body(f)); }
  }
}
