/**
 The packets the stack builds: IPv4 headers (section 3.1 of RFC 791), ICMP echo
 messages (RFC 792), UDP datagrams (RFC 768), TCP segments (section 3.1 of
 RFC 9293), ARP payloads (RFC 826) and Ethernet frames.
 */
module Packets {
  import opened Bytes
  import opened Checksum

  type IpAddr = a: seq<byte> | |a| == 4 witness [0, 0, 0, 0]
  type MacAddr = a: seq<byte> | |a| == 6 witness [0, 0, 0, 0, 0, 0]

  const IP: IpAddr := [10, 0, 2, 15]
  const GATEWAY: IpAddr := [10, 0, 2, 2]
  const BROADCAST: MacAddr := [255, 255, 255, 255, 255, 255]

  const PROTO_ICMP: byte := 1
  const PROTO_TCP: byte := 6
  const PROTO_UDP: byte := 17
  const ETHERTYPE_ARP: u16 := 0x0806
  const ETHERTYPE_IP: u16 := 0x0800

  /** A length cast to 16 bits. */
  function Low16(n: nat): (r: u16) {
    n % 0x1_0000
  }

  // ---- messages that carry a checksum ----

  /** `a` and `b` around the checksum of `pre`, `a`, a zero field and `b`. */
  function WithChecksum(pre: seq<byte>, a: seq<byte>, b: seq<byte>): (m: seq<byte>)
    ensures |m| == |a| + 2 + |b|
  {
    a + Be16(InternetChecksum(pre + a + Be16(0) + b)) + b
  }

  lemma WithChecksumVerifies(pre: seq<byte>, a: seq<byte>, b: seq<byte>)
    requires |pre| % 2 == 0 && |a| % 2 == 0
    ensures InternetChecksum(pre + WithChecksum(pre, a, b)) == 0
  {
    FilledInVerifies(pre + a, b);
    assert pre + WithChecksum(pre, a, b) == (pre + a) + Be16(InternetChecksum((pre + a) + Be16(0) + b)) + b;
  }

  function IpHeader(proto: byte, src: IpAddr, dst: IpAddr, total: u16): (h: seq<byte>)
    ensures |h| == 20
  {
    WithChecksum([], [0x45, 0] + Be16(total) + Be16(1) + Be16(0x4000) + [64, proto], src + dst)
  }

  /** The fields a UDP or TCP checksum covers besides the message. */
  function PseudoHeader(dst: IpAddr, proto: byte, length: u16): (p: seq<byte>)
    ensures |p| == 12
  {
    IP + dst + [0, proto] + Be16(length)
  }

  function EchoRequest(id: u16, seqNo: u16, payload: seq<byte>): (m: seq<byte>) {
    WithChecksum([], [8, 0], Be16(id) + Be16(seqNo) + payload)
  }

  function EchoReply(req: seq<byte>): (m: seq<byte>)
    requires |req| >= 4
    ensures |m| == |req|
  {
    WithChecksum([], [0, 0], req[4..])
  }

  function UdpDatagram(srcPort: u16, dst: IpAddr, dstPort: u16, data: seq<byte>): (d: seq<byte>)
    ensures |d| == 8 + |data|
  {
    var total := Low16(8 + |data|);
    WithChecksum(PseudoHeader(dst, PROTO_UDP, total), Be16(srcPort) + Be16(dstPort) + Be16(total), data)
  }

  /** Set the bit of weight `bit`. */
  function WithBit(x: u16, bit: u16): (r: int)
    requires bit > 0
  {
    if x / bit % 2 == 1 then x else x + bit
  }

  /** A data offset of five words, `5 << 12`, or-ed with the flags. */
  function OffsetAndFlags(flags: u16): (r: u16)
    ensures flags < 0x1000 ==> r == 0x5000 + flags
  {
    WithBit(WithBit(flags, 0x1000), 0x4000)
  }

  /** The two bits of the offset are set and every other bit is that of the flags. */
  lemma OffsetBits(b15: nat, b14: nat, b13: nat, b12: nat, low: nat)
    requires b15 <= 1 && b14 <= 1 && b13 <= 1 && b12 <= 1 && low < 0x1000
    ensures OffsetAndFlags(b15 * 0x8000 + b14 * 0x4000 + b13 * 0x2000 + b12 * 0x1000 + low)
            == b15 * 0x8000 + 0x4000 + b13 * 0x2000 + 0x1000 + low
  {}

  function TcpSegment(srcPort: u16, dstPort: u16, seqNo: u32, ack: u32, flags: u16, payload: seq<byte>,
                      dst: IpAddr): (t: seq<byte>)
    ensures |t| == 20 + |payload|
  {
    WithChecksum(PseudoHeader(dst, PROTO_TCP, Low16(20 + |payload|)),
                 Be16(srcPort) + Be16(dstPort) + Be32(seqNo) + Be32(ack) + Be16(OffsetAndFlags(flags)) + Be16(536),
                 Be16(0) + payload)
  }

  function ArpPayload(oper: u16, sha: MacAddr, spa: IpAddr, tha: MacAddr, tpa: IpAddr): (p: seq<byte>)
    ensures |p| == 28
  {
    Be16(1) + Be16(0x0800) + [6, 4] + Be16(oper) + sha + spa + tha + tpa
  }

  function EthernetFrame(dst: MacAddr, src: MacAddr, ethertype: u16, payload: seq<byte>): (f: seq<byte>)
    ensures |f| == 14 + |payload|
  {
    dst + src + Be16(ethertype) + payload
  }

  // ---- every packet verifies ----

  lemma HeaderVerifies(proto: byte, src: IpAddr, dst: IpAddr, total: u16)
    ensures InternetChecksum(IpHeader(proto, src, dst, total)) == 0
  {
    WithChecksumVerifies([], [0x45, 0] + Be16(total) + Be16(1) + Be16(0x4000) + [64, proto], src + dst);
    assert [] + IpHeader(proto, src, dst, total) == IpHeader(proto, src, dst, total);
  }

  lemma EchoVerifies(id: u16, seqNo: u16, payload: seq<byte>, req: seq<byte>)
    requires |req| >= 4
    ensures InternetChecksum(EchoRequest(id, seqNo, payload)) == 0
    ensures InternetChecksum(EchoReply(req)) == 0
  {
    WithChecksumVerifies([], [8, 0], Be16(id) + Be16(seqNo) + payload);
    WithChecksumVerifies([], [0, 0], req[4..]);
    assert [] + EchoRequest(id, seqNo, payload) == EchoRequest(id, seqNo, payload);
    assert [] + EchoReply(req) == EchoReply(req);
  }

  lemma UdpVerifies(srcPort: u16, dst: IpAddr, dstPort: u16, data: seq<byte>)
    ensures InternetChecksum(PseudoHeader(dst, PROTO_UDP, Low16(8 + |data|)) + UdpDatagram(srcPort, dst, dstPort, data)) == 0
  {
    var total := Low16(8 + |data|);
    WithChecksumVerifies(PseudoHeader(dst, PROTO_UDP, total), Be16(srcPort) + Be16(dstPort) + Be16(total), data);
  }

  /** The checksum field of a datagram. */
  function UdpField(srcPort: u16, dst: IpAddr, dstPort: u16, data: seq<byte>): (c: u16) {
    var d := UdpDatagram(srcPort, dst, dstPort, data);
    FromBe16(d[6], d[7])
  }

  lemma ChecksumField(pre: seq<byte>, a: seq<byte>, b: seq<byte>)
    ensures var m := WithChecksum(pre, a, b);
            FromBe16(m[|a|], m[|a| + 1]) == InternetChecksum(pre + a + Be16(0) + b)
  {
    hide InternetChecksum;
  }

  /** The sum of all words the UDP checksum covers. */
  function UdpSum(srcPort: u16, dst: IpAddr, dstPort: u16, data: seq<byte>): (s: nat) {
    0x0A00 + 0x020F + FromBe16(dst[0], dst[1]) + FromBe16(dst[2], dst[3]) + PROTO_UDP
    + srcPort + dstPort + 2 * Low16(8 + |data|) + WordSum(data)
  }

  lemma SumOfWord(v: u16)
    ensures WordSum(Be16(v)) == v
  {
    assert Be16(v)[2..] == [];
  }

  lemma SumOfAddress(a: IpAddr)
    ensures WordSum(a) == FromBe16(a[0], a[1]) + FromBe16(a[2], a[3])
  {
    assert WordSum(a[2..]) == FromBe16(a[2], a[3]) by { assert |a[2..][2..]| == 0; }
  }

  lemma PseudoSum(dst: IpAddr, length: u16)
    ensures WordSum(PseudoHeader(dst, PROTO_UDP, length))
            == 0x0A00 + 0x020F + FromBe16(dst[0], dst[1]) + FromBe16(dst[2], dst[3]) + PROTO_UDP + length
  {
    hide WordSum;
    SumOfAddress(IP);
    SumOfAddress(dst);
    SumOfWord(PROTO_UDP);
    SumOfWord(length);
    SumAppend(IP, dst);
    SumAppend(IP + dst, Be16(PROTO_UDP));
    SumAppend(IP + dst + Be16(PROTO_UDP), Be16(length));
  }

  lemma UdpSumIsSum(srcPort: u16, dst: IpAddr, dstPort: u16, data: seq<byte>)
    ensures var total := Low16(8 + |data|);
            UdpSum(srcPort, dst, dstPort, data)
            == WordSum(PseudoHeader(dst, PROTO_UDP, total) + (Be16(srcPort) + Be16(dstPort) + Be16(total)) + Be16(0) + data)
  {
    hide WordSum, PseudoHeader, Be16, Low16;
    var total := Low16(8 + |data|);
    var p, h := PseudoHeader(dst, PROTO_UDP, total), Be16(srcPort) + Be16(dstPort) + Be16(total);
    PseudoSum(dst, total);
    SumOfWord(srcPort);
    SumOfWord(dstPort);
    SumOfWord(total);
    SumAppend(Be16(srcPort), Be16(dstPort));
    SumAppend(Be16(srcPort) + Be16(dstPort), Be16(total));
    SumAppend(p, h);
    SumOfField(p + h, 0, data);
  }

  lemma UdpFieldIs(srcPort: u16, dst: IpAddr, dstPort: u16, data: seq<byte>)
    ensures UdpField(srcPort, dst, dstPort, data) == 0xFFFF - Fold(UdpSum(srcPort, dst, dstPort, data))
  {
    hide UdpSum, WordSum, Fold, PseudoHeader, WithChecksum, Be16, Low16;
    var total := Low16(8 + |data|);
    UdpSumIsSum(srcPort, dst, dstPort, data);
    ChecksumField(PseudoHeader(dst, PROTO_UDP, total), Be16(srcPort) + Be16(dstPort) + Be16(total), data);
  }

  /** Exactly when the field goes out as zero, which to a receiver means that there is no checksum (RFC 768). */
  lemma UdpFieldZeroIff(srcPort: u16, dst: IpAddr, dstPort: u16, data: seq<byte>)
    ensures UdpField(srcPort, dst, dstPort, data) == 0 <==> UdpSum(srcPort, dst, dstPort, data) % 65535 == 0
  {
    hide UdpField, WordSum, Fold;
    UdpFieldIs(srcPort, dst, dstPort, data);
    FoldCongruent(UdpSum(srcPort, dst, dstPort, data));
  }

  /** An empty datagram from port 59288 to port 53 of the gateway is one. */
  lemma UdpFieldCanBeZero()
    ensures UdpField(59288, GATEWAY, 53, []) == 0
  {
    UdpFieldZeroIff(59288, GATEWAY, 53, []);
  }

  lemma TcpVerifies(srcPort: u16, dstPort: u16, seqNo: u32, ack: u32, flags: u16, payload: seq<byte>, dst: IpAddr)
    ensures InternetChecksum(PseudoHeader(dst, PROTO_TCP, Low16(20 + |payload|))
                             + TcpSegment(srcPort, dstPort, seqNo, ack, flags, payload, dst)) == 0
  {
    var a := Be16(srcPort) + Be16(dstPort) + Be32(seqNo) + Be32(ack) + Be16(OffsetAndFlags(flags)) + Be16(536);
    WithChecksumVerifies(PseudoHeader(dst, PROTO_TCP, Low16(20 + |payload|)), a, Be16(0) + payload);
  }

  // ---- the builders ----

  /** `copy_from_slice` into the part of a buffer that starts at `at`. */
  method CopyInto(b: array<byte>, at: nat, src: seq<byte>)
    requires at + |src| <= b.Length
    modifies b
    ensures b[..] == old(b[..at]) + src + old(b[at + |src|..])
  {
    for i := 0 to |src|
      invariant forall k :: 0 <= k < i ==> b[at + k] == src[k]
      invariant forall k :: 0 <= k < at || at + i <= k < b.Length ==> b[k] == old(b[k])
    {
      b[at + i] := src[i];
    }
  }

  method BuildHeader(proto: byte, src: IpAddr, dst: IpAddr, total: u16) returns (h: seq<byte>)
    ensures h == IpHeader(proto, src, dst, total)
  {
    var b := new byte[20](_ => 0);
    b[0] := 0x45;
    assert b[..] == [0x45, 0] + Zeros(18);
    CopyInto(b, 2, Be16(total));
    assert b[..] == [0x45, 0] + Be16(total) + Zeros(16);
    CopyInto(b, 4, Be16(1));
    assert b[..] == [0x45, 0] + Be16(total) + Be16(1) + Zeros(14);
    CopyInto(b, 6, Be16(0x4000));
    assert b[..] == [0x45, 0] + Be16(total) + Be16(1) + Be16(0x4000) + Zeros(12);
    h := CompleteHeader(b, [0x45, 0] + Be16(total) + Be16(1) + Be16(0x4000), proto, src, dst);
  }

  method CompleteHeader(b: array<byte>, start: seq<byte>, proto: byte, src: IpAddr, dst: IpAddr) returns (h: seq<byte>)
    requires |start| == 8 && b.Length == 20 && b[..] == start + Zeros(12)
    modifies b
    ensures h == WithChecksum([], start + [64, proto], src + dst)
  {
    b[8], b[9] := 64, proto;
    assert b[..] == start + [64, proto] + Zeros(10);
    CopyInto(b, 12, src);
    assert b[..] == start + [64, proto] + Zeros(2) + src + Zeros(4);
    CopyInto(b, 16, dst);
    ghost var fixed := start + [64, proto];
    assert b[..] == [] + fixed + Be16(0) + (src + dst);
    var cks := Compute(b[..]);
    CopyInto(b, 10, Be16(cks));
    assert b[..] == fixed + Be16(cks) + (src + dst);
    h := b[..];
  }

  /** Overwrite the two bytes at `at` in a message that is being built. */
  function Patched(m: seq<byte>, at: nat, v: u16): (r: seq<byte>)
    requires at + 2 <= |m|
  {
    m[at := Be16(v)[0]][at + 1 := Be16(v)[1]]
  }

  /** Patching the checksum of the message so far into its zero field completes it. */
  lemma PatchCompletes(pre: seq<byte>, a: seq<byte>, b: seq<byte>)
    ensures var m := a + Be16(0) + b;
            Patched(m, |a|, InternetChecksum(pre + m)) == WithChecksum(pre, a, b)
  {
    assert pre + (a + Be16(0) + b) == pre + a + Be16(0) + b;
  }

  method BuildEchoRequest(id: u16, seqNo: u16, payload: seq<byte>) returns (m: seq<byte>)
    requires 8 + |payload| <= MAX_LENGTH
    ensures m == EchoRequest(id, seqNo, payload)
  {
    m := [8];
    m := m + [0];
    m := m + Be16(0);
    m := m + Be16(id);
    m := m + Be16(seqNo);
    m := m + payload;
    assert m == [8, 0] + Be16(0) + (Be16(id) + Be16(seqNo) + payload);
    assert [] + m == m;
    PatchCompletes([], [8, 0], Be16(id) + Be16(seqNo) + payload);
    var cks := Compute(m);
    m := Patched(m, 2, cks);
  }

  method BuildEchoReply(req: seq<byte>) returns (m: seq<byte>)
    requires 4 <= |req| <= MAX_LENGTH
    ensures m == EchoReply(req)
  {
    m := req[0 := 0][1 := 0][2 := 0][3 := 0];
    assert m == [0, 0] + Be16(0) + req[4..];
    assert [] + m == m;
    PatchCompletes([], [0, 0], req[4..]);
    var cks := Compute(m);
    m := Patched(m, 2, cks);
  }

  method BuildUdpDatagram(srcPort: u16, dst: IpAddr, dstPort: u16, data: seq<byte>) returns (d: seq<byte>)
    requires 20 + |data| <= MAX_LENGTH
    ensures d == UdpDatagram(srcPort, dst, dstPort, data)
  {
    var total := Low16(8 + |data|);
    d := Be16(srcPort);
    d := d + Be16(dstPort);
    d := d + Be16(total);
    d := d + Be16(0);
    d := d + data;
    var pseudo: seq<byte> := IP;
    pseudo := pseudo + dst;
    pseudo := pseudo + [0];
    pseudo := pseudo + [PROTO_UDP];
    pseudo := pseudo + Be16(total);
    assert pseudo == PseudoHeader(dst, PROTO_UDP, total);
    PatchCompletes(pseudo, Be16(srcPort) + Be16(dstPort) + Be16(total), data);
    pseudo := pseudo + d;
    var cks := Compute(pseudo);
    d := Patched(d, 6, cks);
  }

  method BuildTcpSegment(srcPort: u16, dstPort: u16, seqNo: u32, ack: u32, flags: u16, payload: seq<byte>,
                         dst: IpAddr) returns (t: seq<byte>)
    requires 32 + |payload| <= MAX_LENGTH
    ensures t == TcpSegment(srcPort, dstPort, seqNo, ack, flags, payload, dst)
  {
    t := Be16(srcPort);
    t := t + Be16(dstPort);
    t := t + Be32(seqNo);
    t := t + Be32(ack);
    t := t + Be16(OffsetAndFlags(flags));
    t := t + Be16(536);
    ghost var a := t;
    t := t + Be16(0);
    t := t + Be16(0);
    t := t + payload;
    assert t == a + Be16(0) + (Be16(0) + payload);
    var pseudo: seq<byte> := IP;
    pseudo := pseudo + dst;
    pseudo := pseudo + [0];
    pseudo := pseudo + [PROTO_TCP];
    pseudo := pseudo + Be16(Low16(|t|));
    assert pseudo == PseudoHeader(dst, PROTO_TCP, Low16(20 + |payload|));
    PatchCompletes(pseudo, a, Be16(0) + payload);
    pseudo := pseudo + t;
    var cks := Compute(pseudo);
    t := Patched(t, 16, cks);
  }
}
