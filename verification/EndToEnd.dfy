/** From a `write` on one host to a `read` on another: descriptors, sockets, layers and queues together. */
module EndToEnd {
  import opened Options
  import opened Bytes
  import opened Packets
  import opened NetSpec
  import opened NetProofs
  import SocketSpec
  import opened FsErrors
  import opened KernelSpec

  /** The socket table after a frame's deliveries. */
  function DeliverAll(t: SocketSpec.Table, ds: seq<Delivery>): (r: SocketSpec.Table)
    decreases |ds|
  {
    if ds == [] then t
    else DeliverAll(SocketSpec.Delivered(t, ds[0].port, SocketSpec.Datagram(ds[0].src, ds[0].srcPort, ds[0].data)), ds[1..])
  }

  /**
   A datagram that fits reaches the queue of every UDP socket bound to its
   destination port, behind what was already waiting, and no other socket.
   */
  lemma DatagramReachesSockets(sender: Host, receiver: Host, t: SocketSpec.Table, i: nat,
                               srcPort: u16, dst: IpAddr, dstPort: u16, data: seq<byte>, pad: seq<byte>)
    requires |data| <= MAX_UDP && SocketSpec.Has(t, i)
    ensures var o := HandleFrame(receiver, UdpFrame(sender, srcPort, dst, dstPort, data) + pad);
            && o.Handled? && o.sent == []
            && var t' := DeliverAll(t, o.delivered);
               && SocketSpec.Has(t', i)
               && t'[i].value.rx == if SocketSpec.Takes(t[i], dstPort)
                                    then t[i].value.rx + [SocketSpec.Datagram(IP, srcPort, data)]
                                    else t[i].value.rx
  {
    hide HandleFrame, UdpFrame;
    UdpRoundTripIff(sender, receiver, srcPort, dst, dstPort, data, pad);
  }

  /** What a host's kernel does to its sockets for the deliveries of a frame. */
  function Arrivals(ds: seq<Delivery>): (calls: seq<Call>) {
    if ds == [] then []
    else [Inside(SocketSpec.Deliver(ds[0].port, SocketSpec.Datagram(ds[0].src, ds[0].srcPort, ds[0].data)))] + Arrivals(ds[1..])
  }

  /** The frame in which an outgoing datagram leaves a host. */
  function OnTheWire(h: Host, out: Outgoing): (f: Frame) {
    UdpFrame(h, out.srcPort, out.dst, out.dstPort, out.data)
  }

  lemma DeliveryArrives(ops: seq<SocketSpec.Op>, port: u16, d: SocketSpec.Datagram, i: nat)
    requires SocketSpec.Has(SocketSpec.After(ops), i) && SocketSpec.Takes(SocketSpec.After(ops)[i], port)
    ensures var more := ops + [SocketSpec.Deliver(port, d)];
            SocketSpec.Has(SocketSpec.After(more), i) && SocketSpec.Arrived(more, i) == SocketSpec.Arrived(ops, i) + [d]
  {
    assert (ops + [SocketSpec.Deliver(port, d)])[..|ops|] == ops;
  }

  /** The datagram is the next one in the queue of slot `i` once everything that was queued before it has been received. */
  lemma ArrivedIsNext(before: seq<Call>, port: u16, d: SocketSpec.Datagram, after: seq<Call>, i: nat)
    requires SocketSpec.Has(After(before).socks, i) && SocketSpec.Takes(After(before).socks[i], port)
    requires Inside(SocketSpec.Close(i)) !in after
    requires var ops := SocketOps(before + [Inside(SocketSpec.Deliver(port, d))] + after);
             |SocketSpec.Taken(ops, i)| == |SocketSpec.Arrived(SocketOps(before), i)|
    ensures SocketSpec.Head(After(before + [Inside(SocketSpec.Deliver(port, d))] + after).socks, i) == Some(d)
  {
    hide SocketOps, After, SocketSpec.After, SocketSpec.Arrived, SocketSpec.Taken, SocketSpec.Takes;
    var call := Inside(SocketSpec.Deliver(port, d));
    var ops := SocketOps(before) + [SocketSpec.Deliver(port, d)];
    SocketsFollow(before);
    DeliveryArrives(SocketOps(before), port, d, i);
    SocketOpsOneMore(before, call);
    var more := SocketOpsExtend(before + [call], after, i);
    SocketSpec.ArrivedExtends(ops, more, i);
    SocketsFollow(before + [call] + after);
    SocketSpec.NothingLostOrInvented(ops + more, i);
    NextInQueue(SocketSpec.Taken(ops + more, i), After(before + [call] + after).socks[i].value.rx,
                SocketSpec.Arrived(SocketOps(before), i), d, SocketSpec.Arrived(ops + more, i));
  }

  lemma NextInQueue(taken: seq<SocketSpec.Datagram>, rx: seq<SocketSpec.Datagram>, earlier: seq<SocketSpec.Datagram>,
                    d: SocketSpec.Datagram, all: seq<SocketSpec.Datagram>)
    requires taken + rx == all && earlier + [d] <= all && |taken| == |earlier|
    ensures rx != [] && rx[0] == d
  {
    assert all[|taken|] == (earlier + [d])[|earlier|];
  }

  /**
   What a program writes to a connected descriptor on one host is what a program
   on another reads. The datagram crosses the wire; whatever else the receiving
   host does before and after it arrives, a read on a descriptor of a socket
   bound to its port returns its bytes, as far as they fit, when everything that
   arrived for that socket earlier has been received.
   */
  lemma WrittenIsRead(sender: Host, a: Kernel, w: Call, out: Outgoing, pad: seq<byte>,
                      receiver: Host, before: seq<Call>, after: seq<Call>, i: nat, fd: nat, len: nat, input: FsResult<seq<byte>>)
    requires Sends(a, w) == [out] && |w.data| <= MAX_UDP
    requires SocketSpec.Has(After(before).socks, i) && SocketSpec.Takes(After(before).socks[i], out.dstPort)
    requires Inside(SocketSpec.Close(i)) !in after
    ensures var o := HandleFrame(receiver, OnTheWire(sender, out) + pad);
            && o.Handled? && o.sent == []
            && var run := before + Arrivals(o.delivered) + after;
               |SocketSpec.Taken(SocketOps(run), i)| == |SocketSpec.Arrived(SocketOps(before), i)|
               && SockIndex(After(run), fd) == Some(i) ==>
                 ReadResult(After(run), fd, len, input) == Ok(Take(w.data, len))
  {
    hide HandleFrame, UdpFrame, After, SocketOps, SocketSpec.Taken, SocketSpec.Arrived;
    UdpRoundTripIff(sender, receiver, out.srcPort, out.dst, out.dstPort, out.data, pad);
    var d := SocketSpec.Datagram(IP, out.srcPort, out.data);
    var o := HandleFrame(receiver, OnTheWire(sender, out) + pad);
    assert Arrivals(o.delivered) == [Inside(SocketSpec.Deliver(out.dstPort, d))];
    var run := before + Arrivals(o.delivered) + after;
    if |SocketSpec.Taken(SocketOps(run), i)| == |SocketSpec.Arrived(SocketOps(before), i)| {
      ArrivedIsNext(before, out.dstPort, d, after, i);
    }
  }
}
