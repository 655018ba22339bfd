/** The socket table as a value, and conservation of datagrams in every run. */
module SocketSpec {
  import opened Options
  import opened Bytes
  import opened Packets

  datatype Datagram = Datagram(src: IpAddr, srcPort: u16, data: seq<byte>)
  datatype Socket = Socket(proto: byte, port: u16, peer: Option<(IpAddr, u16)>, rx: seq<Datagram>)
  type Table = seq<Option<Socket>>

  predicate Has(t: Table, i: nat) {
    i < |t| && t[i].Some?
  }

  function Created(t: Table, proto: byte): (r: Table) {
    Put(t, Socket(proto, 0, None, []))
  }

  function Bound(t: Table, i: nat, port: u16): (r: Table) {
    if Has(t, i) then t[i := Some(t[i].value.(port := port))] else t
  }

  function Connected(t: Table, i: nat, ip: IpAddr, port: u16): (r: Table) {
    if Has(t, i) then t[i := Some(t[i].value.(peer := Some((ip, port))))] else t
  }

  function Closed(t: Table, i: nat): (r: Table) {
    if i < |t| then t[i := None] else t
  }

  /** The socket gets what arrives for `port`: it is UDP and bound to it. */
  predicate Takes(s: Option<Socket>, port: u16) {
    s.Some? && s.value.proto == PROTO_UDP && s.value.port == port
  }

  function Queued(s: Option<Socket>, port: u16, d: Datagram): (r: Option<Socket>) {
    if Takes(s, port) then Some(s.value.(rx := s.value.rx + [d])) else s
  }

  function Delivered(t: Table, port: u16, d: Datagram): (r: Table)
    ensures |r| == |t| && forall i :: 0 <= i < |t| ==> r[i] == Queued(t[i], port, d)
  {
    seq(|t|, i requires 0 <= i < |t| => Queued(t[i], port, d))
  }

  /** The oldest datagram waiting in slot `i`. */
  function Head(t: Table, i: nat): (d: Option<Datagram>) {
    if Has(t, i) && t[i].value.rx != [] then Some(t[i].value.rx[0]) else None
  }

  function Received(t: Table, i: nat): (r: Table) {
    if Head(t, i).Some? then t[i := Some(t[i].value.(rx := t[i].value.rx[1..]))] else t
  }

  /**
   A new UDP socket bound to a port hears what is sent to that port and only
   that, the first receive returns it, and nothing else in the table changes by it.
   */
  lemma BoundSocketReceives(t: Table, port: u16, other: u16, d: Datagram, e: Datagram)
    requires other != port
    ensures var i := FirstFree(t);
            var bound := Bound(Created(t, PROTO_UDP), i, port);
            var heard := Delivered(Delivered(bound, other, e), port, d);
            && Head(bound, i) == None && Head(heard, i) == Some(d) && Head(Received(heard, i), i) == None
            && |bound| >= |t| && |Received(heard, i)| == |heard| == |bound|
            && (forall j :: 0 <= j < |t| && j != i ==> bound[j] == t[j] && Received(heard, i)[j] == heard[j])
  {}

  // ---- runs ----

  datatype Op =
    | Create(proto: byte)
    | Bind(i: nat, port: u16)
    | Connect(i: nat, ip: IpAddr, port: u16)
    | Close(i: nat)
    | Deliver(port: u16, d: Datagram)
    | Receive(i: nat)

  function Apply(t: Table, op: Op): (r: Table) {
    match op
    case Create(proto) => Created(t, proto)
    case Bind(i, port) => Bound(t, i, port)
    case Connect(i, ip, port) => Connected(t, i, ip, port)
    case Close(i) => Closed(t, i)
    case Deliver(port, d) => Delivered(t, port, d)
    case Receive(i) => Received(t, i)
  }

  function After(ops: seq<Op>): (t: Table) {
    if ops == [] then [] else Apply(After(ops[..|ops| - 1]), ops[|ops| - 1])
  }

  /** What has arrived for the socket in slot `i` since it was created: each datagram for its port at the time. */
  function Arrived(ops: seq<Op>, i: nat): (ds: seq<Datagram>) {
    if ops == [] then []
    else
      var before, op := ops[..|ops| - 1], ops[|ops| - 1];
      var t := After(before);
      if op.Create? && i == FirstFree(t) then []
      else if op.Deliver? && i < |t| && Takes(t[i], op.port) then Arrived(before, i) + [op.d]
      else Arrived(before, i)
  }

  /** What has been received from slot `i` since its socket was created. */
  function Taken(ops: seq<Op>, i: nat): (ds: seq<Datagram>) {
    if ops == [] then []
    else
      var before, op := ops[..|ops| - 1], ops[|ops| - 1];
      var t := After(before);
      if op.Create? && i == FirstFree(t) then []
      else if op == Receive(i) && Head(t, i).Some? then Taken(before, i) + [Head(t, i).value]
      else Taken(before, i)
  }

  /** What an operation makes of the socket in slot `i`. */
  function Changed(s: Socket, op: Op, i: nat): (r: Socket) {
    match op
    case Bind(j, port) => if j == i then s.(port := port) else s
    case Connect(j, ip, port) => if j == i then s.(peer := Some((ip, port))) else s
    case Deliver(port, d) => if s.proto == 17 && s.port == port then s.(rx := s.rx + [d]) else s
    case Receive(j) => if j == i && s.rx != [] then s.(rx := s.rx[1..]) else s
    case _ => s
  }

  /** An operation changes the sockets it is meant for, and no other. */
  lemma SocketAfter(t: Table, op: Op, i: nat)
    requires Has(Apply(t, op), i)
    ensures if op.Create? && i == FirstFree(t) then Apply(t, op)[i].value == Socket(op.proto, 0, None, [])
            else Has(t, i) && Apply(t, op)[i].value == Changed(t[i].value, op, i)
  {
    hide FirstFree;
    match op
    case Create(_) => hide Changed;
    case Bind(_, _) =>
    case Connect(_, _, _) =>
    case Close(_) =>
    case Deliver(_, _) =>
    case Receive(_) =>
  }

  /**
   Conservation: whatever is done to the table, what was received from a socket
   followed by what still waits in it is, in order, exactly what arrived for it.
   */
  lemma {:induction false} NothingLostOrInvented(ops: seq<Op>, i: nat)
    requires Has(After(ops), i)
    ensures Taken(ops, i) + After(ops)[i].value.rx == Arrived(ops, i)
  {
    if ops != [] {
      var before, op := ops[..|ops| - 1], ops[|ops| - 1];
      var t := After(before);
      hide Apply, FirstFree;
      SocketAfter(t, op, i);
      if !(op.Create? && i == FirstFree(t)) {
        NothingLostOrInvented(before, i);
      }
    }
  }

  /** The settings of a socket: protocol, bound port and connected peer. */
  datatype Settings = Settings(proto: byte, port: u16, peer: Option<(IpAddr, u16)>)

  /** What was last set on slot `i`: the protocol it was created with, the port bound and the peer connected since. */
  function LastSet(ops: seq<Op>, i: nat): (s: Settings) {
    if ops == [] then Settings(0, 0, None)
    else
      var before, op := ops[..|ops| - 1], ops[|ops| - 1];
      match op
      case Create(proto) => if i == FirstFree(After(before)) then Settings(proto, 0, None) else LastSet(before, i)
      case Bind(j, port) => if j == i then LastSet(before, i).(port := port) else LastSet(before, i)
      case Connect(j, ip, port) => if j == i then LastSet(before, i).(peer := Some((ip, port))) else LastSet(before, i)
      case _ => LastSet(before, i)
  }

  function SettingsOf(s: Socket): (r: Settings) {
    Settings(s.proto, s.port, s.peer)
  }

  /** A socket is what it was last set to, whatever happened to the others. */
  lemma {:induction false} SocketIsAsSet(ops: seq<Op>, i: nat)
    requires Has(After(ops), i)
    ensures SettingsOf(After(ops)[i].value) == LastSet(ops, i)
  {
    hide Apply, FirstFree;
    var before, op := ops[..|ops| - 1], ops[|ops| - 1];
    SocketAfter(After(before), op, i);
    if !(op.Create? && i == FirstFree(After(before))) {
      SocketIsAsSet(before, i);
    }
  }

  /** A slot is in use exactly when a socket was created there and not closed since. */
  lemma SlotAfter(t: Table, op: Op, i: nat)
    ensures Has(Apply(t, op), i) <==> (op.Create? && i == FirstFree(t)) || (Has(t, i) && op != Close(i))
  {}

  /** A socket that is not UDP hears nothing. */
  lemma {:induction false} OnlyUdpHears(ops: seq<Op>, i: nat)
    requires Has(After(ops), i) && After(ops)[i].value.proto != 17
    ensures Arrived(ops, i) == [] && After(ops)[i].value.rx == []
  {
    hide Apply, FirstFree;
    var before, op := ops[..|ops| - 1], ops[|ops| - 1];
    SocketAfter(After(before), op, i);
    if !(op.Create? && i == FirstFree(After(before))) {
      OnlyUdpHears(before, i);
    }
  }

  /** As long as nobody closes it, a socket stays in its slot and what has arrived for it stays in its history. */
  lemma {:induction false} ArrivedExtends(ops: seq<Op>, more: seq<Op>, i: nat)
    requires Has(After(ops), i) && Close(i) !in more
    ensures Has(After(ops + more), i) && Arrived(ops, i) <= Arrived(ops + more, i)
  {
    if more == [] {
      assert ops + more == ops;
    } else {
      hide Apply, FirstFree;
      var n := |more| - 1;
      ArrivedExtends(ops, more[..n], i);
      assert (ops + more)[..|ops + more| - 1] == ops + more[..n];
      SlotAfter(After(ops + more[..n]), more[n], i);
    }
  }
}
