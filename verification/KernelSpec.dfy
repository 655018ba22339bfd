/**
 The descriptor table and the socket table together, under any interleaving of
 the system calls on many descriptors and of what the kernel itself does to the
 sockets: deliver what arrives, and open and close sockets of its own.
 */
module KernelSpec {
  import opened Options
  import opened Bytes
  import opened FsErrors
  import opened Packets
  import opened SocketSpec

  const MAX_FDS: nat := 64

  /** An open initrd file, a socket by its index, or a device whose behaviour is left open. */
  datatype Inode = RegularFile(data: seq<byte>) | SocketFile(idx: nat) | Device
  datatype File = File(inode: Inode, offset: nat)
  datatype Kernel = Kernel(fds: seq<Option<File>>, socks: Table)

  predicate IsOpen(k: Kernel, fd: nat) {
    fd < |k.fds| && k.fds[fd].Some?
  }

  // ---- installing ----

  /** The descriptor a new file gets: the first hole, or a new one below the limit. */
  function InstalledAt(fds: seq<Option<File>>): (r: Option<nat>) {
    if FirstFree(fds) < |fds| || |fds| < MAX_FDS then Some(FirstFree(fds)) else None
  }

  function Installed(fds: seq<Option<File>>, inode: Inode): (r: seq<Option<File>>) {
    if InstalledAt(fds).Some? then Put(fds, File(inode, 0)) else fds
  }

  // ---- reading and writing ----

  function Take(data: seq<byte>, n: nat): (r: seq<byte>)
    ensures r <= data && |r| == Min(n, |data|)
  {
    if n < |data| then data[..n] else data
  }

  /** The bytes a read of up to `len` bytes returns; `dev` is what a device would give. */
  function ReadResult(k: Kernel, fd: nat, len: nat, dev: FsResult<seq<byte>>): (r: FsResult<seq<byte>>) {
    if !IsOpen(k, fd) then Err(InvalidArg)
    else
      var f := k.fds[fd].value;
      match f.inode
      case RegularFile(data) => if f.offset >= |data| then Ok([]) else Ok(Take(data[f.offset..], len))
      case SocketFile(idx) =>
        (match Head(k.socks, idx)
         case None => Ok([])
         case Some(d) => Ok(Take(d.data, len)))
      case Device => if dev.Ok? then Ok(Take(dev.value, len)) else dev
  }

  /** How many bytes a write reports; `up` is whether a NIC is there to send a datagram. */
  function WriteResult(k: Kernel, fd: nat, data: seq<byte>, up: bool, dev: FsResult<nat>): (r: FsResult<nat>) {
    if !IsOpen(k, fd) then Err(InvalidArg)
    else
      match k.fds[fd].value.inode
      case RegularFile(_) => Err(PermissionDenied)
      case SocketFile(idx) => SendResult(k.socks, idx, data, up)
      case Device => dev
  }

  /** Sending needs a UDP socket with a peer. */
  function SendResult(socks: Table, idx: nat, data: seq<byte>, up: bool): (r: FsResult<nat>) {
    if !Has(socks, idx) || socks[idx].value.peer.None? || socks[idx].value.proto != PROTO_UDP then Err(InvalidArg)
    else if up then Ok(|data|) else Err(Io)
  }

  /** A datagram handed to `udp::send`. */
  datatype Outgoing = Outgoing(srcPort: u16, dst: IpAddr, dstPort: u16, data: seq<byte>)

  /** What sending on socket `idx` puts on the wire: its own port, its peer and the data. */
  function Sending(socks: Table, idx: nat, data: seq<byte>, up: bool): (out: seq<Outgoing>) {
    if SendResult(socks, idx, data, up).Err? then []
    else
      var s := socks[idx].value;
      [Outgoing(s.port, s.peer.value.0, s.peer.value.1, data)]
  }

  function Advanced(fds: seq<Option<File>>, fd: nat, n: nat): (r: seq<Option<File>>)
    requires fd < |fds| && fds[fd].Some?
  {
    fds[fd := Some(fds[fd].value.(offset := fds[fd].value.offset + n))]
  }

  /** The index of the socket behind a descriptor. */
  function SockIndex(k: Kernel, fd: nat): (r: Option<nat>) {
    if IsOpen(k, fd) && k.fds[fd].value.inode.SocketFile? then Some(k.fds[fd].value.inode.idx) else None
  }

  // ---- calls and runs ----

  datatype Call =
    | Open(inode: Inode)
    | Read(fd: nat, len: nat, input: FsResult<seq<byte>>)
    | Write(fd: nat, data: seq<byte>, up: bool, taken: FsResult<nat>)
    | CloseFd(fd: nat)
    | NewSocket(proto: byte)
    | BindFd(fd: nat, port: u16)
    | ConnectFd(fd: nat, ip: IpAddr, port: u16)
    | Inside(op: Op)

  function Apply(k: Kernel, c: Call): (r: Kernel) {
    match c
    case Open(inode) => k.(fds := Installed(k.fds, inode))
    case Read(fd, len, dev) =>
      var res := ReadResult(k, fd, len, dev);
      if res.Err? then k
      else
        var f := k.fds[fd].value;
        Kernel(Advanced(k.fds, fd, |res.value|),
               if f.inode.SocketFile? then Received(k.socks, f.inode.idx) else k.socks)
    case Write(fd, data, up, dev) =>
      var res := WriteResult(k, fd, data, up, dev);
      if res.Err? then k else k.(fds := Advanced(k.fds, fd, res.value))
    case CloseFd(fd) => if IsOpen(k, fd) then k.(fds := k.fds[fd := None]) else k
    case NewSocket(proto) =>
      Kernel(Installed(k.fds, SocketFile(FirstFree(k.socks))), Created(k.socks, proto))
    case BindFd(fd, port) =>
      if SockIndex(k, fd).Some? then k.(socks := Bound(k.socks, SockIndex(k, fd).value, port)) else k
    case ConnectFd(fd, ip, port) =>
      if SockIndex(k, fd).Some? then k.(socks := Connected(k.socks, SockIndex(k, fd).value, ip, port)) else k
    case Inside(op) => k.(socks := SocketSpec.Apply(k.socks, op))
  }

  /** The datagrams a call sends. */
  function Sends(k: Kernel, c: Call): (out: seq<Outgoing>) {
    if c.Write? && SockIndex(k, c.fd).Some? then Sending(k.socks, SockIndex(k, c.fd).value, c.data, c.up) else []
  }

  const Empty := Kernel([], [])

  function After(calls: seq<Call>): (k: Kernel) {
    if calls == [] then Empty else Apply(After(calls[..|calls| - 1]), calls[|calls| - 1])
  }

  // ---- streams ----

  /** The descriptor a call installs a file at. */
  function Installs(k: Kernel, c: Call): (r: Option<nat>) {
    if c.Open? || c.NewSocket? then InstalledAt(k.fds) else None
  }

  /** All the bytes read through `fd` since the file now behind it was installed. */
  function Stream(calls: seq<Call>, fd: nat): (s: seq<byte>) {
    if calls == [] then []
    else
      var before, c := calls[..|calls| - 1], calls[|calls| - 1];
      var k := After(before);
      if Installs(k, c) == Some(fd) then []
      else if c.Read? && c.fd == fd && ReadResult(k, fd, c.len, c.input).Ok? then
        Stream(before, fd) + ReadResult(k, fd, c.len, c.input).value
      else Stream(before, fd)
  }

  /** What one call does to the file behind a descriptor other than installing one there. */
  lemma CallOnFile(k: Kernel, c: Call, fd: nat)
    requires Installs(k, c) != Some(fd) && IsOpen(Apply(k, c), fd)
    ensures IsOpen(k, fd) && Apply(k, c).fds[fd].value.inode == k.fds[fd].value.inode
    ensures k.fds[fd].value.inode.RegularFile? ==>
              Apply(k, c).fds[fd].value.offset
              == k.fds[fd].value.offset
                 + if c.Read? && c.fd == fd then |ReadResult(k, fd, c.len, c.input).value| else 0
  {}

  lemma InstalledFresh(k: Kernel, c: Call, fd: nat)
    requires Installs(k, c) == Some(fd)
    ensures IsOpen(Apply(k, c), fd) && Apply(k, c).fds[fd].value.offset == 0
  {}

  /** A read of a file appends to what was read before it the next bytes of the data. */
  lemma ReadContinues(k: Kernel, fd: nat, len: nat, input: FsResult<seq<byte>>)
    requires IsOpen(k, fd) && k.fds[fd].value.inode.RegularFile?
    requires k.fds[fd].value.offset <= |k.fds[fd].value.inode.data|
    ensures var (data, offset) := (k.fds[fd].value.inode.data, k.fds[fd].value.offset);
            var r := ReadResult(k, fd, len, input);
            r.Ok? && offset + |r.value| <= |data| && data[..offset] + r.value == data[..offset + |r.value|]
  {}

  /**
   The bytes read through one open of an initrd file, over any interleaving of
   calls, are the prefix of its data up to the descriptor's offset; a descriptor
   that is reused starts over at 0.
   */
  lemma {:induction false} StreamIsPrefix(calls: seq<Call>, fd: nat)
    requires IsOpen(After(calls), fd) && After(calls).fds[fd].value.inode.RegularFile?
    ensures var f := After(calls).fds[fd].value;
            f.offset <= |f.inode.data| && Stream(calls, fd) == f.inode.data[..f.offset]
  {
    var before, c := calls[..|calls| - 1], calls[|calls| - 1];
    var k := After(before);
    hide Apply, ReadResult, Installs;
    if Installs(k, c) == Some(fd) {
      InstalledFresh(k, c, fd);
    } else {
      CallOnFile(k, c, fd);
      StreamIsPrefix(before, fd);
      if c.Read? && c.fd == fd {
        ReadContinues(k, fd, c.len, c.input);
      }
    }
  }

  /** A read with room for at least one byte returns none exactly at the end of the file. */
  lemma EmptyReadIffAtEnd(calls: seq<Call>, fd: nat, len: nat, dev: FsResult<seq<byte>>)
    requires IsOpen(After(calls), fd) && After(calls).fds[fd].value.inode.RegularFile? && len > 0
    ensures ReadResult(After(calls), fd, len, dev) == Ok([])
            <==> Stream(calls, fd) == After(calls).fds[fd].value.inode.data
  {
    StreamIsPrefix(calls, fd);
  }

  // ---- the sockets of a run of calls ----

  /** What a call does to the socket table. */
  function SocketOp(k: Kernel, c: Call): (ops: seq<Op>) {
    match c
    case Read(fd, _, _) => if SockIndex(k, fd).Some? then [Receive(SockIndex(k, fd).value)] else []
    case NewSocket(proto) => [Create(proto)]
    case BindFd(fd, port) => if SockIndex(k, fd).Some? then [Bind(SockIndex(k, fd).value, port)] else []
    case ConnectFd(fd, ip, port) => if SockIndex(k, fd).Some? then [Connect(SockIndex(k, fd).value, ip, port)] else []
    case Inside(op) => [op]
    case _ => []
  }

  function SocketOps(calls: seq<Call>): (ops: seq<Op>) {
    if calls == [] then []
    else SocketOps(calls[..|calls| - 1]) + SocketOp(After(calls[..|calls| - 1]), calls[|calls| - 1])
  }

  lemma CallOnSockets(k: Kernel, c: Call)
    ensures var ops := SocketOp(k, c);
            |ops| <= 1 && Apply(k, c).socks == if ops == [] then k.socks else SocketSpec.Apply(k.socks, ops[0])
  {}

  /** The socket table of a run of calls is that of its socket operations, so conservation carries over. */
  lemma {:induction false} SocketsFollow(calls: seq<Call>)
    ensures After(calls).socks == SocketSpec.After(SocketOps(calls))
  {
    if calls != [] {
      var before, c := calls[..|calls| - 1], calls[|calls| - 1];
      SocketsFollow(before);
      CallOnSockets(After(before), c);
      hide Apply, SocketOp, SocketSpec.Apply;
      var ops, more := SocketOps(before), SocketOp(After(before), c);
      assert more == [] ==> ops + more == ops;
    }
  }

  lemma SocketOpsOneMore(calls: seq<Call>, c: Call)
    ensures SocketOps(calls + [c]) == SocketOps(calls) + SocketOp(After(calls), c)
  {
    assert (calls + [c])[..|calls|] == calls;
  }

  /** Only the kernel itself closes a socket. */
  lemma OnlyInsideCloses(k: Kernel, c: Call, i: nat)
    ensures Close(i) in SocketOp(k, c) ==> c == Inside(Close(i))
  {}

  /** How a run of calls goes on, as seen by the socket table. */
  lemma {:induction false} SocketOpsExtend(calls: seq<Call>, more: seq<Call>, i: nat) returns (ops: seq<Op>)
    ensures SocketOps(calls + more) == SocketOps(calls) + ops
    ensures Inside(Close(i)) !in more ==> Close(i) !in ops
  {
    hide SocketOps, SocketOp, After;
    if more == [] {
      assert calls + more == calls;
      ops := [];
    } else {
      var init, last := more[..|more| - 1], more[|more| - 1];
      var before := SocketOpsExtend(calls, init, i);
      assert calls + more == (calls + init) + [last];
      SocketOpsOneMore(calls + init, last);
      OnlyInsideCloses(After(calls + init), last, i);
      ops := before + SocketOp(After(calls + init), last);
    }
  }

  /**
   Once bound and connected, a descriptor's writes go out, from its port to its
   peer with the data written, exactly when its socket is UDP and a NIC is there.
   */
  lemma ConnectedSocketSends(k: Kernel, fd: nat, local: u16, ip: IpAddr, port: u16, data: seq<byte>, up: bool,
                             taken: FsResult<nat>)
    requires SockIndex(k, fd).Some? && Has(k.socks, SockIndex(k, fd).value)
    ensures var k' := Apply(Apply(k, BindFd(fd, local)), ConnectFd(fd, ip, port));
            var udp := k.socks[SockIndex(k, fd).value].value.proto == PROTO_UDP;
            && WriteResult(k', fd, data, up, taken) == (if !udp then Err(InvalidArg) else if up then Ok(|data|) else Err(Io))
            && Sends(k', Write(fd, data, up, taken)) == (if udp && up then [Outgoing(local, ip, port, data)] else [])
  {}

  // ---- one descriptor per socket ----

  /** A descriptor names socket `i`. */
  ghost predicate Named(k: Kernel, i: nat) {
    exists fd: nat :: SockIndex(k, fd) == Some(i)
  }

  ghost predicate Distinct(k: Kernel) {
    forall a: nat, b: nat :: SockIndex(k, a).Some? && SockIndex(k, a) == SockIndex(k, b) ==> a == b
  }

  /** Each socket descriptor has a socket in use, and has it to itself. */
  ghost predicate OwnSockets(k: Kernel) {
    Distinct(k) && forall fd: nat :: SockIndex(k, fd).Some? ==> Has(k.socks, SockIndex(k, fd).value)
  }

  /** Where the socket index of a descriptor comes from. */
  lemma SockIndexAfter(k: Kernel, c: Call, fd: nat)
    requires SockIndex(Apply(k, c), fd).Some? && (c.Open? ==> !c.inode.SocketFile?)
    ensures if c.NewSocket? && InstalledAt(k.fds) == Some(fd) then SockIndex(Apply(k, c), fd) == Some(FirstFree(k.socks))
            else SockIndex(Apply(k, c), fd) == SockIndex(k, fd)
  {
    if Installs(k, c) != Some(fd) {
      CallOnFile(k, c, fd);
    }
  }

  /** Descriptors other than one just installed or closed keep their socket. */
  lemma SockIndexKept(k: Kernel, c: Call, fd: nat)
    requires SockIndex(k, fd).Some? && !c.CloseFd?
    ensures SockIndex(Apply(k, c), fd) == SockIndex(k, fd)
  {}

  /**
   A new socket descriptor shares its socket with no other exactly when no
   descriptor names the slot that the socket gets.
   */
  lemma NewSocketSharesIff(k: Kernel, proto: byte)
    requires Distinct(k)
    ensures Distinct(Apply(k, NewSocket(proto))) <==> InstalledAt(k.fds).None? || !Named(k, FirstFree(k.socks))
  {
    var c := NewSocket(proto);
    var r := Apply(k, c);
    if InstalledAt(k.fds).Some? && Named(k, FirstFree(k.socks)) {
      var fd: nat :| SockIndex(k, fd) == Some(FirstFree(k.socks));
      SockIndexKept(k, c, fd);
      assert SockIndex(r, InstalledAt(k.fds).value) == SockIndex(r, fd);
      assert !IsOpen(k, InstalledAt(k.fds).value);
    } else {
      hide Apply, SockIndex;
      forall a: nat, b: nat | SockIndex(r, a).Some? && SockIndex(r, a) == SockIndex(r, b) ensures a == b {
        SockIndexAfter(k, c, a);
        SockIndexAfter(k, c, b);
      }
    }
  }

  lemma CallOnSlot(k: Kernel, c: Call, i: nat)
    requires Has(k.socks, i)
    ensures Has(Apply(k, c).socks, i) <==> c != Inside(Close(i))
  {
    hide Apply;
    CallOnSockets(k, c);
  }

  /** A call keeps ownership exactly when it does not close a socket that a descriptor names. */
  lemma OwnSocketsStep(k: Kernel, c: Call)
    requires OwnSockets(k) && (c.Open? ==> !c.inode.SocketFile?)
    ensures OwnSockets(Apply(k, c)) <==> !(c.Inside? && c.op.Close? && Named(k, c.op.i))
  {
    hide Apply, SockIndex;
    var r := Apply(k, c);
    if c.Inside? && c.op.Close? && Named(k, c.op.i) {
      var fd: nat :| SockIndex(k, fd) == Some(c.op.i);
      SockIndexKept(k, c, fd);
      CallOnSlot(k, c, c.op.i);
    } else {
      forall a: nat | SockIndex(r, a).Some? ensures Has(r.socks, SockIndex(r, a).value) {
        SockIndexAfter(k, c, a);
        if c.NewSocket? && InstalledAt(k.fds) == Some(a) {
          CallOnSockets(k, c);
        } else {
          CallOnSlot(k, c, SockIndex(k, a).value);
        }
      }
      forall a: nat, b: nat | SockIndex(r, a).Some? && SockIndex(r, a) == SockIndex(r, b) ensures a == b {
        SockIndexAfter(k, c, a);
        SockIndexAfter(k, c, b);
      }
    }
  }

  /** Paths never resolve to sockets; only `sys_socket` makes socket descriptors. */
  predicate OpensFiles(calls: seq<Call>) {
    forall i :: 0 <= i < |calls| && calls[i].Open? ==> !calls[i].inode.SocketFile?
  }

  /** After the first `n` calls every socket descriptor has a socket of its own. */
  ghost predicate OwnAt(calls: seq<Call>, n: nat) {
    n <= |calls| && OwnSockets(After(calls[..n]))
  }

  /** Call `n` closes, from inside the kernel, a socket that a descriptor names. No system call closes one. */
  ghost predicate ClosesNamed(calls: seq<Call>, n: nat) {
    n < |calls| && calls[n].Inside? && calls[n].op.Close? && Named(After(calls[..n]), calls[n].op.i)
  }

  lemma OwnAtNext(calls: seq<Call>, n: nat)
    requires OpensFiles(calls) && n < |calls| && OwnAt(calls, n)
    ensures OwnAt(calls, n + 1) <==> !ClosesNamed(calls, n)
  {
    assert calls[..n + 1][..n] == calls[..n];
    hide Apply, OwnSockets, Named;
    OwnSocketsStep(After(calls[..n]), calls[n]);
  }

  lemma {:induction false} OwnUpTo(calls: seq<Call>, n: nat)
    requires OpensFiles(calls) && n <= |calls| && forall m: nat :: m < n ==> !ClosesNamed(calls, m)
    ensures OwnAt(calls, n)
  {
    if n == 0 {
      assert calls[..0] == [];
    } else {
      hide OwnAt, ClosesNamed, OpensFiles;
      OwnUpTo(calls, n - 1);
      OwnAtNext(calls, n - 1);
    }
  }

  /**
   In a run of calls every socket descriptor has, at all times, a socket of its
   own exactly when the kernel closes no socket behind the back of a descriptor.
   */
  lemma DescriptorsOwnSocketsIff(calls: seq<Call>)
    requires OpensFiles(calls)
    ensures (forall n: nat :: n <= |calls| ==> OwnAt(calls, n)) <==> (forall n: nat :: n < |calls| ==> !ClosesNamed(calls, n))
  {
    hide OwnAt, ClosesNamed, OpensFiles;
    if forall n: nat :: n < |calls| ==> !ClosesNamed(calls, n) {
      forall n: nat | n <= |calls| ensures OwnAt(calls, n) { OwnUpTo(calls, n); }
    } else {
      var n: nat :| n < |calls| && ClosesNamed(calls, n);
      if OwnAt(calls, n) { OwnAtNext(calls, n); }
    }
  }

  /** Closing a socket that a descriptor names makes the next socket descriptor share it, if no earlier slot is free. */
  lemma SharedAfterClose(k: Kernel, fd: nat, proto: byte)
    requires OwnSockets(k) && SockIndex(k, fd).Some? && SockIndex(k, fd).value < FirstFree(k.socks)
    requires InstalledAt(k.fds).Some?
    ensures var closed := Apply(k, Inside(Close(SockIndex(k, fd).value)));
            !Distinct(Apply(closed, NewSocket(proto)))
  {
    var i := SockIndex(k, fd).value;
    var closed := Apply(k, Inside(Close(i)));
    assert SockIndex(closed, fd) == Some(i);
    assert closed.socks[i].None? && forall j :: 0 <= j < i ==> closed.socks[j].Some?;
    assert forall a: nat :: SockIndex(closed, a) == SockIndex(k, a);
    NewSocketSharesIff(closed, proto);
  }
}
