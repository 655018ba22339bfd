/** The two tables updated in place, proved to follow `KernelSpec`. */
module KernelTables {
  import opened Options
  import opened Bytes
  import opened FsErrors
  import opened Packets
  import opened SocketSpec
  import opened KernelSpec

  class Tables {
    var fds: seq<Option<File>>
    var socks: Table
    /** Datagrams handed to `udp::send` with a NIC present, in order. */
    var outbox: seq<Outgoing>

    ghost function View(): (k: Kernel)
      reads this
    {
      Kernel(fds, socks)
    }

    constructor ()
      ensures View() == Empty && outbox == []
    {
      fds, socks, outbox := [], [], [];
    }

    method Install(inode: Inode) returns (fd: Option<nat>)
      modifies this`fds
      ensures fd == InstalledAt(old(fds)) && fds == Installed(old(fds), inode)
    {
      for i := 0 to |fds|
        invariant fds == old(fds) && forall j :: 0 <= j < i ==> fds[j].Some?
      {
        if fds[i].None? {
          fds := fds[i := Some(File(inode, 0))];
          return Some(i);
        }
      }
      if |fds| < MAX_FDS {
        fds := fds + [Some(File(inode, 0))];
        return Some(|fds| - 1);
      }
      return None;
    }

    method Open(inode: Inode) returns (r: FsResult<nat>)
      modifies this`fds
      ensures View() == KernelSpec.Apply(old(View()), KernelSpec.Open(inode))
      ensures r == match InstalledAt(old(fds)) case Some(fd) => Ok(fd) case None => Err(NoSpace)
    {
      var fd := Install(inode);
      r := if fd.Some? then Ok(fd.value) else Err(NoSpace);
    }

    /** Copy `data` to the start of the caller's buffer, as far as it fits. */
    method CopyOut(data: seq<byte>, buf: array<byte>) returns (n: nat)
      modifies buf
      ensures n == |Take(data, buf.Length)| && buf[..] == Take(data, buf.Length) + old(buf[n..])
    {
      n := if buf.Length < |data| then buf.Length else |data|;
      CopyInto(buf, 0, data[..n]);
    }

    /** `recvfrom`: pop one datagram into the buffer; what does not fit is dropped. */
    method ReceiveFrom(idx: nat, buf: array<byte>) returns (r: Option<(nat, IpAddr, u16)>)
      modifies this`socks, buf
      ensures socks == Received(old(socks), idx)
      ensures r.Some? <==> Head(old(socks), idx).Some?
      ensures r.Some? ==>
                var d := Head(old(socks), idx).value;
                var out := Take(d.data, buf.Length);
                r.value == (|out|, d.src, d.srcPort) && buf[..] == out + old(buf[|out|..])
      ensures r.None? ==> buf[..] == old(buf[..])
    {
      if idx >= |socks| || socks[idx].None? || socks[idx].value.rx == [] {
        return None;
      }
      var d := socks[idx].value.rx[0];
      socks := socks[idx := Some(socks[idx].value.(rx := socks[idx].value.rx[1..]))];
      var n := CopyOut(d.data, buf);
      r := Some((n, d.src, d.srcPort));
    }

    /** Fill the buffer from the inode behind `f`. */
    method ReadInode(f: File, buf: array<byte>, input: FsResult<seq<byte>>, ghost fd: nat) returns (r: FsResult<nat>)
      requires IsOpen(View(), fd) && fds[fd].value == f
      modifies this`socks, buf
      ensures socks == if f.inode.SocketFile? then Received(old(socks), f.inode.idx) else old(socks)
      ensures var res := ReadResult(old(View()), fd, buf.Length, input);
              && (r.Ok? <==> res.Ok?)
              && (res.Err? ==> r.error == res.error && buf[..] == old(buf[..]))
              && (res.Ok? ==> r.value == |res.value| <= buf.Length && buf[..] == res.value + old(buf[|res.value|..]))
    {
      match f.inode
      case RegularFile(data) =>
        if f.offset >= |data| {
          return Ok(0);
        }
        var n := CopyOut(data[f.offset..], buf);
        r := Ok(n);
      case SocketFile(idx) =>
        var got := ReceiveFrom(idx, buf);
        r := Ok(if got.Some? then got.value.0 else 0);
      case Device =>
        if input.Err? {
          return Err(input.error);
        }
        var n := CopyOut(input.value, buf);
        r := Ok(n);
    }

    method Read(fd: nat, buf: array<byte>, input: FsResult<seq<byte>>) returns (r: FsResult<nat>)
      modifies this`fds, this`socks, buf
      ensures View() == KernelSpec.Apply(old(View()), KernelSpec.Read(fd, buf.Length, input))
      ensures var res := ReadResult(old(View()), fd, buf.Length, input);
              && (r.Ok? <==> res.Ok?)
              && (res.Err? ==> r.error == res.error && buf[..] == old(buf[..]))
              && (res.Ok? ==> r.value == |res.value| <= buf.Length && buf[..] == res.value + old(buf[|res.value|..]))
    {
      if fd >= |fds| || fds[fd].None? {
        return Err(InvalidArg);
      }
      var f := fds[fd].value;
      r := ReadInode(f, buf, input, fd);
      if r.Ok? {
        fds := fds[fd := Some(f.(offset := f.offset + r.value))];
      }
    }

    method Close(fd: nat) returns (r: FsResult<()>)
      modifies this`fds
      ensures View() == KernelSpec.Apply(old(View()), CloseFd(fd))
      ensures r == if IsOpen(old(View()), fd) then Ok(()) else Err(InvalidArg)
    {
      if fd < |fds| && fds[fd].Some? {
        fds := fds[fd := None];
        return Ok(());
      }
      return Err(InvalidArg);
    }

    /** Send to the connected peer; only UDP sockets can. */
    method SendTo(idx: nat, data: seq<byte>, up: bool) returns (r: FsResult<nat>)
      modifies this`outbox
      ensures r == SendResult(socks, idx, data, up)
      ensures outbox == old(outbox) + Sending(socks, idx, data, up)
    {
      if idx >= |socks| || socks[idx].None? || socks[idx].value.peer.None? || socks[idx].value.proto != PROTO_UDP {
        return Err(InvalidArg);
      }
      var s := socks[idx].value;
      if !up {
        return Err(Io);
      }
      outbox := outbox + [Outgoing(s.port, s.peer.value.0, s.peer.value.1, data)];
      r := Ok(|data|);
    }

    method Write(fd: nat, data: seq<byte>, up: bool, taken: FsResult<nat>) returns (r: FsResult<nat>)
      modifies this`fds, this`outbox
      ensures View() == KernelSpec.Apply(old(View()), KernelSpec.Write(fd, data, up, taken))
      ensures r == WriteResult(old(View()), fd, data, up, taken)
      ensures outbox == old(outbox) + Sends(old(View()), KernelSpec.Write(fd, data, up, taken))
    {
      if fd >= |fds| || fds[fd].None? {
        return Err(InvalidArg);
      }
      var f := fds[fd].value;
      match f.inode {
        case RegularFile(_) => r := Err(PermissionDenied);
        case SocketFile(idx) => r := SendTo(idx, data, up);
        case Device => r := taken;
      }
      if r.Ok? {
        fds := fds[fd := Some(f.(offset := f.offset + r.value))];
      }
    }

    method NewSocket(proto: byte) returns (r: FsResult<nat>)
      modifies this`fds, this`socks
      ensures View() == KernelSpec.Apply(old(View()), KernelSpec.NewSocket(proto))
      ensures r == match InstalledAt(old(fds)) case Some(fd) => Ok(fd) case None => Err(NoSpace)
    {
      var idx := FirstFree(socks);
      var s := Socket(proto, 0, None, []);
      if idx < |socks| {
        socks := socks[idx := Some(s)];
      } else {
        socks := socks + [Some(s)];
      }
      var fd := Install(SocketFile(idx));
      r := if fd.Some? then Ok(fd.value) else Err(NoSpace);
    }

    method Bind(fd: nat, port: u16) returns (ok: bool)
      modifies this`socks
      ensures View() == KernelSpec.Apply(old(View()), BindFd(fd, port))
      ensures ok <==> SockIndex(old(View()), fd).Some? && Has(old(socks), SockIndex(old(View()), fd).value)
    {
      if fd < |fds| && fds[fd].Some? && fds[fd].value.inode.SocketFile? {
        var idx := fds[fd].value.inode.idx;
        if idx < |socks| && socks[idx].Some? {
          socks := socks[idx := Some(socks[idx].value.(port := port))];
          return true;
        }
      }
      return false;
    }

    method Connect(fd: nat, ip: IpAddr, port: u16) returns (ok: bool)
      modifies this`socks
      ensures View() == KernelSpec.Apply(old(View()), ConnectFd(fd, ip, port))
      ensures ok <==> SockIndex(old(View()), fd).Some? && Has(old(socks), SockIndex(old(View()), fd).value)
    {
      if fd < |fds| && fds[fd].Some? && fds[fd].value.inode.SocketFile? {
        var idx := fds[fd].value.inode.idx;
        if idx < |socks| && socks[idx].Some? {
          socks := socks[idx := Some(socks[idx].value.(peer := Some((ip, port))))];
          return true;
        }
      }
      return false;
    }

    /** Append a datagram to every UDP socket bound to the port. */
    method Deliver(port: u16, d: Datagram)
      modifies this`socks
      ensures View() == KernelSpec.Apply(old(View()), Inside(SocketSpec.Deliver(port, d)))
    {
      for i := 0 to |socks|
        invariant |socks| == |old(socks)|
        invariant forall j :: 0 <= j < i ==> socks[j] == Queued(old(socks)[j], port, d)
        invariant forall j :: i <= j < |socks| ==> socks[j] == old(socks)[j]
      {
        if socks[i].Some? && socks[i].value.proto == PROTO_UDP && socks[i].value.port == port {
          socks := socks[i := Some(socks[i].value.(rx := socks[i].value.rx + [d]))];
        }
      }
    }
  }
}
