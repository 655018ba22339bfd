/** What a program can rely on about its descriptors, over every run of calls. */
module Descriptors {
  import opened Options
  import opened Bytes
  import opened FsErrors
  import SocketSpec
  import opened KernelSpec

  // ---- one call ----

  /** The descriptor a call is made on. */
  function Addressed(c: Call): (r: Option<nat>) {
    match c
    case Read(fd, _, _) => Some(fd)
    case Write(fd, _, _, _) => Some(fd)
    case CloseFd(fd) => Some(fd)
    case _ => None
  }

  function Entry(k: Kernel, fd: nat): (f: Option<File>) {
    if fd < |k.fds| then k.fds[fd] else None
  }

  /** A call changes no descriptor but the one it is made on or installs at. */
  lemma OtherDescriptors(k: Kernel, c: Call, fd: nat)
    requires Addressed(c) != Some(fd) && Installs(k, c) != Some(fd)
    ensures Entry(Apply(k, c), fd) == Entry(k, fd)
  {}

  /** A closed descriptor is closed: reading and writing it fail, and nothing else has changed. */
  lemma ClosedIsGone(k: Kernel, fd: nat, len: nat, input: FsResult<seq<byte>>, data: seq<byte>, up: bool, taken: FsResult<nat>)
    ensures var k' := Apply(k, CloseFd(fd));
            && !IsOpen(k', fd) && k'.socks == k.socks
            && ReadResult(k', fd, len, input) == Err(InvalidArg)
            && WriteResult(k', fd, data, up, taken) == Err(InvalidArg)
  {}

  /** A new descriptor is the lowest free one, and stands at the start of what was opened. */
  lemma LowestFree(k: Kernel, c: Call, fd: nat)
    requires Installs(k, c) == Some(fd)
    ensures !IsOpen(k, fd) && forall lower: nat :: lower < fd ==> IsOpen(k, lower)
    ensures var inode := if c.Open? then c.inode else SocketFile(FirstFree(k.socks));
            Entry(Apply(k, c), fd) == Some(File(inode, 0))
  {}

  /** So after a close, with nothing free below, the next open gets the same descriptor, at offset 0. */
  lemma ReopenAfterClose(k: Kernel, fd: nat, inode: Inode)
    requires fd < |k.fds| && forall lower: nat :: lower < fd ==> IsOpen(k, lower)
    ensures var k' := Apply(k, CloseFd(fd));
            Installs(k', Open(inode)) == Some(fd) && Entry(Apply(k', Open(inode)), fd) == Some(File(inode, 0))
  {
    var k' := Apply(k, CloseFd(fd));
    assert forall lower: nat :: lower < fd ==> IsOpen(k, lower) && k'.fds[lower].Some?;
    assert k'.fds[fd].None?;
  }

  /** A call that fails changes nothing. */
  lemma FailureChangesNothing(k: Kernel, c: Call)
    requires c.Read? ==> ReadResult(k, c.fd, c.len, c.input).Err?
    requires c.Write? ==> WriteResult(k, c.fd, c.data, c.up, c.taken).Err?
    requires c.Open? ==> InstalledAt(k.fds).None?
    requires c.CloseFd? ==> !IsOpen(k, c.fd)
    requires c.BindFd? || c.ConnectFd? ==> SockIndex(k, c.fd).None?
    requires !c.NewSocket? && !c.Inside?
    ensures Apply(k, c) == k
  {}

  /** Files in the initrd cannot be written. */
  lemma FilesAreReadOnly(k: Kernel, fd: nat, data: seq<byte>, up: bool, taken: FsResult<nat>)
    requires IsOpen(k, fd) && k.fds[fd].value.inode.RegularFile?
    ensures WriteResult(k, fd, data, up, taken) == Err(PermissionDenied)
    ensures Apply(k, Write(fd, data, up, taken)) == k && Sends(k, Write(fd, data, up, taken)) == []
  {}

  /** A read of a file returns as many bytes as fit and are left. */
  lemma ReadsWhatIsLeft(k: Kernel, fd: nat, len: nat, input: FsResult<seq<byte>>)
    requires IsOpen(k, fd) && k.fds[fd].value.inode.RegularFile?
    ensures var f := k.fds[fd].value;
            var r := ReadResult(k, fd, len, input);
            r.Ok? && |r.value| == Max(0, Min(len, |f.inode.data| - f.offset))
  {}

  /** No read returns more than was asked for, and what a device gives is cut to that. */
  lemma ReadFits(k: Kernel, fd: nat, len: nat, input: FsResult<seq<byte>>)
    ensures var r := ReadResult(k, fd, len, input);
            && (r.Ok? ==> |r.value| <= len)
            && (IsOpen(k, fd) && k.fds[fd].value.inode.Device? ==>
                  (r.Ok? <==> input.Ok?) && (r.Ok? ==> r.value <= input.value && |r.value| == Min(len, |input.value|)))
  {}

  /** Reading a socket with nothing queued is no error and changes nothing. */
  lemma NothingQueued(k: Kernel, fd: nat, len: nat, input: FsResult<seq<byte>>)
    requires SockIndex(k, fd).Some? && SocketSpec.Head(k.socks, SockIndex(k, fd).value).None?
    ensures ReadResult(k, fd, len, input) == Ok([]) && Apply(k, Read(fd, len, input)) == k
  {}

  /** The descriptor of a new socket stands for a socket of the protocol asked for, unbound, unconnected and empty. */
  lemma NewSocketIs(k: Kernel, proto: byte, fd: nat)
    requires Installs(k, NewSocket(proto)) == Some(fd)
    ensures var k' := Apply(k, NewSocket(proto));
            && SockIndex(k', fd).Some? && SocketSpec.Has(k'.socks, SockIndex(k', fd).value)
            && k'.socks[SockIndex(k', fd).value].value == SocketSpec.Socket(proto, 0, None, [])
  {}

  // ---- runs ----

  /** Call `n` installs at `fd` and no later one closes it. */
  ghost predicate OpenSince(calls: seq<Call>, fd: nat, n: nat) {
    && n < |calls| && Installs(After(calls[..n]), calls[n]) == Some(fd)
    && forall m :: n < m < |calls| ==> calls[m] != CloseFd(fd)
  }

  lemma LastCall(calls: seq<Call>, fd: nat)
    requires calls != []
    ensures var m := |calls| - 1;
            var k, c := After(calls[..m]), calls[m];
            IsOpen(After(calls), fd) <==> Installs(k, c) == Some(fd) || (IsOpen(k, fd) && c != CloseFd(fd))
  {
    var m := |calls| - 1;
    var k, c := After(calls[..m]), calls[m];
    hide After;
    AfterLast(calls);
    if Installs(k, c) == Some(fd) {
      LowestFree(k, c, fd);
    } else if Addressed(c) != Some(fd) {
      OtherDescriptors(k, c, fd);
    }
  }

  lemma AfterLast(calls: seq<Call>)
    requires calls != []
    ensures After(calls) == Apply(After(calls[..|calls| - 1]), calls[|calls| - 1])
  {}

  lemma OpenSinceInit(calls: seq<Call>, fd: nat, n: nat)
    requires calls != []
    ensures var m := |calls| - 1;
            OpenSince(calls, fd, n)
            <==> if n == m then Installs(After(calls[..m]), calls[m]) == Some(fd)
                 else OpenSince(calls[..m], fd, n) && calls[m] != CloseFd(fd)
  {
    hide After, Installs;
    if n < |calls| {
      assert calls[..|calls| - 1][..if n < |calls| - 1 then n else 0] == calls[..if n < |calls| - 1 then n else 0];
    }
  }

  /** A descriptor is open exactly when it was installed and has not been closed since. */
  lemma {:induction false} OpenIff(calls: seq<Call>, fd: nat)
    ensures IsOpen(After(calls), fd) <==> exists n: nat :: OpenSince(calls, fd, n)
  {
    if calls != [] {
      hide After, OpenSince, Installs;
      var m := |calls| - 1;
      var init := calls[..m];
      OpenIff(init, fd);
      LastCall(calls, fd);
      forall n: nat
        ensures OpenSince(calls, fd, n)
                <==> if n == m then Installs(After(init), calls[m]) == Some(fd)
                     else OpenSince(init, fd, n) && calls[m] != CloseFd(fd)
      {
        OpenSinceInit(calls, fd, n);
      }
      if exists n: nat :: OpenSince(init, fd, n) {
        var n: nat :| OpenSince(init, fd, n);
        OpenSinceInRange(init, fd, n);
        assert calls[m] != CloseFd(fd) ==> OpenSince(calls, fd, n);
      }
      assert Installs(After(init), calls[m]) == Some(fd) ==> OpenSince(calls, fd, m);
    }
  }

  lemma OpenSinceInRange(calls: seq<Call>, fd: nat, n: nat)
    requires OpenSince(calls, fd, n)
    ensures n < |calls|
  {}

  // ---- how many ----

  ghost function OpenSet(fds: seq<Option<File>>): (s: set<nat>)
    ensures |s| <= |fds|
    ensures forall fd: nat :: fd in s <==> fd < |fds| && fds[fd].Some?
  {
    if fds == [] then {}
    else
      var n := |fds| - 1;
      OpenSet(fds[..n]) + if fds[n].Some? then {n} else {}
  }

  ghost predicate AllOpen(fds: seq<Option<File>>) {
    forall j :: 0 <= j < |fds| ==> fds[j].Some?
  }

  lemma OpenSetSize(fds: seq<Option<File>>)
    requires fds != []
    ensures var n := |fds| - 1;
            |OpenSet(fds)| == |OpenSet(fds[..n])| + if fds[n].Some? then 1 else 0
  {
    var n := |fds| - 1;
    assert n !in OpenSet(fds[..n]);
  }

  lemma AllOpenInit(fds: seq<Option<File>>)
    requires fds != []
    ensures var n := |fds| - 1; AllOpen(fds) <==> AllOpen(fds[..n]) && fds[n].Some?
  {}

  lemma {:induction false} FullWhenAllOpen(fds: seq<Option<File>>)
    ensures |OpenSet(fds)| == |fds| <==> AllOpen(fds)
  {
    if fds != [] {
      hide OpenSet, AllOpen;
      FullWhenAllOpen(fds[..|fds| - 1]);
      OpenSetSize(fds);
      AllOpenInit(fds);
    }
  }

  lemma NoHoleWhenAllOpen(fds: seq<Option<File>>)
    ensures FirstFree(fds) == |fds| <==> AllOpen(fds)
  {
    hide FirstFree;
  }

  lemma {:induction false} AtMostSixtyFour(calls: seq<Call>)
    ensures |After(calls).fds| <= 64
  {
    if calls != [] {
      AtMostSixtyFour(calls[..|calls| - 1]);
    }
  }

  /** Opening succeeds exactly while fewer than 64 descriptors are open. */
  lemma OpenSucceedsIff(calls: seq<Call>, c: Call)
    requires c.Open? || c.NewSocket?
    ensures Installs(After(calls), c).Some? <==> |OpenSet(After(calls).fds)| < 64
  {
    AtMostSixtyFour(calls);
    hide After, OpenSet, AllOpen, FirstFree;
    FullWhenAllOpen(After(calls).fds);
    NoHoleWhenAllOpen(After(calls).fds);
  }

  // ---- offsets ----

  /** The bytes a call moves through the descriptor it is made on. */
  function Moves(k: Kernel, c: Call): (n: nat) {
    match c
    case Read(fd, len, input) => var r := ReadResult(k, fd, len, input); if r.Ok? then |r.value| else 0
    case Write(fd, data, up, taken) => var r := WriteResult(k, fd, data, up, taken); if r.Ok? then r.value else 0
    case _ => 0
  }

  /** All the bytes read or written through `fd` since the file behind it was installed. */
  function Moved(calls: seq<Call>, fd: nat): (n: nat) {
    if calls == [] then 0
    else
      var before, c := calls[..|calls| - 1], calls[|calls| - 1];
      if Installs(After(before), c) == Some(fd) then 0
      else Moved(before, fd) + if Addressed(c) == Some(fd) then Moves(After(before), c) else 0
  }

  lemma OffsetAfter(k: Kernel, c: Call, fd: nat)
    requires Installs(k, c) != Some(fd) && IsOpen(Apply(k, c), fd)
    ensures IsOpen(k, fd) && Apply(k, c).fds[fd].value.inode == k.fds[fd].value.inode
    ensures Apply(k, c).fds[fd].value.offset == k.fds[fd].value.offset + if Addressed(c) == Some(fd) then Moves(k, c) else 0
  {}

  /** The offset of a descriptor is what has been read and written through it since it was opened. */
  lemma {:induction false} OffsetCounts(calls: seq<Call>, fd: nat)
    requires IsOpen(After(calls), fd)
    ensures After(calls).fds[fd].value.offset == Moved(calls, fd)
  {
    hide Apply, Moves, Installs;
    var before, c := calls[..|calls| - 1], calls[|calls| - 1];
    if Installs(After(before), c) == Some(fd) {
      InstalledFresh(After(before), c, fd);
    } else {
      OffsetAfter(After(before), c, fd);
      OffsetCounts(before, fd);
    }
  }
}
