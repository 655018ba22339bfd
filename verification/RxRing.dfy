/**
 The e1000 receive ring: the device and the polling driver as two parties whose
 memory accesses interleave in every possible way.

 The device steps are the assumption of the model (section 3.2.6, Receive
 Descriptor Queue Structure, of Intel's PCI/PCI-X Family of Gigabit Ethernet
 Controllers Software Developer's Manual): while head and tail differ it fills
 the buffer of the descriptor at the head, then sets that descriptor's length
 and done bit and advances the head. The driver steps are the memory accesses
 of `poll_receive`, in program order.
 */
module RxRing {
  import opened Options
  import opened Bytes

  const NUM_RX: nat := 8
  const PAGE: nat := 4096

  type Frame = seq<byte>
  datatype Desc = Desc(addr: nat, length: nat, done: bool)

  /** The slot of the `k`th frame. */
  function Slot(k: nat): (i: nat)
    ensures i < NUM_RX
  {
    k % NUM_RX
  }

  /** Two frames less than a ring apart lie in different slots. */
  lemma DistinctSlots(j: nat, k: nat)
    requires j < k < j + NUM_RX
    ensures Slot(j) != Slot(k)
  {}

  lemma NextSlot(k: nat)
    ensures (Slot(k) + 1) % NUM_RX == Slot(k + 1) && Slot(k + NUM_RX) == Slot(k)
  {}

  /** How far the driver has come in one call of `poll_receive`. */
  datatype Phase =
    | Idle
    | Seen(idx: nat, length: nat)
    | Copied(idx: nat, frame: Frame)
    | Cleared(idx: nat, frame: Frame)

  /** `dma` is a frame in its buffer whose descriptor is not yet written back. */
  datatype Ring = Ring(
    desc: seq<Desc>, bufs: seq<nat>, mem: map<nat, seq<byte>>,
    head: nat, tail: nat, dma: Option<Frame>,
    cursor: nat, phase: Phase,
    written: seq<Frame>, returned: seq<Frame>)

  datatype Step = Fill(frame: Frame) | WriteBack | ReadDesc | CopyFrame | ClearDesc | WriteTail

  predicate DistinctPages(bufs: seq<nat>) {
    forall i, j :: 0 <= i < |bufs| && 0 <= j < |bufs| && bufs[i] == bufs[j] ==> i == j
  }

  predicate WellFormed(r: Ring) {
    && |r.desc| == NUM_RX && |r.bufs| == NUM_RX && r.head < NUM_RX
    && (forall i :: 0 <= i < NUM_RX ==> r.desc[i].addr == r.bufs[i])
    && (forall i :: 0 <= i < NUM_RX ==> r.bufs[i] in r.mem && |r.mem[r.bufs[i]]| == PAGE)
    && DistinctPages(r.bufs)
  }

  /** The page with `frame` written over its start. */
  function Overwrite(page: seq<byte>, frame: Frame): (p: seq<byte>)
    requires |frame| <= |page|
    ensures |p| == |page| && p[..|frame|] == frame
  {
    frame + page[|frame|..]
  }

  ghost predicate Next(r: Ring, s: Step, r': Ring) {
    WellFormed(r) &&
    match s
    case Fill(f) =>
      && r.dma.None? && r.head != r.tail && 1 <= |f| <= PAGE
      && r' == r.(mem := r.mem[r.desc[r.head].addr := Overwrite(r.mem[r.desc[r.head].addr], f)], dma := Some(f))
    case WriteBack =>
      && r.dma.Some?
      && r' == r.(desc := r.desc[r.head := Desc(r.desc[r.head].addr, |r.dma.value|, true)],
                  head := (r.head + 1) % NUM_RX, dma := None, written := r.written + [r.dma.value])
    case ReadDesc =>
      && r.phase.Idle?
      && var idx := Slot(r.cursor);
         r' == if !r.desc[idx].done || r.desc[idx].length == 0 then r
               else r.(phase := Seen(idx, r.desc[idx].length))
    case CopyFrame =>
      && r.phase.Seen? && r.phase.idx < NUM_RX && r.phase.length <= PAGE
      && r' == r.(phase := Copied(r.phase.idx, r.mem[r.bufs[r.phase.idx]][..r.phase.length]))
    case ClearDesc =>
      && r.phase.Copied? && r.phase.idx < NUM_RX
      && r' == r.(desc := r.desc[r.phase.idx := Desc(r.bufs[r.phase.idx], 0, false)],
                  phase := Cleared(r.phase.idx, r.phase.frame))
    case WriteTail =>
      && r.phase.Cleared?
      && r' == r.(tail := r.phase.idx, cursor := r.cursor + 1, phase := Idle, returned := r.returned + [r.phase.frame])
  }

  /** Frame `k` of those written lies complete in the ring. */
  ghost predicate Holds(r: Ring, k: nat)
    requires WellFormed(r) && k < |r.written|
  {
    var d := r.desc[Slot(k)];
    && d.done && d.length == |r.written[k]| && 1 <= d.length <= PAGE
    && r.mem[r.bufs[Slot(k)]][..d.length] == r.written[k]
  }

  /** The descriptor that frame `k` will use is as it was set up. */
  predicate Vacant(r: Ring, k: nat)
    requires WellFormed(r)
  {
    r.desc[Slot(k)] == Desc(r.bufs[Slot(k)], 0, false)
  }

  /** The oldest frame whose descriptor the driver has not cleared. */
  function Oldest(r: Ring): (k: nat) {
    if r.phase.Cleared? then r.cursor + 1 else r.cursor
  }

  ghost predicate Inv(r: Ring) {
    && WellFormed(r)
    && r.cursor <= |r.written| < r.cursor + NUM_RX
    && r.head == Slot(|r.written|)
    && r.tail == Slot(r.cursor + NUM_RX - 1)
    && r.returned == r.written[..r.cursor]
    && (forall k :: Oldest(r) <= k < |r.written| ==> Holds(r, k))
    && (forall k :: |r.written| <= k < r.cursor + NUM_RX ==> Vacant(r, k))
    && (r.dma.Some? ==>
          && |r.written| + 1 < r.cursor + NUM_RX && 1 <= |r.dma.value| <= PAGE
          && r.mem[r.bufs[r.head]][..|r.dma.value|] == r.dma.value)
    && (!r.phase.Idle? ==> r.phase.idx == Slot(r.cursor) && r.cursor < |r.written|)
    && (r.phase.Seen? ==> r.phase.length == |r.written[r.cursor]|)
    && (r.phase.Copied? || r.phase.Cleared? ==> r.phase.frame == r.written[r.cursor])
    && (r.phase.Cleared? ==> r.desc[r.phase.idx] == Desc(r.bufs[r.phase.idx], 0, false))
  }

  /** After set-up every buffer but one belongs to the device. */
  ghost predicate Initial(r: Ring) {
    && WellFormed(r)
    && (forall i :: 0 <= i < NUM_RX ==> r.desc[i] == Desc(r.bufs[i], 0, false))
    && r.head == 0 && r.tail == NUM_RX - 1 && r.dma.None?
    && r.cursor == 0 && r.phase.Idle? && r.written == [] && r.returned == []
  }

  /** A frame stays in the ring while its slot is left alone. */
  lemma StillHolds(r: Ring, r': Ring, k: nat)
    requires WellFormed(r) && WellFormed(r') && r.bufs == r'.bufs && k < |r.written| && r.written <= r'.written
    requires r'.desc[Slot(k)] == r.desc[Slot(k)]
    requires r'.mem[r.bufs[Slot(k)]] == r.mem[r.bufs[Slot(k)]]
    requires Holds(r, k)
    ensures Holds(r', k)
  {}

  lemma StillVacant(r: Ring, r': Ring, k: nat)
    requires WellFormed(r) && WellFormed(r') && r.bufs == r'.bufs && r'.desc[Slot(k)] == r.desc[Slot(k)] && Vacant(r, k)
    ensures Vacant(r', k)
  {}

  lemma FillKeepsInv(r: Ring, f: Frame, r': Ring)
    requires Inv(r) && Next(r, Fill(f), r')
    ensures Inv(r')
  {
    hide Slot, Holds, Vacant;
    var n := |r.written|;
    forall k | Oldest(r') <= k < n ensures Holds(r', k) {
      DistinctSlots(k, n);
      StillHolds(r, r', k);
    }
    forall k | n <= k < r.cursor + NUM_RX ensures Vacant(r', k) {
      StillVacant(r, r', k);
    }
  }

  /** The frame just written back is held, in the slot at the old head. */
  lemma WriteBackHolds(r: Ring, r': Ring)
    requires Inv(r) && Next(r, WriteBack, r') && WellFormed(r')
    ensures Holds(r', |r.written|)
  {}

  lemma WriteBackKeepsInv(r: Ring, r': Ring)
    requires Inv(r) && Next(r, WriteBack, r')
    ensures Inv(r')
  {
    hide Slot, Holds, Vacant, DistinctPages;
    var n := |r.written|;
    NextSlot(n);
    WriteBackHolds(r, r');
    forall k | Oldest(r') <= k < n ensures Holds(r', k) {
      DistinctSlots(k, n);
      StillHolds(r, r', k);
    }
    forall k | n + 1 <= k < r.cursor + NUM_RX ensures Vacant(r', k) {
      DistinctSlots(n, k);
      StillVacant(r, r', k);
    }
    if !r.phase.Idle? {
      DistinctSlots(r.cursor, n);
    }
  }

  lemma ReadKeepsInv(r: Ring, s: Step, r': Ring)
    requires Inv(r) && Next(r, s, r') && (s.ReadDesc? || s.CopyFrame?)
    ensures Inv(r')
  {
    hide Slot, DistinctPages;
    if !r'.phase.Idle? {
      assert |r.written| == r.cursor ==> Vacant(r, r.cursor);
      assert Holds(r, r.cursor);
    }
    hide Holds, Vacant;
    forall k | Oldest(r') <= k < |r.written| ensures Holds(r', k) {
      StillHolds(r, r', k);
    }
    forall k | |r.written| <= k < r.cursor + NUM_RX ensures Vacant(r', k) {
      StillVacant(r, r', k);
    }
  }

  lemma ClearKeepsInv(r: Ring, r': Ring)
    requires Inv(r) && Next(r, ClearDesc, r')
    ensures Inv(r')
  {
    hide Slot, Holds, Vacant, DistinctPages;
    forall k | Oldest(r') <= k < |r.written| ensures Holds(r', k) {
      DistinctSlots(r.cursor, k);
      StillHolds(r, r', k);
    }
    forall k | |r.written| <= k < r.cursor + NUM_RX ensures Vacant(r', k) {
      DistinctSlots(r.cursor, k);
      StillVacant(r, r', k);
    }
  }

  lemma WriteTailKeepsInv(r: Ring, r': Ring)
    requires Inv(r) && Next(r, WriteTail, r')
    ensures Inv(r')
  {
    hide Slot, Holds, DistinctPages;
    var n := r.cursor + NUM_RX;
    NextSlot(r.cursor);
    assert Vacant(r', n);
    hide Vacant;
    forall k | Oldest(r') <= k < |r.written| ensures Holds(r', k) {
      StillHolds(r, r', k);
    }
    forall k | |r.written| <= k < n ensures Vacant(r', k) {
      StillVacant(r, r', k);
    }
  }

  lemma NextKeepsInv(r: Ring, s: Step, r': Ring)
    requires Inv(r) && Next(r, s, r')
    ensures Inv(r')
  {
    match s
    case Fill(f) => FillKeepsInv(r, f, r');
    case WriteBack => WriteBackKeepsInv(r, r');
    case WriteTail => WriteTailKeepsInv(r, r');
    case ClearDesc => ClearKeepsInv(r, r');
    case _ => ReadKeepsInv(r, s, r');
  }

  ghost predicate IsRun(rings: seq<Ring>, steps: seq<Step>) {
    && |rings| == |steps| + 1 && Initial(rings[0])
    && forall k :: 0 <= k < |steps| ==> Next(rings[k], steps[k], rings[k + 1])
  }

  lemma {:induction false} RunKeepsInv(rings: seq<Ring>, steps: seq<Step>, k: nat)
    requires IsRun(rings, steps) && k < |rings|
    ensures Inv(rings[k])
  {
    hide Next;
    if k > 0 {
      RunKeepsInv(rings, steps, k - 1);
      NextKeepsInv(rings[k - 1], steps[k - 1], rings[k]);
    }
  }

  /**
   Whatever the interleaving, the frames returned are a prefix of the frames the
   device wrote, fewer than a ring behind, and the tail register stays one
   behind the cursor.
   */
  lemma ReturnsInOrder(rings: seq<Ring>, steps: seq<Step>, k: nat)
    requires IsRun(rings, steps) && k < |rings|
    ensures var r := rings[k];
            && r.returned <= r.written && |r.written| < |r.returned| + NUM_RX
            && |r.returned| == r.cursor && (r.tail + 1) % NUM_RX == Slot(r.cursor)
  {
    hide Holds, Vacant, Next, Slot;
    RunKeepsInv(rings, steps, k);
    NextSlot(rings[k].cursor + NUM_RX - 1);
    NextSlot(rings[k].cursor);
  }

  /** The device overwrites neither the buffer nor the descriptor of a frame not yet returned. */
  lemma NeverOverwritten(rings: seq<Ring>, steps: seq<Step>, k: nat, j: nat)
    requires IsRun(rings, steps) && k < |steps| && (steps[k].Fill? || steps[k].WriteBack?)
    requires |rings[k].returned| <= j < |rings[k].written|
    ensures WellFormed(rings[k]) && WellFormed(rings[k + 1])
    ensures rings[k + 1].desc[Slot(j)] == rings[k].desc[Slot(j)]
    ensures rings[k + 1].mem[rings[k].bufs[Slot(j)]] == rings[k].mem[rings[k].bufs[Slot(j)]]
  {
    RunKeepsInv(rings, steps, k);
    RunKeepsInv(rings, steps, k + 1);
    assert Next(rings[k], steps[k], rings[k + 1]);
    DistinctSlots(j, |rings[k].written|);
  }

  /** A poll finds a frame exactly when one has been written and not yet returned. */
  lemma PollSeesEveryFrame(r: Ring, r': Ring)
    requires Inv(r) && Next(r, ReadDesc, r')
    ensures r'.phase.Seen? <==> r.returned != r.written
  {
    if r.cursor < |r.written| {
      assert Holds(r, r.cursor);
    } else {
      assert Vacant(r, r.cursor);
    }
  }

  /** The device can take a frame exactly when fewer than seven are waiting. */
  lemma DeviceHasRoom(r: Ring)
    requires Inv(r)
    ensures r.head != r.tail <==> |r.written| - |r.returned| < 7
  {}

  /** The four driver steps of a poll that returns a frame, with no device step in between. */
  ghost predicate PollSteps(r: Ring, r': Ring) {
    exists a, b, c :: Next(r, ReadDesc, a) && Next(a, CopyFrame, b) && Next(b, ClearDesc, c) && Next(c, WriteTail, r')
  }

  lemma PollStepsKeepInv(r: Ring, r': Ring)
    requires Inv(r) && PollSteps(r, r')
    ensures Inv(r')
  {
    hide Next, Inv;
    var a, b, c :| Next(r, ReadDesc, a) && Next(a, CopyFrame, b) && Next(b, ClearDesc, c) && Next(c, WriteTail, r');
    NextKeepsInv(r, ReadDesc, a);
    NextKeepsInv(a, CopyFrame, b);
    NextKeepsInv(b, ClearDesc, c);
    NextKeepsInv(c, WriteTail, r');
  }

  class Nic {
    var ring: array<Desc>
    const bufs: seq<nat>
    var mem: map<nat, seq<byte>>
    var head: nat
    var tail: nat
    var cursor: nat
    ghost var dma: Option<Frame>
    ghost var written: seq<Frame>
    ghost var returned: seq<Frame>

    ghost function State(): (r: Ring)
      reads this, ring
    {
      Ring(ring[..], bufs, mem, head, tail, dma, cursor, Idle, written, returned)
    }

    ghost predicate Valid()
      reads this, ring
    {
      Inv(State())
    }

    /** Ring set-up: every descriptor points at its own page, and the device gets all but the last. */
    constructor (bufs: seq<nat>, mem: map<nat, seq<byte>>)
      requires |bufs| == NUM_RX
      requires forall i :: 0 <= i < NUM_RX ==> bufs[i] in mem && |mem[bufs[i]]| == PAGE
      requires DistinctPages(bufs)
      ensures Valid() && Initial(State()) && fresh(ring)
    {
      var r := new Desc[NUM_RX](_ => Desc(0, 0, false));
      for i := 0 to NUM_RX
        invariant forall j :: 0 <= j < i ==> r[j] == Desc(bufs[j], 0, false)
      {
        r[i] := Desc(bufs[i], 0, false);
      }
      ring, this.bufs, this.mem := r, bufs, mem;
      head, tail, cursor := 0, NUM_RX - 1, 0;
      dma, written, returned := None, [], [];
    }

    /** A poll returns the oldest frame not yet returned, and nothing when there is none. */
    method PollReceive() returns (out: Option<Frame>)
      requires Valid()
      modifies this`tail, this`cursor, this`returned, ring
      ensures Valid() && ring == old(ring)
      ensures out.None? <==> old(returned) == old(written)
      ensures out.None? ==> State() == old(State())
      ensures out.Some? ==> out.value == written[|old(returned)|] && returned == old(returned) + [out.value]
      ensures out.Some? ==> PollSteps(old(State()), State())
    {
      ghost var r := State();
      var idx := Slot(cursor);
      var d := ring[idx];
      ghost var a := if !d.done || d.length == 0 then r else r.(phase := Seen(idx, d.length));
      PollSeesEveryFrame(r, a);
      if !d.done || d.length == 0 {
        return None;
      }
      assert Holds(r, cursor);
      hide Slot, Holds, Vacant, DistinctPages;
      var frame := mem[bufs[idx]][..d.length];
      ring[idx] := Desc(bufs[idx], 0, false);
      tail := idx;
      cursor := cursor + 1;
      returned := returned + [frame];
      out := Some(frame);
      ghost var b := a.(phase := Copied(idx, frame));
      ghost var c := b.(desc := b.desc[idx := Desc(bufs[idx], 0, false)], phase := Cleared(idx, frame));
      assert State().desc == c.desc;
      assert Next(r, ReadDesc, a) && Next(a, CopyFrame, b) && Next(b, ClearDesc, c) && Next(c, WriteTail, State());
      PollStepsKeepInv(r, State());
    }
  }
}
