/** The bitmap frame allocator, proved to refine a set of free frames with a next-fit hint. */
module FrameAllocator {
  import opened Options
  import opened FrameBits

  const PAGE_SIZE: nat := 4096
  const NUM_FRAMES: nat := 262144
  const WORDS: nat := 4096

  // ---- the set the bitmap stands for ----

  /** How many words the scan passes, starting at word `hint`, before word `w`. */
  function WordsAfter(hint: nat, w: nat): (d: nat)
    requires hint < WORDS && w < WORDS
    ensures d < WORDS
  {
    if w >= hint then w - hint else w + WORDS - hint
  }

  /** Frame `f` comes no later than `g` in a scan that starts at word `hint` and wraps around. */
  predicate NoLater(hint: nat, f: nat, g: nat)
    requires hint < WORDS && f < NUM_FRAMES && g < NUM_FRAMES
  {
    var df, dg := WordsAfter(hint, f / 64), WordsAfter(hint, g / 64);
    df < dg || (df == dg && f <= g)
  }

  /** Allocation as a relation on sets: the first free frame in scan order, or nothing when there is none. */
  ghost predicate Allocates(free: set<nat>, hint: nat, r: Option<nat>, free': set<nat>, hint': nat)
    requires hint < WORDS
  {
    match r
    case None => free == {} && free' == free && hint' == hint
    case Some(f) =>
      && f in free && f < NUM_FRAMES && free' == free - {f} && hint' == f / 64
      && forall g :: g in free && g < NUM_FRAMES ==> NoLater(hint, f, g)
  }

  // ---- byte ranges ----

  function RoundUp(b: nat): (p: nat) {
    (b + PAGE_SIZE - 1) / PAGE_SIZE
  }

  /** The frames of a byte range, rounded outwards and cut off at the end of the bitmap. */
  function FramesFor(start: nat, end: nat): (r: Option<(nat, nat)>) {
    var lo := start / PAGE_SIZE;
    var hi := if RoundUp(end) < NUM_FRAMES then RoundUp(end) else NUM_FRAMES;
    if lo < hi then Some((lo, hi)) else None
  }

  /** Frame `f` belongs to the outward-rounded range. */
  predicate Touches(start: nat, end: nat, f: nat) {
    start / PAGE_SIZE <= f < RoundUp(end) && f < NUM_FRAMES
  }

  predicate InSpan(lo: nat, f: nat) {
    lo <= f
  }

  ghost function Span(lo: nat, hi: nat): (s: set<nat>) {
    set f: nat | f < hi && InSpan(lo, f)
  }

  ghost function Touched(start: nat, end: nat): (s: set<nat>) {
    set f: nat | f < NUM_FRAMES && Touches(start, end, f)
  }

  /** A non-empty range touches exactly the frames that share a byte with it. */
  lemma TouchesIsOverlap(start: nat, end: nat, f: nat)
    requires start < end && f < NUM_FRAMES
    ensures Touches(start, end, f) <==> exists b: nat :: start <= b < end && b / PAGE_SIZE == f
  {
    if Touches(start, end, f) {
      var b := if f * PAGE_SIZE < start then start else f * PAGE_SIZE;
      assert start <= b < end && b / PAGE_SIZE == f;
    }
  }

  /** The bitmap covers the first GiB of memory. */
  lemma CoversOneGiB(b: nat)
    ensures b / PAGE_SIZE < NUM_FRAMES <==> b < 0x4000_0000
  {}

  class BitmapFrameAllocator {
    var used: array<bv64>
    var nextWord: nat

    ghost predicate Valid()
      reads this
    {
      used.Length == WORDS && nextWord < WORDS
    }

    /** The free frames. */
    ghost function Free(): (s: set<nat>)
      requires Valid()
      reads this, used
      ensures forall f :: f in s ==> f < NUM_FRAMES
    {
      FreeFrames(used[..])
    }

    /** All frames start out used. */
    constructor ()
      ensures Valid() && fresh(used) && Free() == {} && nextWord == 0
    {
      used := new bv64[WORDS](_ => FULL);
      nextWord := 0;
      new;
      forall f: nat | f < 64 * WORDS ensures FrameUsed(used[..], f) {
        FullWord(f % 64);
      }
    }

    method SetUsed(frame: nat, value: bool)
      requires Valid() && frame < NUM_FRAMES
      modifies used
      ensures Free() == if value then old(Free()) - {frame} else old(Free()) + {frame}
    {
      hide WithBit, WithoutBit, FreeFrames;
      ghost var before := used[..];
      var w, b := frame / 64, frame % 64;
      if value {
        SetFrame(before, frame);
        used[w] := WithBit(used[w], b);
        assert used[..] == before[w := WithBit(before[w], b)];
      } else {
        ClearFrame(before, frame);
        used[w] := WithoutBit(used[w], b);
        assert used[..] == before[w := WithoutBit(before[w], b)];
      }
    }

    method MarkUsedRange(start: nat, end: nat)
      requires Valid()
      modifies used
      ensures Free() == old(Free()) - Touched(start, end)
    {
      hide FreeFrames, RoundUp;
      var frames := FramesFor(start, end);
      if frames.Some? {
        for f := frames.value.0 to frames.value.1
          invariant Free() == old(Free()) - Span(frames.value.0, f)
        {
          SetUsed(f, true);
        }
      }
    }

    method MarkFreeRange(start: nat, end: nat)
      requires Valid()
      modifies used
      ensures Free() == old(Free()) + Touched(start, end)
    {
      hide FreeFrames, RoundUp;
      var frames := FramesFor(start, end);
      if frames.Some? {
        for f := frames.value.0 to frames.value.1
          invariant Free() == old(Free()) + Span(frames.value.0, f)
        {
          SetUsed(f, false);
        }
      }
    }

    /** The first free bit of word `idx`, if it has one. */
    method FindInWord(idx: nat) returns (r: Option<nat>)
      requires Valid() && idx < WORDS
      ensures r.Some? ==> r.value in Free() && r.value / 64 == idx
      ensures r.Some? ==> forall g :: g in Free() && g / 64 == idx ==> r.value <= g
      ensures r.None? ==> forall g :: g in Free() ==> g / 64 != idx
    {
      hide Bit;
      for b := 0 to 64
        invariant forall g :: g in Free() && g / 64 == idx ==> g % 64 >= b
      {
        var frame := idx * 64 + b;
        if !FrameUsed(used[..], frame) {
          return Some(frame);
        }
      }
      return None;
    }

    /**
     Next-fit: full words are skipped, the scan starts at the hint and wraps
     around, and nothing is found only when nothing is free.
     */
    method FindFree() returns (r: Option<nat>)
      requires Valid()
      ensures r.None? <==> Free() == {}
      ensures r.Some? ==> r.value in Free() && forall g :: g in Free() ==> NoLater(nextWord, r.value, g)
    {
      for i := 0 to WORDS
        invariant forall g :: g in Free() ==> WordsAfter(nextWord, g / 64) >= i
      {
        var idx := (nextWord + i) % WORDS;
        if used[idx] == FULL {
          forall g | g in Free() ensures g / 64 != idx {
            FullWord(g % 64);
          }
          continue;
        }
        r := FindInWord(idx);
        if r.Some? {
          return r;
        }
      }
      return None;
    }

    method AllocFrame() returns (r: Option<nat>)
      requires Valid()
      modifies this`nextWord, used
      ensures Valid()
      ensures Allocates(old(Free()), old(nextWord), r, Free(), nextWord)
    {
      r := FindFree();
      if r.Some? {
        SetUsed(r.value, true);
        nextWord := r.value / 64;
      }
    }

    /** Freeing takes the frame's start address; addresses beyond the bitmap are ignored. */
    method FreeFrame(address: nat)
      requires Valid()
      modifies used
      ensures Free() == old(Free()) + (if address / PAGE_SIZE < NUM_FRAMES then {address / PAGE_SIZE} else {})
    {
      var idx := address / PAGE_SIZE;
      if idx < NUM_FRAMES {
        SetUsed(idx, false);
      }
    }

    method FreeCount() returns (n: nat)
      requires Valid()
      ensures n == |Free()|
    {
      var total := 0;
      for i := 0 to WORDS
        invariant total == TotalOnes(used[..i])
      {
        total := total + CountOnes(used[i]);
        assert used[..i + 1][..i] == used[..i];
      }
      assert used[..WORDS] == used[..];
      FrameBits.FreeCount(used[..]);
      n := NUM_FRAMES - total;
    }
  }
}
