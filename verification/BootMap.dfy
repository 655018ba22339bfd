/** Seeding the frame allocator from the boot memory map. */
module BootMap {
  import opened FrameAllocator

  datatype Region = Region(start: nat, end: nat, usable: bool)

  predicate Holds(r: Region, f: nat) {
    Touches(r.start, r.end, f)
  }

  /** Whether the last region that holds `f`, rounded outwards, is usable. */
  predicate LastIsUsable(regions: seq<Region>, f: nat) {
    regions != [] &&
    var last := regions[|regions| - 1];
    if Holds(last, f) then last.usable else LastIsUsable(regions[..|regions| - 1], f)
  }

  /** The frames of the kernel image and page 0, which are never free after boot. */
  predicate Protected(kernelStart: nat, kernelEnd: nat, f: nat) {
    Touches(kernelStart, kernelEnd, f) || Touches(0, PAGE_SIZE, f)
  }

  predicate BootFree(regions: seq<Region>, kernelStart: nat, kernelEnd: nat, f: nat) {
    f < NUM_FRAMES && LastIsUsable(regions, f) && !Protected(kernelStart, kernelEnd, f)
  }

  /** A frame is free after boot exactly when the last region holding it is usable and it is not protected. */
  method Seed(alloc: BitmapFrameAllocator, regions: seq<Region>, kernelStart: nat, kernelEnd: nat)
    requires alloc.Valid() && alloc.Free() == {}
    modifies alloc.used
    ensures forall f :: f in alloc.Free() <==> f >= 0 && BootFree(regions, kernelStart, kernelEnd, f)
    ensures forall b: nat :: kernelStart <= b < kernelEnd || b < 4096 ==> b / 4096 !in alloc.Free()
  {
    for i := 0 to |regions|
      invariant forall f :: f in alloc.Free() <==> 0 <= f < NUM_FRAMES && LastIsUsable(regions[..i], f)
    {
      assert regions[..i + 1][..i] == regions[..i];
      var r := regions[i];
      if r.usable {
        alloc.MarkFreeRange(r.start, r.end);
      } else {
        alloc.MarkUsedRange(r.start, r.end);
      }
    }
    assert regions[..|regions|] == regions;
    alloc.MarkUsedRange(kernelStart, kernelEnd);
    alloc.MarkUsedRange(0, PAGE_SIZE);
    forall b: nat | kernelStart <= b < kernelEnd || b < 4096 ensures b / 4096 !in alloc.Free() {
      ProtectedBytes(regions, kernelStart, kernelEnd, b);
    }
  }

  /** No byte of the kernel image and no byte of the first page is ever in a free frame. */
  lemma ProtectedBytes(regions: seq<Region>, kernelStart: nat, kernelEnd: nat, b: nat)
    requires kernelStart <= b < kernelEnd || b < 4096
    ensures !BootFree(regions, kernelStart, kernelEnd, b / 4096)
  {
    if b / 4096 < NUM_FRAMES && kernelStart <= b < kernelEnd {
      TouchesIsOverlap(kernelStart, kernelEnd, b / 4096);
    }
  }

  ghost predicate SharesByte(start: nat, end: nat, f: nat) {
    exists b: nat :: start <= b < end && b / 4096 == f
  }

  /** Region `i` shares a byte with `f` and no later one does. */
  ghost predicate Decides(regions: seq<Region>, f: nat, i: nat) {
    && i < |regions| && SharesByte(regions[i].start, regions[i].end, f)
    && forall j :: i < j < |regions| ==> !SharesByte(regions[j].start, regions[j].end, f)
  }

  ghost predicate DecidedUsable(regions: seq<Region>, f: nat) {
    exists i: nat :: Decides(regions, f, i) && regions[i].usable
  }

  lemma DecidesInit(regions: seq<Region>, f: nat, i: nat)
    requires regions != []
    ensures var n := |regions| - 1;
            Decides(regions, f, i)
            <==> if SharesByte(regions[n].start, regions[n].end, f) then i == n else Decides(regions[..n], f, i)
  {
    hide SharesByte;
  }

  lemma {:induction false} LastIsUsableIff(regions: seq<Region>, f: nat)
    requires f < 262144 && forall r :: r in regions ==> r.start < r.end
    ensures LastIsUsable(regions, f) <==> DecidedUsable(regions, f)
  {
    if regions != [] {
      var n := |regions| - 1;
      var last := regions[n];
      TouchesIsOverlap(last.start, last.end, f);
      assert Holds(last, f) <==> SharesByte(last.start, last.end, f);
      hide SharesByte, Touches, Decides;
      LastIsUsableIff(regions[..n], f);
      forall i: nat ensures Decides(regions, f, i) <==> if Holds(last, f) then i == n else Decides(regions[..n], f, i) {
        DecidesInit(regions, f, i);
      }
      assert forall i: nat :: Decides(regions[..n], f, i) ==> i < n by {
        forall i: nat | Decides(regions[..n], f, i) ensures i < n { DecidesInRange(regions[..n], f, i); }
      }
    }
  }

  lemma DecidesInRange(regions: seq<Region>, f: nat, i: nat)
    requires Decides(regions, f, i)
    ensures i < |regions|
  {}

  /**
   Seeding in bytes: a frame is free after boot exactly when the last region that
   shares a byte with it is usable and neither the kernel image nor the first
   page shares one.
   */
  lemma BootFreeIff(regions: seq<Region>, kernelStart: nat, kernelEnd: nat, f: nat)
    requires f < 262144 && kernelStart < kernelEnd && forall r :: r in regions ==> r.start < r.end
    ensures BootFree(regions, kernelStart, kernelEnd, f)
            <==> DecidedUsable(regions, f) && !SharesByte(kernelStart, kernelEnd, f) && !SharesByte(0, 4096, f)
  {
    LastIsUsableIff(regions, f);
    TouchesIsOverlap(kernelStart, kernelEnd, f);
    TouchesIsOverlap(0, 4096, f);
  }

  // ---- when the order of the map matters ----

  /** `f` is claimed both by a usable region and by another kind. */
  ghost predicate Conflict(regions: seq<Region>, f: nat) {
    exists r, s :: r in regions && s in regions && Holds(r, f) && Holds(s, f) && r.usable && !s.usable
  }

  ghost predicate SomeUsable(regions: seq<Region>, f: nat) {
    exists r :: r in regions && Holds(r, f) && r.usable
  }

  lemma {:induction false} LastIsSome(regions: seq<Region>, f: nat)
    ensures LastIsUsable(regions, f) ==> SomeUsable(regions, f)
    ensures !Conflict(regions, f) && SomeUsable(regions, f) ==> LastIsUsable(regions, f)
  {
    if regions != [] {
      var n := |regions| - 1;
      LastIsSome(regions[..n], f);
      if !Conflict(regions, f) && SomeUsable(regions, f) && !Holds(regions[n], f) {
        var r :| r in regions && Holds(r, f) && r.usable;
      }
    }
  }

  lemma SameMembers(a: seq<Region>, b: seq<Region>, r: Region)
    requires multiset(a) == multiset(b)
    ensures r in a <==> r in b
  {
    assert r in b <==> r in multiset(b);
  }

  /** Moving the region at `i` to the end makes it decide. */
  lemma MovedLast(regions: seq<Region>, i: nat, f: nat) returns (p: seq<Region>)
    requires i < |regions| && Holds(regions[i], f)
    ensures multiset(p) == multiset(regions)
    ensures LastIsUsable(p, f) <==> regions[i].usable
  {
    p := regions[..i] + regions[i + 1..] + [regions[i]];
    assert regions == regions[..i] + [regions[i]] + regions[i + 1..];
  }

  ghost predicate OrderIrrelevant(regions: seq<Region>, kernelStart: nat, kernelEnd: nat, f: nat) {
    forall p :: multiset(p) == multiset(regions) ==>
                  (BootFree(p, kernelStart, kernelEnd, f) <==> BootFree(regions, kernelStart, kernelEnd, f))
  }

  /** The order of the map decides about a frame exactly when regions of both kinds claim it. */
  lemma OrderMattersIffConflict(regions: seq<Region>, kernelStart: nat, kernelEnd: nat, f: nat)
    requires f < NUM_FRAMES
    ensures OrderIrrelevant(regions, kernelStart, kernelEnd, f)
            <==> !Conflict(regions, f) || Protected(kernelStart, kernelEnd, f)
  {
    if !Conflict(regions, f) {
      forall p | multiset(p) == multiset(regions)
        ensures LastIsUsable(p, f) <==> LastIsUsable(regions, f)
      {
        forall r ensures r in p <==> r in regions { SameMembers(p, regions, r); }
        LastIsSome(p, f);
        LastIsSome(regions, f);
      }
    } else if !Protected(kernelStart, kernelEnd, f) {
      var r, s :| r in regions && s in regions && Holds(r, f) && Holds(s, f) && r.usable && !s.usable;
      var i :| 0 <= i < |regions| && regions[i] == r;
      var j :| 0 <= j < |regions| && regions[j] == s;
      var p := MovedLast(regions, i, f);
      var q := MovedLast(regions, j, f);
      assert BootFree(p, kernelStart, kernelEnd, f) && !BootFree(q, kernelStart, kernelEnd, f);
    }
  }

  predicate Disjoint(r: Region, s: Region) {
    r.end <= s.start || s.end <= r.start
  }

  predicate Aligned(r: Region) {
    r.start % PAGE_SIZE == 0 && r.end % PAGE_SIZE == 0
  }

  /** For page-aligned regions that do not overlap, the order of the map never matters. */
  lemma AlignedDisjointAnyOrder(regions: seq<Region>, kernelStart: nat, kernelEnd: nat, f: nat)
    requires f < NUM_FRAMES
    requires forall r :: r in regions ==> Aligned(r)
    requires forall r, s :: r in regions && s in regions && r != s ==> Disjoint(r, s)
    ensures OrderIrrelevant(regions, kernelStart, kernelEnd, f)
  {
    forall r, s | r in regions && s in regions && Holds(r, f) && Holds(s, f) ensures r == s {
    }
    OrderMattersIffConflict(regions, kernelStart, kernelEnd, f);
  }

  /** Without alignment it does: two disjoint regions that share a page. */
  lemma UnalignedOrderMatters()
    ensures var a, b := Region(0x1000, 0x1800, true), Region(0x1800, 0x2000, false);
            && Disjoint(a, b)
            && BootFree([b, a], 0x100000, 0x100000, 1) && !BootFree([a, b], 0x100000, 0x100000, 1)
  {}

  // ---- whether a free frame is usable memory ----

  predicate Contains(r: Region, b: nat) {
    r.start <= b < r.end
  }

  ghost predicate UsableByte(regions: seq<Region>, b: nat) {
    exists r :: r in regions && r.usable && Contains(r, b)
  }

  ghost predicate WhollyUsable(regions: seq<Region>, f: nat) {
    forall b: nat :: b / PAGE_SIZE == f ==> UsableByte(regions, b)
  }

  /** A byte of `f` belongs to a region that is not usable. */
  ghost predicate PartlyReserved(regions: seq<Region>, f: nat) {
    exists s, b: nat :: s in regions && !s.usable && Contains(s, b) && b / PAGE_SIZE == f
  }

  /** A page of which only half is usable becomes free: rounding outwards hands out bytes of no region. */
  lemma PartlyUsableIsFree()
    ensures var regions := [Region(0x1000, 0x1800, true)];
            BootFree(regions, 0x100000, 0x100000, 1) && !WhollyUsable(regions, 1)
  {
    assert 0x1800 / PAGE_SIZE == 1 && !UsableByte([Region(0x1000, 0x1800, true)], 0x1800);
  }

  /** The frame begins in usable memory, and wherever a usable region ends inside it another goes on. */
  ghost predicate NoGap(regions: seq<Region>, f: nat) {
    && UsableByte(regions, f * PAGE_SIZE)
    && forall r :: r in regions && r.usable && f * PAGE_SIZE < r.end < (f + 1) * PAGE_SIZE ==> UsableByte(regions, r.end)
  }

  lemma {:induction false} NoGapUpTo(regions: seq<Region>, f: nat, b: nat)
    requires NoGap(regions, f) && f * PAGE_SIZE <= b < (f + 1) * PAGE_SIZE
    ensures UsableByte(regions, b)
    decreases b
  {
    if b > f * PAGE_SIZE {
      NoGapUpTo(regions, f, b - 1);
      var r :| r in regions && r.usable && Contains(r, b - 1);
      assert Contains(r, b) || r.end == b;
    }
  }

  /** Exactly when every byte of a frame, free or not, is usable memory. */
  lemma WhollyUsableIff(regions: seq<Region>, f: nat)
    ensures WhollyUsable(regions, f) <==> NoGap(regions, f)
  {
    if NoGap(regions, f) {
      forall b: nat | b / PAGE_SIZE == f ensures UsableByte(regions, b) {
        NoGapUpTo(regions, f, b);
      }
    } else {
      forall b: nat | f * PAGE_SIZE <= b < (f + 1) * PAGE_SIZE ensures b / PAGE_SIZE == f {}
    }
  }

  /** When the usable regions are page-aligned, every byte of a free frame is usable memory. */
  lemma AlignedFreeIsUsable(regions: seq<Region>, kernelStart: nat, kernelEnd: nat, f: nat)
    requires forall r :: r in regions && r.usable ==> Aligned(r)
    requires BootFree(regions, kernelStart, kernelEnd, f)
    ensures WhollyUsable(regions, f)
  {
    LastIsSome(regions, f);
    var r :| r in regions && Holds(r, f) && r.usable;
    forall b: nat | b / PAGE_SIZE == f ensures UsableByte(regions, b) {
      assert Contains(r, b);
    }
  }

  /** A free frame shares a byte with a region that is not usable exactly when regions of both kinds claim it. */
  lemma FreeButReservedIff(regions: seq<Region>, kernelStart: nat, kernelEnd: nat, f: nat)
    requires forall r :: r in regions ==> r.start < r.end
    requires BootFree(regions, kernelStart, kernelEnd, f)
    ensures PartlyReserved(regions, f) <==> Conflict(regions, f)
  {
    LastIsSome(regions, f);
    forall s | s in regions ensures Holds(s, f) <==> exists b: nat :: Contains(s, b) && b / PAGE_SIZE == f {
      TouchesIsOverlap(s.start, s.end, f);
      if Holds(s, f) {
        var b: nat :| s.start <= b < s.end && b / PAGE_SIZE == f;
        assert Contains(s, b);
      } else {
        forall b: nat | Contains(s, b) ensures b / PAGE_SIZE != f {
          assert s.start <= b < s.end;
        }
      }
    }
  }
}
