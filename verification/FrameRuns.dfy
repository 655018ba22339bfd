/** Every run of the frame allocator, over the set it refines. */
module FrameRuns {
  import opened Options
  import opened FrameAllocator

  datatype Op = Alloc(result: Option<nat>) | Free(frame: nat) | MarkUsed(start: nat, end: nat) | MarkFree(start: nat, end: nat)

  datatype Pool = Pool(free: set<nat>, hint: nat)

  ghost predicate Step(p: Pool, op: Op, p': Pool) {
    && p.hint < WORDS
    && match op
       case Alloc(r) => Allocates(p.free, p.hint, r, p'.free, p'.hint)
       case Free(f) => p' == p.(free := p.free + if f < NUM_FRAMES then {f} else {})
       case MarkUsed(lo, hi) => p' == p.(free := p.free - Touched(lo, hi))
       case MarkFree(lo, hi) => p' == p.(free := p.free + Touched(lo, hi))
  }

  ghost predicate IsRun(pools: seq<Pool>, ops: seq<Op>) {
    |pools| == |ops| + 1 && forall k :: 0 <= k < |ops| ==> Step(pools[k], ops[k], pools[k + 1])
  }

  predicate Releases(op: Op, f: nat) {
    op == Free(f) || (op.MarkFree? && Touches(op.start, op.end, f))
  }

  /** A frame that is not free stays so until something releases it. */
  lemma {:induction false} StaysTaken(pools: seq<Pool>, ops: seq<Op>, f: nat, i: nat, k: nat)
    requires IsRun(pools, ops) && i <= k < |pools| && f !in pools[i].free
    requires forall j :: i <= j < k ==> !Releases(ops[j], f)
    ensures f !in pools[k].free
  {
    if i < k {
      StaysTaken(pools, ops, f, i, k - 1);
    }
  }

  /** No frame is handed out twice without being released in between. */
  lemma NoDoubleAllocation(pools: seq<Pool>, ops: seq<Op>, f: nat, i: nat, k: nat)
    requires IsRun(pools, ops) && i < k < |ops|
    requires ops[i] == Alloc(Some(f)) && ops[k] == Alloc(Some(f))
    ensures exists j :: i < j < k && Releases(ops[j], f)
  {
    assert Step(pools[i], ops[i], pools[i + 1]) && Step(pools[k], ops[k], pools[k + 1]);
    if forall j :: i + 1 <= j < k ==> !Releases(ops[j], f) {
      StaysTaken(pools, ops, f, i + 1, k);
    }
  }

  /**
   Next fit: when nothing is released between two allocations, the second frame
   is the next free one above the first, or, with none left there, the lowest of all.
   */
  lemma AllocationsAscend(a: Pool, f: nat, b: Pool, g: nat, c: Pool)
    requires Step(a, Alloc(Some(f)), b) && Step(b, Alloc(Some(g)), c)
    requires forall x :: x in a.free ==> x < NUM_FRAMES
    ensures g > f ==> forall x :: x in b.free ==> !(f < x < g)
    ensures g < f ==> forall x :: x in b.free ==> g <= x < f
    ensures g != f
  {
    assert forall x :: x in b.free ==> x in a.free && NoLater(a.hint, f, x);
    assert forall x :: x in b.free ==> NoLater(f / 64, g, x);
  }

  // ---- conservation ----

  /** The frames handed out and not yet given back. */
  ghost function Outstanding(ops: seq<Op>): (s: set<nat>) {
    if ops == [] then {}
    else
      var before, op := Outstanding(ops[..|ops| - 1]), ops[|ops| - 1];
      match op
      case Alloc(Some(f)) => before + {f}
      case Free(f) => before - {f}
      case _ => before
  }

  /** The callers only allocate, and free only what they hold. */
  ghost predicate Disciplined(ops: seq<Op>) {
    forall k :: 0 <= k < |ops| ==>
                  ops[k].Alloc? || (ops[k].Free? && ops[k].frame in Outstanding(ops[..k]))
  }

  /**
   Conservation: the free frames and the outstanding ones always make up the
   frames that were free at the start, so the free count falls by one per
   outstanding frame, and giving everything back restores the pool.
   */
  lemma {:induction false} Conservation(pools: seq<Pool>, ops: seq<Op>)
    requires IsRun(pools, ops) && Disciplined(ops)
    requires forall f :: f in pools[0].free ==> f < NUM_FRAMES
    ensures var now, out := pools[|ops|].free, Outstanding(ops);
            now !! out && now + out == pools[0].free && |now| == |pools[0].free| - |out|
  {
    hide NoLater, Touched, Touches;
    if ops != [] {
      var n := |ops| - 1;
      var before, done := pools[..n + 1], ops[..n];
      assert forall k :: 0 <= k < n ==> done[..k] == ops[..k];
      Conservation(before, done);
      assert Step(pools[n], ops[n], pools[n + 1]);
    }
    var now, out := pools[|ops|].free, Outstanding(ops);
    assert |now + out| == |now| + |out|;
  }
}
