/**
 Time slices. A task's slice changes only when a tick finds it executing, so it
 is fixed by the ticks charged to the task since it was spawned, and every third
 of those preempts it.
 */
module SchedulerSlices {
  import opened Options
  import opened SchedulerSpec
  import opened SchedulerInvariant
  import opened SchedulerBlocking
  import opened SchedulerCalls

  function SliceOf(slots: Slots, i: nat): (n: nat) {
    if Live(slots, i) then slots[i].value.slice else 0
  }

  // ---- one step ----

  lemma SwitchKeepsSlice(s: Sched, i: nat)
    ensures SliceOf(SwitchToNext(s).slots, i) == SliceOf(s.slots, i)
  {}

  lemma ScheduledKeepsSlice(s: Sched, i: nat)
    ensures SliceOf(Scheduled(s).slots, i) == SliceOf(s.slots, i)
  {
    SwitchKeepsSlice(Demoted(s), i);
  }

  lemma ExitedKeepsSlice(s: Sched, i: nat)
    requires HasCurrent(s) && s.current != Some(i)
    ensures SliceOf(Exited(s).slots, i) == SliceOf(s.slots, i)
  {}

  lemma TickedChargesSlice(s: Sched, i: nat)
    requires Inv(s) && Live(s.slots, i)
    ensures var slice := s.slots[i].value.slice;
            SliceOf(Ticked(s).slots, i)
            == if s.current != Some(i) then slice else if slice == 0 then 2 else slice - 1
  {
    hide Scheduled, Inv;
    var q := Charged(Advanced(s)).0;
    ScheduledKeepsSlice(q, i);
  }

  /**
   No step but a tick changes the slice of a task that lives on, and a tick
   changes only that of the executing task: down by one, or from 0 back to 2.
   */
  lemma StepSlice(s: Sched, l: Label, s': Sched, i: nat)
    requires Inv(s) && Step(s, l, s') && Live(s.slots, i) && Live(s'.slots, i)
    ensures var slice := s.slots[i].value.slice;
            s'.slots[i].value.slice
            == if l != Tick || s.current != Some(i) then slice else if slice == 0 then 2 else slice - 1
  {
    StepTask(s, l, s', i);
    hide Scheduled, Exited, Ticked, SwitchToNext, Inv;
    match l
    case Start => SwitchKeepsSlice(s, i);
    case Yield => ScheduledKeepsSlice(s, i);
    case Exit => ExitedKeepsSlice(s, i);
    case Tick => TickedChargesSlice(s, i);
    case _ =>
  }

  // ---- runs ----

  /** The ticks among the first `k` steps that find slot `i` executing. */
  ghost function ChargedTicks(states: seq<Sched>, labels: seq<Label>, i: nat, k: nat): (n: nat)
    requires |states| == |labels| + 1 && k <= |labels|
  {
    if k == 0 then 0
    else ChargedTicks(states, labels, i, k - 1)
         + if labels[k - 1] == Tick && states[k - 1].current == Some(i) then 1 else 0
  }

  ghost predicate Holding(s: Sched, i: nat, id: nat) {
    Live(s.slots, i) && s.slots[i].value.id == id
  }

  lemma StepOf(states: seq<Sched>, labels: seq<Label>, k: nat)
    requires IsRun(states, labels) && k < |labels|
    ensures Step(states[k], labels[k], states[k + 1])
  {}

  /** A task that was spawned before the run has been in its slot all along. */
  lemma HeldBefore(states: seq<Sched>, labels: seq<Label>, i: nat, id: nat, k: nat)
    requires IsRun(states, labels) && Inv(states[0]) && 0 < k < |states|
    requires id < states[0].nextId && Holding(states[k], i, id)
    ensures Holding(states[k - 1], i, id)
  {
    hide Inv, Step;
    RunKeepsInv(states, labels, k - 1);
    IdsGrow(states, labels, k - 1);
    StepTask(states[k - 1], labels[k - 1], states[k], i);
  }

  /** A slice after `n` ticks charged to it. */
  function SliceAfter(slice: nat, n: nat): (r: nat) {
    if n == 0 then slice
    else
      var before := SliceAfter(slice, n - 1);
      if before == 0 then 2 else before - 1
  }

  lemma {:induction false} FullSliceAfter(n: nat)
    ensures SliceAfter(2, n) == 2 - n % 3
  {
    if n > 0 {
      FullSliceAfter(n - 1);
    }
  }

  lemma SliceAfterMore(slice: nat, n: nat)
    ensures SliceAfter(slice, 0) == slice
    ensures SliceAfter(slice, n + 1) == if SliceAfter(slice, n) == 0 then 2 else SliceAfter(slice, n) - 1
  {}

  lemma NothingCharged(states: seq<Sched>, labels: seq<Label>, i: nat)
    requires |states| == |labels| + 1
    ensures ChargedTicks(states, labels, i, 0) == 0
  {}

  lemma ChargedOneMore(states: seq<Sched>, labels: seq<Label>, i: nat, k: nat) returns (d: nat)
    requires |states| == |labels| + 1 && 0 < k <= |labels|
    ensures d == if labels[k - 1] == Tick && states[k - 1].current == Some(i) then 1 else 0
    ensures ChargedTicks(states, labels, i, k) == ChargedTicks(states, labels, i, k - 1) + d
  {
    d := if labels[k - 1] == Tick && states[k - 1].current == Some(i) then 1 else 0;
  }

  lemma RunLength(states: seq<Sched>, labels: seq<Label>)
    requires IsRun(states, labels)
    ensures |states| == |labels| + 1
  {}

  lemma HoldingIsLive(s: Sched, i: nat, id: nat)
    requires Holding(s, i, id)
    ensures Live(s.slots, i)
  {}

  /** The slice of a task is fixed by how many ticks have been charged to it. */
  lemma {:induction false} SliceCountsTicks(states: seq<Sched>, labels: seq<Label>, i: nat, id: nat, k: nat)
    requires IsRun(states, labels) && Inv(states[0]) && k < |states|
    requires id < states[0].nextId && Holding(states[k], i, id)
    ensures Holding(states[0], i, id)
    ensures states[k].slots[i].value.slice == SliceAfter(states[0].slots[i].value.slice, ChargedTicks(states, labels, i, k))
  {
    RunLength(states, labels);
    hide IsRun, Inv, Step, Holding, ChargedTicks, SliceAfter;
    HoldingIsLive(states[k], i, id);
    if k == 0 {
      NothingCharged(states, labels, i);
      SliceAfterMore(states[0].slots[i].value.slice, 0);
    } else {
      HeldBefore(states, labels, i, id, k);
      SliceCountsTicks(states, labels, i, id, k - 1);
      RunKeepsInv(states, labels, k - 1);
      StepOf(states, labels, k - 1);
      HoldingIsLive(states[k - 1], i, id);
      StepSlice(states[k - 1], labels[k - 1], states[k], i);
      var d := ChargedOneMore(states, labels, i, k);
      SliceAfterMore(states[0].slots[i].value.slice, ChargedTicks(states, labels, i, k - 1));
    }
  }

  /** While a task executes, the scan starts just behind it. */
  ghost predicate CursorFollows(s: Sched) {
    s.current.Some? ==> s.cursor == s.current.value + 1
  }

  lemma {:induction false} RunCursorFollows(states: seq<Sched>, labels: seq<Label>, k: nat)
    requires IsRun(states, labels) && states[0] == Boot && k < |states|
    ensures CursorFollows(states[k])
  {
    if k > 0 {
      RunCursorFollows(states, labels, k - 1);
      assert Step(states[k - 1], labels[k - 1], states[k]);
    }
  }

  /** Giving up the CPU gives it to another task exactly when another one is Ready. */
  lemma YieldsToOtherIff(s: Sched)
    requires Inv(s) && HasCurrent(s) && CursorFollows(s)
    ensures Scheduled(s).current != s.current <==> OtherReady(s, s.current.value)
  {
    var c, d := s.current.value, Demoted(s);
    assert forall j: nat :: j != c ==> (IsReady(s.slots, j) <==> IsReady(d.slots, j));
    assert forall j: nat :: j < |d.slots| && j != c ==> Distance(|d.slots|, d.cursor, j) < Distance(|d.slots|, d.cursor, c);
  }

  lemma TickPreemptsIff(s: Sched)
    requires Inv(s) && HasCurrent(s) && CursorFollows(s)
    ensures Ticked(s).current != s.current
            <==> s.slots[s.current.value].value.slice == 0 && OtherReady(Advanced(s), s.current.value)
  {
    var c, q := s.current.value, Charged(Advanced(s)).0;
    AdvancedKeepsInv(s);
    ChargedKeepsInv(Advanced(s));
    assert forall j: nat :: j != c ==> (IsReady(Advanced(s).slots, j) <==> IsReady(q.slots, j));
    if s.slots[c].value.slice == 0 {
      YieldsToOtherIff(q);
    }
  }

  /** The task in slot `i` is the one that step `n` of the run spawned. */
  ghost predicate SpawnedAt(states: seq<Sched>, labels: seq<Label>, i: nat, n: nat, k: nat)
    requires |states| == |labels| + 1
  {
    n < k < |states| && labels[n] == Spawn && Holding(states[k], i, states[n].nextId)
  }

  /**
   Round robin from boot: a tick takes the CPU away from the executing task
   exactly when it is the third, sixth, ... tick charged to that task since it
   was spawned and another task is Ready by then.
   */
  lemma PreemptedEveryThirdTick(states: seq<Sched>, labels: seq<Label>, i: nat, n: nat, k: nat)
    requires IsRun(states, labels) && states[0] == Boot && k < |labels|
    requires SpawnedAt(states, labels, i, n, k) && states[k].current == Some(i) && labels[k] == Tick
    ensures var charged := ChargedTicks(states[n + 1..], labels[n + 1..], i, k - n - 1) + 1;
            states[k + 1].current != Some(i) <==> charged % 3 == 0 && OtherReady(Advanced(states[k]), i)
  {
    hide IsRun, Inv, Step, Ticked, OtherReady, ChargedTicks, SliceAfter, Advanced, Holding;
    BootIsGood();
    RunLength(states, labels);
    var after, rest := states[n + 1..], labels[n + 1..];
    RunTail(states, labels, n + 1);
    RunKeepsInv(states, labels, k);
    RunKeepsInv(states, labels, n);
    RunKeepsInv(states, labels, n + 1);
    RunCursorFollows(states, labels, k);
    StepOf(states, labels, n);
    StepOf(states, labels, k);
    SpawnGrowsIds(states[n], states[n + 1]);
    assert after[k - n - 1] == states[k] && after[0] == states[n + 1];
    SliceCountsTicks(after, rest, i, states[n].nextId, k - n - 1);
    SpawnedFull(states[n], states[n + 1], i);
    FullSliceAfter(ChargedTicks(after, rest, i, k - n - 1));
    HoldingIsLive(states[k], i, states[n].nextId);
    TickPreemptsIff(states[k]);
    TickStep(states[k], states[k + 1]);
  }

  lemma BootIsGood()
    ensures Inv(Boot)
  {}

  lemma RunTail(states: seq<Sched>, labels: seq<Label>, n: nat)
    requires IsRun(states, labels) && n <= |labels|
    ensures IsRun(states[n..], labels[n..])
  {
    hide Step;
  }

  lemma SpawnGrowsIds(s: Sched, s': Sched)
    requires Step(s, Spawn, s')
    ensures s'.nextId == s.nextId + 1
  {}

  lemma SpawnedFull(s: Sched, s': Sched, i: nat)
    requires Inv(s) && Step(s, Spawn, s') && Holding(s', i, s.nextId)
    ensures s'.slots[i].value.slice == 2
  {
    StepTask(s, Spawn, s', i);
    assert forall j: nat :: Live(s.slots, j) ==> TaskOk(s.slots[j].value, s.nextId);
  }

  lemma TickStep(s: Sched, s': Sched)
    requires Step(s, Tick, s')
    ensures s' == Ticked(s)
  {}
}
