/**
 Bounded waiting: a Ready task is dispatched within `|slots| * (DEFAULT_SLICE + 1)`
 ticks, whatever the other tasks do, unless the CPU has fallen idle. From the
 idle context no tick dispatches anyone.
 */
module SchedulerLiveness {
  import opened Options
  import opened SchedulerSpec
  import opened SchedulerInvariant

  /** Task `t` sits Ready in slot `j` while another task executes. */
  ghost predicate Waiting(s: Sched, j: nat, t: Task) {
    && Inv(s) && HasCurrent(s) && s.current.value != j
    && Live(s.slots, j) && s.slots[j] == Some(t) && t.state == Ready
  }

  /** An upper bound on the ticks `j` still has to wait. */
  ghost function TicksLeft(s: Sched, j: nat): (m: nat)
    requires Inv(s) && HasCurrent(s) && j < |s.slots|
    ensures 1 <= m <= |s.slots| * (DEFAULT_SLICE + 1)
  {
    assert TaskOk(s.slots[s.current.value].value, s.nextId);
    Distance(|s.slots|, s.cursor, j) * (DEFAULT_SLICE + 1) + s.slots[s.current.value].value.slice + 1
  }

  ghost predicate Dispatched(s: Sched, j: nat, t: Task) {
    s.current == Some(j) && Live(s.slots, j) && s.slots[j].value == t.(state := Running)
  }

  /** What a step does for the waiting task: dispatch it, or use up at least `d` ticks of the bound. */
  ghost predicate Progress(s: Sched, s': Sched, j: nat, t: Task, d: nat)
    requires Waiting(s, j, t)
  {
    || Dispatched(s', j, t)
    || (Waiting(s', j, t) && |s'.slots| == |s.slots| && TicksLeft(s', j) + d <= TicksLeft(s, j))
  }

  /** A switch made while `j` is Ready dispatches `j` or moves the cursor towards it. */
  lemma SwitchProgress(s: Sched, j: nat, t: Task)
    requires Inv(s) && Live(s.slots, j) && s.slots[j] == Some(t) && t.state == Ready
    requires forall i: nat :: !IsRunning(s.slots, i)
    ensures var s' := SwitchToNext(s);
            || Dispatched(s', j, t)
            || (Waiting(s', j, t) && |s'.slots| == |s.slots|
                && TicksLeft(s', j) <= Distance(|s.slots|, s.cursor, j) * (DEFAULT_SLICE + 1))
  {
    SwitchKeepsInv(s);
    assert IsReady(s.slots, j);
  }

  /** A switch leaves at most the cursor's distance, whatever slice the old task had left. */
  lemma ScheduledReachesWithin(s: Sched, j: nat, t: Task)
    requires Waiting(s, j, t)
    ensures var s' := Scheduled(s);
            || Dispatched(s', j, t)
            || (Waiting(s', j, t) && |s'.slots| == |s.slots|
                && TicksLeft(s', j) <= Distance(|s.slots|, s.cursor, j) * (DEFAULT_SLICE + 1))
  {
    SwitchProgress(Demoted(s), j, t);
  }

  lemma ScheduledProgress(s: Sched, j: nat, t: Task)
    requires Waiting(s, j, t)
    ensures Progress(s, Scheduled(s), j, t, 1)
  {
    ScheduledReachesWithin(s, j, t);
  }

  lemma ExitedProgress(s: Sched, j: nat, t: Task)
    requires Waiting(s, j, t)
    ensures Progress(s, Exited(s), j, t, 1)
  {
    var c := s.current.value;
    var s1 := s.(slots := s.slots[c := None], current := None);
    forall i: nat | Live(s1.slots, i)
      ensures Live(s.slots, i) && s1.slots[i] == s.slots[i] && i != c
    {}
    var test := WaitsFor(s.slots[c].value.id);
    WakeAllKeepsInv(s1, test);
    ExitedIsWakeThenSwitch(s);
    var s2 := s1.(slots := WakeAll(s1.slots, test));
    SwitchProgress(s2, j, t);
  }

  lemma TickedProgress(s: Sched, j: nat, t: Task)
    requires Waiting(s, j, t)
    ensures Progress(s, Ticked(s), j, t, 1)
  {
    var s1 := Advanced(s);
    assert s1.slots[j] == Woken(s.slots[j], Expired(s.now + 1));
    ChargedKeepsInv(s1);
    var (s2, preempt) := Charged(s1);
    if preempt {
      ScheduledReachesWithin(s2, j, t);
    }
  }

  /** A spawn that grows the slot vector may put one more slot before `j`. */
  lemma AddedProgress(s: Sched, j: nat, t: Task)
    requires Waiting(s, j, t) && s.nextId + 1 < ID_LIMIT
    ensures var s' := Added(s);
            Waiting(s', j, t) && TicksLeft(s', j) <= TicksLeft(s, j) + (|s'.slots| - |s.slots|) * (DEFAULT_SLICE + 1)
  {}

  /** Every tick uses up a tick of the bound, which grows only with the slot vector. */
  lemma StepProgress(s: Sched, l: Label, s': Sched, j: nat, t: Task)
    requires Waiting(s, j, t) && Step(s, l, s')
    ensures || Dispatched(s', j, t)
            || (Waiting(s', j, t)
                && TicksLeft(s', j) + (if l == Tick then 1 else 0)
                   <= TicksLeft(s, j) + (|s'.slots| - |s.slots|) * (DEFAULT_SLICE + 1))
  {
    match l
    case Spawn => AddedProgress(s, j, t);
    case Start =>
    case Yield => ScheduledProgress(s, j, t);
    case SleepUntil(w) => StepKeepsInv(s, l, s');
    case JoinOn(id) => StepKeepsInv(s, l, s');
    case Exit => ExitedProgress(s, j, t);
    case Tick => TickedProgress(s, j, t);
  }

  /** `n` ticks in a row. */
  function TickTimes(s: Sched, n: nat): (r: Sched) {
    if n == 0 then s else Ticked(TickTimes(s, n - 1))
  }

  /**
   A task keeps the CPU for exactly the ticks its slice has left; the tick after
   those refills the slice and gives the CPU up. From a full slice that is the
   tick number `DEFAULT_SLICE + 1`.
   */
  lemma {:induction false} SliceLasts(s: Sched, n: nat)
    requires Inv(s) && HasCurrent(s) && n <= s.slots[s.current.value].value.slice
    ensures var c := s.current.value;
            var r := TickTimes(s, n);
            && Inv(r) && HasCurrent(r) && r.current == s.current
            && r.slots[c].value.slice == s.slots[c].value.slice - n
            && (n == s.slots[c].value.slice ==>
                  exists q :: Ticked(r) == Scheduled(q) && HasCurrent(q) && q.current == s.current
                              && q.slots[c].value.slice == DEFAULT_SLICE)
  {
    hide Inv, Ticked, Charged, Advanced, Scheduled;
    if n > 0 {
      SliceLasts(s, n - 1);
      ChargeOf(TickTimes(s, n - 1));
      TickedKeepsInv(TickTimes(s, n - 1));
    }
    ChargeOf(TickTimes(s, n));
    var q := Charged(Advanced(TickTimes(s, n))).0;
  }

  /** What a tick charges the current task. */
  lemma ChargeOf(s: Sched)
    requires Inv(s) && HasCurrent(s)
    ensures var c := s.current.value;
            var slice := s.slots[c].value.slice;
            var (q, preempt) := Charged(Advanced(s));
            && HasCurrent(q) && q.current == s.current && (preempt <==> slice == 0)
            && q.slots[c].value.slice == (if slice == 0 then DEFAULT_SLICE else slice - 1)
            && Ticked(s) == (if preempt then Scheduled(q) else q)
  {}

  /** How many of the steps are ticks. */
  function Ticks(labels: seq<Label>): (n: nat) {
    if labels == [] then 0 else Ticks(labels[..|labels| - 1]) + if labels[|labels| - 1] == Tick then 1 else 0
  }

  predicate OnlyTicks(labels: seq<Label>) {
    forall k :: 0 <= k < |labels| ==> labels[k] == Tick
  }

  /** Some state of the run has `t`, from slot `j`, executing. */
  ghost predicate EverDispatched(states: seq<Sched>, j: nat, t: Task) {
    exists k :: 0 < k < |states| && Dispatched(states[k], j, t)
  }

  lemma {:induction false} WaitingUsesUpTicks(states: seq<Sched>, labels: seq<Label>, j: nat, t: Task)
    requires IsRun(states, labels) && Waiting(states[0], j, t)
    ensures var last := states[|labels|];
            || EverDispatched(states, j, t)
            || (Waiting(last, j, t)
                && TicksLeft(last, j) + Ticks(labels)
                   <= TicksLeft(states[0], j) + (|last.slots| - |states[0].slots|) * (DEFAULT_SLICE + 1))
  {
    hide Step, Dispatched, TicksLeft, Inv;
    if labels != [] {
      var n := |labels| - 1;
      var before, done := states[..n + 1], labels[..n];
      WaitingUsesUpTicks(before, done, j, t);
      if EverDispatched(before, j, t) {
        var k :| 0 < k < |before| && Dispatched(before[k], j, t);
      } else {
        StepProgress(states[n], labels[n], states[n + 1], j, t);
      }
    }
  }

  /**
   Bounded waiting. In a run from any good state in which some task executes, a
   task Ready in another slot has been dispatched once
   `|slots| * (DEFAULT_SLICE + 1)` ticks have passed, counting the slots there
   are by then.
   */
  lemma BoundedWaiting(states: seq<Sched>, labels: seq<Label>, j: nat, t: Task)
    requires IsRun(states, labels) && Waiting(states[0], j, t)
    requires Ticks(labels) >= |states[|labels|].slots| * (DEFAULT_SLICE + 1)
    ensures EverDispatched(states, j, t)
  {
    WaitingUsesUpTicks(states, labels, j, t);
  }

  /** In the idle context a tick never gives the CPU to anyone. */
  lemma {:induction false} IdleForever(states: seq<Sched>, labels: seq<Label>, k: nat)
    requires IsRun(states, labels) && Inv(states[0]) && states[0].current.None?
    requires OnlyTicks(labels)
    requires k < |states|
    ensures states[k].current.None?
  {
    if k > 0 {
      IdleForever(states, labels, k - 1);
    }
  }

  lemma {:induction false} TicksOfTicks(labels: seq<Label>)
    requires OnlyTicks(labels)
    ensures Ticks(labels) == |labels|
  {
    if labels != [] {
      TicksOfTicks(labels[..|labels| - 1]);
    }
  }

  lemma {:induction false} TicksKeepSlotCount(states: seq<Sched>, labels: seq<Label>, k: nat)
    requires IsRun(states, labels) && k < |states|
    requires OnlyTicks(labels)
    ensures |states[k].slots| == |states[0].slots|
  {
    if k > 0 {
      TicksKeepSlotCount(states, labels, k - 1);
    }
  }

  /**
   Exactly when the timer alone brings a Ready task to the CPU: when some other
   task is executing. An exit with nobody Ready leaves the idle context, and
   from there it never does.
   */
  lemma TimerDispatchesIffNotIdle(states: seq<Sched>, labels: seq<Label>, j: nat)
    requires IsRun(states, labels) && Inv(states[0])
    requires IsReady(states[0].slots, j) && states[0].current != Some(j)
    requires OnlyTicks(labels)
    requires |labels| >= |states[0].slots| * (DEFAULT_SLICE + 1)
    ensures EverDispatched(states, j, states[0].slots[j].value) <==> states[0].current.Some?
  {
    var t := states[0].slots[j].value;
    if states[0].current.Some? {
      TicksOfTicks(labels);
      TicksKeepSlotCount(states, labels, |labels|);
      BoundedWaiting(states, labels, j, t);
    } else {
      forall k | 0 < k < |states| ensures !Dispatched(states[k], j, t) {
        IdleForever(states, labels, k);
      }
    }
  }
}
