/**
 Sleeping and joining: who wakes a suspended task, when, and the window in
 `join` through which a wake-up is lost.
 */
module SchedulerBlocking {
  import opened Options
  import opened SchedulerSpec
  import opened SchedulerInvariant
  import opened SchedulerLiveness

  /** Task `t` in slot `i` is Blocked and has been switched away from. */
  ghost predicate Suspended(s: Sched, i: nat, t: Task) {
    && Inv(s) && Live(s.slots, i) && s.slots[i] == Some(t)
    && t.state == Blocked && s.current != Some(i)
  }

  /** The step that ends the wait of a task blocked for reason `why`. */
  predicate Wakes(s: Sched, l: Label, why: BlockReason) {
    match why
    case NotBlocked => false
    case Sleeping(w) => l == Tick && w <= s.now + 1
    case Joining(id) => l == Exit && HasCurrent(s) && s.slots[s.current.value].value.id == id
  }

  /** The state of a task that was waiting and has just been woken: Ready, or already dispatched. */
  ghost predicate WokenUp(s: Sched, i: nat, t: Task) {
    var r := t.(state := Ready, block := NotBlocked);
    Live(s.slots, i) && ((s.slots[i].value == r && s.current != Some(i)) || Dispatched(s, i, r))
  }

  // A switch leaves a task that is not Ready where it is.
  lemma SwitchLeavesBlocked(s: Sched, i: nat, t: Task)
    requires Inv(s) && Live(s.slots, i) && s.slots[i] == Some(t) && t.state == Blocked && s.current != Some(i)
    ensures var s' := SwitchToNext(s); Live(s'.slots, i) && s'.slots[i] == Some(t) && s'.current != Some(i)
  {}

  // A switch leaves a Ready task Ready or dispatches it.
  lemma SwitchLeavesReady(s: Sched, i: nat, t: Task)
    requires Inv(s) && Live(s.slots, i) && s.slots[i] == Some(t) && t.state == Ready && s.current != Some(i)
    ensures var s' := SwitchToNext(s);
            Live(s'.slots, i) && ((s'.slots[i] == Some(t) && s'.current != Some(i)) || Dispatched(s', i, t))
  {}

  lemma ExitAndSuspended(s: Sched, i: nat, t: Task)
    requires Suspended(s, i, t) && HasCurrent(s)
    ensures Wakes(s, Exit, t.block) ==> WokenUp(Exited(s), i, t)
    ensures !Wakes(s, Exit, t.block) ==> Suspended(Exited(s), i, t)
  {
    ExitedKeepsInv(s);
    var c := s.current.value;
    var s1 := s.(slots := s.slots[c := None], current := None);
    forall j: nat | Live(s1.slots, j)
      ensures Live(s.slots, j) && s1.slots[j] == s.slots[j] && j != c
    {}
    var test := WaitsFor(s.slots[c].value.id);
    WakeAllKeepsInv(s1, test);
    ExitedIsWakeThenSwitch(s);
    var s2 := s1.(slots := WakeAll(s1.slots, test));
    assert s2.slots[i] == Woken(s1.slots[i], test);
    if Wakes(s, Exit, t.block) {
      SwitchLeavesReady(s2, i, t.(state := Ready, block := NotBlocked));
    } else {
      SwitchLeavesBlocked(s2, i, t);
    }
  }

  lemma ScheduledAndOther(s: Sched, i: nat, t: Task)
    requires Inv(s) && Live(s.slots, i) && s.slots[i] == Some(t) && s.current != Some(i)
    requires t.state == Blocked || t.state == Ready
    ensures var s' := Scheduled(s);
            Live(s'.slots, i) && ((s'.slots[i] == Some(t) && s'.current != Some(i))
                                  || (t.state == Ready && Dispatched(s', i, t)))
  {}

  /** Before a tick decides on preemption it has only woken sleepers and charged the current task. */
  lemma ChargedAndOther(s: Sched, i: nat)
    requires Inv(s) && Live(s.slots, i) && s.current != Some(i)
    ensures var s2 := Charged(Advanced(s)).0;
            && Inv(s2) && s2.current == s.current && |s2.slots| == |s.slots|
            && s2.slots[i] == Woken(s.slots[i], Expired(s.now + 1))
  {
    ChargedKeepsInv(Advanced(s));
    hide Inv;
  }

  lemma TickAndSuspended(s: Sched, i: nat, t: Task)
    requires Suspended(s, i, t)
    ensures Wakes(s, Tick, t.block) ==> WokenUp(Ticked(s), i, t)
    ensures !Wakes(s, Tick, t.block) ==> Suspended(Ticked(s), i, t)
  {
    TickedKeepsInv(s);
    ChargedAndOther(s, i);
    var (s2, preempt) := Charged(Advanced(s));
    var t2 := s2.slots[i].value;
    assert TaskOk(t, s.nextId);
    assert t2 == if Wakes(s, Tick, t.block) then t.(state := Ready, block := NotBlocked) else t;
    if preempt {
      ScheduledAndOther(s2, i, t2);
    }
  }

  /**
   A suspended task stays exactly as it is, except in the one step that ends
   its wait: the exit of the task it joins, or the first tick at or after the
   moment it sleeps to. That step makes it Ready (or dispatches it at once).
   */
  lemma WokenExactlyBy(s: Sched, l: Label, s': Sched, i: nat, t: Task)
    requires Suspended(s, i, t) && Step(s, l, s')
    ensures Wakes(s, l, t.block) ==> WokenUp(s', i, t)
    ensures !Wakes(s, l, t.block) ==> Suspended(s', i, t)
  {
    StepKeepsInv(s, l, s');
    match l
    case Spawn =>
    case Start => SwitchLeavesBlocked(s, i, t);
    case Yield => ScheduledAndOther(s, i, t);
    case SleepUntil(w) =>
    case JoinOn(id) =>
    case Exit => ExitAndSuspended(s, i, t);
    case Tick => TickAndSuspended(s, i, t);
  }

  // ---- join ----

  /** Slot `i` holds the same task, waiting for `block`, in both slot vectors, or no task in either. */
  predicate SameTask(a: Slots, b: Slots, i: nat, block: BlockReason) {
    && (Live(a, i) <==> Live(b, i))
    && (Live(a, i) ==> a[i].value.id == b[i].value.id && b[i].value.block == block)
  }

  function BlockOf(slots: Slots, i: nat): (b: BlockReason) {
    if Live(slots, i) then slots[i].value.block else NotBlocked
  }

  lemma ScheduledKeepsTask(s: Sched, i: nat)
    requires Inv(s)
    ensures SameTask(s.slots, Scheduled(s).slots, i, BlockOf(s.slots, i))
  {}

  lemma ExitedKeepsTask(s: Sched, i: nat)
    requires Inv(s) && HasCurrent(s)
    ensures s.current == Some(i) ==> !Live(Exited(s).slots, i)
    ensures s.current != Some(i) ==>
              var b := BlockOf(s.slots, i);
              SameTask(s.slots, Exited(s).slots, i, if Wakes(s, Exit, b) then NotBlocked else b)
  {}

  lemma ChargedKeepsTask(s: Sched, i: nat)
    requires Inv(s)
    ensures var b := BlockOf(s.slots, i);
            SameTask(s.slots, Charged(Advanced(s)).0.slots, i, if Wakes(s, Tick, b) then NotBlocked else b)
  {}

  lemma TickedKeepsTask(s: Sched, i: nat)
    requires Inv(s)
    ensures var b := BlockOf(s.slots, i);
            SameTask(s.slots, Ticked(s).slots, i, if Wakes(s, Tick, b) then NotBlocked else b)
  {
    hide Inv, Scheduled, Charged, Advanced;
    AdvancedKeepsInv(s);
    ChargedKeepsInv(Advanced(s));
    ChargedKeepsTask(s, i);
    ScheduledKeepsTask(Charged(Advanced(s)).0, i);
  }

  /** What a step does to slot `i`: who is in it, and what that task waits for. */
  lemma StepTask(s: Sched, l: Label, s': Sched, i: nat)
    requires Inv(s) && Step(s, l, s')
    ensures var b := BlockOf(s.slots, i);
            if l == Exit && s.current == Some(i) then !Live(s'.slots, i)
            else if l == Spawn && i == FirstFree(s.slots) then
              Live(s'.slots, i) && s'.slots[i].value.id == s.nextId && s'.slots[i].value.block == NotBlocked
            else if l.SleepUntil? && s.current == Some(i) then SameTask(s.slots, s'.slots, i, Sleeping(l.wakeAt))
            else if l.JoinOn? && s.current == Some(i) then SameTask(s.slots, s'.slots, i, Joining(l.id))
            else SameTask(s.slots, s'.slots, i, if Wakes(s, l, b) then NotBlocked else b)
  {
    match l
    case Yield => ScheduledKeepsTask(s, i);
    case Exit => ExitedKeepsTask(s, i);
    case Tick => TickedKeepsTask(s, i);
    case _ =>
  }

  lemma StepIdsGrow(s: Sched, l: Label, s': Sched)
    requires Step(s, l, s')
    ensures s'.nextId == s.nextId + if l == Spawn then 1 else 0
  {}

  /** An id that has been handed out and is no longer held never comes back. */
  lemma {:induction false} DeadStaysDead(states: seq<Sched>, labels: seq<Label>, id: nat, k: nat)
    requires IsRun(states, labels) && Inv(states[0]) && k < |states|
    requires id < states[0].nextId && !Holds(states[0].slots, id)
    ensures id < states[k].nextId && !Holds(states[k].slots, id)
  {
    if k > 0 {
      DeadStaysDead(states, labels, id, k - 1);
      RunKeepsInv(states, labels, k - 1);
      StepIdsGrow(states[k - 1], labels[k - 1], states[k]);
      forall i: nat | Live(states[k].slots, i) ensures states[k].slots[i].value.id != id {
        StepTask(states[k - 1], labels[k - 1], states[k], i);
      }
    }
  }

  /** The exit that wakes a joiner removes the joined id for good. */
  lemma JoinReturnsAfterExit(states: seq<Sched>, labels: seq<Label>, i: nat, t: Task, k: nat)
    requires IsRun(states, labels) && |labels| > 0 && Suspended(states[0], i, t) && t.block.Joining?
    requires states[1].slots[i] != Some(t)
    requires 0 < k < |states|
    ensures labels[0] == Exit && !Holds(states[k].slots, t.block.id)
  {
    var s, s' := states[0], states[1];
    WokenExactlyBy(s, labels[0], s', i, t);
    StepKeepsInv(s, labels[0], s');
    forall j: nat | Live(s'.slots, j) ensures s'.slots[j].value.id != t.block.id {
      StepTask(s, labels[0], s', j);
    }
    DeadStaysDead(states[1..], labels[1..], t.block.id, k - 1);
  }

  /** Every task blocked in `join` waits for a task that is still there. */
  ghost predicate WaitersLive(s: Sched) {
    forall i: nat :: Live(s.slots, i) && s.slots[i].value.block.Joining? ==> Holds(s.slots, s.slots[i].value.block.id)
  }

  /** A step keeps every waiter's target live exactly when a join finds its target live. */
  lemma WaitersLiveStep(s: Sched, l: Label, s': Sched)
    requires Inv(s) && WaitersLive(s) && Step(s, l, s')
    ensures WaitersLive(s') <==> (l.JoinOn? ==> Holds(s.slots, l.id))
  {
    if l.JoinOn? {
      var c := s.current.value;
      assert s'.slots[c].value.block == Joining(l.id);
      if Holds(s'.slots, l.id) {
        var j: nat :| Live(s'.slots, j) && s'.slots[j].value.id == l.id;
        StepTask(s, l, s', j);
      }
    }
    if l.JoinOn? ==> Holds(s.slots, l.id) {
      forall i: nat | Live(s'.slots, i) && s'.slots[i].value.block.Joining?
        ensures Holds(s'.slots, s'.slots[i].value.block.id)
      {
        StepTask(s, l, s', i);
        var id := s'.slots[i].value.block.id;
        var j: nat :| Live(s.slots, j) && s.slots[j].value.id == id;
        StepTask(s, l, s', j);
      }
    }
  }

  /**
   Exactly when no wake-up is lost in a run from boot: when every join blocks in
   a state that still holds its target, as it does when the check and the block
   are one step.
   */
  lemma {:induction false} NoLostWakeupIff(states: seq<Sched>, labels: seq<Label>)
    requires IsRun(states, labels) && states[0] == Boot
    ensures (forall k :: 0 <= k < |states| ==> WaitersLive(states[k]))
            <==> (forall k :: 0 <= k < |labels| && labels[k].JoinOn? ==> Holds(states[k].slots, labels[k].id))
  {
    if labels != [] {
      var n := |labels| - 1;
      var before, done := states[..n + 1], labels[..n];
      NoLostWakeupIff(before, done);
      RunKeepsInv(states, labels, n);
      if WaitersLive(states[n]) {
        WaitersLiveStep(states[n], labels[n], states[n + 1]);
      }
    }
  }

  /** A task suspended on a dead id never runs again. */
  lemma {:induction false} StrandedForever(states: seq<Sched>, labels: seq<Label>, i: nat, t: Task, k: nat)
    requires IsRun(states, labels) && k < |states|
    requires Suspended(states[0], i, t) && t.block.Joining?
    requires t.block.id < states[0].nextId && !Holds(states[0].slots, t.block.id)
    ensures Suspended(states[k], i, t)
  {
    if k > 0 {
      StrandedForever(states, labels, i, t, k - 1);
      DeadStaysDead(states, labels, t.block.id, k - 1);
      WokenExactlyBy(states[k - 1], labels[k - 1], states[k], i, t);
    }
  }

  /** Three tasks, of which the second is what its slot says and the others never exit. */
  function Three(one: Task, two: Option<Task>, three: Task, current: nat, now: nat): (s: Sched) {
    Sched([Some(one), two, Some(three)], Some(current), 4, current + 1, now)
  }

  function Fresh(id: nat): (t: Task) { Task(id, Ready, NotBlocked, DEFAULT_SLICE) }
  function Active(id: nat, slice: nat): (t: Task) { Task(id, Running, NotBlocked, slice) }

  const LostLabels := [Spawn, Spawn, Spawn, Start, Tick, Tick, Tick, Exit, Yield, JoinOn(2), Yield]

  function LostState(k: nat): (s: Sched) {
    var stuck := Task(1, Blocked, Joining(2), DEFAULT_SLICE);
    match k
    case 0 => Boot
    case 1 => Sched([Some(Fresh(1))], None, 2, 0, 0)
    case 2 => Sched([Some(Fresh(1)), Some(Fresh(2))], None, 3, 0, 0)
    case 3 => Sched([Some(Fresh(1)), Some(Fresh(2)), Some(Fresh(3))], None, 4, 0, 0)
    case 4 => Three(Active(1, 2), Some(Fresh(2)), Fresh(3), 0, 0)
    case 5 => Three(Active(1, 1), Some(Fresh(2)), Fresh(3), 0, 1)
    case 6 => Three(Active(1, 0), Some(Fresh(2)), Fresh(3), 0, 2)
    case 7 => Three(Fresh(1), Some(Active(2, 2)), Fresh(3), 1, 3)
    case 8 => Three(Fresh(1), None, Active(3, 2), 2, 3)
    case 9 => Three(Active(1, 2), None, Fresh(3), 0, 3)
    case 10 => Three(stuck, None, Fresh(3), 0, 3)
    case _ => Three(stuck, None, Active(3, 2), 2, 3)
  }

  lemma NextReadyIs(slots: Slots, cursor: nat, idx: nat)
    requires cursor <= |slots| && IsReady(slots, idx)
    requires forall j: nat :: IsReady(slots, j) ==> Distance(|slots|, cursor, idx) <= Distance(|slots|, cursor, j)
    ensures NextReady(slots, cursor) == Some(idx)
  {}

  lemma LostStep(k: nat)
    requires k < |LostLabels|
    ensures Step(LostState(k), LostLabels[k], LostState(k + 1))
  {
    if 3 <= k < 7 {
      LostStepToPreemption(k);
    } else if 7 <= k {
      LostStepToEnd(k);
    }
  }

  lemma LostStepToPreemption(k: nat)
    requires 3 <= k < 7
    ensures Step(LostState(k), LostLabels[k], LostState(k + 1))
  {
    hide Ticked;
    match k
    case 3 =>
      NextReadyIs(LostState(3).slots, 0, 0);
      assert SwitchToNext(LostState(3)).slots == LostState(4).slots;
    case 6 => LostPreemption();
    case _ => LostTick(k);
  }

  lemma LostTick(k: nat)
    requires 4 <= k < 6
    ensures Ticked(LostState(k)) == LostState(k + 1)
  {}

  lemma LostPreemption()
    ensures Ticked(LostState(6)) == LostState(7)
  {}

  lemma LostStepToEnd(k: nat)
    requires 7 <= k < 11
    ensures Step(LostState(k), LostLabels[k], LostState(k + 1))
  {
    hide Exited, Scheduled;
    match k
    case 7 => LostExit();
    case 8 => LostYield();
    case 9 =>
    case 10 => LostLastYield();
  }

  lemma LostExit()
    ensures Exited(LostState(7)) == LostState(8)
  {
    assert WakeAll(LostState(7).slots[1 := None], WaitsFor(2)) == [Some(Fresh(1)), None, Some(Fresh(3))];
  }

  lemma LostYield()
    ensures Scheduled(LostState(8)) == LostState(9)
  {
    assert Demoted(LostState(8)).slots == [Some(Fresh(1)), None, Some(Fresh(3))];
    NextReadyIs(Demoted(LostState(8)).slots, 3, 0);
  }

  lemma LostLastYield()
    ensures Scheduled(LostState(10)) == LostState(11)
  {
    NextReadyIs(LostState(10).slots, 1, 2);
    assert Scheduled(LostState(10)).slots == LostState(11).slots;
  }

  /**
   The run that loses a wake-up: task 1 has seen task 2 alive (state 4) and is
   preempted before it blocks; task 2 exits; task 1 then blocks on it (step 9)
   and is switched away from for ever, although it joined a task that finished.
   */
  lemma LostWakeup() returns (states: seq<Sched>, labels: seq<Label>, t: Task)
    ensures IsRun(states, labels) && states[0] == Boot && |labels| == 11
    ensures Holds(states[4].slots, 2) && labels[9] == JoinOn(2)
    ensures states[4].current == Some(0) && states[9].current == Some(0)
    ensures Suspended(states[11], 0, t) && t.block == Joining(2)
    ensures !Holds(states[11].slots, 2) && 2 < states[11].nextId
  {
    labels := LostLabels;
    states := seq(12, (k: nat) => LostState(k));
    forall k | 0 <= k < |labels| ensures Step(states[k], labels[k], states[k + 1]) {
      LostStep(k);
    }
    RunKeepsInv(states, labels, 11);
    assert states[4].slots[1].value.id == 2;
    t := states[11].slots[0].value;
  }

  // ---- sleep ----

  /** After a tick no expired sleeper is left Blocked. */
  lemma NoOverdueSleeper(s: Sched, s': Sched, i: nat)
    requires Inv(s) && Step(s, Tick, s') && Live(s'.slots, i) && s'.slots[i].value.block.Sleeping?
    ensures s'.now < s'.slots[i].value.block.wakeAt
  {
    hide Step, Inv;
    StepTask(s, Tick, s', i);
    StepClock(s, Tick, s');
  }

  lemma {:induction false} TicksSplit(a: seq<Label>, b: seq<Label>)
    ensures Ticks(a + b) == Ticks(a) + Ticks(b)
  {
    if b == [] {
      assert a + b == a;
    } else {
      var n := |b| - 1;
      TicksSplit(a, b[..n]);
      assert (a + b)[..|a + b| - 1] == a + b[..n];
    }
  }

  lemma StepClock(s: Sched, l: Label, s': Sched)
    requires Step(s, l, s')
    ensures s'.now == s.now + if l == Tick then 1 else 0
  {}

  /** The run wakes the sleeper `t` at state `m` and not before, by the first tick its time allows. */
  ghost predicate WakesAt(states: seq<Sched>, labels: seq<Label>, i: nat, t: Task, m: nat)
    requires |states| == |labels| + 1 && t.block.Sleeping?
  {
    && 0 < m < |states| && WokenUp(states[m], i, t) && Inv(states[m])
    && t.block.wakeAt <= states[m].now
    && (Ticks(labels[..m]) == 1 || Ticks(labels[..m]) <= t.block.wakeAt - states[0].now)
    && (forall j :: 0 <= j < m ==> Suspended(states[j], i, t))
  }

  /** Until its time comes a sleeper stays suspended; the first tick at or after it wakes it. */
  lemma {:induction false} SleepsUntilDue(states: seq<Sched>, labels: seq<Label>, i: nat, t: Task, k: nat)
    requires IsRun(states, labels) && Suspended(states[0], i, t) && t.block.Sleeping? && k < |states|
    ensures states[k].now == states[0].now + Ticks(labels[..k])
    ensures || (exists m: nat :: m <= k && WakesAt(states, labels, i, t, m))
            || ((Ticks(labels[..k]) > 0 ==> states[k].now < t.block.wakeAt)
                && forall j :: 0 <= j <= k ==> Suspended(states[j], i, t))
  {
    hide Step, Suspended, WokenUp, Inv;
    if k > 0 {
      var s, l, s' := states[k - 1], labels[k - 1], states[k];
      SleepsUntilDue(states, labels, i, t, k - 1);
      assert labels[..k][..k - 1] == labels[..k - 1];
      StepClock(s, l, s');
      if !exists m: nat :: m <= k - 1 && WakesAt(states, labels, i, t, m) {
        SuspendedIsGood(s, i, t);
        StepKeepsInv(s, l, s');
        WokenExactlyBy(s, l, s', i, t);
        if Wakes(s, l, t.block) {
          assert WakesAt(states, labels, i, t, k);
        }
      }
    }
  }

  lemma SuspendedIsGood(s: Sched, i: nat, t: Task)
    requires Suspended(s, i, t)
    ensures Inv(s) && s.current != Some(i)
  {}

  lemma WokenIsWaiting(s: Sched, i: nat, t: Task)
    requires Inv(s) && s.current.Some? && WokenUp(s, i, t)
    ensures var r := t.(state := Ready, block := NotBlocked); Waiting(s, i, r) || Dispatched(s, i, r)
  {}

  lemma DispatchedAfterWaking(states: seq<Sched>, labels: seq<Label>, i: nat, t: Task, m: nat)
    requires IsRun(states, labels) && t.block.Sleeping? && WakesAt(states, labels, i, t, m) && states[m].current.Some?
    requires Ticks(labels[m..]) >= |states[|labels|].slots| * (DEFAULT_SLICE + 1)
    ensures EverDispatched(states, i, t.(state := Ready, block := NotBlocked))
  {
    hide Step, Suspended, WokenUp, Inv, Waiting, Dispatched, Ticks;
    var r := t.(state := Ready, block := NotBlocked);
    WokenIsWaiting(states[m], i, t);
    if Waiting(states[m], i, r) {
      var after := states[m..];
      BoundedWaiting(after, labels[m..], i, r);
      var k :| 0 < k < |after| && Dispatched(after[k], i, r);
      assert Dispatched(states[m + k], i, r);
    }
  }

  /**
   A suspended sleeper runs again at no tick before its wake-up time, and within
   `|slots| * (DEFAULT_SLICE + 1)` ticks of it, if the CPU is not idle when it wakes.
   */
  lemma SleeperIsDispatched(states: seq<Sched>, labels: seq<Label>, i: nat, t: Task)
    requires IsRun(states, labels) && Suspended(states[0], i, t) && t.block.Sleeping?
    requires forall m: nat :: WakesAt(states, labels, i, t, m) ==> states[m].current.Some?
    requires var wait := t.block.wakeAt - states[0].now;
             Ticks(labels) >= (if wait > 1 then wait else 1) + |states[|labels|].slots| * (DEFAULT_SLICE + 1)
    ensures EverDispatched(states, i, t.(state := Ready, block := NotBlocked))
    ensures forall k :: 0 <= k < |states| && states[k].now < t.block.wakeAt ==> states[k].current != Some(i)
  {
    hide Step, Suspended, WokenUp, Inv, EverDispatched, Ticks;
    assert labels[..|labels|] == labels;
    SleepsUntilDue(states, labels, i, t, |labels|);
    var m: nat :| m <= |labels| && WakesAt(states, labels, i, t, m);
    assert labels == labels[..m] + labels[m..];
    TicksSplit(labels[..m], labels[m..]);
    DispatchedAfterWaking(states, labels, i, t, m);
    forall k | 0 <= k < |states| && states[k].now < t.block.wakeAt ensures states[k].current != Some(i) {
      if k < m { SuspendedIsGood(states[k], i, t); } else { ClockIsMonotone(states, labels, m, k); }
    }
  }

  lemma {:induction false} ClockIsMonotone(states: seq<Sched>, labels: seq<Label>, m: nat, k: nat)
    requires IsRun(states, labels) && m <= k < |states|
    ensures states[m].now <= states[k].now
  {
    if m < k {
      StepClock(states[k - 1], labels[k - 1], states[k]);
      ClockIsMonotone(states, labels, m, k - 1);
    }
  }
}
