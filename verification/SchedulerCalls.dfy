/**
 When `sleep` and `join` keep their promise. `schedule` returns at once if nobody
 is Ready, so a task that blocks may go on executing. Here is exactly when the
 calls suspend their caller, exactly when they return too early, and runs from
 boot in which they do and in which the CPU hangs idle.
 */
module SchedulerCalls {
  import opened Options
  import opened SchedulerSpec
  import opened SchedulerInvariant
  import opened SchedulerLiveness
  import opened SchedulerBlocking

  /** A slot other than `c` is Ready. */
  ghost predicate OtherReady(s: Sched, c: nat) {
    exists j: nat :: j != c && IsReady(s.slots, j)
  }

  // ---- one call ----

  /** A Blocked task that yields is suspended exactly when another task is Ready; otherwise nothing happens. */
  lemma YieldWhileBlocked(s: Sched, t: Task)
    requires Inv(s) && HasCurrent(s) && s.slots[s.current.value] == Some(t) && t.state == Blocked
    ensures var c, s' := s.current.value, Scheduled(s);
            if OtherReady(s, c) then Suspended(s', c, t) else s' == s
  {
    ScheduledKeepsInv(s);
  }

  lemma CurrentIsLive(s: Sched)
    requires Inv(s) && s.current.Some?
    ensures HasCurrent(s)
  {}

  /**
   Blocking without a tick in between suspends the caller exactly when another
   task is Ready before the call.
   */
  lemma BlockSuspendsIff(s: Sched, why: BlockReason)
    requires Inv(s) && HasCurrent(s) && why != NotBlocked
    ensures var c, s' := s.current.value, Scheduled(BlockCurrent(s, why));
            && (s'.current != s.current <==> OtherReady(s, c))
            && (OtherReady(s, c) ==> Suspended(s', c, s.slots[c].value.(state := Blocked, block := why)))
  {
    var c, b := s.current.value, BlockCurrent(s, why);
    UpdateKeepsInv(s, c, s.slots[c].value.(state := Blocked, block := why));
    YieldWhileBlocked(b, b.slots[c].value);
    assert forall j: nat :: j != c ==> (IsReady(s.slots, j) <==> IsReady(b.slots, j));
  }

  // ---- whole calls, whatever happens around them ----

  /**
   The task in slot `c` blocks in step 0, its next own step is the yield `k`, and
   `m` is the first state after that in which it executes: there its call returns.
   */
  ghost predicate Returns(states: seq<Sched>, labels: seq<Label>, c: nat, k: nat, m: nat)
    requires |states| == |labels| + 1
  {
    && 0 < k < m < |states|
    && states[0].current == Some(c) && states[k].current == Some(c) && states[m].current == Some(c)
    && (forall j :: 0 < j < k && states[j].current == Some(c) ==> labels[j] == Tick)
    && labels[k] == Yield
    && (forall j :: k < j < m ==> states[j].current != Some(c))
  }

  /** The task in slot `c` still waits for `why`. */
  predicate Waits(s: Sched, c: nat, why: BlockReason) {
    Live(s.slots, c) && s.slots[c].value.block == why
  }

  /** A step that is not the caller's own leaves it waiting, unless it is the one that wakes it. */
  lemma WaitsOn(s: Sched, l: Label, s': Sched, c: nat, why: BlockReason)
    requires Inv(s) && Step(s, l, s') && Waits(s, c, why) && why != NotBlocked
    requires s.current == Some(c) ==> l == Tick || l == Yield
    ensures Waits(s', c, why) <==> !Wakes(s, l, why)
  {
    hide Inv, Step;
    StepTask(s, l, s', c);
  }

  /** Who becomes current is Running, so waits for nothing. */
  lemma DispatchedIsRunning(s: Sched, l: Label, s': Sched, c: nat)
    requires Inv(s) && Step(s, l, s') && s.current != Some(c) && s'.current == Some(c)
    ensures IsRunning(s'.slots, c)
  {}

  lemma DispatchedWaitsForNothing(s: Sched, l: Label, s': Sched, c: nat, why: BlockReason)
    requires Inv(s) && Step(s, l, s') && s.current != Some(c) && s'.current == Some(c) && why != NotBlocked
    ensures !Waits(s', c, why)
  {
    StepKeepsInv(s, l, s');
    DispatchedIsRunning(s, l, s', c);
    assert TaskOk(s'.slots[c].value, s'.nextId);
  }

  /** A call whose caller still waits at its yield returns at once if nobody else is Ready there, and if not, not before it is woken. */
  lemma ReturnsWaitingIff(states: seq<Sched>, labels: seq<Label>, c: nat, k: nat, m: nat, why: BlockReason)
    requires IsRun(states, labels) && Inv(states[0]) && Returns(states, labels, c, k, m)
    requires why != NotBlocked && Waits(states[k], c, why)
    ensures OtherReady(states[k], c) ==> !Waits(states[m], c, why)
    ensures !OtherReady(states[k], c) ==> states[m] == states[k]
  {
    RunKeepsInv(states, labels, k);
    RunKeepsInv(states, labels, m - 1);
    assert Step(states[k], labels[k], states[k + 1]) && Step(states[m - 1], labels[m - 1], states[m]);
    assert TaskOk(states[k].slots[c].value, states[k].nextId);
    YieldWhileBlocked(states[k], states[k].slots[c].value);
    if OtherReady(states[k], c) {
      hide Inv, Step;
      DispatchedWaitsForNothing(states[m - 1], labels[m - 1], states[m], c, why);
    }
  }

  lemma CallerWaits(s: Sched, l: Label, s': Sched, c: nat)
    requires Inv(s) && Step(s, l, s') && s.current == Some(c)
    ensures l.SleepUntil? ==> Waits(s', c, Sleeping(l.wakeAt))
    ensures l.JoinOn? ==> Waits(s', c, Joining(l.id))
  {}

  /** Before its time a caller of `sleep` waits, at every state up to its return. */
  lemma {:induction false} SleeperWaits(states: seq<Sched>, labels: seq<Label>, c: nat, k: nat, m: nat, w: nat, j: nat)
    requires IsRun(states, labels) && Inv(states[0]) && Returns(states, labels, c, k, m)
    requires labels[0] == SleepUntil(w) && 0 < j <= m && states[j].now < w
    ensures Waits(states[j], c, Sleeping(w))
  {
    hide Inv, Step, Waits;
    var s, l, s' := states[j - 1], labels[j - 1], states[j];
    RunKeepsInv(states, labels, j - 1);
    StepClock(s, l, s');
    if j == 1 {
      CallerWaits(s, l, s', c);
    } else {
      SleeperWaits(states, labels, c, k, m, w, j - 1);
      WaitsOn(s, l, s', c, Sleeping(w));
    }
  }

  /**
   Exactly when `sleep` returns before its time, in any run: when at its yield
   the time has not come and no other task is Ready.
   */
  lemma SleepReturnsEarlyIff(states: seq<Sched>, labels: seq<Label>, c: nat, k: nat, m: nat, w: nat)
    requires IsRun(states, labels) && Inv(states[0]) && Returns(states, labels, c, k, m)
    requires labels[0] == SleepUntil(w)
    ensures states[m].now < w <==> states[k].now < w && !OtherReady(states[k], c)
  {
    hide Inv, Step, OtherReady, Waits;
    ClockIsMonotone(states, labels, k, m);
    if states[k].now < w {
      SleeperWaits(states, labels, c, k, m, w, k);
      ReturnsWaitingIff(states, labels, c, k, m, Sleeping(w));
      if states[m].now < w {
        SleeperWaits(states, labels, c, k, m, w, m);
      }
    }
  }

  lemma DeadStays(states: seq<Sched>, labels: seq<Label>, id: nat, k: nat, m: nat)
    requires IsRun(states, labels) && Inv(states[0]) && k <= m < |states| && id < states[0].nextId
    requires Holds(states[m].slots, id)
    ensures Holds(states[k].slots, id)
  {
    hide Inv, Step, Holds;
    RunKeepsInv(states, labels, k);
    IdsGrow(states, labels, k);
    if !Holds(states[k].slots, id) {
      DeadStaysDead(states[k..], labels[k..], id, m - k);
    }
  }

  lemma {:induction false} IdsGrow(states: seq<Sched>, labels: seq<Label>, k: nat)
    requires IsRun(states, labels) && k < |states|
    ensures states[0].nextId <= states[k].nextId
  {
    if k > 0 {
      IdsGrow(states, labels, k - 1);
      StepIdsGrow(states[k - 1], labels[k - 1], states[k]);
    }
  }

  /** The exit that wakes the joiners of `id` leaves no slot that holds `id`. */
  lemma WakingExitRemoves(s: Sched, l: Label, s': Sched, id: nat)
    requires Inv(s) && Step(s, l, s') && Wakes(s, l, Joining(id))
    ensures !Holds(s'.slots, id)
  {
    forall j: nat | Live(s'.slots, j) ensures s'.slots[j].value.id != id {
      StepTask(s, l, s', j);
    }
  }

  /** While its target is alive a caller of `join` waits, at every state up to its return. */
  lemma {:induction false} JoinerWaits(states: seq<Sched>, labels: seq<Label>, c: nat, k: nat, m: nat, id: nat, j: nat)
    requires IsRun(states, labels) && Inv(states[0]) && Returns(states, labels, c, k, m)
    requires labels[0] == JoinOn(id) && id < states[0].nextId && 0 < j <= m && Holds(states[j].slots, id)
    ensures Waits(states[j], c, Joining(id))
  {
    hide Inv, Step, Holds, Waits;
    var s, l, s' := states[j - 1], labels[j - 1], states[j];
    RunKeepsInv(states, labels, j - 1);
    if j == 1 {
      CallerWaits(s, l, s', c);
    } else {
      DeadStays(states, labels, id, j - 1, j);
      JoinerWaits(states, labels, c, k, m, id, j - 1);
      WaitsOn(s, l, s', c, Joining(id));
      if Wakes(s, l, Joining(id)) { WakingExitRemoves(s, l, s', id); }
    }
  }

  /**
   Exactly when `join` returns before its target has finished, in any run: when
   at its yield the target is alive and no other task is Ready. `join` blocks
   only on an id it has found in a slot, so on one that has been handed out.
   */
  lemma JoinReturnsEarlyIff(states: seq<Sched>, labels: seq<Label>, c: nat, k: nat, m: nat, id: nat)
    requires IsRun(states, labels) && Inv(states[0]) && Returns(states, labels, c, k, m)
    requires labels[0] == JoinOn(id) && id < states[0].nextId
    ensures Holds(states[m].slots, id) <==> Holds(states[k].slots, id) && !OtherReady(states[k], c)
  {
    hide Inv, Step, OtherReady, Waits, Holds;
    if Holds(states[m].slots, id) {
      DeadStays(states, labels, id, k, m);
      JoinerWaits(states, labels, c, k, m, id, m);
    }
    if Holds(states[k].slots, id) {
      JoinerWaits(states, labels, c, k, m, id, k);
      ReturnsWaitingIff(states, labels, c, k, m, Joining(id));
    }
  }

  // ---- runs from boot in which the promises fail ----

  function Asleep(id: nat, w: nat): (t: Task) { Task(id, Blocked, Sleeping(w), DEFAULT_SLICE) }

  /** One task, which sleeps while nobody else is there: the call returns at once, whatever its time. */
  lemma SleepReturnsAtOnce(w: nat) returns (states: seq<Sched>, labels: seq<Label>)
    ensures IsRun(states, labels) && states[0] == Boot && labels == [Spawn, Start, SleepUntil(w), Yield]
    ensures states[4].current == Some(0) && states[4].slots == [Some(Asleep(1, w))] && states[4].now == 0
  {
    labels := [Spawn, Start, SleepUntil(w), Yield];
    var s1, s2 := Sched([Some(Fresh(1))], None, 2, 0, 0), Sched([Some(Active(1, 2))], Some(0), 2, 1, 0);
    var s3 := Sched([Some(Asleep(1, w))], Some(0), 2, 1, 0);
    states := [Boot, s1, s2, s3, s3];
    NextReadyIs(s1.slots, 0, 0);
    assert SwitchToNext(s1) == s2;
    assert Scheduled(s3) == s3;
  }

  /** Two tasks: the first is asleep until `w` and the second executes. */
  lemma FirstSleeps(w: nat) returns (states: seq<Sched>, labels: seq<Label>)
    ensures IsRun(states, labels) && states[0] == Boot && labels == [Spawn, Spawn, Start, SleepUntil(w), Yield]
    ensures states[5] == Sched([Some(Asleep(1, w)), Some(Active(2, 2))], Some(1), 3, 2, 0)
  {
    labels := [Spawn, Spawn, Start, SleepUntil(w), Yield];
    var s1 := Sched([Some(Fresh(1))], None, 2, 0, 0);
    var s2 := Sched([Some(Fresh(1)), Some(Fresh(2))], None, 3, 0, 0);
    var s3 := Sched([Some(Active(1, 2)), Some(Fresh(2))], Some(0), 3, 1, 0);
    var s4 := Sched([Some(Asleep(1, w)), Some(Fresh(2))], Some(0), 3, 1, 0);
    var s5 := Sched([Some(Asleep(1, w)), Some(Active(2, 2))], Some(1), 3, 2, 0);
    states := [Boot, s1, s2, s3, s4, s5];
    assert Added(s1) == s2;
    NextReadyIs(s2.slots, 0, 0);
    assert SwitchToNext(s2) == s3;
    assert BlockCurrent(s3, Sleeping(w)) == s4;
    NextReadyIs(s4.slots, 1, 1);
    assert Scheduled(s4) == s5;
  }

  /** The second then joins the first, which is alive: that call returns at once, too. */
  lemma JoinReturnsAtOnce(w: nat) returns (states: seq<Sched>, labels: seq<Label>)
    ensures IsRun(states, labels) && states[0] == Boot
    ensures labels == [Spawn, Spawn, Start, SleepUntil(w), Yield, JoinOn(1), Yield]
    ensures states[7].current == Some(1) && Waits(states[7], 1, Joining(1)) && Holds(states[7].slots, 1)
  {
    states, labels := FirstSleeps(w);
    var s := states[5];
    var b := BlockCurrent(s, Joining(1));
    assert b.slots == [Some(Asleep(1, w)), Some(Task(2, Blocked, Joining(1), 2))];
    assert Scheduled(b) == b;
    states, labels := states + [b, b], labels + [JoinOn(1), Yield];
    assert b.slots[0].value.id == 1;
  }

  /** The state of the idle hang after `n` ticks. */
  function Idle(w: nat, n: nat): (s: Sched) {
    Sched([Some(if n > 0 && w <= n then Fresh(1) else Asleep(1, w)), None], None, 3, 2, n)
  }

  lemma IdleTick(w: nat, n: nat)
    ensures Ticked(Idle(w, n)) == Idle(w, n + 1)
  {
    assert WakeAll(Idle(w, n).slots, Expired(n + 1)) == Idle(w, n + 1).slots;
  }

  lemma IdleAfterExit(w: nat)
    ensures Exited(Sched([Some(Asleep(1, w)), Some(Active(2, 2))], Some(1), 3, 2, 0)) == Idle(w, 0)
  {
    var s := Sched([Some(Asleep(1, w)), Some(Active(2, 2))], Some(1), 3, 2, 0);
    ExitedIsWakeThenSwitch(s);
    assert WakeAll(s.slots[1 := None], WaitsFor(2)) == Idle(w, 0).slots;
  }

  /**
   Or the second exits: the CPU goes idle, the sleeper becomes Ready on time, and
   no number of ticks ever brings it to the CPU.
   */
  lemma {:induction false} IdleHang(w: nat, n: nat) returns (states: seq<Sched>, labels: seq<Label>)
    ensures IsRun(states, labels) && states[0] == Boot && |labels| == 6 + n
    ensures labels[..6] == [Spawn, Spawn, Start, SleepUntil(w), Yield, Exit] && OnlyTicks(labels[6..])
    ensures states[6 + n] == Idle(w, n)
    ensures n > 0 && w <= n ==> IsReady(states[6 + n].slots, 0) && states[6 + n].current.None?
  {
    if n == 0 {
      states, labels := FirstSleeps(w);
      IdleAfterExit(w);
      states, labels := states + [Idle(w, 0)], labels + [Exit];
    } else {
      states, labels := IdleHang(w, n - 1);
      IdleTick(w, n - 1);
      hide Ticked;
      assert (labels + [Tick])[6..] == labels[6..] + [Tick] && (labels + [Tick])[..6] == labels[..6];
      states, labels := states + [Idle(w, n)], labels + [Tick];
    }
  }

  // ---- the timer and a sleeper ----

  lemma {:induction false} TicksKeepBusy(states: seq<Sched>, labels: seq<Label>, k: nat)
    requires IsRun(states, labels) && Inv(states[0]) && states[0].current.Some? && OnlyTicks(labels) && k < |states|
    ensures states[k].current.Some?
  {
    if k > 0 {
      TicksKeepBusy(states, labels, k - 1);
    }
  }

  /** Exactly when the timer alone brings a sleeper back to the CPU: when the CPU is not idle. */
  lemma TimerReturnsSleeperIff(states: seq<Sched>, labels: seq<Label>, i: nat, t: Task)
    requires IsRun(states, labels) && Suspended(states[0], i, t) && t.block.Sleeping? && OnlyTicks(labels)
    requires var wait := t.block.wakeAt - states[0].now;
             |labels| >= (if wait > 1 then wait else 1) + |states[0].slots| * (DEFAULT_SLICE + 1)
    ensures EverDispatched(states, i, t.(state := Ready, block := NotBlocked)) <==> states[0].current.Some?
  {
    hide Step, Inv, Suspended, WakesAt;
    SuspendedIsGood(states[0], i, t);
    if states[0].current.Some? {
      TicksOfTicks(labels);
      TicksKeepSlotCount(states, labels, |labels|);
      forall m: nat | m < |states| ensures states[m].current.Some? { TicksKeepBusy(states, labels, m); }
      forall m: nat | WakesAt(states, labels, i, t, m) ensures m < |states| { WakesInRun(states, labels, i, t, m); }
      SleeperIsDispatched(states, labels, i, t);
    } else {
      forall k | 0 < k < |states| ensures states[k].current.None? { IdleForever(states, labels, k); }
    }
  }

  lemma WakesInRun(states: seq<Sched>, labels: seq<Label>, i: nat, t: Task, m: nat)
    requires |states| == |labels| + 1 && t.block.Sleeping? && WakesAt(states, labels, i, t, m)
    ensures m < |states|
  {}
}
