/** The scheduler invariant, kept by every step and so by every run. */
module SchedulerInvariant {
  import opened Options
  import opened SchedulerSpec

  lemma AddedKeepsInv(s: Sched)
    requires Inv(s) && s.nextId + 1 < ID_LIMIT
    ensures Inv(Added(s))
  {}

  /** Replacing the task in slot `i` by one with the same id keeps the invariant. */
  lemma UpdateKeepsInv(s: Sched, i: nat, t: Task)
    requires Inv(s) && Live(s.slots, i)
    requires TaskOk(t, s.nextId) && t.id == s.slots[i].value.id
    requires t.state == Running ==> s.current == Some(i)
    ensures Inv(s.(slots := s.slots[i := Some(t)]))
  {}

  /** Nobody but the chosen task may be Running once it has been switched to. */
  lemma SwitchKeepsInv(s: Sched)
    requires Inv(s)
    requires forall i: nat :: !IsRunning(s.slots, i)
    ensures Inv(SwitchToNext(s))
  {}

  lemma ScheduledKeepsInv(s: Sched)
    requires Inv(s)
    ensures Inv(Scheduled(s))
  {
    SwitchKeepsInv(Demoted(s));
  }

  lemma WakeAllKeepsInv(s: Sched, test: BlockReason -> bool)
    requires Inv(s)
    ensures Inv(s.(slots := WakeAll(s.slots, test)))
  {}

  /** Reaping first and then waking gives the same slots as the kernel's order. */
  lemma ExitedIsWakeThenSwitch(s: Sched)
    requires HasCurrent(s)
    ensures var c := s.current.value;
            Exited(s) == SwitchToNext(s.(slots := WakeAll(s.slots[c := None], WaitsFor(s.slots[c].value.id)),
                                         current := None))
  {
    var c := s.current.value;
    var dead := s.slots[c].value;
    var slots := WakeAll(s.slots[c := Some(dead.(state := Zombie))], WaitsFor(dead.id));
    assert slots[c := None] == WakeAll(s.slots[c := None], WaitsFor(dead.id));
    SameReadySameScan(slots, slots[c := None], s.cursor, 0);
  }

  lemma {:induction false} SameReadySameScan(a: Slots, b: Slots, cursor: nat, i: nat)
    requires |a| == |b| && i <= |a|
    requires forall j: nat :: IsReady(a, j) <==> IsReady(b, j)
    ensures Scan(a, cursor, i) == Scan(b, cursor, i)
    decreases |a| - i
  {
    if i < |a| {
      SameReadySameScan(a, b, cursor, i + 1);
    }
  }

  lemma ExitedKeepsInv(s: Sched)
    requires Inv(s) && HasCurrent(s)
    ensures Inv(Exited(s))
  {
    var c := s.current.value;
    var s1 := s.(slots := s.slots[c := None], current := None);
    forall j: nat | Live(s1.slots, j)
      ensures Live(s.slots, j) && s1.slots[j] == s.slots[j] && j != c
    {}
    WakeAllKeepsInv(s1, WaitsFor(s.slots[c].value.id));
    ExitedIsWakeThenSwitch(s);
    SwitchKeepsInv(s1.(slots := WakeAll(s1.slots, WaitsFor(s.slots[c].value.id))));
  }

  lemma ChargedKeepsInv(s: Sched)
    requires Inv(s)
    ensures Inv(Charged(s).0)
  {}

  lemma AdvancedKeepsInv(s: Sched)
    requires Inv(s)
    ensures Inv(Advanced(s))
  {}

  lemma TickedKeepsInv(s: Sched)
    requires Inv(s)
    ensures Inv(Ticked(s))
  {
    hide Inv, Advanced, Charged, Scheduled;
    AdvancedKeepsInv(s);
    ChargedKeepsInv(Advanced(s));
    ScheduledKeepsInv(Charged(Advanced(s)).0);
  }

  lemma StepKeepsInv(s: Sched, l: Label, s': Sched)
    requires Inv(s) && Step(s, l, s')
    ensures Inv(s')
  {
    match l
    case Spawn => AddedKeepsInv(s);
    case Start => SwitchKeepsInv(s);
    case Yield => ScheduledKeepsInv(s);
    case SleepUntil(w) =>
      var c := s.current.value;
      UpdateKeepsInv(s, c, s.slots[c].value.(state := Blocked, block := Sleeping(w)));
    case JoinOn(id) =>
      var c := s.current.value;
      UpdateKeepsInv(s, c, s.slots[c].value.(state := Blocked, block := Joining(id)));
    case Exit => ExitedKeepsInv(s);
    case Tick => TickedKeepsInv(s);
  }

  /** Every state of a run that starts in a good state is good. */
  lemma {:induction false} RunKeepsInv(states: seq<Sched>, labels: seq<Label>, k: nat)
    requires IsRun(states, labels) && Inv(states[0]) && k < |states|
    ensures Inv(states[k])
  {
    if k > 0 {
      RunKeepsInv(states, labels, k - 1);
      StepKeepsInv(states[k - 1], labels[k - 1], states[k]);
    }
  }

  /** At most one slot is Running, and it is the current one, in every run from boot. */
  lemma AtMostOneRunning(states: seq<Sched>, labels: seq<Label>, k: nat, i: nat, j: nat)
    requires IsRun(states, labels) && states[0] == Boot && k < |states|
    requires IsRunning(states[k].slots, i) && IsRunning(states[k].slots, j)
    ensures i == j && states[k].current == Some(i)
  {
    RunKeepsInv(states, labels, k);
  }
}
