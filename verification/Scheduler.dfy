/** The scheduler as the kernel runs it: fields updated in place, proved to take the steps of `SchedulerSpec`. */
module Scheduler {
  import opened Options
  import opened SchedulerSpec
  import opened SchedulerInvariant
  import opened SchedulerBlocking
  import opened SchedulerCalls

  class Scheduler {
    var slots: Slots
    var current: Option<nat>
    var nextId: nat
    var cursor: nat
    /** The timer's tick counter. */
    var now: nat

    ghost function View(): (s: Sched)
      reads this
    {
      Sched(slots, current, nextId, cursor, now)
    }

    ghost predicate Valid()
      reads this
    {
      Inv(View())
    }

    constructor ()
      ensures Valid() && View() == Boot
    {
      slots, current, nextId, cursor, now := [], None, 1, 0, 0;
    }

    /** `None` is the overflow panic when the 32-bit ids run out. */
    method Spawn() returns (id: Option<nat>)
      requires Valid()
      modifies this
      ensures Valid()
      ensures id.Some? <==> old(nextId) < 0xFFFF_FFFF
      ensures id.Some? ==> id.value == old(nextId) && Step(old(View()), SchedulerSpec.Spawn, View())
      ensures id.Some? ==> !Holds(old(slots), id.value) && Holds(slots, id.value)
      ensures id.None? ==> View() == old(View())
    {
      if nextId + 1 >= ID_LIMIT {
        return None;
      }
      AddedKeepsInv(View());
      id := Some(nextId);
      nextId := nextId + 1;
      var hole := FirstFree(slots);
      var task := Task(id.value, Ready, NotBlocked, DEFAULT_SLICE);
      if hole < |slots| {
        slots := slots[hole := Some(task)];
      } else {
        slots := slots + [Some(task)];
      }
      assert slots[hole].value.id == id.value;
    }

    method FindSlot(id: nat) returns (slot: Option<nat>)
      requires Valid()
      ensures slot.Some? ==> Live(slots, slot.value) && slots[slot.value].value.id == id
      ensures slot.None? <==> !Holds(slots, id)
    {
      for i := 0 to |slots|
        invariant forall j: nat :: j < i && Live(slots, j) ==> slots[j].value.id != id
      {
        if slots[i].Some? && slots[i].value.id == id {
          return Some(i);
        }
      }
      return None;
    }

    method FindNextReady() returns (r: Option<nat>)
      ensures r == NextReady(slots, cursor)
    {
      var n := |slots|;
      for i := 0 to n
        invariant Scan(slots, cursor, 0) == Scan(slots, cursor, i)
      {
        var idx := (cursor + i) % n;
        if IsReady(slots, idx) {
          return Some(idx);
        }
      }
      return None;
    }

    method MakeRunning(idx: nat)
      requires Live(slots, idx)
      modifies this
      ensures View() == PrepSwitch(old(View()), idx)
    {
      slots := slots[idx := Some(slots[idx].value.(state := Running))];
      current := Some(idx);
      cursor := idx + 1;
    }

    method SwitchAway()
      modifies this
      ensures View() == SwitchToNext(old(View()))
    {
      var next := FindNextReady();
      if next.Some? {
        MakeRunning(next.value);
      }
    }

    /** Called once, from the boot context. */
    method Start()
      requires Valid() && current.None?
      modifies this
      ensures Valid() && Step(old(View()), SchedulerSpec.Start, View())
    {
      SwitchKeepsInv(View());
      SwitchAway();
    }

    method Yield()
      requires Valid()
      modifies this
      ensures Valid() && Step(old(View()), SchedulerSpec.Yield, View())
    {
      ScheduledKeepsInv(View());
      if current.Some? && slots[current.value].value.state == Running {
        slots := slots[current.value := Some(slots[current.value].value.(state := Ready))];
      }
      SwitchAway();
    }

    /** The locked section of `sleep`; the caller then yields. */
    method BlockForSleep(wakeAt: nat)
      requires Valid() && current.Some?
      modifies this
      ensures Valid() && Step(old(View()), SleepUntil(wakeAt), View())
    {
      StepKeepsInv(View(), SleepUntil(wakeAt), BlockCurrent(View(), Sleeping(wakeAt)));
      var t := slots[current.value].value;
      slots := slots[current.value := Some(t.(state := Blocked, block := Sleeping(wakeAt)))];
    }

    /** The caller as it is once it has blocked for `why`. */
    ghost function Blocking(why: BlockReason): (t: Task)
      requires HasCurrent(View())
      reads this
    {
      slots[current.value].value.(state := Blocked, block := why)
    }

    /**
     Sleeping without a tick in between. The caller is switched away from exactly
     when another task is Ready, and then it is suspended until its time comes.
     */
    method Sleep(duration: nat)
      requires Valid() && current.Some?
      modifies this
      ensures Valid()
      ensures View() == Scheduled(BlockCurrent(old(View()), Sleeping(old(now) + duration)))
      ensures current != old(current) <==> OtherReady(old(View()), old(current).value)
      ensures current != old(current) ==>
                Suspended(View(), old(current).value, old(Blocking(Sleeping(now + duration))))
    {
      hide Scheduled, BlockCurrent, Inv, OtherReady, Suspended, Added, SwitchToNext, Exited, Ticked;
      CurrentIsLive(View());
      BlockSuspendsIff(View(), Sleeping(now + duration));
      BlockForSleep(now + duration);
      Yield();
    }

    /** The check of `join`, in a locked section of its own. No Zombie is ever seen here. */
    method JoinTargetGone(id: nat) returns (done: bool)
      requires Valid()
      ensures done <==> !Holds(slots, id)
    {
      var slot := FindSlot(id);
      if slot.None? {
        return true;
      }
      assert TaskOk(slots[slot.value].value, nextId);
      done := slots[slot.value].value.state == Zombie;
    }

    /** The second locked section of `join`: it does not look at the target again. */
    method BlockForJoin(id: nat)
      requires Valid() && current.Some?
      modifies this
      ensures Valid() && Step(old(View()), JoinOn(id), View())
    {
      StepKeepsInv(View(), JoinOn(id), BlockCurrent(View(), Joining(id)));
      var t := slots[current.value].value;
      slots := slots[current.value := Some(t.(state := Blocked, block := Joining(id)))];
    }

    /**
     Joining without a tick in between. The caller is switched away from exactly
     when its target is live and another task is Ready, and then it is suspended
     until the target exits.
     */
    method Join(id: nat)
      requires Valid() && current.Some?
      modifies this
      ensures Valid()
      ensures View() == if Holds(old(slots), id) then Scheduled(BlockCurrent(old(View()), Joining(id))) else old(View())
      ensures current != old(current) <==> Holds(old(slots), id) && OtherReady(old(View()), old(current).value)
      ensures current != old(current) ==> Suspended(View(), old(current).value, old(Blocking(Joining(id))))
    {
      hide Scheduled, BlockCurrent, Inv, OtherReady, Suspended, Added, SwitchToNext, Exited, Ticked;
      CurrentIsLive(View());
      BlockSuspendsIff(View(), Joining(id));
      var done := JoinTargetGone(id);
      if !done {
        BlockForJoin(id);
        Yield();
      }
    }

    method Wake(test: BlockReason -> bool)
      modifies this`slots
      ensures slots == WakeAll(old(slots), test)
    {
      for i := 0 to |slots|
        invariant |slots| == |old(slots)|
        invariant forall j :: 0 <= j < i ==> slots[j] == Woken(old(slots)[j], test)
        invariant forall j :: i <= j < |slots| ==> slots[j] == old(slots)[j]
      {
        if slots[i].Some? && slots[i].value.state == Blocked && test(slots[i].value.block) {
          slots := slots[i := Some(slots[i].value.(state := Ready, block := NotBlocked))];
        }
      }
    }

    method Exit()
      requires Valid() && current.Some?
      modifies this
      ensures Valid() && Step(old(View()), SchedulerSpec.Exit, View())
    {
      ExitedKeepsInv(View());
      var cur := current.value;
      var deadId := slots[cur].value.id;
      slots := slots[cur := Some(slots[cur].value.(state := Zombie))];
      Wake(WaitsFor(deadId));
      var next := FindNextReady();
      slots := slots[cur := None];
      current := None;
      if next.Some? {
        MakeRunning(next.value);
      }
    }

    method Charge() returns (preempt: bool)
      requires Valid()
      modifies this
      ensures Valid() && (View(), preempt) == Charged(old(View()))
    {
      ChargedKeepsInv(View());
      preempt := false;
      if current.Some? {
        var t := slots[current.value].value;
        preempt := t.slice == 0;
        slots := slots[current.value := Some(t.(slice := if preempt then DEFAULT_SLICE else t.slice - 1))];
      }
    }

    /** The timer interrupt: advance the clock, wake sleepers, charge the slice, maybe preempt. */
    method Tick()
      requires Valid()
      modifies this
      ensures Valid() && Step(old(View()), SchedulerSpec.Tick, View())
    {
      WakeAllKeepsInv(View().(now := now + 1), Expired(now + 1));
      now := now + 1;
      Wake(Expired(now));
      assert View() == Advanced(old(View()));
      var preempt := Charge();
      if preempt {
        Yield();
      }
    }
  }
}
