/**
 The round-robin scheduler as a transition system over values.

 A step is one section that the kernel runs under the scheduler lock: `sleep`
 and `join` therefore take two steps (block, then yield), and a timer tick may
 come between them. The timer tick runs with interrupts off, so charging the
 slice and the preemption it causes are one step. The slot index of the
 executing task is `current`; `None` stands for `NO_TASK`, the boot context.
 */
module SchedulerSpec {
  import opened Options

  const DEFAULT_SLICE: nat := 2
  /** Task ids are 32-bit; running out of them is an overflow panic. */
  const ID_LIMIT: nat := 0x1_0000_0000

  datatype TaskState = Ready | Running | Blocked | Zombie
  datatype BlockReason = NotBlocked | Sleeping(wakeAt: nat) | Joining(id: nat)
  datatype Task = Task(id: nat, state: TaskState, block: BlockReason, slice: nat)

  type Slots = seq<Option<Task>>

  datatype Sched = Sched(slots: Slots, current: Option<nat>, nextId: nat, cursor: nat, now: nat)

  const Boot := Sched([], None, 1, 0, 0)

  predicate Live(slots: Slots, i: nat) {
    i < |slots| && slots[i].Some?
  }

  predicate IsReady(slots: Slots, i: nat) {
    Live(slots, i) && slots[i].value.state == Ready
  }

  predicate IsRunning(slots: Slots, i: nat) {
    Live(slots, i) && slots[i].value.state == Running
  }

  /** The executing context is a live task, not the boot context. */
  predicate HasCurrent(s: Sched) {
    s.current.Some? && Live(s.slots, s.current.value)
  }

  /** Some slot holds task `id`. */
  predicate Holds(slots: Slots, id: nat) {
    exists i | 0 <= i < |slots| :: Live(slots, i) && slots[i].value.id == id
  }

  // ---- choosing a task ----

  /** How far slot `j` lies after the cursor, going round the `n` slots. */
  function Distance(n: nat, cursor: nat, j: nat): (d: int)
    requires j < n && cursor <= n
    ensures 0 <= d < n
    ensures (cursor + d) % n == j
  {
    if j >= cursor then j - cursor
    else
      WrapOnce(j + n, n);
      j + n - cursor
  }

  lemma WrapOnce(x: nat, n: nat)
    requires n <= x < 2 * n
    ensures x % n == x - n
  {}

  lemma SlotAtDistance(n: nat, cursor: nat, i: nat)
    requires i < n && cursor <= n
    ensures Distance(n, cursor, (cursor + i) % n) == i
  {
    if cursor + i >= n { WrapOnce(cursor + i, n); }
  }

  /** The first Ready slot in cyclic order from the cursor, skipping the first `i`. */
  function Scan(slots: Slots, cursor: nat, i: nat): (r: Option<nat>)
    requires i <= |slots|
    ensures r.Some? ==> IsReady(slots, r.value)
    ensures cursor <= |slots| ==>
              forall j: nat :: IsReady(slots, j) && Distance(|slots|, cursor, j) >= i ==>
                            r.Some? && Distance(|slots|, cursor, r.value) <= Distance(|slots|, cursor, j)
    decreases |slots| - i
  {
    if i == |slots| then None
    else
      var j := (cursor + i) % |slots|;
      assert cursor <= |slots| ==> Distance(|slots|, cursor, j) == i by {
        if cursor <= |slots| { SlotAtDistance(|slots|, cursor, i); }
      }
      if IsReady(slots, j) then Some(j) else Scan(slots, cursor, i + 1)
  }

  /** No Ready slot lies before the chosen one in cyclic order from the cursor. */
  function NextReady(slots: Slots, cursor: nat): (r: Option<nat>)
    ensures r.Some? ==> IsReady(slots, r.value)
    ensures cursor <= |slots| ==>
              forall j: nat :: IsReady(slots, j) ==>
                            r.Some? && Distance(|slots|, cursor, r.value) <= Distance(|slots|, cursor, j)
  {
    Scan(slots, cursor, 0)
  }

  // ---- the locked sections ----

  /** A new task takes the first hole, or a new slot. */
  function Added(s: Sched): (r: Sched) {
    s.(slots := Put(s.slots, Task(s.nextId, Ready, NotBlocked, DEFAULT_SLICE)), nextId := s.nextId + 1)
  }

  function PrepSwitch(s: Sched, idx: nat): (r: Sched)
    requires Live(s.slots, idx)
  {
    s.(slots := s.slots[idx := Some(s.slots[idx].value.(state := Running))],
       current := Some(idx), cursor := idx + 1)
  }

  /** Switch to the next Ready task, if there is one. */
  function SwitchToNext(s: Sched): (r: Sched) {
    match NextReady(s.slots, s.cursor)
    case None => s
    case Some(idx) => PrepSwitch(s, idx)
  }

  /** A current task that is Running goes back to Ready. */
  function Demoted(s: Sched): (r: Sched) {
    if s.current.Some? && IsRunning(s.slots, s.current.value) then
      s.(slots := s.slots[s.current.value := Some(s.slots[s.current.value].value.(state := Ready))])
    else s
  }

  function Scheduled(s: Sched): (r: Sched) {
    SwitchToNext(Demoted(s))
  }

  function BlockCurrent(s: Sched, why: BlockReason): (r: Sched)
    requires HasCurrent(s)
  {
    var c := s.current.value;
    s.(slots := s.slots[c := Some(s.slots[c].value.(state := Blocked, block := why))])
  }

  /** Make `t` Ready when it is Blocked for the reason `test` accepts. */
  function Woken(t: Option<Task>, test: BlockReason -> bool): (r: Option<Task>) {
    if t.Some? && t.value.state == Blocked && test(t.value.block) then
      Some(t.value.(state := Ready, block := NotBlocked))
    else t
  }

  function WakeAll(slots: Slots, test: BlockReason -> bool): (r: Slots)
    ensures |r| == |slots| && forall i :: 0 <= i < |r| ==> r[i] == Woken(slots[i], test)
  {
    seq(|slots|, i requires 0 <= i < |slots| => Woken(slots[i], test))
  }

  function WaitsFor(id: nat): BlockReason -> bool {
    (b: BlockReason) => b.Joining? && b.id == id
  }

  function Expired(now: nat): BlockReason -> bool {
    (b: BlockReason) => b.Sleeping? && b.wakeAt <= now
  }

  /** The current task finishes: wake its joiners, reap the slot, switch away. */
  function Exited(s: Sched): (r: Sched)
    requires HasCurrent(s)
  {
    var c := s.current.value;
    var dead := s.slots[c].value;
    var slots := WakeAll(s.slots[c := Some(dead.(state := Zombie))], WaitsFor(dead.id));
    var reaped := s.(slots := slots[c := None], current := None);
    match NextReady(slots, s.cursor)
    case None => reaped
    case Some(idx) => PrepSwitch(reaped, idx)
  }

  /** The slice accounting of a tick, and whether the current task is preempted. */
  function Charged(s: Sched): (r: (Sched, bool)) {
    if !HasCurrent(s) then (s, false)
    else
      var c := s.current.value;
      var t := s.slots[c].value;
      if t.slice == 0 then (s.(slots := s.slots[c := Some(t.(slice := DEFAULT_SLICE))]), true)
      else (s.(slots := s.slots[c := Some(t.(slice := t.slice - 1))]), false)
  }

  /** The clock advances and every sleeper whose time has come is made Ready. */
  function Advanced(s: Sched): (r: Sched) {
    s.(now := s.now + 1, slots := WakeAll(s.slots, Expired(s.now + 1)))
  }

  function Ticked(s: Sched): (r: Sched) {
    var (s', preempt) := Charged(Advanced(s));
    if preempt then Scheduled(s') else s'
  }

  // ---- steps and runs ----

  datatype Label = Spawn | Start | Yield | SleepUntil(wakeAt: nat) | JoinOn(id: nat) | Exit | Tick

  /**
   `Start` runs in the boot context. Sleeping, joining and exiting index the
   current slot, and running out of ids overflows: without the guards below the
   kernel panics.
   */
  predicate Step(s: Sched, l: Label, s': Sched) {
    match l
    case Spawn => s.nextId + 1 < ID_LIMIT && s' == Added(s)
    case Start => s.current.None? && s' == SwitchToNext(s)
    case Yield => s' == Scheduled(s)
    case SleepUntil(w) => HasCurrent(s) && s' == BlockCurrent(s, Sleeping(w))
    case JoinOn(id) => HasCurrent(s) && s' == BlockCurrent(s, Joining(id))
    case Exit => HasCurrent(s) && s' == Exited(s)
    case Tick => s' == Ticked(s)
  }

  /** What holds between any two steps. */
  ghost predicate Inv(s: Sched) {
    && s.cursor <= |s.slots|
    && 1 <= s.nextId <= ID_LIMIT
    && (s.current.Some? ==> HasCurrent(s))
    && (forall i: nat :: IsRunning(s.slots, i) ==> s.current == Some(i))
    && (forall i: nat :: Live(s.slots, i) ==> TaskOk(s.slots[i].value, s.nextId))
    && (forall i: nat, j: nat :: Live(s.slots, i) && Live(s.slots, j) && s.slots[i].value.id == s.slots[j].value.id ==> i == j)
  }

  predicate TaskOk(t: Task, nextId: nat) {
    && 1 <= t.id < nextId
    && t.state != Zombie
    && (t.state == Blocked <==> t.block != NotBlocked)
    && t.slice <= DEFAULT_SLICE
  }

  /** `states` is a run of the scheduler taking the steps `labels`. */
  ghost predicate IsRun(states: seq<Sched>, labels: seq<Label>) {
    && |states| == |labels| + 1
    && forall k :: 0 <= k < |labels| ==> Step(states[k], labels[k], states[k + 1])
  }
}
