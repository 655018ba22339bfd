/**
 The context switch: `__switch` as a machine operation on registers and memory,
 the frame a new task starts from, and transparency over every run.

 Memory is addressed in 8-byte words at multiples of 8, which is how `push`,
 `pop` and `ret` use a stack whose pointer is a multiple of 8.
 */
module ContextSwitch {
  import opened Options

  type Word = x: int | 0 <= x < 0x1_0000_0000_0000_0000
  type Memory = map<nat, Word>

  const KERNEL_STACK_SIZE: nat := 16 * 1024
  /** The address of `task_trampoline`; its value does not matter. */
  const TRAMPOLINE: Word := 0x1000

  /** The six callee-saved registers. */
  datatype Regs = Regs(rbx: Word, rbp: Word, r12: Word, r13: Word, r14: Word, r15: Word)

  /** What a context sees when a switch to it returns. */
  datatype Resume = Resume(regs: Regs, rsp: nat, rip: Word)

  /** `ctx` holds the saved stack pointer of each task, `boot` the throwaway context. */
  datatype Cpu = Cpu(regs: Regs, rsp: nat, rip: Word, mem: Memory, ctx: map<nat, nat>, boot: nat)

  /** A task's stack: the words from `lo` up to `hi`. */
  datatype Stack = Stack(lo: nat, hi: nat)

  function View(c: Cpu): (r: Resume) {
    Resume(c.regs, c.rsp, c.rip)
  }

  // ---- __switch ----

  predicate Readable(mem: Memory, sp: nat) {
    && sp in mem && sp + 8 in mem && sp + 16 in mem && sp + 24 in mem
    && sp + 32 in mem && sp + 40 in mem && sp + 48 in mem
  }

  /** The context whose saved registers start at `sp`, with its return address above them. */
  function FrameAt(mem: Memory, sp: nat): (r: Resume)
    requires Readable(mem, sp)
  {
    Resume(Regs(mem[sp + 40], mem[sp + 32], mem[sp + 24], mem[sp + 16], mem[sp + 8], mem[sp]), sp + 56, mem[sp + 48])
  }

  function Saved(mem: Memory, rsp: nat, r: Regs): (m: Memory)
    requires rsp >= 48
    ensures mem.Keys <= m.Keys
    ensures forall a :: a in mem && !(rsp - 48 <= a < rsp) ==> m[a] == mem[a]
  {
    mem[rsp - 8 := r.rbx][rsp - 16 := r.rbp][rsp - 24 := r.r12][rsp - 32 := r.r13][rsp - 40 := r.r14][rsp - 48 := r.r15]
  }

  /** The context that is left behind at a call of `__switch`: it must come back as this. */
  function Caller(c: Cpu): (r: Resume)
    requires c.rsp in c.mem
  {
    Resume(c.regs, c.rsp + 8, c.mem[c.rsp])
  }

  function Contexts(c: Cpu, from: Option<nat>): (ctx: map<nat, nat>)
    requires c.rsp >= 48
  {
    if from.Some? then c.ctx[from.value := c.rsp - 48] else c.ctx
  }

  predicate CanSwitch(c: Cpu, from: Option<nat>, to: nat) {
    && c.rsp >= 48
    && to in Contexts(c, from)
    && Readable(Saved(c.mem, c.rsp, c.regs), Contexts(c, from)[to])
  }

  /** Leave the current context in `from` (`None`: the throwaway one) and enter `to`. */
  function Switched(c: Cpu, from: Option<nat>, to: nat): (r: Cpu)
    requires CanSwitch(c, from, to)
  {
    var mem := Saved(c.mem, c.rsp, c.regs);
    var ctx := Contexts(c, from);
    var f := FrameAt(mem, ctx[to]);
    Cpu(f.regs, f.rsp, f.rip, mem, ctx, if from.None? then c.rsp - 48 else c.boot)
  }

  // ---- a new task's stack ----

  function Align(x: nat): (a: nat)
    ensures a % 16 == 0 && a <= x < a + 16
  {
    x - x % 16
  }

  function AlignedBase(raw: nat): (b: nat)
    ensures b % 16 == 0 && raw <= b < raw + 16
  {
    Align(raw + 15)
  }

  function UsableSize(raw: nat): (n: nat)
    ensures n % 16 == 0 && 16384 - 16 <= n <= 16384
    ensures AlignedBase(raw) + n <= raw + KERNEL_STACK_SIZE
  {
    Align(raw + KERNEL_STACK_SIZE) - AlignedBase(raw)
  }

  function StackOf(raw: nat): (s: Stack) {
    Stack(AlignedBase(raw), AlignedBase(raw) + UsableSize(raw))
  }

  const Zeros := Regs(0, 0, 0, 0, 0, 0)

  /** The frame every new task starts from, written just below the top of its stack. */
  function FreshMemory(mem: Memory, hi: nat): (m: Memory)
    requires hi >= 64
    ensures mem.Keys <= m.Keys
    ensures forall a :: a in mem && !(hi - 64 <= a < hi) ==> m[a] == mem[a]
  {
    Saved(mem[hi - 16 := TRAMPOLINE], hi - 16, Zeros)
  }

  /** A new task enters the trampoline with zeroed registers and the alignment of a function entry. */
  lemma FreshFrame(mem: Memory, raw: nat)
    ensures var s := StackOf(raw);
            && s.lo % 16 == 0 && raw <= s.lo && s.hi <= raw + KERNEL_STACK_SIZE && s.lo + 64 <= s.hi
            && var m := FreshMemory(mem, s.hi);
               && Readable(m, s.hi - 64)
               && FrameAt(m, s.hi - 64) == Resume(Zeros, s.hi - 8, TRAMPOLINE)
               && (s.hi - 8) % 16 == 8
  {}

  // ---- runs ----

  /** `cur` is the executing task, `None` the boot context. */
  datatype Sys = Sys(cpu: Cpu, cur: Option<nat>, stacks: map<nat, Stack>)

  datatype Action =
    | Work(after: Cpu)
    | SwitchTo(to: nat)
    | ExitTo(to: nat)
    | Spawn(id: nat, raw: nat)

  predicate Inside(a: nat, s: Stack) {
    s.lo <= a < s.hi
  }

  predicate Apart(s: Stack, t: Stack) {
    s.hi <= t.lo || t.hi <= s.lo
  }

  /** A saved frame of seven words at `sp` lies in the stack. */
  predicate FrameInside(sp: nat, s: Stack) {
    sp % 8 == 0 && s.lo <= sp && sp + 56 <= s.hi
  }

  ghost predicate Mapped(mem: Memory, s: Stack) {
    forall a: nat :: Inside(a, s) && a % 8 == 0 ==> a in mem
  }

  ghost predicate AllMapped(mem: Memory, stacks: map<nat, Stack>) {
    forall t :: t in stacks ==> Mapped(mem, stacks[t])
  }

  ghost predicate AllApart(stacks: map<nat, Stack>) {
    forall t, u :: t in stacks && u in stacks && t != u ==> Apart(stacks[t], stacks[u])
  }

  ghost predicate Inv(s: Sys) {
    && s.cpu.ctx.Keys == s.stacks.Keys
    && (s.cur.Some? ==> s.cur.value in s.stacks)
    && AllMapped(s.cpu.mem, s.stacks)
    && AllApart(s.stacks)
    && (forall t :: t in s.stacks && s.cur != Some(t) ==> FrameInside(s.cpu.ctx[t], s.stacks[t]))
  }

  /** At a call of `__switch` the frame to be saved fits the executing stack, or lies in nobody's. */
  ghost predicate AtCall(s: Sys) {
    && s.cpu.rsp % 8 == 0 && s.cpu.rsp >= 48 && s.cpu.rsp in s.cpu.mem
    && (s.cur.Some? ==> s.cur.value in s.stacks && FrameInside(s.cpu.rsp - 48, s.stacks[s.cur.value]))
    && (s.cur.None? ==> forall t :: t in s.stacks ==> Apart(s.stacks[t], Stack(s.cpu.rsp - 48, s.cpu.rsp)))
  }

  /** Running code changes registers and memory as it likes, except on the stacks of other tasks. */
  ghost predicate Computes(s: Sys, c: Cpu) {
    && c.ctx == s.cpu.ctx && c.boot == s.cpu.boot
    && s.cpu.mem.Keys <= c.mem.Keys
    && forall t, a: nat :: t in s.stacks && s.cur != Some(t) && Inside(a, s.stacks[t]) && a in s.cpu.mem ==>
                             c.mem[a] == s.cpu.mem[a]
  }

  ghost predicate Step(s: Sys, l: Action, s': Sys) {
    match l
    case Work(c) => Computes(s, c) && s' == s.(cpu := c)
    case SwitchTo(to) =>
      && AtCall(s) && to in s.stacks && CanSwitch(s.cpu, s.cur, to)
      && s' == Sys(Switched(s.cpu, s.cur, to), Some(to), s.stacks)
    case ExitTo(to) =>
      // The dying task's slot, and with it its stack, is gone before the switch.
      && AtCall(s) && s.cur.Some? && to != s.cur.value && to in s.stacks
      && var dead := s.cpu.(ctx := s.cpu.ctx - {s.cur.value});
         && CanSwitch(dead, None, to)
         && s' == Sys(Switched(dead, None, to), Some(to), s.stacks - {s.cur.value})
    case Spawn(t, raw) =>
      && t !in s.stacks
      && (forall u :: u in s.stacks ==> Apart(s.stacks[u], Stack(raw, raw + KERNEL_STACK_SIZE)))
      && var st := StackOf(raw);
         && Mapped(s.cpu.mem, st)
         && s' == Sys(s.cpu.(mem := FreshMemory(s.cpu.mem, st.hi), ctx := s.cpu.ctx[t := st.hi - 64]),
                      s.cur, s.stacks[t := st])
  }

  ghost predicate IsRun(states: seq<Sys>, actions: seq<Action>) {
    && |states| == |actions| + 1 && Inv(states[0])
    && forall k :: 0 <= k < |actions| ==> Step(states[k], actions[k], states[k + 1])
  }

  /** A mapped stack with a frame inside it can be read there. */
  lemma FrameReadable(mem: Memory, sp: nat, s: Stack)
    requires FrameInside(sp, s) && Mapped(mem, s)
    ensures Readable(mem, sp)
  {}

  /** Task `t` is suspended and will come back as `r`. */
  ghost predicate Suspended(s: Sys, t: nat, r: Resume) {
    && Inv(s) && t in s.stacks && s.cur != Some(t)
    && Readable(s.cpu.mem, s.cpu.ctx[t]) && FrameAt(s.cpu.mem, s.cpu.ctx[t]) == r
  }

  /** What `__switch` saves is the context of its caller. */
  lemma SavedFrame(mem: Memory, rsp: nat, r: Regs)
    requires rsp >= 48 && rsp in mem
    ensures var m := Saved(mem, rsp, r);
            Readable(m, rsp - 48) && FrameAt(m, rsp - 48) == Resume(r, rsp + 8, mem[rsp])
  {}

  /** The throwaway context keeps its caller, too, and leaves every task's context alone. */
  lemma BootSaved(c: Cpu, to: nat)
    requires CanSwitch(c, None, to) && c.rsp in c.mem
    ensures var r := Switched(c, None, to);
            Readable(r.mem, r.boot) && FrameAt(r.mem, r.boot) == Caller(c) && r.ctx == c.ctx
  {
    hide Saved, Readable, FrameAt;
    SavedFrame(c.mem, c.rsp, c.regs);
  }

  /** What a switch saves leaves the frame of every other suspended task readable. */
  lemma OthersReadable(s: Sys, to: nat)
    requires Inv(s) && AtCall(s) && to in s.stacks && s.cur != Some(to)
    ensures Readable(Saved(s.cpu.mem, s.cpu.rsp, s.cpu.regs), s.cpu.ctx[to])
  {
    hide Saved, Readable, FrameAt, Mapped, AllApart;
    var mem := Saved(s.cpu.mem, s.cpu.rsp, s.cpu.regs);
    StillMapped(s.cpu.mem, mem, s.stacks[to]);
    FrameReadable(mem, s.cpu.ctx[to], s.stacks[to]);
  }

  /** Given the invariant, a call of `__switch` finds the frame it is to load. */
  lemma SwitchEnabled(s: Sys, to: nat)
    requires Inv(s) && AtCall(s) && to in s.stacks
    ensures CanSwitch(s.cpu, s.cur, to)
    ensures s.cur.Some? && to != s.cur.value ==> CanSwitch(s.cpu.(ctx := s.cpu.ctx - {s.cur.value}), None, to)
  {
    hide Saved, Readable, FrameAt, AllMapped, AllApart;
    if s.cur == Some(to) {
      SavedFrame(s.cpu.mem, s.cpu.rsp, s.cpu.regs);
    } else {
      OthersReadable(s, to);
    }
  }

  lemma SwitchKeepsInv(s: Sys, to: nat)
    requires Inv(s) && AtCall(s) && to in s.stacks && CanSwitch(s.cpu, s.cur, to)
    ensures Inv(Sys(Switched(s.cpu, s.cur, to), Some(to), s.stacks))
  {
    hide Saved, FrameAt, Readable, AllApart, AllMapped;
    MappedGrows(s.cpu.mem, Saved(s.cpu.mem, s.cpu.rsp, s.cpu.regs), s.stacks);
  }

  lemma MappedGrows(mem: Memory, mem': Memory, stacks: map<nat, Stack>)
    requires AllMapped(mem, stacks) && mem.Keys <= mem'.Keys
    ensures AllMapped(mem', stacks)
  {}

  lemma ExitKeepsInv(s: Sys, to: nat)
    requires Inv(s) && AtCall(s) && s.cur.Some? && to != s.cur.value && to in s.stacks
    requires CanSwitch(s.cpu.(ctx := s.cpu.ctx - {s.cur.value}), None, to)
    ensures Inv(Sys(Switched(s.cpu.(ctx := s.cpu.ctx - {s.cur.value}), None, to), Some(to), s.stacks - {s.cur.value}))
  {}

  lemma AddApart(stacks: map<nat, Stack>, t: nat, st: Stack)
    requires AllApart(stacks) && forall u :: u in stacks ==> Apart(stacks[u], st)
    ensures AllApart(stacks[t := st])
  {}

  lemma AddMapped(mem: Memory, mem': Memory, stacks: map<nat, Stack>, t: nat, st: Stack)
    requires AllMapped(mem, stacks) && Mapped(mem, st) && mem.Keys <= mem'.Keys
    ensures AllMapped(mem', stacks[t := st])
  {}

  lemma SpawnKeepsInv(s: Sys, t: nat, raw: nat, s': Sys)
    requires Inv(s) && Step(s, Spawn(t, raw), s')
    ensures Inv(s')
  {
    hide FreshMemory, StackOf, FrameAt, Readable, Mapped, AllMapped, AllApart;
    FreshFrame(s.cpu.mem, raw);
    var st := StackOf(raw);
    AddApart(s.stacks, t, st);
    AddMapped(s.cpu.mem, s'.cpu.mem, s.stacks, t, st);
  }

  lemma StillMapped(mem: Memory, mem': Memory, st: Stack)
    requires Mapped(mem, st) && mem.Keys <= mem'.Keys
    ensures Mapped(mem', st)
  {}

  lemma StepKeepsInv(s: Sys, l: Action, s': Sys)
    requires Inv(s) && Step(s, l, s')
    ensures Inv(s')
  {
    match l
    case Work(_) =>
    case SwitchTo(to) => SwitchKeepsInv(s, to);
    case ExitTo(to) => ExitKeepsInv(s, to);
    case Spawn(t, raw) => SpawnKeepsInv(s, t, raw, s');
  }

  lemma {:induction false} RunKeepsInv(states: seq<Sys>, actions: seq<Action>, k: nat)
    requires IsRun(states, actions) && k < |states|
    ensures Inv(states[k])
  {
    hide Step, Inv;
    if k > 0 {
      RunKeepsInv(states, actions, k - 1);
      StepKeepsInv(states[k - 1], actions[k - 1], states[k]);
    }
  }

  /** `mem'` agrees with `mem` on the stack `st`. */
  ghost predicate Spares(mem: Memory, mem': Memory, st: Stack) {
    mem.Keys <= mem'.Keys && forall a: nat :: Inside(a, st) && a in mem ==> mem'[a] == mem[a]
  }

  /** Writes outside a task's stack do not touch its saved frame. */
  lemma FrameUntouched(mem: Memory, mem': Memory, sp: nat, st: Stack)
    requires FrameInside(sp, st) && Readable(mem, sp) && Spares(mem, mem', st)
    ensures Readable(mem', sp) && FrameAt(mem', sp) == FrameAt(mem, sp)
  {}

  lemma SaveSpares(s: Sys, t: nat)
    requires Inv(s) && AtCall(s) && t in s.stacks && s.cur != Some(t)
    ensures Spares(s.cpu.mem, Saved(s.cpu.mem, s.cpu.rsp, s.cpu.regs), s.stacks[t])
  {
    hide Saved, Mapped, AllMapped;
  }

  lemma SpawnSpares(s: Sys, u: nat, raw: nat, s': Sys, t: nat)
    requires Step(s, Spawn(u, raw), s') && t in s.stacks
    ensures Spares(s.cpu.mem, s'.cpu.mem, s.stacks[t])
  {
    hide FreshMemory, StackOf, FrameAt, Readable, Mapped;
    FreshFrame(s.cpu.mem, raw);
  }

  /** No step writes to the stack of a task that is not executing. */
  lemma StepSpares(s: Sys, l: Action, s': Sys, t: nat)
    requires Inv(s) && Step(s, l, s') && t in s.stacks && s.cur != Some(t)
    ensures Spares(s.cpu.mem, s'.cpu.mem, s.stacks[t])
  {
    hide Inv, AtCall, Saved, FreshMemory, StackOf, FrameAt, Readable, Mapped;
    match l
    case Work(_) =>
    case Spawn(u, raw) => SpawnSpares(s, u, raw, s', t);
    case _ => SaveSpares(s, t);
  }

  /** A step that does not make `t` current leaves its stack and its saved stack pointer in place. */
  lemma StepKeepsContext(s: Sys, l: Action, s': Sys, t: nat)
    requires Inv(s) && Step(s, l, s') && t in s.stacks && s.cur != Some(t)
    ensures t in s'.stacks && s'.stacks[t] == s.stacks[t]
    ensures t in s.cpu.ctx && t in s'.cpu.ctx && s'.cpu.ctx[t] == s.cpu.ctx[t]
  {
    hide AtCall, Saved, FreshMemory, StackOf, FrameAt, Readable, Mapped, AllMapped, AllApart;
  }

  /** No step but a switch to `t` changes what the suspended task `t` will come back as. */
  lemma StaysSuspended(s: Sys, l: Action, s': Sys, t: nat, r: Resume)
    requires Suspended(s, t, r) && Step(s, l, s') && s'.cur != Some(t)
    ensures Suspended(s', t, r)
  {
    hide Step, FrameAt, Readable, AllMapped, AllApart;
    StepKeepsInv(s, l, s');
    StepKeepsContext(s, l, s', t);
    StepSpares(s, l, s', t);
    FrameUntouched(s.cpu.mem, s'.cpu.mem, s.cpu.ctx[t], s.stacks[t]);
  }

  lemma {:induction false} RunStaysSuspended(states: seq<Sys>, actions: seq<Action>, t: nat, r: Resume, k: nat, m: nat)
    requires IsRun(states, actions) && k <= m < |states| && Suspended(states[k], t, r)
    requires forall i :: k <= i <= m ==> states[i].cur != Some(t)
    ensures Suspended(states[m], t, r)
  {
    hide Step, Suspended, Inv;
    if k < m {
      RunStaysSuspended(states, actions, t, r, k, m - 1);
      StaysSuspended(states[m - 1], actions[m - 1], states[m], t, r);
    }
  }

  /** The step that makes a suspended task current brings it back exactly as it was left. */
  lemma ResumesAs(s: Sys, l: Action, s': Sys, t: nat, r: Resume)
    requires Suspended(s, t, r) && Step(s, l, s') && s'.cur == Some(t)
    ensures View(s'.cpu) == r
  {
    hide Saved, FreshMemory, StackOf, FrameAt, Readable;
    FrameUntouched(s.cpu.mem, s'.cpu.mem, s.cpu.ctx[t], s.stacks[t]);
  }

  /** Leaving a task by `__switch` suspends it as its caller sees it. */
  lemma LeavesSuspended(s: Sys, to: nat, s': Sys)
    requires Inv(s) && Step(s, SwitchTo(to), s') && s.cur.Some?
    ensures to != s.cur.value ==> Suspended(s', s.cur.value, Caller(s.cpu))
    ensures to == s.cur.value ==> View(s'.cpu) == Caller(s.cpu)
  {
    hide Inv, Mapped, Saved, FrameAt, Readable;
    SwitchKeepsInv(s, to);
    SavedFrame(s.cpu.mem, s.cpu.rsp, s.cpu.regs);
  }

  /**
   Transparency. A task left by a switch at step `k` and next made current by
   step `m` has its callee-saved registers, stack pointer and return address
   back, whatever the other tasks did in between.
   */
  lemma SwitchIsTransparent(states: seq<Sys>, actions: seq<Action>, t: nat, k: nat, m: nat)
    requires IsRun(states, actions) && k <= m < |actions|
    requires states[k].cur == Some(t) && actions[k].SwitchTo? && AtCall(states[k])
    requires forall i :: k < i <= m ==> states[i].cur != Some(t)
    requires states[m + 1].cur == Some(t)
    ensures View(states[m + 1].cpu) == Caller(states[k].cpu)
  {
    hide Inv, Suspended, View, Caller;
    RunKeepsInv(states, actions, k);
    LeavesSuspended(states[k], actions[k].to, states[k + 1]);
    if k < m {
      var r := Caller(states[k].cpu);
      RunStaysSuspended(states, actions, t, r, k + 1, m);
      ResumesAs(states[m], actions[m], states[m + 1], t, r);
    }
  }

  /** A spawned task first runs at the trampoline, with zeroed registers, on its own stack. */
  lemma FreshTaskStarts(states: seq<Sys>, actions: seq<Action>, t: nat, raw: nat, k: nat, m: nat)
    requires IsRun(states, actions) && k < m < |actions|
    requires actions[k] == Spawn(t, raw)
    requires forall i :: k < i <= m ==> states[i].cur != Some(t)
    requires states[m + 1].cur == Some(t)
    ensures View(states[m + 1].cpu) == Resume(Zeros, StackOf(raw).hi - 8, TRAMPOLINE)
    ensures states[m + 1].cpu.rsp % 16 == 8 && raw <= states[m + 1].cpu.rsp - 56
    ensures states[m + 1].cpu.rsp + 8 <= raw + KERNEL_STACK_SIZE
  {
    hide Inv, FreshMemory, Step, StackOf, Suspended, FrameAt, Readable;
    RunKeepsInv(states, actions, k);
    FreshFrame(states[k].cpu.mem, raw);
    SpawnSuspends(states[k], t, raw, states[k + 1]);
    var r := Resume(Zeros, StackOf(raw).hi - 8, TRAMPOLINE);
    RunStaysSuspended(states, actions, t, r, k + 1, m);
    ResumesAs(states[m], actions[m], states[m + 1], t, r);
  }

  lemma SpawnSuspends(s: Sys, t: nat, raw: nat, s': Sys)
    requires Inv(s) && Step(s, Spawn(t, raw), s')
    ensures Suspended(s', t, Resume(Zeros, StackOf(raw).hi - 8, TRAMPOLINE))
  {
    hide Inv, FreshMemory, StackOf, FrameAt, Readable, Mapped;
    SpawnKeepsInv(s, t, raw, s');
    FreshFrame(s.cpu.mem, raw);
    NotCurrent(s, t);
  }

  lemma NotCurrent(s: Sys, t: nat)
    requires Inv(s) && t !in s.stacks
    ensures s.cur != Some(t)
  {}
}
