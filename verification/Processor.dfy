/** `__switch` and `initial_context` instruction by instruction, proved to be the functions of `ContextSwitch`. */
module Processor {
  import opened Options
  import opened ContextSwitch

  /** `mem` with the first `n` words below `top` zeroed. */
  ghost function Zeroed(mem: Memory, top: nat, n: nat): (m: Memory)
    requires top >= 8 * n
  {
    if n == 0 then mem else Zeroed(mem, top, n - 1)[top - 8 * n := 0]
  }

  lemma ZeroedSix(mem: Memory, top: nat)
    requires top >= 48
    ensures Zeroed(mem, top, 6) == Saved(mem, top, Zeros)
  {
    assert Zeroed(mem, top, 1) == mem[top - 8 := 0];
    assert Zeroed(mem, top, 4) == Zeroed(mem, top, 2)[top - 24 := 0][top - 32 := 0];
  }

  class Processor {
    var rbx: Word
    var rbp: Word
    var r12: Word
    var r13: Word
    var r14: Word
    var r15: Word
    var rsp: nat
    var rip: Word
    var mem: Memory
    var ctx: map<nat, nat>
    var boot: nat

    ghost function State(): (c: Cpu)
      reads this
    {
      Cpu(Regs(rbx, rbp, r12, r13, r14, r15), rsp, rip, mem, ctx, boot)
    }

    constructor (c: Cpu)
      ensures State() == c
    {
      rbx, rbp, r12, r13, r14, r15 := c.regs.rbx, c.regs.rbp, c.regs.r12, c.regs.r13, c.regs.r14, c.regs.r15;
      rsp, rip, mem, ctx, boot := c.rsp, c.rip, c.mem, c.ctx, c.boot;
    }

    method Push(v: Word)
      requires rsp >= 8
      modifies this`rsp, this`mem
      ensures rsp == old(rsp) - 8 && mem == old(mem)[rsp := v]
    {
      rsp := rsp - 8;
      mem := mem[rsp := v];
    }

    /** The six pushes. */
    method SaveRegisters()
      requires rsp >= 48
      modifies this`rsp, this`mem
      ensures mem == Saved(old(mem), old(rsp), State().regs) && rsp == old(rsp) - 48
    {
      Push(rbx);
      Push(rbp);
      Push(r12);
      Push(r13);
      Push(r14);
      Push(r15);
    }

    /** The six pops and the return: each takes the word at `rsp` and steps over it. */
    method LoadRegisters()
      requires Readable(mem, rsp)
      modifies this`rbx, this`rbp, this`r12, this`r13, this`r14, this`r15, this`rsp, this`rip
      ensures View(State()) == FrameAt(mem, old(rsp))
    {
      var m, sp := mem, rsp;
      r15, sp := m[sp], sp + 8;
      r14, sp := m[sp], sp + 8;
      r13, sp := m[sp], sp + 8;
      r12, sp := m[sp], sp + 8;
      rbp, sp := m[sp], sp + 8;
      rbx, sp := m[sp], sp + 8;
      rip, sp := m[sp], sp + 8;
      rsp := sp;
    }

    method Switch(from: Option<nat>, to: nat)
      requires CanSwitch(State(), from, to)
      modifies this
      ensures State() == Switched(old(State()), from, to)
    {
      hide Saved, FrameAt, Readable;
      SaveRegisters();
      if from.Some? {
        ctx := ctx[from.value := rsp];
      } else {
        boot := rsp;
      }
      rsp := ctx[to];
      LoadRegisters();
    }

    /** Lay out the first frame of a task on the stack `[stackBase, stackBase + stackSize)`. */
    method InitialContext(stackBase: nat, stackSize: nat) returns (sp: nat)
      requires Align(stackBase + stackSize) >= 64
      modifies this`mem
      ensures var top := Align(stackBase + stackSize);
              mem == FreshMemory(old(mem), top) && sp == top - 64
    {
      var top := Align(stackBase + stackSize);
      var retSlot := top - 16;
      mem := mem[retSlot := TRAMPOLINE];
      ghost var start := mem;
      for i := 0 to 6
        invariant mem == Zeroed(start, retSlot, i)
      {
        mem := mem[retSlot - 8 - i * 8 := 0];
      }
      ZeroedSix(start, retSlot);
      sp := retSlot - 48;
    }

    /** Spawning writes the frame that `ContextSwitch.Spawn` gives a task whose buffer is at `raw`. */
    method FreshContext(raw: nat) returns (sp: nat)
      modifies this`mem
      ensures mem == FreshMemory(old(mem), StackOf(raw).hi) && sp == StackOf(raw).hi - 64
    {
      sp := InitialContext(AlignedBase(raw), UsableSize(raw));
    }
  }
}
