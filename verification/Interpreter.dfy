/** The interpreter: one fetched instruction per step. It is the meaning every other execution engine must reproduce. */
module Interpreter {
  import opened Words
  import opened Cores
  import opened Branches

  /**
   * What the model takes as given. `M` is guest memory, `fetch` is `mem::fetch`, and `handler` stands for every
   * handler that is not a branch. Only the branch handlers assign `nextPC`, and only `step` assigns `PC` and
   * `numInsts`, so a handler receives the program counter and returns registers and memory.
   */
  datatype Semantics<!M> = Semantics(
    fetch: (M, Word64) -> Word32,
    handler: (Word32, Word64, Regs, M) -> (Regs, M))

  datatype State<M> = State(cpu: Cpu, mem: M)

  /** `getInstructionFunc(inst.id)(core, inst)`. */
  function Execute<M>(sem: Semantics<M>, inst: Word32, s: State<M>): State<M> {
    match DecodeBranch(inst)
    case Some(id) => s.(cpu := Branch(id, inst, s.cpu))
    case None =>
      var (regs, mem) := sem.handler(inst, s.cpu.pc, s.cpu.regs, s.mem);
      State(s.cpu.(regs := regs), mem)
  }

  function Advance<M>(sem: Semantics<M>, s: State<M>): State<M> {
    var inst := sem.fetch(s.mem, s.cpu.pc);
    var r := Execute(sem, inst, s.(cpu := s.cpu.(nextPC := Add64(s.cpu.pc, 4))));
    r.(cpu := Cpu(r.cpu.regs.ClearZero(), r.cpu.nextPC, r.cpu.nextPC, Add64(r.cpu.numInsts, 1)))
  }

  /**
   * One step in plain integers: register 31 ends up zero, one instruction is counted modulo 2^64, a branch leaves
   * memory alone, and anything else moves PC on by four and does what its handler does.
   */
  lemma AdvanceMeaning<M>(sem: Semantics<M>, s: State<M>)
    ensures var t, inst := Advance(sem, s), sem.fetch(s.mem, s.cpu.pc);
            && t.cpu.regs.gpr[31] == 0 && t.cpu.pc == t.cpu.nextPC
            && t.cpu.numInsts == (s.cpu.numInsts + 1) % 0x1_0000_0000_0000_0000
            && if DecodeBranch(inst).Some? then t.mem == s.mem
               else
                 var (r, mem) := sem.handler(inst, s.cpu.pc, s.cpu.regs, s.mem);
                 && t.mem == mem && t.cpu.regs == r.(gpr := r.gpr[31 := 0])
                 && t.cpu.pc == (s.cpu.pc + 4) % 0x1_0000_0000_0000_0000
  {
    hide DecodeBranch, Branch;
    var inst := sem.fetch(s.mem, s.cpu.pc);
    if DecodeBranch(inst).Some? {
      BranchFrame(DecodeBranch(inst).value, inst, s.cpu.(nextPC := Add64(s.cpu.pc, 4)));
    }
  }

  /** A step on B or BL, forward or backward, from the bits of the word. */
  lemma AdvanceBranches<M>(sem: Semantics<M>, s: State<M>, offset: int)
    requires -0x200_0000 <= offset < 0x200_0000
    requires sem.fetch(s.mem, s.cpu.pc) / 0x400_0000 in {0x05, 0x25}
    requires (sem.fetch(s.mem, s.cpu.pc) - offset) % 0x400_0000 == 0
    ensures Advance(sem, s).cpu.pc == (s.cpu.pc + 4 * offset) % 0x1_0000_0000_0000_0000
    ensures sem.fetch(s.mem, s.cpu.pc) / 0x400_0000 == 0x25 ==>
              Advance(sem, s).cpu.regs.gpr[30] == (s.cpu.pc + 4) % 0x1_0000_0000_0000_0000
  {
    hide DecodeBranch, Branch;
    var inst := sem.fetch(s.mem, s.cpu.pc);
    DecodeMeaning(inst);
    ImmediateMeaning(DecodeBranch(inst).value, inst, s.cpu.(nextPC := Add64(s.cpu.pc, 4)), offset);
  }

  function AdvanceBy<M>(sem: Semantics<M>, s: State<M>, n: nat): State<M>
    decreases n
  {
    if n == 0 then s else AdvanceBy(sem, Advance(sem, s), n - 1)
  }

  lemma {:induction false} AdvanceByCompose<M>(sem: Semantics<M>, s: State<M>, m: nat, n: nat)
    ensures AdvanceBy(sem, AdvanceBy(sem, s, m), n) == AdvanceBy(sem, s, m + n)
    decreases m
  {
    if m > 0 {
      AdvanceByCompose(sem, Advance(sem, s), m - 1, n);
    }
  }

  /** A core together with the guest memory it runs on. */
  class Machine<M> {
    const core: Core
    var mem: M

    constructor (core: Core, mem: M)
      ensures this.core == core && this.mem == mem
    {
      this.core := core;
      this.mem := mem;
    }

    ghost predicate Valid()
      reads this, core
    {
      core.Valid()
    }

    function View(): State<M>
      requires Valid()
      reads this, core, core.gpr
    {
      State(core.View(), mem)
    }

    method Dispatch(sem: Semantics<M>, inst: Word32)
      requires Valid()
      modifies this, core, core.gpr
      ensures Valid() && core.gpr == old(core.gpr)
      ensures View() == Execute(sem, inst, old(View()))
    {
      match DecodeBranch(inst)
      case Some(id) => ExecuteBranch(core, id, inst);
      case None =>
        var v := core.View();
        var (regs, mem') := sem.handler(inst, v.pc, v.regs, mem);
        core.SetRegs(regs);
        mem := mem';
    }

    method Step(sem: Semantics<M>)
      requires Valid()
      modifies this, core, core.gpr
      ensures Valid() && core.gpr == old(core.gpr)
      ensures View() == Advance(sem, old(View()))
    {
      var bits := sem.fetch(mem, core.pc);
      core.nextPC := Add64(core.pc, 4);
      Dispatch(sem, bits);
      core.gpr[31] := 0;
      core.pc := core.nextPC;
      core.numInsts := Add64(core.numInsts, 1);
    }
  }
}
