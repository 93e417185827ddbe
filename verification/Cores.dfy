/** The emulated core: the fields of `cpu::Core` that instructions read and write. */
module Cores {
  import opened Words

  datatype Flags = Flags(n: bool, z: bool, c: bool, v: bool)

  /** What a load exclusive remembers. */
  datatype Exclusive = Exclusive(access: bool, addr: Word64, data0: Word64, data1: Word64)

  type Reg = r: nat | r < 32

  /** Entry 31 exists in the array although the architecture has no such register: it is the zero register. */
  type Gprs = s: seq<Word64> | |s| == 32 witness seq(32, _ => 0)

  /** Everything an instruction handler may touch besides the program counter. */
  datatype Regs = Regs(gpr: Gprs, vreg: seq<(Word64, Word64)>, sp: Word64, flags: Flags, tls: Word64, excl: Exclusive)
  {
    function Set(r: Reg, w: Word64): Regs {
      this.(gpr := gpr[r := w])
    }

    function ClearZero(): Regs {
      Set(31, 0)
    }
  }

  datatype Cpu = Cpu(regs: Regs, pc: Word64, nextPC: Word64, numInsts: Word64)
  {
    function Set(r: Reg, w: Word64): Cpu {
      this.(regs := regs.Set(r, w))
    }
  }

  class Core {
    var gpr: array<Word64>
    var vreg: seq<(Word64, Word64)>
    var sp: Word64
    var flags: Flags
    var tls: Word64
    var excl: Exclusive
    var pc: Word64
    var nextPC: Word64
    var numInsts: Word64

    ghost predicate Valid()
      reads this
    {
      gpr.Length == 32
    }

    function View(): Cpu
      requires Valid()
      reads this, gpr
    {
      Cpu(Regs(gpr[..], vreg, sp, flags, tls, excl), pc, nextPC, numInsts)
    }

    /** Stores a whole register state, as a handler does one field at a time. */
    method SetRegs(r: Regs)
      requires Valid()
      modifies this`vreg, this`sp, this`flags, this`tls, this`excl, gpr
      ensures View() == old(View()).(regs := r)
    {
      vreg, sp, flags, tls, excl := r.vreg, r.sp, r.flags, r.tls, r.excl;
      forall i | 0 <= i < 32 {
        gpr[i] := r.gpr[i];
      }
      assert gpr[..] == r.gpr;
    }
  }
}
