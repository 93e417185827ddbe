/** The handlers of the additive and the shift instructions. */
module DataProcessing {
  import opened Words
  import opened Bits
  import opened Cores
  import opened Conditions
  import opened Fields
  import opened AddSub
  import opened Shifts

  const SHIFT_TYPES: seq<ShiftType> := [LSL, LSR, ASR, ROR]

  function Width(is64: bool): nat {
    if is64 then 64 else 32
  }

  /** Which of ADD, ADDS, SUB, SUBS, or ADC, ADCS, SBC, SBCS, at which width: the template arguments. */
  datatype Additive = Additive(is64: bool, isSub: bool, updatesFlags: bool)
  {
    /** The value and the flags left by the operation on two operands and a carry. */
    function Apply(flags: Flags, x: Word64, y: Word64, carry: nat): (Word64, Flags)
      requires carry <= 1
    {
      var (result, f) := AddWithCarry(is64, x, if isSub then Complement(y) else y, carry);
      (result, if updatesFlags then f else flags)
    }
  }

  /**
   * Every additive form against plain integers: the result is the exact sum or difference modulo 2^width, whether or
   * not the flags are set, and the flags are set exactly in the forms that set them.
   */
  lemma ApplyMeaning(op: Additive, flags: Flags, x: Word64, y: Word64, carry: nat)
    requires carry <= 1
    ensures var (r, f) := op.Apply(flags, x, y, carry);
            var m := if op.is64 then 0x1_0000_0000_0000_0000 else 0x1_0000_0000;
            var unsigned := Unsigned(op.is64, x) + carry + if op.isSub then -1 - Unsigned(op.is64, y) else Unsigned(op.is64, y);
            var signed := Signed(op.is64, x) + carry + if op.isSub then -1 - Signed(op.is64, y) else Signed(op.is64, y);
            && r == (if op.isSub then x - y - 1 + carry else x + y + carry) % m
            && (!op.updatesFlags ==> f == flags)
            && (op.updatesFlags ==>
                  && (f.n <==> Signed(op.is64, r) < 0) && (f.z <==> r == 0)
                  && (f.c <==> if op.isSub then unsigned >= 0 else unsigned >= m)
                  && (f.v <==> Signed(op.is64, r) != signed))
  {
    hide AddWithCarry, Signed, Unsigned, Complement;
    var y' := if op.isSub then Complement(y) else y;
    AddWithCarryMeaning(op.is64, x, y', carry);
    ComplementMeaning(op.is64, y);
    UnsignedSum(op.is64, x, y', carry, AddWithCarry(op.is64, x, y', carry).0, AddWithCarry(op.is64, x, y', carry).1.c);
    ComplementSum(op.is64, x, y, carry);
  }

  lemma UnsignedSum(is64: bool, x: Word64, y: Word64, carry: nat, r: Word64, c: bool)
    requires carry <= 1 && r < Modulus(is64)
    requires r == Unsigned(is64, x) + Unsigned(is64, y) + carry - if c then Modulus(is64) else 0
    ensures r == (x + y + carry) % Modulus(is64)
  {
    var m := Modulus(is64);
    UnsignedIsMod(is64, x);
    UnsignedIsMod(is64, y);
    var q := x / m + y / m + if c then 1 else 0;
    assert x + y + carry == q * m + r;
    ModUnique(x + y + carry, m, q, r);
  }

  lemma UnsignedIsMod(is64: bool, x: Word64)
    ensures x == x / Modulus(is64) * Modulus(is64) + Unsigned(is64, x)
  {
  }

  lemma ComplementSum(is64: bool, x: Word64, y: Word64, carry: nat)
    ensures (x + Complement(y) + carry) % Modulus(is64) == (x - y - 1 + carry) % Modulus(is64)
  {
    var m, d := Modulus(is64), x - y - 1 + carry;
    var k := if is64 then 1 else 0x1_0000_0000;
    assert x + Complement(y) + carry == d + k * m;
    ModUnique(d + k * m, m, d / m + k, d % m);
  }

  function Immediate(inst: Word32): Word64 {
    Imm12(inst) * if inst / 0x40_0000 % 2 == 1 then 0x1000 else 1
  }

  /** Register 31 is the stack pointer here, except as the destination of the flag-setting forms. */
  function AddSubImmResult(op: Additive, inst: Word32, cpu: Cpu): Cpu {
    var x := if Rn(inst) == 31 then cpu.regs.sp else cpu.regs.gpr[Rn(inst)];
    var (result, f) := op.Apply(cpu.regs.flags, x, Immediate(inst), if op.isSub then 1 else 0);
    var after := cpu.(regs := cpu.regs.(flags := f));
    if Rd(inst) != 31 then after.Set(Rd(inst), result)
    else if op.updatesFlags then after
    else after.(regs := after.regs.(sp := result))
  }

  method AddSubImm(core: Core, inst: Word32, op: Additive)
    requires core.Valid()
    modifies core`sp, core`flags, core.gpr
    ensures core.View() == AddSubImmResult(op, inst, old(core.View()))
  {
    hide AddWithCarry;
    var imm := Imm12(inst) * if inst / 0x40_0000 % 2 == 1 then 0x1000 else 1;
    var operand1 := if Rn(inst) == 31 then core.sp else core.gpr[Rn(inst)];
    var operand2 := if op.isSub then Complement(imm) else imm;
    var (result, f) := AddWithCarry(op.is64, operand1, operand2, if op.isSub then 1 else 0);
    if op.updatesFlags {
      core.flags := f;
    }
    if Rd(inst) == 31 {
      if !op.updatesFlags {
        core.sp := result;
      }
    } else {
      core.gpr[Rd(inst)] := result;
    }
  }

  /**
   * ADD, ADDS, SUB and SUBS with an immediate, bit fields written out: the destination, which is the stack pointer for
   * register 31 unless flags are set, gets the source plus or minus the immediate modulo 2^width. Everything else stays.
   */
  lemma AddSubImmMeaning(op: Additive, inst: Word32, cpu: Cpu)
    ensures var m := if op.is64 then 0x1_0000_0000_0000_0000 else 0x1_0000_0000;
            var imm := inst / 0x400 % 0x1000 * if inst / 0x40_0000 % 2 == 1 then 0x1000 else 1;
            var n, d := inst / 0x20 % 32, inst % 32;
            var x := if n == 31 then cpu.regs.sp else cpu.regs.gpr[n];
            var result := (if op.isSub then x - imm else x + imm) % m;
            var after := AddSubImmResult(op, inst, cpu);
            && after == cpu.(regs := cpu.regs.(gpr := after.regs.gpr, sp := after.regs.sp, flags := after.regs.flags))
            && after.regs.gpr == (if d == 31 then cpu.regs.gpr else cpu.regs.gpr[d := result])
            && after.regs.sp == (if d == 31 && !op.updatesFlags then result else cpu.regs.sp)
            && (!op.updatesFlags ==> after.regs.flags == cpu.regs.flags)
  {
    hide AddWithCarry;
    var x := if Rn(inst) == 31 then cpu.regs.sp else cpu.regs.gpr[Rn(inst)];
    ApplyMeaning(op, cpu.regs.flags, x, Immediate(inst), if op.isSub then 1 else 0);
  }

  /** Whether `decodeAddSubShifted` takes the word. */
  predicate AddSubShiftedWord(inst: Word32, is64: bool) {
    inst / 0x40_0000 % 4 != 3 && Imms(inst) < Width(is64)
  }

  method AddSubShiftedReg(core: Core, inst: Word32, op: Additive)
    requires core.Valid() && AddSubShiftedWord(inst, op.is64)
    modifies core`flags, core.gpr
    ensures var v := old(core.View());
            var y := Shift(v.regs.gpr[Rm(inst)], SHIFT_TYPES[inst / 0x40_0000 % 4], Imms(inst), Width(op.is64));
            var (result, f) := op.Apply(v.regs.flags, v.regs.gpr[Rn(inst)], y, if op.isSub then 1 else 0);
            core.View() == v.(regs := v.regs.(flags := f)).Set(Rd(inst), result)
  {
    hide AddWithCarry, Shift;
    var operand1, operand2 := core.gpr[Rn(inst)], core.gpr[Rm(inst)];
    operand2 := Shift(operand2, SHIFT_TYPES[inst / 0x40_0000 % 4], Imms(inst), Width(op.is64));
    if op.isSub {
      operand2 := Complement(operand2);
    }
    var (result, f) := AddWithCarry(op.is64, operand1, operand2, if op.isSub then 1 else 0);
    if op.updatesFlags {
      core.flags := f;
    }
    core.gpr[Rd(inst)] := result;
  }

  method AddSubCarry(core: Core, inst: Word32, op: Additive)
    requires core.Valid()
    modifies core`flags, core.gpr
    ensures var v := old(core.View());
            var (result, f) :=
              op.Apply(v.regs.flags, v.regs.gpr[Rn(inst)], v.regs.gpr[Rm(inst)], if v.regs.flags.c then 1 else 0);
            core.View() == v.(regs := v.regs.(flags := f)).Set(Rd(inst), result)
  {
    hide AddWithCarry;
    var operand1, operand2 := core.gpr[Rn(inst)], core.gpr[Rm(inst)];
    if op.isSub {
      operand2 := Complement(operand2);
    }
    var (result, f) := AddWithCarry(op.is64, operand1, operand2, if core.flags.c then 1 else 0);
    if op.updatesFlags {
      core.flags := f;
    }
    core.gpr[Rd(inst)] := result;
  }

  /** LSLV, LSRV, ASRV and RORV: the amount is taken modulo the width, and every bit of the result is its source bit. */
  method ShiftVariable(core: Core, inst: Word32, is64: bool)
    requires core.Valid()
    modifies core.gpr
    ensures core.View() == old(core.View()).Set(Rd(inst), core.gpr[Rd(inst)])
    ensures core.gpr[Rd(inst)] < Modulus(is64)
    ensures var amount := old(core.gpr[Rm(inst)]) % Width(is64);
            forall i: nat | i < Width(is64) ::
              Bit(core.gpr[Rd(inst)], i) <==>
              ShiftedBit(old(core.gpr[Rn(inst)]), SHIFT_TYPES[inst / 0x400 % 4], amount, Width(is64), i)
  {
    hide Shift, ShiftedBit, Low32, Bit;
    var shiftType := SHIFT_TYPES[inst / 0x400 % 4];
    var shiftAmount := core.gpr[Rm(inst)] % Width(is64);
    var operand := core.gpr[Rn(inst)];
    ghost var x := operand;
    if !is64 {
      operand := Low32(operand);
    }
    var res := Shift(operand, shiftType, shiftAmount, Width(is64));
    if !is64 {
      res := Low32(res);
    }
    ShiftedWord(is64, x, shiftType, shiftAmount);
    core.gpr[Rd(inst)] := res;
  }

  /** The shift that each two-bit value of the field selects, by the bit that ends up at position `i`. */
  lemma ShiftFieldMeaning(field: nat, val: Word64, amount: nat, bits: nat, i: nat)
    requires field < 4 && amount < bits && i < bits
    ensures ShiftedBit(val, SHIFT_TYPES[field], amount, bits, i) <==>
            if field == 0 then i >= amount && Bit(val, i - amount)
            else if i + amount < bits then Bit(val, i + amount)
            else if field == 1 then false
            else if field == 2 then Bit(val, bits - 1)
            else Bit(val, i + amount - bits)
  {
  }

  lemma ShiftedWord(is64: bool, x: Word64, t: ShiftType, amount: nat)
    requires amount < Width(is64)
    ensures var res := if is64 then Shift(x, t, amount, 64) else Low32(Shift(Low32(x), t, amount, 32));
            && res < Modulus(is64)
            && forall i: nat | i < Width(is64) :: Bit(res, i) <==> ShiftedBit(x, t, amount, Width(is64), i)
  {
    hide Shift, ShiftedBit, Low32, Bit;
    forall i: nat | i < Width(is64)
      ensures var res := if is64 then Shift(x, t, amount, 64) else Low32(Shift(Low32(x), t, amount, 32));
              Bit(res, i) <==> ShiftedBit(x, t, amount, Width(is64), i)
    {
      if is64 {
        WordBound(x);
        ShiftMeaning(x, t, amount, 64, i);
      } else {
        MaskedBit(x, t, amount, i);
      }
    }
  }

  /**
   * A compare with an immediate followed by a conditional branch or select: after SUBS the condition codes compare
   * the source operand, which may be the stack pointer, with the immediate.
   */
  lemma CompareImmediate(is64: bool, inst: Word32, cpu: Cpu)
    ensures var after := AddSubImmResult(Additive(is64, true, true), inst, cpu);
            var x := if Rn(inst) == 31 then cpu.regs.sp else cpu.regs.gpr[Rn(inst)];
            var f, ux, sx, imm := after.regs.flags, Unsigned(is64, x), Signed(is64, x), Immediate(inst);
            && after.regs.sp == cpu.regs.sp
            && (TestCondition(f, EQ) <==> ux == imm)
            && (TestCondition(f, CS) <==> ux >= imm) && (TestCondition(f, CC) <==> ux < imm)
            && (TestCondition(f, HI) <==> ux > imm) && (TestCondition(f, LS) <==> ux <= imm)
            && (TestCondition(f, GE) <==> sx >= imm) && (TestCondition(f, LT) <==> sx < imm)
            && (TestCondition(f, GT) <==> sx > imm) && (TestCondition(f, LE) <==> sx <= imm)
  {
    hide AddWithCarry, Signed, Unsigned, TestCondition;
    var x := if Rn(inst) == 31 then cpu.regs.sp else cpu.regs.gpr[Rn(inst)];
    SubtractSetsConditions(is64, x, Immediate(inst));
    ImmediateIsSmall(is64, Immediate(inst));
  }

  lemma ImmediateIsSmall(is64: bool, imm: Word64)
    requires imm < 0x100_0000
    ensures Unsigned(is64, imm) == imm == Signed(is64, imm)
  {
  }
}
