/** Branch instructions: decoding, the predicate that ends a JIT block, and the handlers that write `nextPC`. */
module Branches {
  import opened Words
  import opened Bits
  import opened Cores
  import opened Fields
  import opened Conditions

  datatype BranchId =
    | B_cond | BR | BLR | RET | ERET | DRPS | B | BL
    | CBZ_32 | CBNZ_32 | CBZ_64 | CBNZ_64 | TBZ | TBNZ

  // Branch operands.

  function Cond(inst: Word32): Condition { CONDITIONS[inst % 16] }

  function TestedBit(inst: Word32): (b: nat)
    ensures b < 64
  {
    inst / 0x8_0000 % 32 + 32 * (inst / 0x8000_0000)
  }

  /** `decode` restricted to the branches: `None` stands for every other instruction id. */
  function DecodeBranch(inst: Word32): Option<BranchId> {
    if inst / 0x200_0000 % 16 != 10 && inst / 0x200_0000 % 16 != 11 then None
    else
      var op0, op1 := inst / 0x2000_0000, inst / 0x40_0000 % 16;
      if op0 == 2 then
        if op1 < 8 && inst / 0x10 % 2 == 0 && inst / 0x100_0000 % 2 == 0 then Some(B_cond) else None
      else if op0 == 6 then
        if op1 > 7 then DecodeBranchReg(inst) else None
      else if op0 == 0 then Some(B)
      else if op0 == 4 then Some(BL)
      else if op0 == 1 || op0 == 5 then
        var negate := inst / 0x100_0000 % 2 == 1;
        if op1 < 8 then
          if op0 == 5 then (if negate then Some(CBNZ_64) else Some(CBZ_64))
          else (if negate then Some(CBNZ_32) else Some(CBZ_32))
        else if negate then Some(TBNZ) else Some(TBZ)
      else None
  }

  function DecodeBranchReg(inst: Word32): Option<BranchId> {
    var opc := inst / 0x20_0000 % 16;
    if inst / 0x1_0000 % 32 != 31 || inst / 0x400 % 64 != 0 || inst % 32 != 0 then None
    else if opc == 0 then Some(BR)
    else if opc == 1 then Some(BLR)
    else if opc == 2 then Some(RET)
    else if opc == 4 && Rn(inst) == 31 then Some(ERET)
    else if opc == 5 && Rn(inst) == 31 then Some(DRPS)
    else None
  }

  /** `meta::isBranch` of the decoded id. */
  predicate IsBranch(inst: Word32) {
    DecodeBranch(inst).Some?
  }

  /** `signExtend` of a value below `2 * half`, whose sign bit weighs `half`. */
  function SignExtend(x: nat, half: nat): (off: Word64)
    requires x < 2 * half <= 0x1000_0000
  {
    if x >= half then x + TWO64 - 2 * half else x
  }

  /** The displacement of a PC-relative branch, as an unsigned 64-bit addend. */
  function Offset(id: BranchId, inst: Word32): Word64 {
    match id
    case B | BL => SignExtend(inst % 0x400_0000 * 4, 0x800_0000)
    case TBZ | TBNZ => SignExtend(inst / 0x20 % 0x4000 * 4, 0x8000)
    case _ => SignExtend(inst / 0x20 % 0x8_0000 * 4, 0x10_0000)
  }

  predicate CompareTaken(cpu: Cpu, inst: Word32, is64: bool, negate: bool) {
    var operand := if is64 then cpu.regs.gpr[Rt(inst)] else Low32(cpu.regs.gpr[Rt(inst)]);
    (operand == 0) != negate
  }

  predicate BitTaken(cpu: Cpu, inst: Word32, negate: bool) {
    Bit(cpu.regs.gpr[Rt(inst)], TestedBit(inst)) != negate
  }

  /** The effect of a branch handler, given that the caller has set `nextPC` to the following instruction. */
  function Branch(id: BranchId, inst: Word32, cpu: Cpu): Cpu {
    var target := Add64(cpu.pc, Offset(id, inst));
    match id
    case B_cond => if TestCondition(cpu.regs.flags, Cond(inst)) then cpu.(nextPC := target) else cpu
    case BR | RET => cpu.(nextPC := cpu.regs.gpr[Rn(inst)])
    case BLR => cpu.Set(30, Add64(cpu.pc, 4)).(nextPC := cpu.regs.gpr[Rn(inst)])
    case ERET | DRPS => cpu
    case B => cpu.(nextPC := target)
    case BL => cpu.Set(30, Add64(cpu.pc, 4)).(nextPC := target)
    case CBZ_32 => if CompareTaken(cpu, inst, false, false) then cpu.(nextPC := target) else cpu
    case CBNZ_32 => if CompareTaken(cpu, inst, false, true) then cpu.(nextPC := target) else cpu
    case CBZ_64 => if CompareTaken(cpu, inst, true, false) then cpu.(nextPC := target) else cpu
    case CBNZ_64 => if CompareTaken(cpu, inst, true, true) then cpu.(nextPC := target) else cpu
    case TBZ => if BitTaken(cpu, inst, true) then cpu.(nextPC := target) else cpu
    case TBNZ => if BitTaken(cpu, inst, false) then cpu.(nextPC := target) else cpu
  }

  // What decoding and the handlers mean, in terms of the bits of the word and of plain integers.

  /** The words of each branch, by their fixed bits. */
  lemma DecodeMeaning(inst: Word32)
    ensures DecodeBranch(inst) == Some(B) <==> inst / 0x400_0000 == 0x05
    ensures DecodeBranch(inst) == Some(BL) <==> inst / 0x400_0000 == 0x25
    ensures DecodeBranch(inst) == Some(B_cond) <==> inst / 0x100_0000 == 0x54 && inst / 0x10 % 2 == 0
    ensures DecodeBranch(inst) == Some(CBZ_32) <==> inst / 0x100_0000 == 0x34
    ensures DecodeBranch(inst) == Some(CBNZ_32) <==> inst / 0x100_0000 == 0x35
    ensures DecodeBranch(inst) == Some(CBZ_64) <==> inst / 0x100_0000 == 0xB4
    ensures DecodeBranch(inst) == Some(CBNZ_64) <==> inst / 0x100_0000 == 0xB5
    ensures DecodeBranch(inst) == Some(TBZ) <==> inst / 0x100_0000 == 0x36 || inst / 0x100_0000 == 0xB6
    ensures DecodeBranch(inst) == Some(TBNZ) <==> inst / 0x100_0000 == 0x37 || inst / 0x100_0000 == 0xB7
  {
    TopByte(inst);
    MiddleDigit(inst);
    TopSix(inst);
  }

  /** The opcode byte in the parts that the decoder looks at. */
  lemma TopByte(inst: Word32)
    ensures inst / 0x100_0000 ==
            32 * (inst / 0x2000_0000) + 2 * (inst / 0x200_0000 % 16) + inst / 0x100_0000 % 2
    ensures inst / 0x2000_0000 < 8
  {
    DivDiv(inst, 0x100_0000, 2);
    DivDiv(inst, 0x200_0000, 16);
  }

  lemma TopSix(inst: Word32)
    ensures inst / 0x400_0000 == inst / 0x100_0000 / 4
  {
    DivDiv(inst, 0x100_0000, 4);
  }

  lemma MiddleDigit(inst: Word32)
    ensures inst / 0x40_0000 % 16 < 8 <==> inst / 0x200_0000 % 2 == 0
    ensures inst / 0x200_0000 % 2 == inst / 0x200_0000 % 16 % 2
  {
    DivDiv(inst, 0x40_0000, 8);
    EightOfSixteen(inst / 0x40_0000);
    EvenOfSixteen(inst / 0x200_0000);
  }

  lemma EightOfSixteen(x: nat)
    ensures x % 16 < 8 <==> x / 8 % 2 == 0
  {
  }

  lemma EvenOfSixteen(x: nat)
    ensures x % 2 == x % 16 % 2
  {
    var q, r := x / 16, x % 16;
    ModUnique(x, 2, 8 * q + r / 2, r % 2);
  }

  lemma DivDiv(x: nat, a: nat, b: nat)
    requires a > 0 && b > 0
    ensures x / a / b == x / (a * b)
  {
    var q := x / a;
    var r := q % b * a + x % a;
    assert x == q * a + x % a && q == q / b * b + q % b;
    assert x == q / b * (a * b) + r;
    assert r < a * b by { MulMonotonic(q % b + 1, b, a); }
    ModUnique(x, a * b, q / b, r);
  }

  /** The branches to a register: everything but the register is fixed. */
  lemma DecodeRegMeaning(inst: Word32)
    ensures DecodeBranch(inst) == Some(BR) <==> inst == 0xD61F_0000 + 0x20 * (inst / 0x20 % 32)
    ensures DecodeBranch(inst) == Some(BLR) <==> inst == 0xD63F_0000 + 0x20 * (inst / 0x20 % 32)
    ensures DecodeBranch(inst) == Some(RET) <==> inst == 0xD65F_0000 + 0x20 * (inst / 0x20 % 32)
    ensures DecodeBranch(inst) == Some(ERET) <==> inst == 0xD69F_03E0
    ensures DecodeBranch(inst) == Some(DRPS) <==> inst == 0xD6BF_03E0
  {
    hide DecodeBranch;
    RegDigits(inst);
    RegGroup(inst);
  }

  lemma RegGroup(inst: Word32)
    ensures if inst / 0x200_0000 == 0x6B then DecodeBranch(inst) == DecodeBranchReg(inst)
            else forall id :: DecodeBranch(inst) == Some(id) ==> id !in {BR, BLR, RET, ERET, DRPS}
  {
    MiddleDigit(inst);
    DivDiv(inst, 0x200_0000, 16);
  }

  lemma RegDigits(inst: Word32)
    ensures inst == 0x200_0000 * (inst / 0x200_0000) + 0x20_0000 * (inst / 0x20_0000 % 16)
                    + 0x1_0000 * (inst / 0x1_0000 % 32) + 0x400 * (inst / 0x400 % 64)
                    + 0x20 * (inst / 0x20 % 32) + inst % 32
  {
    DivDiv(inst, 0x20, 32);
    DivDiv(inst, 0x400, 64);
    DivDiv(inst, 0x1_0000, 32);
    DivDiv(inst, 0x20_0000, 16);
  }

  /** The words that end a block: every branch of `meta::isBranch`, by its fixed bits, and no other word. */
  lemma IsBranchMeaning(inst: Word32)
    ensures IsBranch(inst) <==>
            || inst / 0x400_0000 in {0x05, 0x25}
            || (inst / 0x100_0000 == 0x54 && inst / 0x10 % 2 == 0)
            || inst / 0x100_0000 in {0x34, 0x35, 0x36, 0x37, 0xB4, 0xB5, 0xB6, 0xB7}
            || (inst - 0x20 * (inst / 0x20 % 32)) in {0xD61F_0000, 0xD63F_0000, 0xD65F_0000}
            || inst in {0xD69F_03E0, 0xD6BF_03E0}
  {
    hide DecodeBranch;
    DecodeMeaning(inst);
    DecodeRegMeaning(inst);
    if DecodeBranch(inst).Some? {
      EveryBranch(DecodeBranch(inst).value);
    }
  }

  lemma EveryBranch(id: BranchId)
    ensures id in {B_cond, BR, BLR, RET, ERET, DRPS, B, BL, CBZ_32, CBNZ_32, CBZ_64, CBNZ_64, TBZ, TBNZ}
  {
  }

  /** B and BL go to PC plus four times the number that the low 26 bits encode in two's complement. */
  lemma ImmediateMeaning(id: BranchId, inst: Word32, cpu: Cpu, s: int)
    requires id in {B, BL} && -0x200_0000 <= s < 0x200_0000 && (inst - s) % 0x400_0000 == 0
    ensures var after := Branch(id, inst, cpu);
            && after.nextPC == (cpu.pc + 4 * s) % 0x1_0000_0000_0000_0000
            && after.regs.gpr == (if id == BL then cpu.regs.gpr[30 := (cpu.pc + 4) % 0x1_0000_0000_0000_0000] else cpu.regs.gpr)
            && after == cpu.(nextPC := after.nextPC, regs := cpu.regs.(gpr := after.regs.gpr))
  {
    var low := inst % 0x400_0000;
    assert low == if s < 0 then s + 0x400_0000 else s;
  }

  /** B.cond goes to PC plus four times the number in bits 5 to 23 if the condition holds, and nowhere otherwise. */
  lemma CondMeaning(inst: Word32, cpu: Cpu, s: int)
    requires -0x4_0000 <= s < 0x4_0000 && (inst / 0x20 - s) % 0x8_0000 == 0
    ensures Branch(B_cond, inst, cpu) ==
            if TestCondition(cpu.regs.flags, CONDITIONS[inst % 16])
            then cpu.(nextPC := (cpu.pc + 4 * s) % 0x1_0000_0000_0000_0000) else cpu
  {
    NineteenBits(inst, s);
  }

  lemma NineteenBits(inst: Word32, s: int)
    requires -0x4_0000 <= s < 0x4_0000 && (inst / 0x20 - s) % 0x8_0000 == 0
    ensures inst / 0x20 % 0x8_0000 == if s < 0 then s + 0x8_0000 else s
  {
  }

  /** CBZ branches exactly if its operand, at its width, is zero, and CBNZ exactly if it is not. */
  lemma CompareMeaning(id: BranchId, inst: Word32, cpu: Cpu, s: int)
    requires id in {CBZ_32, CBNZ_32, CBZ_64, CBNZ_64}
    requires -0x4_0000 <= s < 0x4_0000 && (inst / 0x20 - s) % 0x8_0000 == 0
    ensures var x := cpu.regs.gpr[inst % 32];
            var zero := if id in {CBZ_64, CBNZ_64} then x == 0 else x % 0x1_0000_0000 == 0;
            Branch(id, inst, cpu) ==
            if zero == (id in {CBZ_32, CBZ_64})
            then cpu.(nextPC := (cpu.pc + 4 * s) % 0x1_0000_0000_0000_0000) else cpu
  {
    NineteenBits(inst, s);
  }

  /** TBZ branches exactly if the tested bit is clear, and TBNZ exactly if it is set; bit 31 is the top of its number. */
  lemma TestBitMeaning(id: BranchId, inst: Word32, cpu: Cpu, s: int)
    requires id in {TBZ, TBNZ} && -0x2000 <= s < 0x2000 && (inst / 0x20 - s) % 0x4000 == 0
    ensures var bit := inst / 0x8_0000 % 32 + 32 * (inst / 0x8000_0000);
            Branch(id, inst, cpu) ==
            if Bit(cpu.regs.gpr[inst % 32], bit) == (id == TBNZ)
            then cpu.(nextPC := (cpu.pc + 4 * s) % 0x1_0000_0000_0000_0000) else cpu
  {
    assert inst / 0x20 % 0x4000 == if s < 0 then s + 0x4000 else s;
  }

  /** BR, RET and BLR go to the old value of their register, also when BLR overwrites it; ERET and DRPS do nothing. */
  lemma RegisterMeaning(id: BranchId, inst: Word32, cpu: Cpu)
    ensures id in {BR, RET} ==> Branch(id, inst, cpu) == cpu.(nextPC := cpu.regs.gpr[inst / 0x20 % 32])
    ensures id == BLR ==>
              Branch(id, inst, cpu) ==
              cpu.(nextPC := cpu.regs.gpr[inst / 0x20 % 32],
                   regs := cpu.regs.(gpr := cpu.regs.gpr[30 := (cpu.pc + 4) % 0x1_0000_0000_0000_0000]))
    ensures id in {ERET, DRPS} ==> Branch(id, inst, cpu) == cpu
  {
  }

  /** No branch touches anything but the registers and `nextPC`. */
  lemma BranchFrame(id: BranchId, inst: Word32, cpu: Cpu)
    ensures var after := Branch(id, inst, cpu);
            after == cpu.(nextPC := after.nextPC, regs := cpu.regs.(gpr := after.regs.gpr))
  {
  }

  // Handlers.

  method CondBranch(core: Core, inst: Word32)
    requires core.Valid()
    modifies core`nextPC
    ensures core.View() == Branch(B_cond, inst, old(core.View()))
  {
    var off := Offset(B_cond, inst);
    if TestCondition(core.flags, Cond(inst)) {
      core.nextPC := Add64(core.pc, off);
    }
  }

  method UncondBranchReg(core: Core, inst: Word32, link: bool)
    requires core.Valid()
    modifies core`nextPC, core.gpr
    ensures core.View() == Branch(if link then BLR else BR, inst, old(core.View()))
    ensures core.View() == Branch(if link then BLR else RET, inst, old(core.View()))
  {
    var addr := core.gpr[Rn(inst)];
    if link {
      core.gpr[30] := Add64(core.pc, 4);
    }
    core.nextPC := addr;
  }

  method UncondBranchImm(core: Core, inst: Word32, link: bool)
    requires core.Valid()
    modifies core`nextPC, core.gpr
    ensures core.View() == Branch(if link then BL else B, inst, old(core.View()))
  {
    var off := Offset(B, inst);
    if link {
      core.gpr[30] := Add64(core.pc, 4);
    }
    core.nextPC := Add64(core.pc, off);
  }

  method CompareBranch(core: Core, inst: Word32, is64: bool, negate: bool)
    requires core.Valid()
    modifies core`nextPC
    ensures var id := if is64 then (if negate then CBNZ_64 else CBZ_64) else (if negate then CBNZ_32 else CBZ_32);
            core.View() == Branch(id, inst, old(core.View()))
  {
    var operand: int := core.gpr[Rt(inst)];
    if !is64 {
      operand := Low32(operand);
    }
    var cond := operand == 0;
    if negate {
      cond := !cond;
    }
    if cond {
      core.nextPC := Add64(core.pc, Offset(CBZ_64, inst));
    }
  }

  method TestBitBranch(core: Core, inst: Word32, negate: bool)
    requires core.Valid()
    modifies core`nextPC
    ensures core.View() == Branch(if negate then TBZ else TBNZ, inst, old(core.View()))
  {
    var cond := Bit(core.gpr[Rt(inst)], TestedBit(inst));
    if negate {
      cond := !cond;
    }
    if cond {
      core.nextPC := Add64(core.pc, Offset(TBZ, inst));
    }
  }

  /** The table that `registerBranchInstructions` fills; ERET and DRPS map to a handler that only logs. */
  method ExecuteBranch(core: Core, id: BranchId, inst: Word32)
    requires core.Valid()
    modifies core`nextPC, core.gpr
    ensures core.View() == Branch(id, inst, old(core.View()))
  {
    match id
    case B_cond => CondBranch(core, inst);
    case BR => UncondBranchReg(core, inst, false);
    case BLR => UncondBranchReg(core, inst, true);
    case RET => UncondBranchReg(core, inst, false);
    case ERET =>
    case DRPS =>
    case B => UncondBranchImm(core, inst, false);
    case BL => UncondBranchImm(core, inst, true);
    case CBZ_32 => CompareBranch(core, inst, false, false);
    case CBNZ_32 => CompareBranch(core, inst, false, true);
    case CBZ_64 => CompareBranch(core, inst, true, false);
    case CBNZ_64 => CompareBranch(core, inst, true, true);
    case TBZ => TestBitBranch(core, inst, true);
    case TBNZ => TestBitBranch(core, inst, false);
  }
}
