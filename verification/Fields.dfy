/** The fields of an instruction word that the modelled handlers read. */
module Fields {
  import opened Words
  import opened Bits
  import opened Cores

  function Rd(inst: Word32): Reg { inst % 32 }

  /** The data register of a load, a store or a test; the same bits as `Rd`. */
  function Rt(inst: Word32): Reg { Rd(inst) }

  function Rn(inst: Word32): Reg { inst / 0x20 % 32 }

  function Rm(inst: Word32): Reg { inst / 0x1_0000 % 32 }

  /** The status register of a store exclusive; the same bits as `Rm`. */
  function Rs(inst: Word32): Reg { Rm(inst) }

  function Ra(inst: Word32): Reg { inst / 0x400 % 32 }

  /** The second data register of a pair; the same bits as `Ra`. */
  function Rt2(inst: Word32): Reg { Ra(inst) }

  function Imms(inst: Word32): (s: nat)
    ensures s < 64
  {
    inst / 0x400 % 64
  }

  function Immr(inst: Word32): (r: nat)
    ensures r < 64
  {
    inst / 0x1_0000 % 64
  }

  function Imm12(inst: Word32): (i: nat)
    ensures i < 0x1000
  {
    inst / 0x400 % 0x1000
  }

  lemma LowFive(x: nat, low: nat, rest: nat)
    requires x == low + 0x40 * rest
    ensures x % 32 == low % 32
  {
    ModUnique(x, 32, low / 32 + 2 * rest, low % 32);
  }

  /** The fields of a word put together from its parts, from the lowest bits up, are the parts. */
  lemma FieldsOfParts(rd: Reg, rn: Reg, low: nat, high: nat, top: nat, inst: Word32)
    requires low < 64 && high < 64 && top < 0x400
    requires inst == rd + 0x20 * rn + 0x400 * low + 0x1_0000 * high + 0x40_0000 * top
    ensures Rd(inst) == Rt(inst) == rd && Rn(inst) == rn
    ensures Ra(inst) == Rt2(inst) == low % 32 && Rm(inst) == Rs(inst) == high % 32
    ensures Imms(inst) == low && Immr(inst) == high && Imm12(inst) == low + 64 * high
  {
    var afterLow := high + 0x40 * top;
    var afterRn := low + 0x40 * afterLow;
    var afterRd := rn + 0x20 * afterRn;
    ModUnique(inst, 0x20, afterRd, rd);
    ModUnique(afterRd, 0x20, afterRn, rn);
    ModUnique(inst, 0x400, afterRn, rd + 0x20 * rn);
    ModUnique(afterRn, 0x40, afterLow, low);
    ModUnique(afterRn, 0x1000, top, low + 0x40 * high);
    ModUnique(inst, 0x1_0000, afterLow, rd + 0x20 * rn + 0x400 * low);
    ModUnique(afterLow, 0x40, top, high);
    LowFive(afterRn, low, afterLow);
    LowFive(afterLow, high, top);
  }
}
