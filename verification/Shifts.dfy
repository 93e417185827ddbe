/** `shift` and `signExtend`, bit by bit. */
module Shifts {
  import opened Words
  import opened Bits

  datatype ShiftType = LSL | LSR | ASR | ROR

  lemma WordBound(x: nat)
    ensures x < Pow2(64) <==> x < 0x1_0000_0000_0000_0000
    ensures x < Pow2(32) <==> x < 0x1_0000_0000
  {
    Pow2Values();
  }

  /** `val << amount` on `uint64_t`. */
  function ShiftLeft(val: Word64, amount: nat): Word64 {
    TruncBound(Shl(val, amount), 64);
    WordBound(Trunc(Shl(val, amount), 64));
    Trunc(Shl(val, amount), 64)
  }

  function ShiftRight(val: Word64, amount: nat): Word64 {
    ShrBound(val, amount);
    Shr(val, amount)
  }

  function OrWord(x: Word64, y: Word64): Word64 {
    WordBound(x);
    WordBound(y);
    OrBound(x, y, 64);
    WordBound(Or(x, y));
    Or(x, y)
  }

  function AndWord(x: Word64, y: Word64): Word64 {
    AndBound(x, y);
    And(x, y)
  }

  /** `bitmask(size)`. */
  function Mask(size: nat): Word64
    requires size <= 64
  {
    OnesIsPow2(size);
    Pow2Monotonic(size, 64);
    WordBound(Ones(size));
    Ones(size)
  }

  /** `~bitmask(size)`. */
  function HighMask(size: nat): Word64
    requires size <= 64
  {
    WordBound(Ones(size));
    WordBound(Mask(size));
    NotIsComplement(Ones(size), 64);
    WordBound(Not(Ones(size), 64));
    Not(Ones(size), 64)
  }

  lemma {:induction false} Pow2Monotonic(m: nat, n: nat)
    requires m <= n
    ensures Pow2(m) <= Pow2(n)
    decreases n
  {
    if m < n { Pow2Monotonic(m, n - 1); }
  }

  function SignExtend(val: Word64, size: nat): Word64
    requires 0 < size <= 64
  {
    if Bit(val, size - 1) then OrWord(val, HighMask(size)) else val
  }

  function Shift(val: Word64, t: ShiftType, amount: nat, bits: nat): Word64
    requires amount < bits <= 64
  {
    if amount == 0 then val
    else match t
      case LSL => ShiftLeft(val, amount)
      case LSR => ShiftRight(val, amount)
      case ASR => SignExtend(ShiftRight(val, amount), bits - amount)
      case ROR => OrWord(ShiftRight(val, amount), ShiftLeft(val, bits - amount))
  }

  lemma BitLeft(val: Word64, amount: nat, i: nat)
    ensures Bit(ShiftLeft(val, amount), i) <==> amount <= i < 64 && Bit(val, i - amount)
  {
    BitTrunc(Shl(val, amount), 64, i);
    BitShl(val, amount, i);
  }

  lemma BitRight(val: Word64, amount: nat, i: nat)
    ensures Bit(ShiftRight(val, amount), i) <==> Bit(val, i + amount)
  {
    BitShr(val, amount, i);
  }

  lemma BitOrWord(x: Word64, y: Word64, i: nat)
    ensures Bit(OrWord(x, y), i) <==> Bit(x, i) || Bit(y, i)
  {
    BitOr(x, y, i);
  }

  lemma BitAndWord(x: Word64, y: Word64, i: nat)
    ensures Bit(AndWord(x, y), i) <==> Bit(x, i) && Bit(y, i)
  {
    BitAnd(x, y, i);
  }

  lemma BitMask(size: nat, i: nat)
    requires size <= 64
    ensures Bit(Mask(size), i) <==> i < size
  {
    BitOnes(size, i);
  }

  lemma BitHighMask(size: nat, i: nat)
    requires size <= 64
    ensures Bit(HighMask(size), i) <==> size <= i < 64
  {
    BitNot(Ones(size), 64, i);
    BitOnes(size, i);
  }

  lemma BitSignExtend(val: Word64, size: nat, i: nat)
    requires 0 < size <= 64 && i < 64
    ensures Bit(SignExtend(val, size), i) <==> Bit(val, i) || (i >= size && Bit(val, size - 1))
  {
    if Bit(val, size - 1) {
      BitOrWord(val, HighMask(size), i);
      BitHighMask(size, i);
    }
  }

  /** Sign extension keeps the signed value of the low `size` bits. */
  lemma SignExtendValue(val: Word64, size: nat)
    requires 0 < size <= 64 && val < Pow2(size)
    ensures Signed64(SignExtend(val, size)) == if Bit(val, size - 1) then val - Pow2(size) else val
  {
    hide SignExtend;
    if Bit(val, size - 1) {
      SignExtendAdds(val, size);
      HighMaskValue(size);
    } else {
      SignExtendIdle(val, size);
    }
    Pow2Monotonic(size - 1, 63);
    Pow2Values();
    assert Pow2(64) == 2 * Pow2(63);
    TopBitIsHalf(val, size);
  }

  lemma SignExtendIdle(val: Word64, size: nat)
    requires 0 < size <= 64 && !Bit(val, size - 1)
    ensures SignExtend(val, size) == val
  {
  }

  lemma SignExtendAdds(val: Word64, size: nat)
    requires 0 < size <= 64 && val < Pow2(size) && Bit(val, size - 1)
    ensures SignExtend(val, size) == val + HighMask(size)
  {
    hide HighMask, OrWord, Bit, Ones, Shl, Pow2;
    var w, sum := SignExtend(val, size), val + HighMask(size);
    HighMaskIsShl(size);
    HighMaskValue(size);
    WordBound(w);
    WordBound(sum);
    forall i: nat | i < 64
      ensures Bit(w, i) == Bit(sum, i)
    {
      BitSignExtend(val, size, i);
      BitConcat(val, Ones(64 - size), size, i);
      if i >= size {
        BitOnes(64 - size, i - size);
        BitBound(val, size, i);
      }
    }
    SameBits(w, sum, 64);
  }

  lemma {:induction false} TopBitIsHalf(val: nat, size: nat)
    requires 0 < size && val < Pow2(size)
    ensures Bit(val, size - 1) <==> val >= Pow2(size - 1)
    decreases size
  {
    if size > 1 { TopBitIsHalf(val / 2, size - 1); }
  }

  lemma HighMaskValue(size: nat)
    requires size <= 64
    ensures HighMask(size) == Pow2(64) - Pow2(size)
  {
    hide Pow2, Ones, Not;
    WordBound(Mask(size));
    NotIsComplement(Ones(size), 64);
    OnesIsPow2(size);
  }

  lemma HighMaskIsShl(size: nat)
    requires size <= 64
    ensures HighMask(size) == Shl(Ones(64 - size), size)
  {
    hide HighMask, Shl, Ones, Pow2;
    HighMaskValue(size);
    ShlIsMul(Ones(64 - size), size);
    OnesIsPow2(64 - size);
    Pow2Add(64 - size, size);
    OneLessTimes(Pow2(64 - size), Pow2(size));
  }

  lemma OneLessTimes(a: int, b: int)
    ensures (a - 1) * b == a * b - b
  {
  }

  /** The bit that ends up at position `i` of a shift by `amount` on a word of `bits` bits. */
  predicate ShiftedBit(val: Word64, t: ShiftType, amount: nat, bits: nat, i: nat)
    requires amount < bits && i < bits
  {
    match t
    case LSL => i >= amount && Bit(val, i - amount)
    case LSR => i + amount < bits && Bit(val, i + amount)
    case ASR => if i + amount < bits then Bit(val, i + amount) else Bit(val, bits - 1)
    case ROR => if i + amount < bits then Bit(val, i + amount) else Bit(val, i + amount - bits)
  }

  /** `shift` shifts, on operands that fit the width. */
  lemma ShiftMeaning(val: Word64, t: ShiftType, amount: nat, bits: nat, i: nat)
    requires bits in {32, 64} && val < Pow2(bits) && amount < bits && i < bits
    ensures Bit(Shift(val, t, amount, bits), i) <==> ShiftedBit(val, t, amount, bits, i)
  {
    hide ShiftLeft, ShiftRight, OrWord, SignExtend, Bit, Pow2;
    if amount > 0 {
      BitRight(val, amount, i);
      if i + amount >= bits { BitBound(val, bits, i + amount); }
      match t {
        case LSL => BitLeft(val, amount, i);
        case LSR =>
        case ASR =>
          BitSignExtend(ShiftRight(val, amount), bits - amount, i);
          BitRight(val, amount, bits - amount - 1);
        case ROR =>
          BitOrWord(ShiftRight(val, amount), ShiftLeft(val, bits - amount), i);
          BitLeft(val, bits - amount, i);
      }
    }
  }

  /** Whether a bit that comes down from the upper half does no harm: `i` is its position. */
  predicate Harmless(val: Word64, t: ShiftType, i: nat)
    requires i >= 32
  {
    match t
    case LSL => true
    case LSR => false
    case ASR => Bit(val, 31)
    case ROR => Bit(val, i - 32)
  }

  ghost predicate UpperHalfHarmless(val: Word64, t: ShiftType, amount: nat) {
    forall i: nat | 32 <= i < 32 + amount && Bit(val, i) :: Harmless(val, t, i)
  }

  /**
   * The 32-bit shifted-register forms shift the whole register and truncate afterwards. That is the shift of the
   * low half exactly if every set bit that comes down from the upper half is harmless: always for LSL, never for
   * LSR, when the sign bit is set for ASR, and when it meets an equal bit for ROR.
   */
  lemma UnmaskedShiftExact(val: Word64, t: ShiftType, amount: nat)
    requires amount < 32
    ensures Low32(Shift(val, t, amount, 32)) == Low32(Shift(Low32(val), t, amount, 32))
            <==> UpperHalfHarmless(val, t, amount)
  {
    hide Shift, Low32, Bit, Pow2;
    var x, y := Low32(Shift(val, t, amount, 32)), Low32(Shift(Low32(val), t, amount, 32));
    WordBound(x);
    WordBound(y);
    forall i: nat | i < 32
      ensures Bit(x, i) == Bit(y, i) <==>
              (t == LSL || i + amount < 32 || !Bit(val, i + amount) || Harmless(val, t, i + amount))
    {
      UnmaskedBit(val, t, amount, i);
      MaskedBit(val, t, amount, i);
    }
    if UpperHalfHarmless(val, t, amount) {
      SameBits(x, y, 32);
    } else {
      var i: nat :| 32 <= i < 32 + amount && Bit(val, i) && !Harmless(val, t, i);
      assert Bit(x, i - amount) != Bit(y, i - amount);
    }
  }

  lemma BitLow32(val: Word64, i: nat)
    ensures Bit(Low32(val), i) <==> i < 32 && Bit(val, i)
  {
    Pow2Values();
    TruncIsMod(val, 32);
    BitTrunc(val, 32, i);
  }

  lemma MaskedBit(val: Word64, t: ShiftType, amount: nat, i: nat)
    requires amount < 32 && i < 32
    ensures Bit(Low32(Shift(Low32(val), t, amount, 32)), i) <==> ShiftedBit(val, t, amount, 32, i)
  {
    hide Shift, Low32, Bit, ShiftedBit, Pow2;
    BitLow32(Shift(Low32(val), t, amount, 32), i);
    WordBound(Low32(val));
    ShiftMeaning(Low32(val), t, amount, 32, i);
    LowHalfShifts(val, t, amount, i);
  }

  /** A 32-bit shift looks at the low half only. */
  lemma LowHalfShifts(val: Word64, t: ShiftType, amount: nat, i: nat)
    requires amount < 32 && i < 32
    ensures ShiftedBit(Low32(val), t, amount, 32, i) == ShiftedBit(val, t, amount, 32, i)
  {
    hide Low32, Bit;
    match t
    case LSL => if i >= amount { BitLow32(val, i - amount); }
    case LSR => BitLow32(val, i + amount);
    case ASR => BitLow32(val, if i + amount < 32 then i + amount else 31);
    case ROR => BitLow32(val, if i + amount < 32 then i + amount else i + amount - 32);
  }

  lemma UnmaskedBit(val: Word64, t: ShiftType, amount: nat, i: nat)
    requires amount < 32 && i < 32
    ensures Bit(Low32(Shift(val, t, amount, 32)), i) <==>
            ShiftedBit(val, t, amount, 32, i) || (t != LSL && i + amount >= 32 && Bit(val, i + amount))
  {
    hide ShiftLeft, ShiftRight, OrWord, SignExtend, Low32, Bit;
    BitLow32(Shift(val, t, amount, 32), i);
    if amount > 0 {
      BitRight(val, amount, i);
      match t {
        case LSL => BitLeft(val, amount, i);
        case LSR =>
        case ASR =>
          BitSignExtend(ShiftRight(val, amount), 32 - amount, i);
          BitRight(val, amount, 32 - amount - 1);
        case ROR =>
          BitOrWord(ShiftRight(val, amount), ShiftLeft(val, 32 - amount), i);
          BitLeft(val, 32 - amount, i);
      }
    }
  }
}
