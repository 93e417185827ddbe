/** `addWithCarry` and the additive instructions, against plain integers. */
module AddSub {
  import opened Words
  import opened Cores
  import opened Conditions

  /** `~x` on `uint64_t`. */
  function Complement(x: Word64): Word64 {
    0xFFFF_FFFF_FFFF_FFFF - x
  }

  /** Bit 63 or bit 31, whichever is the sign bit at this width. */
  predicate TopBit(is64: bool, x: Word64) {
    if is64 then x / 0x8000_0000_0000_0000 % 2 == 1 else x / 0x8000_0000 % 2 == 1
  }

  /** The bits below the sign bit. */
  function BelowTop(is64: bool, x: Word64): nat {
    if is64 then x % 0x8000_0000_0000_0000 else x % 0x8000_0000
  }

  /** `addWithCarry`: the result and the four flags, as the code computes them. */
  function AddWithCarry(is64: bool, op1: Word64, op2: Word64, carry: nat): (Word64, Flags)
    requires carry <= 1
  {
    var sum := Add64(Add64(op1, op2), carry);
    var result: Word64 := if is64 then sum else Low32(sum);
    var op1MSB, op2MSB, resMSB := TopBit(is64, op1), TopBit(is64, op2), TopBit(is64, result);
    var parMSB := TopBit(is64, BelowTop(is64, op1) + BelowTop(is64, op2) + carry);
    (result,
     Flags(resMSB,
           result == 0,
           (op1MSB && op2MSB) || (op1MSB && parMSB) || (op2MSB && parMSB),
           op1MSB == op2MSB && op1MSB != resMSB))
  }

  // What the operands mean at each width.

  function Modulus(is64: bool): nat {
    if is64 then 0x1_0000_0000_0000_0000 else 0x1_0000_0000
  }

  function Unsigned(is64: bool, x: Word64): nat {
    if is64 then x else Low32(x)
  }

  function Signed(is64: bool, x: Word64): int {
    if is64 then Signed64(x) else Signed32(Low32(x))
  }

  function Half(is64: bool): int {
    if is64 then 0x8000_0000_0000_0000 else 0x8000_0000
  }

  /** An operand is its sign bit and the bits below. */
  lemma SplitOperand(is64: bool, x: Word64)
    ensures BelowTop(is64, x) < Half(is64)
    ensures Unsigned(is64, x) == (if TopBit(is64, x) then Half(is64) else 0) + BelowTop(is64, x)
    ensures Signed(is64, x) == BelowTop(is64, x) - (if TopBit(is64, x) then Half(is64) else 0)
  {
  }

  /** Truncating a 64-bit sum leaves the sum of the low halves, truncated. */
  lemma Low32Sum(x: Word64, y: Word64, carry: nat)
    requires carry <= 1
    ensures var sum := Low32(x) + Low32(y) + carry;
            Low32(Add64(Add64(x, y), carry)) == if sum >= 0x1_0000_0000 then sum - 0x1_0000_0000 else sum
  {
    var i, j, k := x / 0x1_0000_0000, y / 0x1_0000_0000, Add64(Add64(x, y), carry) / 0x1_0000_0000;
    assert x == 0x1_0000_0000 * i + Low32(x) && y == 0x1_0000_0000 * j + Low32(y);
  }

  lemma ResultOf(is64: bool, op1: Word64, op2: Word64, carry: nat)
    requires carry <= 1
    ensures var sum := Unsigned(is64, op1) + Unsigned(is64, op2) + carry;
            AddWithCarry(is64, op1, op2, carry).0 == if sum >= Modulus(is64) then sum - Modulus(is64) else sum
  {
    Low32Sum(op1, op2, carry);
  }

  /** Result and flags against integer addition: the carry is the unsigned overflow, V the signed one. */
  lemma AddWithCarryMeaning(is64: bool, op1: Word64, op2: Word64, carry: nat)
    requires carry <= 1
    ensures var (r, f) := AddWithCarry(is64, op1, op2, carry);
            var sum := Unsigned(is64, op1) + Unsigned(is64, op2) + carry;
            && r < Modulus(is64)
            && r == (if f.c then sum - Modulus(is64) else sum)
            && (f.c <==> sum >= Modulus(is64))
            && (f.v <==> Signed(is64, r) != Signed(is64, op1) + Signed(is64, op2) + carry)
            && (f.n <==> Signed(is64, r) < 0)
            && (f.z <==> r == 0)
  {
    hide Signed, Unsigned, BelowTop, TopBit;
    var r := AddWithCarry(is64, op1, op2, carry).0;
    ResultOf(is64, op1, op2, carry);
    SplitOperand(is64, op1);
    SplitOperand(is64, op2);
    SplitOperand(is64, r);
    UnsignedFits(is64, op1);
    UnsignedFits(is64, op2);
    UnsignedOfResult(is64, r);
    PartialTop(is64, BelowTop(is64, op1) + BelowTop(is64, op2) + carry);
  }

  lemma UnsignedFits(is64: bool, x: Word64)
    ensures Unsigned(is64, x) < Modulus(is64)
  {
  }

  lemma UnsignedOfResult(is64: bool, r: Word64)
    requires r < Modulus(is64)
    ensures Unsigned(is64, r) == r
  {
  }

  lemma PartialTop(is64: bool, x: Word64)
    requires x < Modulus(is64)
    ensures TopBit(is64, x) <==> x >= Half(is64)
  {
  }

  // Comparison.

  /**
   * After a flag-setting subtraction every condition code is the comparison it is named after, at both widths and
   * for all operands.
   */
  lemma SubtractSetsConditions(is64: bool, a: Word64, b: Word64)
    ensures var f := AddWithCarry(is64, a, Complement(b), 1).1;
            var ua, ub, sa, sb := Unsigned(is64, a), Unsigned(is64, b), Signed(is64, a), Signed(is64, b);
            && (TestCondition(f, EQ) <==> ua == ub) && (TestCondition(f, NE) <==> ua != ub)
            && (TestCondition(f, CS) <==> ua >= ub) && (TestCondition(f, CC) <==> ua < ub)
            && (TestCondition(f, HI) <==> ua > ub) && (TestCondition(f, LS) <==> ua <= ub)
            && (TestCondition(f, GE) <==> sa >= sb) && (TestCondition(f, LT) <==> sa < sb)
            && (TestCondition(f, GT) <==> sa > sb) && (TestCondition(f, LE) <==> sa <= sb)
            && (TestCondition(f, MI) <==> Signed(is64, AddWithCarry(is64, a, Complement(b), 1).0) < 0)
            && (TestCondition(f, VS) <==> !(sa < sb + Half(is64) && sb <= sa + Half(is64)))
  {
    hide Signed, Unsigned, AddWithCarry;
    AddWithCarryMeaning(is64, a, Complement(b), 1);
    ComplementMeaning(is64, b);
    UnsignedFits(is64, a);
    UnsignedFits(is64, b);
    var r := AddWithCarry(is64, a, Complement(b), 1).0;
    SignedUnsigned(is64, a);
    SignedUnsigned(is64, b);
    SignedUnsigned(is64, r);
    UnsignedOfResult(is64, r);
  }

  /** Which comparison each four-bit condition code is after a flag-setting subtraction, whatever the operands. */
  lemma ConditionCodes(is64: bool, a: Word64, b: Word64, code: nat)
    requires code < 16
    ensures var (r, f) := AddWithCarry(is64, a, Complement(b), 1);
            var ua, ub, sa, sb := Unsigned(is64, a), Unsigned(is64, b), Signed(is64, a), Signed(is64, b);
            var fits := sa < sb + Half(is64) && sb <= sa + Half(is64);
            TestCondition(f, CONDITIONS[code]) <==>
            match code
            case 0 => ua == ub
            case 1 => ua != ub
            case 2 => ua >= ub
            case 3 => ua < ub
            case 4 => Signed(is64, r) < 0
            case 5 => Signed(is64, r) >= 0
            case 6 => !fits
            case 7 => fits
            case 8 => ua > ub
            case 9 => ua <= ub
            case 10 => sa >= sb
            case 11 => sa < sb
            case 12 => sa > sb
            case 13 => sa <= sb
            case _ => true
  {
    hide AddWithCarry, Signed, Unsigned;
    SubtractSetsConditions(is64, a, b);
  }

  lemma ComplementMeaning(is64: bool, b: Word64)
    ensures Unsigned(is64, Complement(b)) == Modulus(is64) - 1 - Unsigned(is64, b)
    ensures Signed(is64, Complement(b)) == -1 - Signed(is64, b)
  {
    if !is64 {
      var i := b / 0x1_0000_0000;
      assert b == 0x1_0000_0000 * i + Low32(b);
      assert Complement(b) == 0x1_0000_0000 * (0xFFFF_FFFF - i) + (0xFFFF_FFFF - Low32(b));
    }
  }

  lemma SignedUnsigned(is64: bool, x: Word64)
    ensures Signed(is64, x) == if Unsigned(is64, x) >= Half(is64) then Unsigned(is64, x) - Modulus(is64) else Unsigned(is64, x)
  {
  }
}
