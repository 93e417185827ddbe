/** Multiply-add and division, and the remainder that compilers get from a division followed by MSUB. */
module Divide {
  import opened Words
  import opened Bits
  import opened Cores
  import opened Fields
  import opened AddSub
  import opened Shifts

  /** `/` of C++ on signed integers: rounds toward zero. */
  function TruncatingDiv(a: int, b: int): int
    requires b != 0
  {
    if a >= 0 then (if b > 0 then a / b else -(a / -b))
    else if b > 0 then -(-a / b) else -a / -b
  }

  /** The remainder that goes with `TruncatingDiv`. */
  ghost predicate IsTruncatedRemainder(a: int, b: int, r: int)
    requires b != 0
  {
    && a == TruncatingDiv(a, b) * b + r
    && -(if b > 0 then b else -b) < r < (if b > 0 then b else -b)
    && (r != 0 ==> (r > 0 <==> a > 0))
  }

  lemma TruncatingDivLeaves(a: int, b: int)
    requires b != 0
    ensures IsTruncatedRemainder(a, b, a - TruncatingDiv(a, b) * b)
  {
    var x, y := if a >= 0 then a else -a, if b > 0 then b else -b;
    var q := x / y;
    DivMod(x, y);
    TruncatingDivSigns(a, b);
    SignedProducts(q, y);
  }

  lemma TruncatingDivSigns(a: int, b: int)
    requires b != 0
    ensures var q := (if a >= 0 then a else -a) / (if b > 0 then b else -b);
            TruncatingDiv(a, b) == if (a >= 0) == (b > 0) then q else -q
  {
  }

  lemma SignedProducts(q: int, y: int)
    ensures -q * y == -(q * y) && q * -y == -(q * y) && -q * -y == q * y
  {
  }

  lemma DivMod(x: nat, y: nat)
    requires y > 0
    ensures x == x / y * y + x % y && 0 <= x % y < y && 0 <= x / y <= x
    ensures y >= 2 ==> 2 * (x / y) <= x
  {
    var q := x / y;
    if y >= 2 { MulMonotonic(2, y, q); }
    MulMonotonic(1, y, q);
  }

  /** What the destination register holds of an exact result. */
  function Residue(is64: bool, x: int): Word64 {
    x % Modulus(is64)
  }

  /** MADD and MSUB. */
  function MultiplyAdd(is64: bool, isSub: bool, x: Word64, y: Word64, z: Word64): Word64 {
    Residue(is64, if isSub then z - x * y else z + x * y)
  }

  function SignedQuotient(is64: bool, x: Word64, y: Word64): Word64 {
    if Signed(is64, y) == 0 then 0 else Residue(is64, TruncatingDiv(Signed(is64, x), Signed(is64, y)))
  }

  function UnsignedQuotient(is64: bool, x: Word64, y: Word64): (q: Word64)
    ensures q <= Unsigned(is64, x)
  {
    if Unsigned(is64, y) == 0 then 0
    else
      DivMod(Unsigned(is64, x), Unsigned(is64, y));
      Unsigned(is64, x) / Unsigned(is64, y)
  }

  /** MADD and MSUB in plain integers. */
  lemma MultiplyAddMeaning(x: Word64, y: Word64, z: Word64)
    ensures MultiplyAdd(true, false, x, y, z) == (z + x * y) % 0x1_0000_0000_0000_0000
    ensures MultiplyAdd(true, true, x, y, z) == (z - x * y) % 0x1_0000_0000_0000_0000
    ensures MultiplyAdd(false, false, x, y, z) == (z + x * y) % 0x1_0000_0000
    ensures MultiplyAdd(false, true, x, y, z) == (z - x * y) % 0x1_0000_0000
  {
  }

  // Handlers.

  method Multiply(core: Core, inst: Word32, is64: bool, isSub: bool)
    requires core.Valid()
    modifies core.gpr
    ensures var (x, y, z) := (old(core.gpr[Rn(inst)]), old(core.gpr[Rm(inst)]), old(core.gpr[Ra(inst)]));
            core.View() == old(core.View()).Set(Rd(inst), MultiplyAdd(is64, isSub, x, y, z))
  {
    hide MultiplyAdd;
    var op1, op2, op3 := core.gpr[Rn(inst)], core.gpr[Rm(inst)], core.gpr[Ra(inst)];
    var product := Mul64(op1, op2);
    var res := if isSub then Sub64(op3, product) else Add64(op3, product);
    MultiplyAddWraps(isSub, op1, op2, op3);
    if !is64 {
      res := Low32(res);
    }
    core.gpr[Rd(inst)] := res;
  }

  lemma MultiplyAddWraps(isSub: bool, x: Word64, y: Word64, z: Word64)
    ensures var res := if isSub then Sub64(z, Mul64(x, y)) else Add64(z, Mul64(x, y));
            res == MultiplyAdd(true, isSub, x, y, z) && Low32(res) == MultiplyAdd(false, isSub, x, y, z)
  {
    AddWraps(if isSub then -(x * y) else x * y, z);
    WrapNegates(x * y, z);
  }

  /** Adding a wrapped number and truncating is adding the number and truncating. */
  lemma AddWraps(p: int, z: Word64)
    ensures Add64(z, Wrap(p)) == Residue(true, z + p) && Low32(Add64(z, Wrap(p))) == Residue(false, z + p)
  {
    WrapResidue(z + p);
  }

  lemma WrapNegates(p: int, z: Word64)
    ensures Sub64(z, Wrap(p)) == Add64(z, Wrap(-p))
  {
  }

  method UnsignedDivide(core: Core, inst: Word32, is64: bool)
    requires core.Valid()
    modifies core.gpr
    ensures var x, y := old(core.gpr[Rn(inst)]), old(core.gpr[Rm(inst)]);
            core.View() == old(core.View()).Set(Rd(inst), UnsignedQuotient(is64, x, y))
  {
    hide UnsignedQuotient, Low32;
    var op1, op2 := core.gpr[Rn(inst)], core.gpr[Rm(inst)];
    UnsignedQuotientCases(is64, op1, op2);
    if !is64 {
      op1, op2 := Low32(op1), Low32(op2);
    }
    var result: Word64 := 0;
    if op2 != 0 {
      DivMod(op1, op2);
      result := op1 / op2;
    }
    if !is64 {
      result := Low32(result);
    }
    core.gpr[Rd(inst)] := result;
  }

  /** The two branches of the code, and truncating the quotient changes nothing. */
  lemma UnsignedQuotientCases(is64: bool, x: Word64, y: Word64)
    ensures var op1, op2, q := Unsigned(is64, x), Unsigned(is64, y), UnsignedQuotient(is64, x, y);
            && q == (if op2 == 0 then 0 else op1 / op2)
            && (!is64 ==> Low32(q) == q)
  {
    if Unsigned(is64, y) != 0 { DivMod(Unsigned(is64, x), Unsigned(is64, y)); }
    UnsignedFits(is64, x);
    if !is64 { ModUnique(UnsignedQuotient(is64, x, y), TWO32, 0, UnsignedQuotient(is64, x, y)); }
  }

  method SignedDivide(core: Core, inst: Word32, is64: bool)
    requires core.Valid()
    modifies core.gpr
    ensures var x, y := old(core.gpr[Rn(inst)]), old(core.gpr[Rm(inst)]);
            core.View() == old(core.View()).Set(Rd(inst), SignedQuotient(is64, x, y))
  {
    hide SignExtend, TruncatingDiv, SignedQuotient, Signed64, Wrap, Low32;
    var op1, op2 := core.gpr[Rn(inst)], core.gpr[Rm(inst)];
    SignedQuotientCases(is64, op1, op2);
    if !is64 {
      op1, op2 := SignExtend(Low32(op1), 32), SignExtend(Low32(op2), 32);
    }
    var result: Word64;
    if op2 == 0 {
      result := 0;
    } else if is64 && op1 == 0x8000_0000_0000_0000 && op2 == 0xFFFF_FFFF_FFFF_FFFF {
      result := op1;
    } else {
      SignedZero(op2);
      result := Wrap(TruncatingDiv(Signed64(op1), Signed64(op2)));
    }
    if !is64 {
      result := Low32(result);
    }
    core.gpr[Rd(inst)] := result;
  }

  lemma SignedZero(x: Word64)
    ensures Signed64(x) == 0 <==> x == 0
  {
  }

  /** An operand as the code prepares it. */
  function Operand(is64: bool, x: Word64): Word64 {
    if is64 then x else SignExtend(Low32(x), 32)
  }

  /** The three branches of the code and the quotient they have to give. */
  lemma SignedQuotientCases(is64: bool, x: Word64, y: Word64)
    ensures var op1, op2, q := Operand(is64, x), Operand(is64, y), SignedQuotient(is64, x, y);
            if op2 == 0 then q == 0 == Low32(0)
            else
              && Signed64(op2) != 0
              && (op1 == 0x8000_0000_0000_0000 && op2 == 0xFFFF_FFFF_FFFF_FFFF && is64 ==> q == op1)
              && var t := Wrap(TruncatingDiv(Signed64(op1), Signed64(op2)));
                 q == if is64 then t else Low32(t)
  {
    hide SignExtend, TruncatingDiv;
    SignExtend32(Low32(x));
    SignExtend32(Low32(y));
    OverflowingDiv();
    if Signed(is64, y) != 0 {
      WrapResidue(TruncatingDiv(Signed(is64, x), Signed(is64, y)));
    }
  }

  lemma WrapResidue(t: int)
    ensures Wrap(t) == Residue(true, t) && Low32(Wrap(t)) == Residue(false, t)
  {
    var k := t / TWO64;
    assert t == Wrap(t) + k * TWO64;
    AddMultiple(Wrap(t), k * TWO32, TWO32);
  }

  lemma OverflowingDiv()
    ensures TruncatingDiv(-TWO63, -1) == TWO63
  {
  }

  lemma SignExtend32(val: Word32)
    ensures Signed64(SignExtend(val, 32)) == Signed32(val)
  {
    Pow2Values();
    SignExtendValue(val, 32);
    TopBitIsHalf(val, 32);
    assert Pow2(32) == 2 * Pow2(31);
  }

  // Remainders.

  /** A word and its signed value differ by a multiple of the modulus. */
  lemma SignedCongruent(is64: bool, x: Word64) returns (k: int)
    ensures x == Signed(is64, x) + k * Modulus(is64)
  {
    k := (x - Signed(is64, x)) / Modulus(is64);
  }

  /** A small number is recovered from its residue. */
  lemma SignedResidue(is64: bool, r: int)
    requires -Half(is64) <= r < Half(is64)
    ensures Signed(is64, Residue(is64, r)) == r
  {
  }

  lemma AddMultiple(x: int, k: int, m: nat)
    requires m > 0
    ensures (x + k * m) % m == x % m
  {
    var q, r := x / m, x % m;
    assert x + k * m == (q + k) * m + r by {
      assert (q + k) * m == q * m + k * m;
    }
    ModUnique(x + k * m, m, q + k, r);
  }

  /** MSUB after a division works on residues, so it gives the residue of the true remainder. */
  lemma ResidueOfRemainder(is64: bool, x: Word64, y: Word64, t: int)
    ensures MultiplyAdd(is64, true, Residue(is64, t), y, x) == Residue(is64, Signed(is64, x) - t * Signed(is64, y))
  {
    hide Signed;
    var m := Modulus(is64);
    var a, b, q := Signed(is64, x), Signed(is64, y), t % m;
    var i := SignedCongruent(is64, x);
    var j := SignedCongruent(is64, y);
    var k := t / m;
    assert t == k * m + q;
    var c := i + k * b - q * j;
    assert x - q * y == a - t * b + c * m by {
      assert q * y == q * b + (q * j) * m;
      assert t * b == (k * b) * m + q * b;
    }
    AddMultiple(a - t * b, c, m);
  }

  predicate Overflows(is64: bool, x: Word64, y: Word64) {
    Signed(is64, x) == -Half(is64) && Signed(is64, y) == -1
  }

  /**
   * SDIV then MSUB leaves the truncated remainder at both widths. Division by zero gives 0 and leaves the dividend,
   * and the one quotient that does not fit wraps to the dividend itself, with remainder 0.
   */
  lemma DivideThenMultiplySubtract(is64: bool, x: Word64, y: Word64)
    ensures var q := SignedQuotient(is64, x, y);
            var r := MultiplyAdd(is64, true, q, y, x);
            var a, b := Signed(is64, x), Signed(is64, y);
            if b == 0 then q == 0 && r == Unsigned(is64, x)
            else
              && IsTruncatedRemainder(a, b, Signed(is64, r))
              && Signed(is64, q) == (if Overflows(is64, x, y) then a else TruncatingDiv(a, b))
              && (Overflows(is64, x, y) ==> r == 0)
  {
    hide Signed, TruncatingDiv;
    var a, b := Signed(is64, x), Signed(is64, y);
    SignedBounds(is64, x);
    SignedBounds(is64, y);
    if b == 0 {
      assert Unsigned(is64, x) == x % Modulus(is64);
    } else {
      var t := TruncatingDiv(a, b);
      ResidueOfRemainder(is64, x, y, t);
      TruncatingDivLeaves(a, b);
      SignedResidue(is64, a - t * b);
      QuotientFits(is64, a, b);
    }
  }

  lemma SignedBounds(is64: bool, x: Word64)
    ensures -Half(is64) <= Signed(is64, x) < Half(is64)
  {
  }

  lemma QuotientFits(is64: bool, a: int, b: int)
    requires -Half(is64) <= a < Half(is64) && b != 0
    ensures Signed(is64, Residue(is64, TruncatingDiv(a, b))) ==
            if a == -Half(is64) && b == -1 then a else TruncatingDiv(a, b)
    ensures a == -Half(is64) && b == -1 ==> a - TruncatingDiv(a, b) * b == 0
  {
    hide Residue, Signed;
    var x, y := if a >= 0 then a else -a, if b > 0 then b else -b;
    DivMod(x, y);
    if y == 1 { DivByOne(x); }
    var t := TruncatingDiv(a, b);
    assert t == x / y || t == -(x / y);
    if a == -Half(is64) && b == -1 {
      ResidueOfHalf(is64);
    } else {
      SignedResidue(is64, t);
    }
  }

  lemma DivByOne(x: nat)
    ensures x / 1 == x
  {
  }

  lemma ResidueOfHalf(is64: bool)
    ensures Signed(is64, Residue(is64, Half(is64))) == -Half(is64)
  {
  }

  /** UDIV then MSUB leaves the unsigned remainder. */
  lemma UnsignedDivideThenMultiplySubtract(is64: bool, x: Word64, y: Word64)
    ensures var r := MultiplyAdd(is64, true, UnsignedQuotient(is64, x, y), y, x);
            r == if Unsigned(is64, y) == 0 then Unsigned(is64, x) else Unsigned(is64, x) % Unsigned(is64, y)
  {
    hide Unsigned, UnsignedQuotient, Residue;
    var a, b, q := Unsigned(is64, x), Unsigned(is64, y), UnsignedQuotient(is64, x, y);
    UnsignedFits(is64, x);
    UnsignedResidue(is64, x, y, q);
    UnsignedQuotientCases(is64, x, y);
    if b != 0 { DivMod(a, b); }
    ResidueOfSmall(is64, if b == 0 then a else a % b);
  }

  lemma ResidueOfSmall(is64: bool, r: nat)
    requires r < Modulus(is64)
    ensures Residue(is64, r) == r
  {
  }

  lemma UnsignedResidue(is64: bool, x: Word64, y: Word64, q: Word64)
    ensures MultiplyAdd(is64, true, q, y, x) == Residue(is64, Unsigned(is64, x) - q * Unsigned(is64, y))
  {
    hide Unsigned;
    var m := Modulus(is64);
    var a, b := Unsigned(is64, x), Unsigned(is64, y);
    var i := UnsignedCongruent(is64, x);
    var j := UnsignedCongruent(is64, y);
    assert q * y == q * b + (q * j) * m;
    AddMultiple(a - q * b, i - q * j, m);
  }

  lemma UnsignedCongruent(is64: bool, x: Word64) returns (k: int)
    ensures x == Unsigned(is64, x) + k * Modulus(is64)
  {
    k := (x - Unsigned(is64, x)) / Modulus(is64);
  }
}
