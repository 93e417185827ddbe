/** High multiply, multiply-add and division, against plain integers. */
module Multiply {
  import opened Words
  import opened Bits
  import opened Cores
  import opened Fields
  import opened AddSub
  import opened Shifts

  // The upper half of a product.

  /** The upper 64 bits of the 128-bit product. */
  function HighProduct(x: Word64, y: Word64): Word64 {
    HighBound(x, y);
    x * y / TWO64
  }

  lemma HighBound(x: Word64, y: Word64)
    ensures 0 <= x * y / TWO64 < TWO64
  {
    MulMonotonic(y, TWO64 - 1, x);
    assert x * y == y * x <= (TWO64 - 1) * x;
    assert x * y < TWO64 * TWO64;
  }

  /** The upper 64 bits of the signed 128-bit product. */
  function SignedHighProduct(x: Word64, y: Word64): Word64 {
    Wrap(Signed64(x) * Signed64(y) / TWO64)
  }

  lemma HalvesProduct(x: Word32, y: Word32)
    ensures 0 <= x * y <= 0xFFFF_FFFE_0000_0001
  {
    MulMonotonic(y, 0xFFFF_FFFF, x);
    assert x * y == y * x <= 0xFFFF_FFFF * x;
  }

  /** The four partial products of two words given by halves. */
  lemma SplitProduct(a: Word32, b: Word32, c: Word32, d: Word32)
    ensures (a * TWO32 + b) * (c * TWO32 + d) == a * c * TWO64 + (a * d + b * c) * TWO32 + b * d
  {
    var cc, aa := c * TWO32, a * TWO32;
    assert (aa + b) * (cc + d) == aa * cc + aa * d + b * cc + b * d;
    assert aa * d == (a * d) * TWO32 && b * cc == (b * c) * TWO32;
    assert aa * cc == a * c * TWO64 by {
      assert aa * cc == (a * cc) * TWO32;
      assert a * cc == (a * c) * TWO32;
    }
  }

  /** No 64-bit operation on the partial products wraps, and together they make the upper half. */
  lemma PartialProducts(a: Word32, b: Word32, c: Word32, d: Word32)
    ensures a * d < TWO64 && b * c < TWO64 && b * d < TWO64 && a * c < TWO64
    ensures var middle := a * d % TWO32 + b * c % TWO32 + b * d / TWO32;
            && middle < 3 * TWO32
            && a * c + a * d / TWO32 + b * c / TWO32 + middle / TWO32 < TWO64
            && a * c + a * d / TWO32 + b * c / TWO32 + middle / TWO32
               == HighProduct(a * TWO32 + b, c * TWO32 + d)
  {
    HalvesProduct(a, d);
    HalvesProduct(b, c);
    HalvesProduct(b, d);
    HalvesProduct(a, c);
    SplitProduct(a, b, c, d);
    var ad, bc, bd, ac := a * d, b * c, b * d, a * c;
    var middle := ad % TWO32 + bc % TWO32 + bd / TWO32;
    var high := ac + ad / TWO32 + bc / TWO32 + middle / TWO32;
    var low := middle % TWO32 * TWO32 + bd % TWO32;
    var product := (a * TWO32 + b) * (c * TWO32 + d);
    assert product == high * TWO64 + low;
    ModUnique(product, TWO64, high, low);
  }

  /** Two conditional subtractions turn the unsigned upper half into the signed one. */
  lemma SignedFromUnsigned(x: Word64, y: Word64)
    ensures var xs, ys := if x >= TWO63 then y else 0, if y >= TWO63 then x else 0;
            SignedHighProduct(x, y) == Sub64(Sub64(HighProduct(x, y), xs), ys)
  {
    hide Signed64, Sub64, Wrap;
    var xs, ys := if x >= TWO63 then y else 0, if y >= TWO63 then x else 0;
    var c := (if x >= TWO63 && y >= TWO63 then TWO64 else 0) - xs - ys;
    SignedProduct(x, y);
    QuotientShifts(x * y, c);
    SubtractTwice(HighProduct(x, y), xs, ys, c);
  }

  lemma QuotientShifts(p: int, c: int)
    ensures (p + c * TWO64) / TWO64 == p / TWO64 + c
  {
  }

  lemma SubtractTwice(high: Word64, xs: Word64, ys: Word64, c: int)
    requires c == 0 - xs - ys || c == TWO64 - xs - ys
    ensures Wrap(high + c) == Sub64(Sub64(high, xs), ys)
  {
  }

  lemma SignedProduct(x: Word64, y: Word64)
    ensures var xs, ys := if x >= TWO63 then y else 0, if y >= TWO63 then x else 0;
            var both := if x >= TWO63 && y >= TWO63 then TWO64 else 0;
            Signed64(x) * Signed64(y) == x * y + (both - xs - ys) * TWO64
  {
    var sx, sy := Signed64(x), Signed64(y);
    if x >= TWO63 {
      assert sx * sy == (x - TWO64) * sy == x * sy - TWO64 * sy;
    }
    if y >= TWO63 {
      assert x * sy == x * (y - TWO64) == x * y - TWO64 * x;
    }
  }

  /** The carry out of the middle column, and the sum of everything above it. */
  function Gather(bd: Word64, bc: Word64, ad: Word64, ac: Word64): Word64 {
    var cy := Low32(Add64(Add64(ad % TWO32, bc % TWO32), bd / TWO32) / TWO32);
    Add64(Add64(Add64(ac, ad / TWO32), bc / TWO32), cy)
  }

  /** The upper half as the code computes it, from four partial products. */
  function PartialHigh(op1: Word64, op2: Word64): Word64 {
    var op1hi, op1lo := op1 / TWO32, op1 % TWO32;
    var op2hi, op2lo := op2 / TWO32, op2 % TWO32;
    Gather(Mul64(op1lo, op2lo), Mul64(op1lo, op2hi), Mul64(op1hi, op2lo), Mul64(op1hi, op2hi))
  }

  lemma GatherExact(bd: Word64, bc: Word64, ad: Word64, ac: Word64)
    ensures var middle := ad % TWO32 + bc % TWO32 + bd / TWO32;
            var high := ac + ad / TWO32 + bc / TWO32 + middle / TWO32;
            high < TWO64 ==> Gather(bd, bc, ad, ac) == high
  {
  }

  lemma MulExact(x: Word64, y: Word64)
    requires x * y < TWO64
    ensures Mul64(x, y) == x * y
  {
  }

  /** Every `+` and `*` of `PartialHigh` is exact, so it is the upper half of the product. */
  lemma PartialHighExact(op1: Word64, op2: Word64)
    ensures PartialHigh(op1, op2) == HighProduct(op1, op2)
  {
    hide HighProduct, Mul64, Gather;
    var a, b, c, d := op1 / TWO32, op1 % TWO32, op2 / TWO32, op2 % TWO32;
    PartialProducts(a, b, c, d);
    MulExact(b, d);
    MulExact(b, c);
    MulExact(a, d);
    MulExact(a, c);
    GatherExact(b * d, b * c, a * d, a * c);
    assert a * TWO32 + b == op1 && c * TWO32 + d == op2;
  }

  method MulHigh(core: Core, inst: Word32, isSigned: bool)
    requires core.Valid()
    modifies core.gpr
    ensures var x, y := old(core.gpr[Rn(inst)]), old(core.gpr[Rm(inst)]);
            core.View() == old(core.View()).Set(Rd(inst), if isSigned then SignedHighProduct(x, y) else HighProduct(x, y))
  {
    hide HighProduct, SignedHighProduct, PartialHigh;
    var op1, op2 := core.gpr[Rn(inst)], core.gpr[Rm(inst)];
    PartialHighExact(op1, op2);
    var result := PartialHigh(op1, op2);
    if isSigned {
      SignedFromUnsigned(op1, op2);
      if op1 >= TWO63 {
        result := Sub64(result, op2);
      }
      if op2 >= TWO63 {
        result := Sub64(result, op1);
      }
    }
    core.gpr[Rd(inst)] := result;
  }
}
