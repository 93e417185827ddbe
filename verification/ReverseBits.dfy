/** RBIT as a network of masked swaps, CLZ as a loop, and what the two give together. */
module ReverseBits {
  import opened Words
  import opened Bits
  import opened Cores
  import opened Fields
  import opened Shifts
  import opened AddSub
  import opened DataProcessing

  // Masks.

  /** `m` groups of `k` ones followed by `k` zeros, from the bottom. */
  function Stripes(k: nat, m: nat): nat
    decreases m, k
  {
    if m == 0 then 0 else Ones(k) + Shl(Stripes(k, m - 1), 2 * k)
  }

  lemma {:induction false} BitStripes(k: nat, m: nat, i: nat)
    requires k > 0
    ensures Bit(Stripes(k, m), i) <==> i < 2 * k * m && i / k % 2 == 0
    decreases m
  {
    hide Bit, Ones, Shl, Pow2;
    if m == 0 {
      BitZero(i);
    } else {
      OnesIsPow2(k);
      Pow2Monotonic(k, 2 * k);
      BitConcat(Ones(k), Stripes(k, m - 1), 2 * k, i);
      if i < 2 * k {
        BitOnes(k, i);
        GroupOf(k, i);
        MulMonotonic(1, m, 2 * k);
      } else {
        BitStripes(k, m - 1, i - 2 * k);
        assert i == (i - 2 * k) / k * k + (i - 2 * k) % k + 2 * k;
        ModUnique(i, k, (i - 2 * k) / k + 2, (i - 2 * k) % k);
        assert 2 * k * (m - 1) + 2 * k == 2 * k * m;
      }
    }
  }

  lemma GroupOf(k: nat, i: nat)
    requires i < 2 * k
    ensures i / k == if i < k then 0 else 1
  {
    if i < k { ModUnique(i, k, 0, i); } else { ModUnique(i, k, 1, i - k); }
  }

  /** A pattern of stripes is the quotient of two numbers of the form 2^n plus or minus 1. */
  lemma {:induction false} StripesValue(k: nat, m: nat)
    ensures Stripes(k, m) * (Pow2(k) + 1) == Pow2(2 * k * m) - 1
    decreases m
  {
    hide Ones, Shl, Pow2;
    if m == 0 {
      assert Pow2(0) == 1 by { Pow2Add(0, 0); Pow2Zero(); }
    } else {
      StripesValue(k, m - 1);
      OnesIsPow2(k);
      var p, rest, q := Pow2(k), Stripes(k, m - 1), Pow2(2 * k * (m - 1));
      ShlIsMul(rest, 2 * k);
      Pow2Add(k, k);
      Pow2Add(2 * k, 2 * k * (m - 1));
      assert k + k == 2 * k && 2 * k + 2 * k * (m - 1) == 2 * k * m;
      StripesStep(p, rest, q);
    }
  }

  lemma StripesStep(p: nat, rest: nat, q: nat)
    requires rest * (p + 1) == q - 1
    ensures (p - 1 + rest * (p * p)) * (p + 1) == p * p * q - 1
  {
    var pp := p * p;
    assert rest * pp * (p + 1) == rest * (p + 1) * pp == (q - 1) * pp == q * pp - pp;
    assert (p - 1) * (p + 1) == pp - 1;
    assert (p - 1 + rest * pp) * (p + 1) == (p - 1) * (p + 1) + rest * pp * (p + 1);
  }

  lemma Pow2Zero()
    ensures Pow2(0) == 1
  {
  }

  predicate IsStage(k: nat) {
    k in {1, 2, 4, 8, 16, 32}
  }

  /** The mask of the bits that come down at a stage. */
  function LowMask(k: nat): Word64
    requires IsStage(k)
  {
    if k == 1 then 0x5555_5555_5555_5555
    else if k == 2 then 0x3333_3333_3333_3333
    else if k == 4 then 0x0F0F_0F0F_0F0F_0F0F
    else if k == 8 then 0x00FF_00FF_00FF_00FF
    else if k == 16 then 0x0000_FFFF_0000_FFFF
    else 0x0000_0000_FFFF_FFFF
  }

  /** The mask of the bits that go up. */
  function UpMask(k: nat): Word64
    requires IsStage(k)
  {
    if k == 1 then 0xAAAA_AAAA_AAAA_AAAA
    else if k == 2 then 0xCCCC_CCCC_CCCC_CCCC
    else if k == 4 then 0xF0F0_F0F0_F0F0_F0F0
    else if k == 8 then 0xFF00_FF00_FF00_FF00
    else if k == 16 then 0xFFFF_0000_FFFF_0000
    else 0xFFFF_FFFF_0000_0000
  }

  lemma Pow2OfStage(k: nat)
    requires IsStage(k)
    ensures Pow2(k) == if k == 1 then 2 else if k == 2 then 4 else if k == 4 then 0x10 else if k == 8 then 0x100
                       else if k == 16 then 0x1_0000 else 0x1_0000_0000
  {
    Pow2Values();
  }

  lemma MasksAreStripes(k: nat)
    requires IsStage(k)
    ensures LowMask(k) == Stripes(k, 32 / k)
    ensures UpMask(k) == Shl(Stripes(k, 32 / k), k)
  {
    hide Stripes, Shl, Pow2;
    StripesValue(k, 32 / k);
    ShlIsMul(Stripes(k, 32 / k), k);
    Pow2OfStage(k);
    Pow2Values();
    assert 2 * k * (32 / k) == 64;
  }

  lemma BitOfMasks(k: nat, i: nat)
    requires IsStage(k) && i < 64
    ensures Bit(LowMask(k), i) <==> i / k % 2 == 0
    ensures Bit(UpMask(k), i) <==> i / k % 2 == 1
  {
    hide Bit, Stripes, Shl, LowMask, UpMask;
    MasksAreStripes(k);
    assert 2 * k * (32 / k) == 64;
    BitStripes(k, 32 / k, i);
    BitShl(Stripes(k, 32 / k), k, i);
    if i >= k { BitStripes(k, 32 / k, i - k); }
    NeighbourGroup(k, i);
  }

  lemma NeighbourGroup(k: nat, i: nat)
    requires IsStage(k) && i < 64
    ensures i / k % 2 == 1 <==> i >= k && (i - k) / k % 2 == 0
  {
  }

  // Stages.

  /** One line of the network: neighbouring groups of `k` bits change places. */
  function Exchange(op: Word64, k: nat): Word64
    requires IsStage(k)
  {
    OrWord(AndWord(ShiftLeft(op, k), UpMask(k)), AndWord(ShiftRight(op, k), LowMask(k)))
  }

  /** The position the bit at `i` came from. */
  function Partner(k: nat, i: nat): nat
    requires IsStage(k)
  {
    if i / k % 2 == 0 then i + k else i - k
  }

  lemma BitExchange(op: Word64, k: nat, i: nat)
    requires IsStage(k) && i < 64
    ensures Bit(Exchange(op, k), i) <==> Bit(op, Partner(k, i))
  {
    hide Bit, OrWord, AndWord, ShiftLeft, ShiftRight, LowMask, UpMask;
    BitOrWord(AndWord(ShiftLeft(op, k), UpMask(k)), AndWord(ShiftRight(op, k), LowMask(k)), i);
    BitAndWord(ShiftLeft(op, k), UpMask(k), i);
    BitAndWord(ShiftRight(op, k), LowMask(k), i);
    BitLeft(op, k, i);
    BitRight(op, k, i);
    BitOfMasks(k, i);
  }

  /** Position `i` mirrored inside its group of `g` positions. */
  function Mirror(g: nat, i: nat): nat
    requires g > 0
  {
    i / g * g + (g - 1 - i % g)
  }

  lemma MirrorDoubles(k: nat, i: nat)
    requires IsStage(k) && i < 64
    ensures Partner(k, i) < 64 && Mirror(k, Partner(k, i)) == Mirror(2 * k, i)
  {
    hide Mirror;
    PartnerFits(k, i);
    var a, s := i / (2 * k), i % (2 * k);
    SplitAt(i, 2 * k);
    if s < k {
      MirrorPair(k, a, s);
    } else {
      MirrorPair(k, a, s - k);
    }
  }

  lemma SplitAt(i: nat, d: nat)
    requires d > 0
    ensures i == i / d * d + i % d && 0 <= i % d < d
  {
  }

  lemma MirrorPair(k: nat, a: nat, r: nat)
    requires r < k
    ensures var low := a * (2 * k) + r;
            && low >= 0 && low / k % 2 == 0 && (low + k) / k % 2 == 1
            && Mirror(2 * k, low) == Mirror(k, low + k)
            && Mirror(2 * k, low + k) == Mirror(k, low)
  {
    hide Mirror;
    var base := a * (2 * k);
    assert base == (2 * a) * k && base + k == (2 * a + 1) * k;
    MirrorAt(2 * k, a, r);
    MirrorAt(2 * k, a, k + r);
    MirrorAt(k, 2 * a, r);
    MirrorAt(k, 2 * a + 1, r);
    ModUnique(base + r, k, 2 * a, r);
    ModUnique(base + k + r, k, 2 * a + 1, r);
  }

  lemma MirrorAt(g: nat, q: nat, r: nat)
    requires r < g
    ensures q * g + r >= 0 && Mirror(g, q * g + r) == q * g + g - 1 - r
  {
    ModUnique(q * g + r, g, q, r);
  }

  lemma PartnerFits(k: nat, i: nat)
    requires IsStage(k) && i < 64
    ensures Partner(k, i) < 64
  {
  }

  /** The bits of `op` are those of `x`, mirrored in groups of `g`. */
  ghost predicate Mirrored(op: Word64, x: Word64, g: nat)
    requires g > 0
  {
    forall i: nat | i < 64 :: Bit(op, i) <==> Bit(x, Mirror(g, i))
  }

  lemma ExchangeMirrors(op: Word64, x: Word64, k: nat)
    requires IsStage(k) && Mirrored(op, x, k)
    ensures Mirrored(Exchange(op, k), x, 2 * k)
  {
    hide Bit, Exchange, Mirror, Partner;
    forall i: nat | i < 64
      ensures Bit(Exchange(op, k), i) <==> Bit(x, Mirror(2 * k, i))
    {
      BitExchange(op, k, i);
      MirrorDoubles(k, i);
    }
  }

  // Reversal.

  /** The low `n` bits of `x` in reverse order. */
  function Reverse(x: nat, n: nat): nat
    decreases n, x
  {
    if n == 0 then 0 else Reverse(x / 2, n - 1) + Shl(x % 2, n - 1)
  }

  lemma {:induction false} ReverseBound(x: nat, n: nat)
    ensures Reverse(x, n) < Pow2(n)
    decreases n
  {
    if n > 0 {
      hide Shl;
      ReverseBound(x / 2, n - 1);
      ShlBit(x % 2, n - 1);
    }
  }

  lemma ShlBit(b: nat, n: nat)
    requires b < 2
    ensures Shl(b, n) == if b == 0 then 0 else Pow2(n)
  {
    ShlIsMul(b, n);
  }

  lemma {:induction false} BitReverse(x: nat, n: nat, i: nat)
    ensures Bit(Reverse(x, n), i) <==> i < n && Bit(x, n - 1 - i)
    decreases n
  {
    if n == 0 {
      BitZero(i);
    } else {
      ReverseBound(x / 2, n - 1);
      BitConcat(Reverse(x / 2, n - 1), x % 2, n - 1, i);
      if i < n - 1 {
        BitReverse(x / 2, n - 1, i);
      } else if i >= n {
        BitBound(x % 2, 1, i - (n - 1));
      }
    }
  }

  /** Reversal is its own inverse on the bits it keeps. */
  lemma ReverseTwice(x: nat, n: nat)
    ensures Reverse(Reverse(x, n), n) == Trunc(x, n)
  {
    ReverseBound(Reverse(x, n), n);
    TruncBound(x, n);
    forall i: nat | i < n
      ensures Bit(Reverse(Reverse(x, n), n), i) == Bit(Trunc(x, n), i)
    {
      BitReverse(Reverse(x, n), n, i);
      BitReverse(x, n, n - 1 - i);
      BitTrunc(x, n, i);
    }
    SameBits(Reverse(Reverse(x, n), n), Trunc(x, n), n);
  }

  /** A word mirrored in groups of at least its width is the reversed word, once truncated. */
  lemma MirroredIsReverse(op: Word64, x: Word64, is64: bool)
    requires Mirrored(op, x, Width(is64))
    ensures (if is64 then op else Low32(op)) == Reverse(x, Width(is64))
  {
    hide Bit, Reverse, Low32, Pow2;
    var n, r := Width(is64), if is64 then op else Low32(op);
    WordBound(r);
    ReverseBound(x, n);
    forall i: nat | i < n
      ensures Bit(r, i) == Bit(Reverse(x, n), i)
    {
      if !is64 { BitLow32(op, i); }
      BitReverse(x, n, i);
      assert Mirror(n, i) == n - 1 - i;
    }
    SameBits(r, Reverse(x, n), n);
  }

  lemma MirroredStart(x: Word64)
    ensures Mirrored(x, x, 1)
  {
  }

  method Reverse64Or32(core: Core, inst: Word32, is64: bool)
    requires core.Valid()
    modifies core.gpr
    ensures Reverse(old(core.gpr[Rn(inst)]), Width(is64)) < TWO64
    ensures core.View() == old(core.View()).Set(Rd(inst), Reverse(old(core.gpr[Rn(inst)]), Width(is64)))
  {
    hide Mirrored, Exchange, Reverse;
    var op := core.gpr[Rn(inst)];
    ghost var x := op;
    MirroredStart(x);
    ExchangeMirrors(op, x, 1);
    op := Exchange(op, 1);
    ExchangeMirrors(op, x, 2);
    op := Exchange(op, 2);
    ExchangeMirrors(op, x, 4);
    op := Exchange(op, 4);
    ExchangeMirrors(op, x, 8);
    op := Exchange(op, 8);
    ExchangeMirrors(op, x, 16);
    op := Exchange(op, 16);
    if !is64 {
      MirroredIsReverse(op, x, is64);
      op := Low32(op);
    } else {
      ExchangeMirrors(op, x, 32);
      op := Exchange(op, 32);
      MirroredIsReverse(op, x, is64);
    }
    core.gpr[Rd(inst)] := op;
  }

  // Counting.

  /** The number of clear bits above the highest set bit among the low `n`. */
  function LeadingClear(x: nat, n: nat): (r: nat)
    ensures r <= n
  {
    if n == 0 || Bit(x, n - 1) then 0 else 1 + LeadingClear(x, n - 1)
  }

  /** The counted bits are clear and the next one is set. */
  lemma {:induction false} LeadingClearBits(x: nat, n: nat)
    ensures var r := LeadingClear(x, n);
            && (forall i: nat | n - r <= i < n :: !Bit(x, i))
            && (r < n ==> Bit(x, n - 1 - r))
  {
    if n > 0 && !Bit(x, n - 1) { LeadingClearBits(x, n - 1); }
  }

  /** CLZ is the distance to the top of the integer logarithm: 2^(n-1-r) <= x < 2^(n-r). */
  lemma {:induction false} LeadingClearIsLogarithm(x: nat, n: nat)
    requires x < Pow2(n)
    ensures var r := LeadingClear(x, n);
            && (r == n <==> x == 0)
            && (r < n ==> Pow2(n - 1 - r) <= x < Pow2(n - r))
  {
    if n > 0 {
      TopBitIsHalf(x, n);
      if !Bit(x, n - 1) { LeadingClearIsLogarithm(x, n - 1); }
    }
  }

  method CountLeadingClear(core: Core, inst: Word32, is64: bool)
    requires core.Valid()
    modifies core.gpr
    ensures core.View() == old(core.View()).Set(Rd(inst), LeadingClear(old(core.gpr[Rn(inst)]), Width(is64)))
  {
    var op := core.gpr[Rn(inst)];
    var index := if is64 then 63 else 31;
    var res := 0;
    while index >= 0 && !Bit(op, index)
      invariant -1 <= index < Width(is64)
      invariant res == Width(is64) - 1 - index
      invariant LeadingClear(op, Width(is64)) == res + LeadingClear(op, index + 1)
    {
      res := res + 1;
      index := index - 1;
    }
    core.gpr[Rd(inst)] := res;
  }

  /** RBIT then CLZ counts trailing clear bits: it gives the index of the lowest set bit, or the width for zero. */
  lemma ReverseThenCount(x: Word64, is64: bool)
    ensures var n := Width(is64);
            var r := LeadingClear(Reverse(x, n), n);
            && (r == n <==> Unsigned(is64, x) == 0)
            && (forall i: nat | i < r :: !Bit(x, i))
            && (r < n ==> Bit(x, r))
  {
    hide Bit, Reverse, LeadingClear, Pow2, Trunc;
    var n := Width(is64);
    var y := Reverse(x, n);
    var r := LeadingClear(y, n);
    LeadingClearBits(y, n);
    ReverseBound(x, n);
    LeadingClearIsLogarithm(y, n);
    forall i: nat | i < n
      ensures Bit(x, i) <==> Bit(y, n - 1 - i)
    {
      BitReverse(x, n, n - 1 - i);
    }
    ReverseIsZero(x, n);
    TruncIsMod(x, n);
    Pow2Values();
  }

  lemma {:induction false} ReverseIsZero(x: nat, n: nat)
    ensures Reverse(x, n) == 0 <==> Trunc(x, n) == 0
    decreases n
  {
    if n > 0 {
      hide Shl;
      ReverseIsZero(x / 2, n - 1);
      ShlBit(x % 2, n - 1);
    }
  }
}
