/** The bitwise operators of C++ on unsigned words, defined digit by digit on naturals, and the bit-level law of each. */
module Bits {

  /** `testBit(x, i)`. */
  predicate Bit(x: nat, i: nat)
    decreases i, x
  {
    if i == 0 then x % 2 == 1 else Bit(x / 2, i - 1)
  }

  function Pow2(n: nat): (p: nat)
    ensures p >= 1
  {
    if n == 0 then 1 else 2 * Pow2(n - 1)
  }

  /** `bitmask(n)`. */
  function Ones(n: nat): nat {
    if n == 0 then 0 else 1 + 2 * Ones(n - 1)
  }

  function Shr(x: nat, k: nat): nat
    decreases k, x
  {
    if k == 0 then x else Shr(x / 2, k - 1)
  }

  /** The unbounded left shift; a 64-bit shift is `Trunc(Shl(x, k), 64)`. */
  function Shl(x: nat, k: nat): nat {
    if k == 0 then x else 2 * Shl(x, k - 1)
  }

  /** The low `n` bits. */
  function Trunc(x: nat, n: nat): nat
    decreases n, x
  {
    if n == 0 then 0 else x % 2 + 2 * Trunc(x / 2, n - 1)
  }

  function And(x: nat, y: nat): nat {
    if x == 0 || y == 0 then 0 else (if x % 2 == 1 && y % 2 == 1 then 1 else 0) + 2 * And(x / 2, y / 2)
  }

  function Or(x: nat, y: nat): nat
    decreases x + y
  {
    if x == 0 then y else if y == 0 then x
    else (if x % 2 == 1 || y % 2 == 1 then 1 else 0) + 2 * Or(x / 2, y / 2)
  }

  /** `~x` on `n` bits. */
  function Not(x: nat, n: nat): nat
    decreases n, x
  {
    if n == 0 then 0 else 1 - x % 2 + 2 * Not(x / 2, n - 1)
  }

  lemma {:induction false} BitZero(i: nat)
    ensures !Bit(0, i)
  {
    if i > 0 { BitZero(i - 1); }
  }

  lemma {:induction false} BitAnd(x: nat, y: nat, i: nat)
    ensures Bit(And(x, y), i) <==> Bit(x, i) && Bit(y, i)
    decreases i
  {
    if x == 0 || y == 0 {
      BitZero(i);
    } else if i > 0 {
      BitAnd(x / 2, y / 2, i - 1);
    }
  }

  lemma {:induction false} BitOr(x: nat, y: nat, i: nat)
    ensures Bit(Or(x, y), i) <==> Bit(x, i) || Bit(y, i)
    decreases i
  {
    if x == 0 || y == 0 {
      BitZero(i);
    } else if i > 0 {
      BitOr(x / 2, y / 2, i - 1);
    }
  }

  lemma {:induction false} BitNot(x: nat, n: nat, i: nat)
    ensures Bit(Not(x, n), i) <==> i < n && !Bit(x, i)
    decreases i
  {
    if n == 0 {
      BitZero(i);
    } else if i > 0 {
      BitNot(x / 2, n - 1, i - 1);
    }
  }

  lemma {:induction false} BitTrunc(x: nat, n: nat, i: nat)
    ensures Bit(Trunc(x, n), i) <==> i < n && Bit(x, i)
    decreases i
  {
    if n == 0 {
      BitZero(i);
    } else if i > 0 {
      BitTrunc(x / 2, n - 1, i - 1);
    }
  }

  lemma {:induction false} BitOnes(n: nat, i: nat)
    ensures Bit(Ones(n), i) <==> i < n
    decreases i
  {
    if n == 0 {
      BitZero(i);
    } else if i > 0 {
      BitOnes(n - 1, i - 1);
    }
  }

  lemma {:induction false} BitShr(x: nat, k: nat, i: nat)
    ensures Bit(Shr(x, k), i) <==> Bit(x, i + k)
    decreases k
  {
    if k > 0 { BitShr(x / 2, k - 1, i); }
  }

  lemma {:induction false} BitShl(x: nat, k: nat, i: nat)
    ensures Bit(Shl(x, k), i) <==> i >= k && Bit(x, i - k)
    decreases k
  {
    if k > 0 && i > 0 {
      BitShl(x, k - 1, i - 1);
    }
  }

  /** Concatenation: `y` placed above an `m`-bit number. */
  lemma {:induction false} BitConcat(x: nat, y: nat, m: nat, i: nat)
    requires x < Pow2(m)
    ensures Bit(x + Shl(y, m), i) <==> if i < m then Bit(x, i) else Bit(y, i - m)
    decreases m
  {
    if m > 0 {
      if i == 0 {
        assert (x + Shl(y, m)) % 2 == x % 2;
      } else {
        assert (x + Shl(y, m)) / 2 == x / 2 + Shl(y, m - 1);
        BitConcat(x / 2, y, m - 1, i - 1);
      }
    }
  }

  /** A bounded number has no high bits. */
  lemma {:induction false} BitBound(x: nat, n: nat, i: nat)
    requires x < Pow2(n) && n <= i
    ensures !Bit(x, i)
    decreases n
  {
    if n == 0 {
      BitZero(i);
    } else {
      BitBound(x / 2, n - 1, i - 1);
    }
  }

  lemma {:induction false} TruncBound(x: nat, n: nat)
    ensures Trunc(x, n) < Pow2(n)
    decreases n
  {
    if n > 0 { TruncBound(x / 2, n - 1); }
  }

  lemma {:induction false} TruncIsMod(x: nat, n: nat)
    ensures Trunc(x, n) == x % Pow2(n)
    decreases n
  {
    if n > 0 {
      TruncIsMod(x / 2, n - 1);
      var p, q := Pow2(n - 1), x / 2;
      ModDouble(x, p);
    }
  }

  lemma ModDouble(x: nat, p: nat)
    requires p >= 1
    ensures x % (2 * p) == x % 2 + 2 * ((x / 2) % p)
  {
    var q, r := x / 2 / p, x / 2 % p;
    assert x / 2 == q * p + r;
    var s := x % 2 + 2 * r;
    assert x == q * (2 * p) + s;
    ModUnique(x, 2 * p, q, s);
  }

  lemma ModUnique(x: int, d: nat, q: int, r: nat)
    requires r < d && x == q * d + r
    ensures x % d == r && x / d == q
  {
    var q', r' := x / d, x % d;
    assert x == q' * d + r';
    if q' < q {
      MulMonotonic(q' + 1, q, d);
    } else if q < q' {
      MulMonotonic(q + 1, q', d);
    }
  }

  lemma MulMonotonic(a: int, b: int, d: nat)
    requires a <= b
    ensures a * d <= b * d
  {
  }

  /** Two bounded numbers with the same bits are the same number. */
  lemma {:induction false} SameBits(x: nat, y: nat, n: nat)
    requires x < Pow2(n) && y < Pow2(n)
    requires forall i: nat | i < n :: Bit(x, i) == Bit(y, i)
    ensures x == y
    decreases n
  {
    if n > 0 {
      assert Bit(x, 0) == Bit(y, 0);
      forall i: nat | i < n - 1
        ensures Bit(x / 2, i) == Bit(y / 2, i)
      {
        assert Bit(x, i + 1) == Bit(y, i + 1);
      }
      SameBits(x / 2, y / 2, n - 1);
    }
  }

  lemma OnesIsPow2(n: nat)
    ensures Ones(n) == Pow2(n) - 1
  {
  }

  lemma {:induction false} NotIsComplement(x: nat, n: nat)
    requires x < Pow2(n)
    ensures Not(x, n) == Pow2(n) - 1 - x
    decreases n
  {
    if n > 0 { NotIsComplement(x / 2, n - 1); }
  }

  lemma {:induction false} Pow2Add(m: nat, n: nat)
    ensures Pow2(m + n) == Pow2(m) * Pow2(n)
    decreases m
  {
    if m > 0 { Pow2Add(m - 1, n); }
  }

  lemma Pow2Plus8(n: nat)
    ensures Pow2(n + 8) == 0x100 * Pow2(n)
  {
    assert Pow2(n + 2) == 4 * Pow2(n);
    assert Pow2(n + 4) == 4 * Pow2(n + 2);
    assert Pow2(n + 6) == 4 * Pow2(n + 4);
  }

  lemma Pow2Values()
    ensures Pow2(8) == 0x100 && Pow2(16) == 0x1_0000
    ensures Pow2(32) == 0x1_0000_0000 && Pow2(64) == 0x1_0000_0000_0000_0000
  {
    Pow2Plus8(0);
    Pow2Plus8(8);
    Pow2Plus8(16);
    Pow2Plus8(24);
    Pow2Plus8(32);
    Pow2Plus8(40);
    Pow2Plus8(48);
    Pow2Plus8(56);
  }

  lemma {:induction false} OrBound(x: nat, y: nat, n: nat)
    requires x < Pow2(n) && y < Pow2(n)
    ensures Or(x, y) < Pow2(n)
    decreases n
  {
    if x != 0 && y != 0 && n > 0 { OrBound(x / 2, y / 2, n - 1); }
  }

  lemma {:induction false} AndBound(x: nat, y: nat)
    ensures And(x, y) <= x && And(x, y) <= y
    decreases x
  {
    if x != 0 && y != 0 { AndBound(x / 2, y / 2); }
  }

  lemma {:induction false} ConcatBound(x: nat, y: nat, m: nat, n: nat)
    requires x < Pow2(m) && y < Pow2(n)
    ensures x + Shl(y, m) < Pow2(m + n)
    decreases m
  {
    if m > 0 { ConcatBound(x / 2, y, m - 1, n); }
  }

  lemma {:induction false} ShlIsMul(x: nat, k: nat)
    ensures Shl(x, k) == x * Pow2(k)
    decreases k
  {
    if k > 0 {
      ShlIsMul(x, k - 1);
    }
  }

  lemma {:induction false} TruncSmall(x: nat, n: nat)
    requires x < Pow2(n)
    ensures Trunc(x, n) == x
    decreases n
  {
    if n > 0 { TruncSmall(x / 2, n - 1); }
  }

  lemma {:induction false} ShrBound(x: nat, k: nat)
    ensures Shr(x, k) <= x
    decreases k
  {
    if k > 0 { ShrBound(x / 2, k - 1); }
  }
}
