/** Numbers of many 64-bit limbs, least significant first, added with ADDS/ADCS and subtracted with SUBS/SBCS. */
module Limbs {
  import opened Words
  import opened Cores
  import opened AddSub
  import opened DataProcessing

  function Value(limbs: seq<Word64>): nat {
    if limbs == [] then 0 else limbs[0] + 0x1_0000_0000_0000_0000 * Value(limbs[1..])
  }

  /** 2^(64 n). */
  function Base(n: nat): nat {
    if n == 0 then 1 else 0x1_0000_0000_0000_0000 * Base(n - 1)
  }

  function CarryIn(f: Flags): nat {
    if f.c then 1 else 0
  }

  /** The carry flag after `n` limbs weighs 2^(64 n). */
  function CarryOut(f: Flags, n: nat): nat {
    if f.c then Base(n) else 0
  }

  /** One limb: ADDS or SUBS for the first, ADCS or SBCS, which take the carry flag, for the others. */
  function Limb(isSub: bool, first: bool, x: Word64, y: Word64, f: Flags): (Word64, Flags) {
    var carry := if first then (if isSub then 1 else 0) else CarryIn(f);
    Additive(true, isSub, true).Apply(f, x, y, carry)
  }

  /** The limbs of the result and the flags after the last limb. */
  function Chain(isSub: bool, first: bool, xs: seq<Word64>, ys: seq<Word64>, f: Flags): (r: (seq<Word64>, Flags))
    requires |xs| == |ys|
    ensures |r.0| == |xs|
  {
    if xs == [] then ([], f)
    else
      var (z, f') := Limb(isSub, first, xs[0], ys[0], f);
      var (zs, g) := Chain(isSub, false, xs[1..], ys[1..], f');
      ([z] + zs, g)
  }

  lemma LimbMeaning(isSub: bool, x: Word64, y: Word64, f: Flags)
    ensures var (z, g) := Limb(isSub, false, x, y, f);
            z + 0x1_0000_0000_0000_0000 * CarryIn(g) ==
            x + (if isSub then 0xFFFF_FFFF_FFFF_FFFF - y else y) + CarryIn(f)
  {
    hide AddWithCarry;
    AddWithCarryMeaning(true, x, if isSub then Complement(y) else y, CarryIn(f));
  }

  lemma {:induction false} AddFromCarry(xs: seq<Word64>, ys: seq<Word64>, f: Flags)
    requires |xs| == |ys|
    ensures var (zs, g) := Chain(false, false, xs, ys, f);
            Value(zs) + CarryOut(g, |xs|) == Value(xs) + Value(ys) + CarryIn(f)
  {
    if xs != [] {
      hide Limb;
      LimbMeaning(false, xs[0], ys[0], f);
      var (z, f') := Limb(false, false, xs[0], ys[0], f);
      AddFromCarry(xs[1..], ys[1..], f');
      var (zs, g) := Chain(false, false, xs[1..], ys[1..], f');
      assert ([z] + zs)[1..] == zs;
    }
  }

  /** ADDS, ADCS, ..., ADCS compute the exact sum, with the carry out in C. */
  lemma AddChain(xs: seq<Word64>, ys: seq<Word64>, f: Flags)
    requires |xs| == |ys| > 0
    ensures var (zs, g) := Chain(false, true, xs, ys, f);
            Value(zs) + CarryOut(g, |xs|) == Value(xs) + Value(ys)
  {
    var noCarry := f.(c := false);
    assert Chain(false, true, xs, ys, f) == Chain(false, false, xs, ys, noCarry);
    AddFromCarry(xs, ys, noCarry);
  }

  lemma {:induction false} SubtractFromCarry(xs: seq<Word64>, ys: seq<Word64>, f: Flags)
    requires |xs| == |ys|
    ensures var (zs, g) := Chain(true, false, xs, ys, f);
            Value(zs) + CarryOut(g, |xs|) == Value(xs) - Value(ys) + Base(|xs|) - 1 + CarryIn(f)
  {
    if xs != [] {
      hide Limb;
      LimbMeaning(true, xs[0], ys[0], f);
      var (z, f') := Limb(true, false, xs[0], ys[0], f);
      SubtractFromCarry(xs[1..], ys[1..], f');
      var (zs, g) := Chain(true, false, xs[1..], ys[1..], f');
      assert ([z] + zs)[1..] == zs;
    }
  }

  /** SUBS, SBCS, ..., SBCS compute the difference modulo 2^(64 n), and C says that no borrow came out. */
  lemma SubtractChain(xs: seq<Word64>, ys: seq<Word64>, f: Flags)
    requires |xs| == |ys| > 0
    ensures var (zs, g) := Chain(true, true, xs, ys, f);
            && (g.c <==> Value(xs) >= Value(ys))
            && Value(zs) == if g.c then Value(xs) - Value(ys) else Value(xs) - Value(ys) + Base(|xs|)
  {
    var carry := f.(c := true);
    assert Chain(true, true, xs, ys, f) == Chain(true, false, xs, ys, carry);
    SubtractFromCarry(xs, ys, carry);
    ValueBound(xs);
    ValueBound(ys);
    ValueBound(Chain(true, true, xs, ys, f).0);
  }

  lemma {:induction false} ValueBound(limbs: seq<Word64>)
    ensures Value(limbs) < Base(|limbs|)
  {
    if limbs != [] { ValueBound(limbs[1..]); }
  }

  /** Adding and then subtracting the same number gives the first number back, whatever its length. */
  lemma SubtractUndoesAdd(xs: seq<Word64>, ys: seq<Word64>, f: Flags, g: Flags)
    requires |xs| == |ys| > 0
    ensures Value(Chain(true, true, Chain(false, true, xs, ys, f).0, ys, g).0) == Value(xs)
  {
    AddChain(xs, ys, f);
    SubtractChain(Chain(false, true, xs, ys, f).0, ys, g);
    ValueBound(xs);
    ValueBound(ys);
  }
}
