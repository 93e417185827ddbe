/** SBFM, BFM and UBFM: which bit of which register each result bit is, and when the code gets it right. */
module Bitfields {
  import opened Words
  import opened Bits
  import opened Cores
  import opened Fields
  import opened AddSub
  import opened Shifts
  import opened DataProcessing

  datatype Move = SBFM | BFM | UBFM

  /** A decoded bitfield instruction: the field ends at source bit `imms` and `immr` is the rotation. */
  datatype Bitfield = Bitfield(move: Move, is64: bool, immr: nat, imms: nat)
  {
    predicate Legal() {
      immr < Width(is64) && imms < Width(is64)
    }

    /** Where the highest bit of the field ends up. */
    function FinalPos(): nat
      requires Legal()
    {
      (imms + Width(is64) - immr) % Width(is64)
    }

    /** Where the lowest bit of the field ends up. */
    function LowPos(): nat
      requires Legal()
    {
      if immr <= imms then 0 else Width(is64) - immr
    }

    predicate InTarget(i: nat)
      requires Legal()
    {
      LowPos() <= i <= FinalPos()
    }

    /** The source bit that result bit `i` of the target shows. */
    function SourceIndex(i: nat): int {
      if immr <= imms then i + immr else i + immr - Width(is64)
    }

    /** The insert form of BFM, which assemblers write BFI or BFC. */
    predicate IsInsert() {
      imms < immr || immr == 0
    }
  }

  /** `decodeBitfield`. */
  function DecodeBitfield(inst: Word32): (b: Option<Bitfield>)
    ensures b.Some? ==> b.value.Legal()
  {
    var sf, opc, n := inst / 0x8000_0000, inst / 0x2000_0000 % 4, inst / 0x40_0000 % 2;
    if sf != n || opc == 3 then None
    else if sf == 0 && (Immr(inst) > 31 || Imms(inst) > 31) then None
    else Some(Bitfield(if opc == 0 then SBFM else if opc == 1 then BFM else UBFM, sf == 1, Immr(inst), Imms(inst)))
  }

  // The code, step by step.

  /**
   * `val << amount` where the amount may be 64, which C++ leaves undefined. A host either takes the amount modulo
   * 64 (`wraps`) or shifts everything out.
   */
  function HostLeft(wraps: bool, val: Word64, amount: nat): Word64 {
    if amount < 64 then ShiftLeft(val, amount)
    else if wraps then ShiftLeft(val, amount % 64)
    else 0
  }

  function Source(is64: bool, src: Word64): Word64 {
    if is64 then src else Low32(src)
  }

  /** `(x >> immr) | (x << (width - immr))`. */
  function Rotate(b: Bitfield, wraps: bool, x: Word64): Word64
    requires b.Legal()
  {
    OrWord(ShiftRight(x, b.immr), HostLeft(wraps, x, Width(b.is64) - b.immr))
  }

  function ShiftedMask(b: Bitfield): Word64
    requires b.Legal()
  {
    if b.FinalPos() > b.imms then ShiftLeft(Mask(b.imms + 1), b.FinalPos() - b.imms)
    else ShiftRight(Mask(b.imms + 1), b.imms - b.FinalPos())
  }

  /** The moved field, with zeros around it. */
  function Field(b: Bitfield, wraps: bool, src: Word64): Word64
    requires b.Legal()
  {
    AndWord(Rotate(b, wraps, AndWord(Source(b.is64, src), Mask(b.imms + 1))), ShiftedMask(b))
  }

  /** `signExtend(val, size)`; for size 0 the tested position is 2^64 - 1, again as the host shifts. */
  function ExtendFrom(wraps: bool, val: Word64, size: nat): Word64
    requires size <= 64
  {
    var tested := if size == 0 then wraps && Bit(val, 63) else Bit(val, size - 1);
    if tested then OrWord(val, HighMask(size)) else val
  }

  function Moved(b: Bitfield, wraps: bool, src: Word64, dst: Word64): Word64
    requires b.Legal()
  {
    var data := Field(b, wraps, src);
    var whole := match b.move
      case UBFM => data
      case SBFM => if Bit(Source(b.is64, src), b.imms) then ExtendFrom(wraps, data, b.FinalPos()) else data
      case BFM => OrWord(data, AndWord(dst, Complement(Rotate(b, wraps, Mask(b.imms + 1)))));
    Source(b.is64, whole)
  }

  method BitfieldMove(core: Core, inst: Word32, b: Bitfield, wraps: bool)
    requires core.Valid() && DecodeBitfield(inst) == Some(b)
    modifies core.gpr
    ensures var src, dst := old(core.gpr[Rn(inst)]), old(core.gpr[Rd(inst)]);
            core.View() == old(core.View()).Set(Rd(inst), Moved(b, wraps, src, dst))
  {
    hide DecodeBitfield, OrWord, AndWord, ShiftLeft, ShiftRight, Mask, HighMask;
    assert b.immr == Immr(inst) && b.imms == Imms(inst) && b.Legal() by { DecodeBitfieldMeaning(inst); }
    var width := Width(b.is64);
    var data := core.gpr[Rn(inst)];
    if !b.is64 {
      data := Low32(data);
    }
    var originalSignBit := Bit(data, Imms(inst));
    var finalPos := (Imms(inst) + width - Immr(inst)) % width;
    var sourceMask := Mask(Imms(inst) + 1);
    data := AndWord(data, sourceMask);
    data := OrWord(ShiftRight(data, Immr(inst)), HostLeft(wraps, data, width - Immr(inst)));
    var shiftedMask := if finalPos > Imms(inst) then ShiftLeft(sourceMask, finalPos - Imms(inst))
                       else ShiftRight(sourceMask, Imms(inst) - finalPos);
    data := AndWord(data, shiftedMask);
    assert data == Field(b, wraps, core.gpr[Rn(inst)]);
    match b.move {
      case UBFM =>
      case SBFM =>
        if originalSignBit {
          data := ExtendFrom(wraps, data, finalPos);
        }
      case BFM =>
        var oldData := core.gpr[Rd(inst)];
        var rotatedMask := OrWord(ShiftRight(sourceMask, Immr(inst)), HostLeft(wraps, sourceMask, width - Immr(inst)));
        oldData := AndWord(oldData, Complement(rotatedMask));
        data := OrWord(data, oldData);
    }
    if !b.is64 {
      data := Low32(data);
    }
    core.gpr[Rd(inst)] := data;
  }

  /** Which words are bitfield moves, and of which kind, width and positions, from the bits of the word. */
  lemma DecodeBitfieldMeaning(inst: Word32)
    ensures var sf, opc, n := inst / 0x8000_0000 == 1, inst / 0x2000_0000 % 4, inst / 0x40_0000 % 2 == 1;
            var immr, imms := inst / 0x1_0000 % 64, inst / 0x400 % 64;
            var b := DecodeBitfield(inst);
            && (b.Some? <==> sf == n && opc < 3 && (sf || (immr < 32 && imms < 32)))
            && (b.Some? ==>
                  && b.value.is64 == sf && b.value.immr == immr && b.value.imms == imms
                  && (b.value.move == SBFM <==> opc == 0)
                  && (b.value.move == BFM <==> opc == 1)
                  && (b.value.move == UBFM <==> opc == 2))
  {
  }

  // The definition, bit by bit.

  /** Result bit `i` as the architecture defines it. */
  predicate ArchBit(b: Bitfield, src: Word64, dst: Word64, i: nat)
    requires b.Legal()
  {
    if b.InTarget(i) then b.SourceIndex(i) >= 0 && Bit(src, b.SourceIndex(i))
    else match b.move
      case UBFM => false
      case BFM => Bit(dst, i)
      case SBFM => i > b.FinalPos() && Bit(src, b.imms)
  }

  ghost predicate Exact(b: Bitfield, wraps: bool, src: Word64, dst: Word64)
    requires b.Legal()
  {
    forall i: nat | i < Width(b.is64) :: Bit(Moved(b, wraps, src, dst), i) <==> ArchBit(b, src, dst, i)
  }

  /** The target is the field: both ends and the length agree. */
  lemma Geometry(b: Bitfield)
    requires b.Legal()
    ensures b.FinalPos() == if b.immr <= b.imms then b.imms - b.immr else b.imms + Width(b.is64) - b.immr
    ensures b.SourceIndex(b.FinalPos()) == b.imms
  {
    var w := Width(b.is64);
    if b.immr <= b.imms { ModUnique(b.imms + w - b.immr, w, 1, b.imms - b.immr); }
    else { ModUnique(b.imms + w - b.immr, w, 0, b.imms + w - b.immr); }
  }

  lemma BitSource(is64: bool, src: Word64, i: nat)
    ensures Bit(Source(is64, src), i) <==> i < Width(is64) && Bit(src, i)
  {
    if is64 {
      WordBound(src);
      if i >= 64 { BitBound(src, 64, i); }
    } else {
      BitLow32(src, i);
    }
  }

  lemma BitMasked(b: Bitfield, src: Word64, i: nat)
    requires b.Legal()
    ensures Bit(AndWord(Source(b.is64, src), Mask(b.imms + 1)), i) <==> i <= b.imms && Bit(src, i)
  {
    BitAndWord(Source(b.is64, src), Mask(b.imms + 1), i);
    BitMask(b.imms + 1, i);
    BitSource(b.is64, src, i);
  }

  /** Rotating `x`, whose bits end at `imms`; for `immr == 0` the wrapped copy coincides with the original. */
  lemma BitRotate(b: Bitfield, wraps: bool, x: Word64, i: nat)
    requires b.Legal() && i < 64
    ensures var up := Width(b.is64) - b.immr;
            Bit(Rotate(b, wraps, x), i) <==> Bit(x, i + b.immr) || (up <= i && Bit(x, i - up))
  {
    hide Bit, OrWord, ShiftRight, ShiftLeft;
    var up := Width(b.is64) - b.immr;
    BitOrWord(ShiftRight(x, b.immr), HostLeft(wraps, x, up), i);
    BitRight(x, b.immr, i);
    if up < 64 {
      BitLeft(x, up, i);
    } else if wraps {
      BitLeft(x, 0, i);
    } else {
      BitOfZero(i);
    }
  }

  lemma BitOfZero(i: nat)
    ensures !Bit(0, i)
  {
    BitZero(i);
  }

  lemma BitShiftedMask(b: Bitfield, i: nat)
    requires b.Legal() && i < 64
    ensures Bit(ShiftedMask(b), i) <==> b.InTarget(i)
  {
    hide Bit, ShiftRight, ShiftLeft, Mask;
    Geometry(b);
    if b.FinalPos() > b.imms {
      var up := b.FinalPos() - b.imms;
      BitLeft(Mask(b.imms + 1), up, i);
      if up <= i { BitMask(b.imms + 1, i - up); }
    } else {
      BitRight(Mask(b.imms + 1), b.imms - b.FinalPos(), i);
      BitMask(b.imms + 1, i + b.imms - b.FinalPos());
    }
  }

  lemma BitField(b: Bitfield, wraps: bool, src: Word64, i: nat)
    requires b.Legal() && i < 64
    ensures Bit(Field(b, wraps, src), i) <==> b.InTarget(i) && b.SourceIndex(i) >= 0 && Bit(src, b.SourceIndex(i))
  {
    hide Bit, AndWord, Rotate, ShiftedMask, Source, Mask;
    var data := AndWord(Source(b.is64, src), Mask(b.imms + 1));
    var up := Width(b.is64) - b.immr;
    BitAndWord(Rotate(b, wraps, data), ShiftedMask(b), i);
    BitRotate(b, wraps, data, i);
    BitShiftedMask(b, i);
    BitMasked(b, src, i + b.immr);
    if up <= i { BitMasked(b, src, i - up); }
    Geometry(b);
  }

  /** UBFM is right for every encoding the decoder accepts and every operand. */
  lemma UnsignedMoveExact(b: Bitfield, wraps: bool, src: Word64, dst: Word64)
    requires b.Legal() && b.move == UBFM
    ensures Exact(b, wraps, src, dst)
  {
    hide Field, ArchBit;
    forall i: nat | i < Width(b.is64)
      ensures Bit(Moved(b, wraps, src, dst), i) <==> ArchBit(b, src, dst, i)
    {
      BitSource(b.is64, Field(b, wraps, src), i);
      BitField(b, wraps, src, i);
      ArchBitUnsigned(b, src, dst, i);
    }
  }

  lemma ArchBitUnsigned(b: Bitfield, src: Word64, dst: Word64, i: nat)
    requires b.Legal() && b.move == UBFM
    ensures ArchBit(b, src, dst, i) <==> b.InTarget(i) && b.SourceIndex(i) >= 0 && Bit(src, b.SourceIndex(i))
  {
  }

  /** Whether the mask that BFM clears with covers a bit outside the target. */
  predicate ClearedTooMuch(b: Bitfield, i: nat)
    requires b.Legal()
  {
    !b.IsInsert() && Width(b.is64) - b.immr <= i < Width(b.is64)
  }

  lemma BitComplement(x: Word64, i: nat)
    requires i < 64
    ensures Bit(Complement(x), i) <==> !Bit(x, i)
  {
    WordBound(x);
    Pow2Values();
    NotIsComplement(x, 64);
    BitNot(x, 64, i);
  }

  lemma BitInsert(b: Bitfield, wraps: bool, src: Word64, dst: Word64, i: nat)
    requires b.Legal() && b.move == BFM && i < Width(b.is64)
    ensures Bit(Moved(b, wraps, src, dst), i) <==>
            if b.InTarget(i) then ArchBit(b, src, dst, i) else Bit(dst, i) && !ClearedTooMuch(b, i)
  {
    hide Bit, OrWord, AndWord, Rotate, Field, Complement, Mask;
    var data, mask := Field(b, wraps, src), Mask(b.imms + 1);
    var kept := AndWord(dst, Complement(Rotate(b, wraps, mask)));
    BitSource(b.is64, OrWord(data, kept), i);
    BitOrWord(data, kept, i);
    BitField(b, wraps, src, i);
    BitAndWord(dst, Complement(Rotate(b, wraps, mask)), i);
    BitComplement(Rotate(b, wraps, mask), i);
    BitRotate(b, wraps, mask, i);
    BitMask(b.imms + 1, i + b.immr);
    var up := Width(b.is64) - b.immr;
    if up <= i { BitMask(b.imms + 1, i - up); }
    Geometry(b);
  }

  /** The top `immr` bits of the destination are clear. */
  ghost predicate TopClear(b: Bitfield, dst: Word64)
    requires b.Legal()
  {
    forall i: nat | Width(b.is64) - b.immr <= i < Width(b.is64) :: !Bit(dst, i)
  }

  /**
   * BFM is right exactly if it is an insert or the top `immr` bits of the destination are clear: the extract form
   * clears those too.
   */
  lemma InsertExact(b: Bitfield, wraps: bool, src: Word64, dst: Word64)
    requires b.Legal() && b.move == BFM
    ensures Exact(b, wraps, src, dst) <==>
            b.IsInsert() || TopClear(b, dst)
  {
    hide Moved, Bit;
    forall i: nat | i < Width(b.is64)
      ensures Bit(Moved(b, wraps, src, dst), i) <==>
              if b.InTarget(i) then ArchBit(b, src, dst, i) else Bit(dst, i) && !ClearedTooMuch(b, i)
    {
      BitInsert(b, wraps, src, dst, i);
    }
    Geometry(b);
    if b.IsInsert() || TopClear(b, dst) {
      assert forall i: nat | i < Width(b.is64) && ClearedTooMuch(b, i) :: !Bit(dst, i);
    } else {
      var i: nat :| Width(b.is64) - b.immr <= i < Width(b.is64) && Bit(dst, i);
      assert ClearedTooMuch(b, i) && !b.InTarget(i);
    }
  }

  lemma BitExtended(b: Bitfield, wraps: bool, src: Word64, dst: Word64, i: nat)
    requires b.Legal() && b.move == SBFM && i < Width(b.is64)
    ensures Bit(Moved(b, wraps, src, dst), i) <==>
            if b.InTarget(i) then ArchBit(b, src, dst, i) || (SignFound(b, src) && i == b.FinalPos())
            else i > b.FinalPos() && SignFound(b, src)
  {
    hide Bit, OrWord, Field, HighMask, Source;
    var data := Field(b, wraps, src);
    var final := b.FinalPos();
    Geometry(b);
    BitSource(b.is64, src, b.imms);
    BitField(b, wraps, src, i);
    BitField(b, wraps, src, if final == 0 then 63 else final - 1);
    BitSource(b.is64, data, i);
    BitSource(b.is64, OrWord(data, HighMask(final)), i);
    BitOrWord(data, HighMask(final), i);
    BitHighMask(final, i);
  }

  /** The sign bit is set and the code notices: it looks one position too low. */
  predicate SignFound(b: Bitfield, src: Word64)
    requires b.Legal()
  {
    Bit(src, b.imms) && b.imms > 0 && b.immr != b.imms && Bit(src, b.imms - 1)
  }

  /**
   * SBFM is right exactly if the field is not negative, or fills the word to the top, or has more than one bit (not
   * moved to position 0) of which the one below the sign is set as well.
   */
  lemma SignedMoveExact(b: Bitfield, wraps: bool, src: Word64, dst: Word64)
    requires b.Legal() && b.move == SBFM
    ensures Exact(b, wraps, src, dst) <==>
            !Bit(src, b.imms) || b.FinalPos() == Width(b.is64) - 1 || SignFound(b, src)
  {
    hide Moved, Bit;
    forall i: nat | i < Width(b.is64)
      ensures Bit(Moved(b, wraps, src, dst), i) <==>
              if b.InTarget(i) then ArchBit(b, src, dst, i) || (SignFound(b, src) && i == b.FinalPos())
              else i > b.FinalPos() && SignFound(b, src)
    {
      BitExtended(b, wraps, src, dst, i);
    }
    Geometry(b);
    if Bit(src, b.imms) && b.FinalPos() != Width(b.is64) - 1 && !SignFound(b, src) {
      var i := b.FinalPos() + 1;
      assert !b.InTarget(i) && ArchBit(b, src, dst, i);
    }
  }

  /** Sign-extending the byte 0x80 and halving the most negative number both come out positive. */
  lemma SignIsLost(wraps: bool, dst: Word64)
    ensures !Exact(Bitfield(SBFM, true, 0, 7), wraps, 0x80, dst)
    ensures !Exact(Bitfield(SBFM, true, 1, 63), wraps, 0x8000_0000_0000_0000, dst)
  {
    hide Bit, Exact;
    SignedMoveExact(Bitfield(SBFM, true, 0, 7), wraps, 0x80, dst);
    SignedMoveExact(Bitfield(SBFM, true, 1, 63), wraps, 0x8000_0000_0000_0000, dst);
    OnlyBit(7);
    OnlyBit(63);
  }

  /** A power of two has one bit. */
  lemma OnlyBit(n: nat)
    requires n == 7 || n == 63
    ensures var x := if n == 7 then 0x80 else 0x8000_0000_0000_0000;
            Bit(x, n) && !Bit(x, n - 1)
  {
    hide Bit;
    Pow2Values();
    assert Pow2(8) == 2 * Pow2(7) && Pow2(64) == 2 * Pow2(63);
    ShlIsMul(1, n);
    BitShl(1, n, n);
    BitShl(1, n, n - 1);
    BitOfOne();
  }

  lemma BitOfOne()
    ensures Bit(1, 0)
  {
  }

  // Round trips.

  /** BFI of `width` bits at `lsb`. */
  function Insert(is64: bool, lsb: nat, width: nat): (b: Bitfield)
    requires 0 < width && lsb + width <= Width(is64)
    ensures b.Legal() && b.IsInsert()
  {
    Bitfield(BFM, is64, if lsb == 0 then 0 else Width(is64) - lsb, width - 1)
  }

  /** UBFX of `width` bits at `lsb`. */
  function Extract(is64: bool, lsb: nat, width: nat): (b: Bitfield)
    requires 0 < width && lsb + width <= Width(is64)
    ensures b.Legal()
  {
    Bitfield(UBFM, is64, lsb, lsb + width - 1)
  }

  lemma BitInserted(is64: bool, wraps: bool, lsb: nat, width: nat, src: Word64, dst: Word64, i: nat)
    requires 0 < width && lsb + width <= Width(is64) && i < Width(is64)
    ensures Bit(Moved(Insert(is64, lsb, width), wraps, src, dst), i) <==>
            if lsb <= i < lsb + width then Bit(src, i - lsb) else Bit(dst, i)
  {
    hide Moved, Bit;
    var b := Insert(is64, lsb, width);
    InsertExact(b, wraps, src, dst);
    Geometry(b);
  }

  lemma BitExtracted(is64: bool, wraps: bool, lsb: nat, width: nat, src: Word64, dst: Word64, i: nat)
    requires 0 < width && lsb + width <= Width(is64) && i < Width(is64)
    ensures Bit(Moved(Extract(is64, lsb, width), wraps, src, dst), i) <==> i < width && Bit(src, i + lsb)
  {
    hide Moved, Bit;
    var b := Extract(is64, lsb, width);
    UnsignedMoveExact(b, wraps, src, dst);
    Geometry(b);
  }

  lemma MovedBound(b: Bitfield, wraps: bool, src: Word64, dst: Word64)
    requires b.Legal()
    ensures Moved(b, wraps, src, dst) < Pow2(Width(b.is64))
  {
    Pow2Values();
  }

  /** Extracting the field just inserted gives the low bits of the source, for every legal position and width. */
  lemma InsertThenExtract(is64: bool, wraps: bool, lsb: nat, width: nat, src: Word64, dst: Word64, other: Word64)
    requires 0 < width && lsb + width <= Width(is64)
    ensures var inserted := Moved(Insert(is64, lsb, width), wraps, src, dst);
            Moved(Extract(is64, lsb, width), wraps, inserted, other) == Trunc(src, width)
  {
    hide Moved, Bit, Insert, Extract, Pow2, Trunc;
    var inserted := Moved(Insert(is64, lsb, width), wraps, src, dst);
    var x := Moved(Extract(is64, lsb, width), wraps, inserted, other);
    ExtractIs64(is64, lsb, width);
    MovedBound(Extract(is64, lsb, width), wraps, inserted, other);
    TruncBound(src, width);
    Pow2Monotonic(width, Width(is64));
    forall i: nat | i < Width(is64)
      ensures Bit(x, i) == Bit(Trunc(src, width), i)
    {
      BitExtracted(is64, wraps, lsb, width, inserted, other, i);
      if i < width { BitInserted(is64, wraps, lsb, width, src, dst, i + lsb); }
      BitTrunc(src, width, i);
    }
    SameBits(x, Trunc(src, width), Width(is64));
  }

  lemma ExtractIs64(is64: bool, lsb: nat, width: nat)
    requires 0 < width && lsb + width <= Width(is64)
    ensures Extract(is64, lsb, width).is64 == is64
  {
  }

  /** Inserting one field leaves every disjoint field as it was. */
  lemma InsertKeepsOtherFields(is64: bool, wraps: bool, lsb: nat, width: nat, lsb': nat, width': nat,
                               src: Word64, dst: Word64, other: Word64)
    requires 0 < width && lsb + width <= Width(is64)
    requires 0 < width' && lsb' + width' <= Width(is64)
    requires lsb + width <= lsb' || lsb' + width' <= lsb
    ensures var inserted := Moved(Insert(is64, lsb, width), wraps, src, dst);
            Moved(Extract(is64, lsb', width'), wraps, inserted, other) ==
            Moved(Extract(is64, lsb', width'), wraps, dst, other)
  {
    hide Moved, Bit, Insert, Extract, Pow2;
    var inserted := Moved(Insert(is64, lsb, width), wraps, src, dst);
    var b := Extract(is64, lsb', width');
    ExtractIs64(is64, lsb', width');
    MovedBound(b, wraps, inserted, other);
    MovedBound(b, wraps, dst, other);
    forall i: nat | i < Width(is64)
      ensures Bit(Moved(b, wraps, inserted, other), i) == Bit(Moved(b, wraps, dst, other), i)
    {
      BitExtracted(is64, wraps, lsb', width', inserted, other, i);
      BitExtracted(is64, wraps, lsb', width', dst, other, i);
      if i < width' { BitInserted(is64, wraps, lsb, width, src, dst, i + lsb'); }
    }
    SameBits(Moved(b, wraps, inserted, other), Moved(b, wraps, dst, other), Width(is64));
  }
}
