/**
 * Load exclusive and store exclusive. A load remembers the value it read; a store is a compare-and-swap against
 * that value. It looks neither at `exclusiveAccess` nor at the remembered address.
 */
module Exclusives {
  import opened Words
  import opened Bits
  import opened Cores
  import opened Fields
  import opened LittleEndian
  import opened GuestPages
  import opened GuestBytes
  import opened Memory

  /** `static_cast<T>` for an unsigned `T` of `n` bytes. */
  function Low(x: nat, n: nat): nat {
    x % Pow256(n)
  }

  /** `loadRegImmGeneric<T, LoadExclusive>`, once the value has been read. */
  function LoadExclusive(r: Regs, rt: Reg, addr: Word64, value: Word64): Regs {
    r.Set(rt, value).(excl := Exclusive(true, addr, value, 0))
  }

  /** `storeRegImmGeneric<T, StoreExclusive>`: the new registers, and whether the store happens. */
  function StoreExclusive(r: Regs, rs: Reg, n: nat, current: nat): (Regs, bool) {
    var ok := current == Low(r.excl.data0, n);
    (r.Set(rs, if ok then 0 else 1), ok)
  }

  /** `Low` truncates, at each size. */
  lemma LowMeaning(x: nat)
    ensures Low(x, 1) == x % 0x100 && Low(x, 2) == x % 0x1_0000 && Low(x, 4) == x % 0x1_0000_0000
    ensures Low(x, 8) == x % 0x1_0000_0000_0000_0000
  {
    Pow256Values();
  }

  /** A store exclusive succeeds, with status 0, exactly if the cell holds the remembered value truncated to its size. */
  lemma StoreExclusiveMeaning(r: Regs, rs: Reg, n: nat, current: nat)
    requires n in {1, 2, 4, 8}
    ensures var (r', ok) := StoreExclusive(r, rs, n, current);
            var m := if n == 1 then 0x100 else if n == 2 then 0x1_0000 else if n == 4 then 0x1_0000_0000
                     else 0x1_0000_0000_0000_0000;
            && (ok <==> current == r.excl.data0 % m)
            && r' == r.(gpr := r.gpr[rs := if ok then 0 else 1])
  {
    LowMeaning(r.excl.data0);
  }

  /** `loadPairGeneric<uint32_t, LoadExclusive>`: two separate reads, remembered as one 64-bit value. */
  function LoadPairExclusive(r: Regs, rt: Reg, rt2: Reg, addr: Word64, lo: Word32, hi: Word32): Regs {
    r.Set(rt, lo).Set(rt2, hi).(excl := Exclusive(true, addr, lo + 0x1_0000_0000 * hi, 0))
  }

  /** The 64-bit value that `storePairGeneric<uint32_t, StoreExclusive>` puts together from two registers. */
  function PairData(x: Word64, y: Word64): nat {
    Or(x, Trunc(Shl(y, 32), 64))
  }

  /** No bit above the low half of `x` is missing from `y`. */
  ghost predicate HighFits(x: Word64, y: Word64) {
    forall i: nat | 32 <= i < 64 && Bit(x, i) :: Bit(y, i - 32)
  }

  /** It is the pair of low halves exactly if no bit above the low half of `x` is missing from `y`. */
  lemma PairDataExact(x: Word64, y: Word64)
    ensures PairData(x, y) == Trunc(x, 32) + Shl(Trunc(y, 32), 32) <==> HighFits(x, y)
  {
    var d, p := PairData(x, y), Trunc(x, 32) + Shl(Trunc(y, 32), 32);
    forall i: nat | i < 64
      ensures Bit(d, i) <==> Bit(x, i) || (i >= 32 && Bit(y, i - 32))
      ensures Bit(p, i) <==> if i < 32 then Bit(x, i) else Bit(y, i - 32)
    {
      PairDataBit(x, y, i);
    }
    if HighFits(x, y) {
      PairDataBounds(x, y);
      SameBits(d, p, 64);
    } else {
      var i: nat :| 32 <= i < 64 && Bit(x, i) && !Bit(y, i - 32);
      assert Bit(d, i) && !Bit(p, i);
      assert d != p;
    }
  }

  lemma PairDataBounds(x: Word64, y: Word64)
    ensures PairData(x, y) < Pow2(64) && Trunc(x, 32) + Shl(Trunc(y, 32), 32) < Pow2(64)
  {
    Pow2Values();
    TruncBound(Shl(y, 32), 64);
    OrBound(x, Trunc(Shl(y, 32), 64), 64);
    TruncBound(x, 32);
    TruncBound(y, 32);
    ConcatBound(Trunc(x, 32), Trunc(y, 32), 32, 32);
  }

  lemma PairDataBit(x: Word64, y: Word64, i: nat)
    requires i < 64
    ensures Bit(PairData(x, y), i) <==> Bit(x, i) || (i >= 32 && Bit(y, i - 32))
    ensures Bit(Trunc(x, 32) + Shl(Trunc(y, 32), 32), i) <==> if i < 32 then Bit(x, i) else Bit(y, i - 32)
  {
    BitOr(x, Trunc(Shl(y, 32), 64), i);
    BitTrunc(Shl(y, 32), 64, i);
    BitShl(y, 32, i);
    TruncBound(x, 32);
    BitConcat(Trunc(x, 32), Trunc(y, 32), 32, i);
    BitTrunc(x, 32, i);
    if i >= 32 { BitTrunc(y, 32, i - 32); }
  }

  /** Registers below 2^32 satisfy the condition of `PairDataExact`. */
  lemma PairDataLow(lo: Word32, hi: Word32)
    ensures PairData(lo, hi) == lo + 0x1_0000_0000 * hi
  {
    Pow2Values();
    forall i: nat | 32 <= i < 64
      ensures !Bit(lo, i)
    {
      BitBound(lo, 32, i);
    }
    PairDataExact(lo, hi);
    TruncSmall(lo, 32);
    TruncSmall(hi, 32);
    ShlIsMul(hi, 32);
  }

  // The handlers themselves.

  function Base(r: Regs, inst: Word32): Word64 {
    if Rn(inst) == 31 then r.sp else r.gpr[Rn(inst)]
  }

  /** Register 31 as the base is the stack pointer. */
  lemma BaseMeaning(r: Regs, inst: Word32)
    ensures Base(r, inst) == if inst / 0x20 % 32 == 31 then r.sp else r.gpr[inst / 0x20 % 32]
  {
  }

  /** A load exclusive leaves the value in its register and remembers it, and changes nothing else. */
  lemma LoadExclusiveMeaning(r: Regs, inst: Word32, value: Word64)
    ensures LoadExclusive(r, Rt(inst), Base(r, inst), value) ==
            r.(gpr := r.gpr[inst % 32 := value],
               excl := Exclusive(true, if inst / 0x20 % 32 == 31 then r.sp else r.gpr[inst / 0x20 % 32], value, 0))
  {
  }

  /** The `n`-byte scalar at `addr`; `n` is the size of `T`. */
  ghost function Scalar(contents: map<nat, Page>, addr: nat, n: nat): (v: Word64)
    requires MappedRange(contents, addr, n) && n in {1, 2, 4, 8}
    ensures v < Pow256(n)
  {
    DecodeBound(GetBytes(contents, addr, n));
    Pow256Values();
    Decode(GetBytes(contents, addr, n))
  }

  /** The access is inside one mapped page, where `value` is stored. */
  ghost predicate Accessible(mem: GuestMemory, addr: Word64, n: nat, value: Word64)
    reads mem, mem.ram, mem.table
  {
    && mem.Valid() && addr / 4096 in mem.view.frames && Mapped(mem.view.contents, addr)
    && n in {1, 2, 4, 8} && addr % 4096 + n <= 4096
    && MappedRange(mem.view.contents, addr, n) && value == Scalar(mem.view.contents, addr, n)
  }

  /** A store exclusive writes its operand if it succeeds and nothing otherwise. */
  ghost predicate Stored(before: map<nat, Page>, after: map<nat, Page>, addr: nat, n: nat, data: nat, ok: bool) {
    && MappedRange(before, addr, n)
    && after == if ok then PutBytes(before, addr, Encode(Low(data, n), n)) else before
  }

  /** After a success the cell reads as the operand truncated to its size; no other byte changes, and none on failure. */
  lemma StoredMeaning(before: map<nat, Page>, after: map<nat, Page>, addr: nat, n: nat, data: nat, ok: bool, a: nat)
    requires n in {1, 2, 4, 8} && Stored(before, after, addr, n, data, ok) && Mapped(before, a)
    ensures ok ==> MappedRange(after, addr, n) && Scalar(after, addr, n) == Low(data, n)
    ensures Mapped(after, a) && (!ok || !(addr <= a < addr + n) ==> ByteAt(after, a) == ByteAt(before, a))
  {
    hide Scalar, PutBytes, Encode;
    if ok {
      ModBelow(data, Pow256(n));
      ScalarRoundTrip(before, addr, n, Low(data, n));
      PutBytesAt(before, addr, Encode(Low(data, n), n), a);
    }
  }

  lemma ModBelow(x: nat, d: nat)
    requires d > 0
    ensures 0 <= x % d < d
  {
  }

  method LoadRegExclusive(core: Core, mem: GuestMemory, inst: Word32, n: nat, ghost r: Regs, ghost value: Word64)
    requires core.Valid() && r == core.View().regs && Accessible(mem, Base(r, inst), n, value)
    modifies core`excl, core.gpr
    ensures core.View() == old(core.View()).(regs := LoadExclusive(r, Rt(inst), Base(r, inst), value))
  {
    hide GuestMemory.Valid;
    var addr := if Rn(inst) == 31 then core.sp else core.gpr[Rn(inst)];
    var data := mem.Read(addr, n, 1);
    assert data == value;
    core.gpr[Rt(inst)] := data;
    core.excl := Exclusive(true, addr, core.gpr[Rt(inst)], 0);
  }

  method StoreRegExclusive(core: Core, mem: GuestMemory, inst: Word32, n: nat, ghost r: Regs, ghost value: Word64)
    requires core.Valid() && r == core.View().regs && Accessible(mem, Base(r, inst), n, value)
    modifies core.gpr, mem`view, mem.ram
    ensures mem.Valid()
    ensures var (regs, ok) := StoreExclusive(r, Rs(inst), n, value);
            && core.View() == old(core.View()).(regs := regs)
            && mem.view == old(mem.view).(contents := mem.view.contents)
            && Stored(old(mem.view.contents), mem.view.contents, Base(r, inst), n, r.gpr[Rt(inst)], ok)
  {
    hide GuestMemory.Valid;
    var addr := if Rn(inst) == 31 then core.sp else core.gpr[Rn(inst)];
    var data := Low(core.gpr[Rt(inst)], n);
    var ok := mem.WriteAtomic(addr, n, data, Low(core.excl.data0, n));
    core.gpr[Rs(inst)] := if ok then 0 else 1;
  }

  /** An eight-byte scalar is its two four-byte halves. */
  lemma ScalarHalves(contents: map<nat, Page>, addr: nat)
    requires MappedRange(contents, addr, 8)
    ensures MappedRange(contents, addr, 4) && MappedRange(contents, addr + 4, 4)
    ensures Scalar(contents, addr, 8) ==
            Scalar(contents, addr, 4) + 0x1_0000_0000 * Scalar(contents, addr + 4, 4)
    ensures Scalar(contents, addr, 4) < 0x1_0000_0000
  {
    var low, high := GetBytes(contents, addr, 4), GetBytes(contents, addr + 4, 4);
    forall i: nat | i < 8
      ensures GetBytes(contents, addr, 8)[i] == (low + high)[i]
    {
      GetBytesAt(contents, addr, 8, i);
      if i < 4 { GetBytesAt(contents, addr, 4, i); } else { GetBytesAt(contents, addr + 4, 4, i - 4); }
    }
    assert GetBytes(contents, addr, 8) == low + high;
    DecodeConcat(low, high);
    Pow256Values();
  }

  /** Both halves of an eight-byte value loaded as a pair. */
  function LoadPairOf(r: Regs, rt: Reg, rt2: Reg, addr: Word64, value: Word64): Regs {
    LoadPairExclusive(r, rt, rt2, addr, value % TWO32, value / TWO32)
  }

  /** The first register holds the lower word, unless the second overwrites it, and both words are remembered. */
  ghost predicate PairLoaded(contents: map<nat, Page>, addr: Word64, r: Regs, rt: Reg, rt2: Reg) {
    && MappedRange(contents, addr, 8) && MappedRange(contents, addr, 4) && MappedRange(contents, addr + 4, 4)
    && (rt != rt2 ==> r.gpr[rt] == Scalar(contents, addr, 4))
    && r.gpr[rt2] == Scalar(contents, addr + 4, 4)
    && r.excl == Exclusive(true, addr, Scalar(contents, addr, 8), 0)
  }

  /** The whole effect of a pair load of `value`. */
  ghost predicate PairOutcome(contents: map<nat, Page>, before: Cpu, after: Cpu, inst: Word32, value: Word64) {
    var addr := Base(before.regs, inst);
    && after == before.(regs := LoadPairOf(before.regs, Rt(inst), Rt2(inst), addr, value))
    && PairLoaded(contents, addr, after.regs, Rt(inst), Rt2(inst))
  }

  /** What a pair load leaves, for any two registers. */
  lemma LoadPairMeaning(contents: map<nat, Page>, addr: Word64, r: Regs, rt: Reg, rt2: Reg)
    requires MappedRange(contents, addr, 8)
    ensures PairLoaded(contents, addr, LoadPairOf(r, rt, rt2, addr, Scalar(contents, addr, 8)), rt, rt2)
  {
    hide Scalar;
    ScalarHalves(contents, addr);
  }

  /** What the two reads of a pair return. */
  lemma PairReads(mem: GuestMemory, addr: Word64, value: Word64)
    requires Accessible(mem, addr, 8, value)
    ensures MappedRange(mem.view.contents, addr, 4) && MappedRange(mem.view.contents, addr + 4, 4)
    ensures Decode(GetBytes(mem.view.contents, addr, 4)) == value % TWO32
    ensures Decode(GetBytes(mem.view.contents, addr + 4, 4)) == value / TWO32
    ensures addr + 4 < TWO64 && (addr + 4) / 4096 == addr / 4096 && (addr + 4) % 4096 == addr % 4096 + 4
    ensures ConsecutiveFrames(mem.view, addr / 4096, 1)
  {
    hide GuestMemory.Valid, GetBytes, Decode;
    SamePage(addr);
    ScalarHalves(mem.view.contents, addr);
    assert addr + 4 < TWO64 by { TopOfPage(addr); }
  }

  lemma TopOfPage(addr: Word64)
    ensures addr % 4096 + 8 <= 4096 ==> addr + 8 <= TWO64
  {
  }

  method LoadPairRegExclusive(core: Core, mem: GuestMemory, inst: Word32, ghost r: Regs, ghost value: Word64)
    requires core.Valid() && r == core.View().regs && Accessible(mem, Base(r, inst), 8, value)
    modifies core`excl, core.gpr
    ensures PairOutcome(mem.view.contents, old(core.View()), core.View(), inst, value)
  {
    hide GuestMemory.Valid, MappedRange, Scalar, Decode, GetBytes, PairData;
    var addr := if Rn(inst) == 31 then core.sp else core.gpr[Rn(inst)];
    PairReads(mem, addr, value);
    LoadPairMeaning(mem.view.contents, addr, r, Rt(inst), Rt2(inst));
    hide PairLoaded;
    var data1 := mem.Read(addr, 4, 1);
    var data2 := mem.Read(Add64(addr, 4), 4, 1);
    assert data1 == value % TWO32 && data2 == value / TWO32;
    core.gpr[Rt(inst)] := data1;
    core.gpr[Rt2(inst)] := data2;
    PairDataLow(data1, data2);
    core.excl := Exclusive(true, addr, PairData(data1, data2), 0);
  }

  lemma SamePage(addr: Word64)
    ensures addr % 4096 + 8 <= 4096 ==> (addr + 4) / 4096 == addr / 4096 && (addr + 4) % 4096 == addr % 4096 + 4
  {
  }

  method StorePairRegExclusive(core: Core, mem: GuestMemory, inst: Word32, ghost r: Regs, ghost value: Word64)
    requires core.Valid() && r == core.View().regs && Accessible(mem, Base(r, inst), 8, value)
    modifies core.gpr, mem`view, mem.ram
    ensures mem.Valid()
    ensures var (regs, ok) := StoreExclusive(r, Rs(inst), 8, value);
            && core.View() == old(core.View()).(regs := regs)
            && mem.view == old(mem.view).(contents := mem.view.contents)
            && Stored(old(mem.view.contents), mem.view.contents, Base(r, inst), 8,
                      PairData(r.gpr[Rt(inst)], r.gpr[Rt2(inst)]), ok)
  {
    hide GuestMemory.Valid;
    var addr := if Rn(inst) == 31 then core.sp else core.gpr[Rn(inst)];
    var data := PairData(core.gpr[Rt(inst)], core.gpr[Rt2(inst)]);
    PairDataIsWord(core.gpr[Rt(inst)], core.gpr[Rt2(inst)]);
    LowOfWord(core.excl.data0);
    var ok := mem.WriteAtomic(addr, 8, data, core.excl.data0);
    core.gpr[Rs(inst)] := if ok then 0 else 1;
  }

  lemma PairDataIsWord(x: Word64, y: Word64)
    ensures Low(PairData(x, y), 8) == PairData(x, y)
  {
    PairDataBounds(x, y);
    Pow2Values();
    LowOfWord(PairData(x, y));
  }

  lemma LowOfWord(x: Word64)
    ensures Low(x, 8) == x
  {
    Pow256Values();
  }

  /** A scalar that has been stored is the scalar that is read. */
  lemma ScalarRoundTrip(contents: map<nat, Page>, addr: nat, n: nat, v: nat)
    requires MappedRange(contents, addr, n) && n in {1, 2, 4, 8} && v < Pow256(n)
    ensures var after := PutBytes(contents, addr, Encode(v, n));
            MappedRange(after, addr, n) && Scalar(after, addr, n) == v
  {
    ReadBack(contents, addr, Encode(v, n));
    DecodeEncode(v, n);
  }
}
