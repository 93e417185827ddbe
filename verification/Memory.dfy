/** `namespace mem`: the allocator, the page table and the region copies, working in place on host bytes. */
module Memory {
  import opened Words
  import opened LittleEndian
  import opened GuestPages
  import opened GuestBytes
  import opened HostMemory

  class GuestMemory {
    const at: Extent
    var ram: array<Byte>
    var freePageList: Word64
    var table: array<Entry>
    var locked: bool
    ghost var view: Pages

    ghost function Abs(): Host
      reads this, ram, table
    {
      Host(at, ram[..], freePageList, table[..], locked)
    }

    /** The invariant: the host state represents `view`, and host pages are partitioned into mapped and free ones. */
    ghost predicate Valid()
      reads this, ram, table
    {
      Represents(Abs(), view)
    }

    /** `init`, given the block that `platform::allocate` returned. */
    constructor Init(base: Word64, numPages: nat)
      requires 0 < numPages <= 0x1_0000_0000 && 0 < base
      requires base + 4096 * numPages <= 0x1_0000_0000_0000_0000
      ensures Valid() && fresh(ram) && fresh(table)
      ensures at == Extent(base, numPages) && view == Initial(numPages)
    {
      hide Represents;
      at := Extent(base, numPages);
      ram := new Byte[4096 * numPages];
      freePageList := base;
      table := new Entry[NUM_PAGES](_ => Entry(0, NONE));
      locked := false;
      view := Initial(numPages);
      new;
      LinkAll();
      InitRepresents(Abs());
    }

    /** Links every page to the one above it and the last page to nothing. */
    method LinkAll()
      requires at.Valid() && at.pages > 0 && ram.Length == 4096 * at.pages
      modifies ram
      ensures forall p: nat | p < at.pages :: LinkIn(ram[..], p) == if p + 1 < at.pages then at.Pointer(p + 1) else 0
    {
      var i := 0;
      while i < at.pages - 1
        invariant 0 <= i <= at.pages - 1
        invariant forall j: nat | j < i :: LinkIn(ram[..], j) == at.Pointer(j + 1)
      {
        LinkSurvivesBelow(ram[..], i, at.base + (i + 1) * 4096);
        StorePointer(i, at.base + (i + 1) * 4096);
        i := i + 1;
      }
      LinkSurvivesBelow(ram[..], i, 0);
      StorePointer(i, 0);
    }

    /** `*reinterpret_cast<uint8_t**>(page) = pointer`, for the page at index `p`. */
    method StorePointer(p: nat, pointer: Word64)
      requires 4096 * p + 4096 <= ram.Length
      modifies ram
      ensures ram[..] == Splice(old(ram[..]), 4096 * p, Encode(pointer, 8))
      ensures LinkIn(ram[..], p) == pointer
    {
      Poke(4096 * p, Encode(pointer, 8));
      LinkRoundTrip(old(ram[..]), p, pointer);
    }

    /** Copies `bytes` into host memory: `memcpy`, `memset` and plain stores are all this. */
    method Poke(off: nat, bytes: seq<Byte>)
      requires off + |bytes| <= ram.Length
      modifies ram
      ensures ram[..] == Splice(old(ram[..]), off, bytes)
    {
      forall i | off <= i < off + |bytes| {
        ram[i] := bytes[i - off];
      }
    }

    /** Unlinks the front page of the list and clears it. */
    method TakePage(p: nat)
      requires 4096 * p + 4096 <= ram.Length && LinkIn(ram[..], p) < 0x1_0000_0000_0000_0000
      modifies this`freePageList, ram
      ensures Abs() == old(Abs()).(head := old(LinkIn(ram[..], p)), ram := Splice(old(ram[..]), 4096 * p, ZeroPage()))
    {
      assert ram[4096 * p..4096 * p + 8] == PageAt(ram[..], p)[..8];
      freePageList := Decode(ram[4096 * p..4096 * p + 8]);
      Poke(4096 * p, ZeroPage());
    }

    method AllocatePage(pageNum: Word64) returns (ok: bool)
      requires Valid() && !locked
      modifies this, ram, table
      ensures Valid() && ram == old(ram) && table == old(table)
      ensures (view, ok) == Allocate(old(view), pageNum)
      ensures ok && pageNum !in old(view.frames) ==>
                pageNum in view.contents && forall i: nat | i < 4096 :: view.contents[pageNum][i] == 0
    {
      hide Represents;
      if pageNum >= NUM_PAGES {
        return false;
      }
      EntryMeaning(Abs(), view, pageNum);
      HeadMeaning(Abs(), view);
      ghost var h := Abs();
      locked := true;
      if table[pageNum].pointer != 0 {
        locked := false;
        return true;
      }
      if freePageList == 0 {
        LockRefines(h, view);
        view := view.(locked := true);
        return false;
      }
      AllocateRefines(h, view, pageNum);
      var page := freePageList;
      TakePage((page - at.base) / 4096);
      table[pageNum] := table[pageNum].(pointer := page);
      locked := false;
      view := Allocate(view, pageNum).0;
      return true;
    }

    /** Threads page `p` back onto the list. */
    method ReturnPage(p: nat, pointer: Word64)
      requires 4096 * p + 4096 <= ram.Length && pointer == at.Pointer(p)
      modifies this`freePageList, ram
      ensures Abs() == old(Abs()).(head := pointer, ram := Splice(old(ram[..]), 4096 * p, Encode(old(freePageList), 8)))
    {
      StorePointer(p, freePageList);
      freePageList := pointer;
    }

    method FreePage(pageNum: Word64)
      requires Valid() && !locked
      modifies this, ram, table
      ensures Valid() && ram == old(ram) && table == old(table)
      ensures view == Release(old(view), pageNum)
    {
      hide Represents;
      if pageNum >= NUM_PAGES {
        return;
      }
      EntryMeaning(Abs(), view, pageNum);
      HeadMeaning(Abs(), view);
      ghost var h := Abs();
      locked := true;
      var freed := table[pageNum].pointer;
      if freed == 0 {
        LockRefines(h, view);
        view := view.(locked := true);
        return;
      }
      ReleaseRefines(h, view, pageNum);
      table[pageNum] := Entry(0, NONE);
      ReturnPage((freed - at.base) / 4096, freed);
      locked := false;
      view := Release(view, pageNum);
    }

    method ProtectPage(pageNum: Word64, perm: Permission)
      requires Valid()
      modifies this, table
      ensures Valid() && ram == old(ram) && table == old(table)
      ensures view == Protect(old(view), pageNum, perm)
    {
      hide Represents;
      if pageNum >= NUM_PAGES {
        return;
      }
      EntryMeaning(Abs(), view, pageNum);
      if table[pageNum].pointer == 0 {
        return;
      }
      ProtectRefines(Abs(), view, pageNum, perm);
      table[pageNum] := table[pageNum].(perm := perm);
      view := Protect(view, pageNum, perm);
    }

    method AllocateRegion(beginPageNum: Word64, numPages: Word64) returns (ok: bool)
      requires Valid() && !locked
      modifies this, ram, table
      ensures Valid() && ram == old(ram) && table == old(table)
      ensures (view, ok) == GuestPages.AllocateRegion(old(view), beginPageNum, 0, numPages)
    {
      hide Represents;
      var i: Word32 := 0;
      while i < numPages
        invariant i <= numPages && (i == 0 || beginPageNum + i <= NUM_PAGES)
        invariant Valid() && !locked && ram == old(ram) && table == old(table)
        invariant GuestPages.AllocateRegion(old(view), beginPageNum, 0, numPages) ==
                  GuestPages.AllocateRegion(view, beginPageNum, i, numPages)
      {
        ghost var before := view;
        LockMeaning(Abs(), view);
        ok := AllocatePage(Add64(beginPageNum, i));
        LockMeaning(Abs(), view);
        if !ok {
          return false;
        }
        i := i + 1;
      }
      return true;
    }

    /** Every page of the region has to be mapped or out of range: freeing an unmapped one never releases the lock. */
    method FreeRegion(beginPageNum: Word64, numPages: Word64)
      requires Valid() && !locked && numPages < 0x1_0000_0000
      requires forall i: nat | i < numPages :: Add64(beginPageNum, i) < NUM_PAGES ==> Add64(beginPageNum, i) in view.frames
      modifies this, ram, table
      ensures Valid() && !locked && ram == old(ram) && table == old(table)
      ensures view == ReleaseRegion(old(view), beginPageNum, numPages)
    {
      hide Represents;
      var i: Word32 := 0;
      while i < numPages
        invariant i <= numPages
        invariant Valid() && !locked && ram == old(ram) && table == old(table)
        invariant view == ReleaseRegion(old(view), beginPageNum, i)
      {
        LockMeaning(Abs(), view);
        var pn := Add64(beginPageNum, i);
        ReleaseRegionFrames(old(view), beginPageNum, i, pn);
        FreePage(pn);
        LockMeaning(Abs(), view);
        i := i + 1;
      }
    }

    method ProtectRegion(beginPageNum: Word64, numPages: Word64, perm: Permission)
      requires Valid() && numPages < 0x1_0000_0000
      modifies this, table
      ensures Valid() && ram == old(ram) && table == old(table)
      ensures view == GuestPages.ProtectRegion(old(view), beginPageNum, numPages, perm)
    {
      hide Represents;
      var i: Word32 := 0;
      while i < numPages
        invariant i <= numPages
        invariant Valid() && ram == old(ram) && table == old(table)
        invariant view == GuestPages.ProtectRegion(old(view), beginPageNum, i, perm)
      {
        ProtectPage(Add64(beginPageNum, i), perm);
        i := i + 1;
      }
    }

    /** `translate`: a host pointer, or nothing where the segmentation fault handler is called. */
    method Translate(addr: Word64) returns (pointer: Option<Word64>)
      requires Valid()
      ensures pointer.None? <==> addr / 4096 !in view.frames
      ensures pointer.Some? ==> pointer.value == at.Pointer(view.frames[addr / 4096]) + addr % 4096
      ensures pointer.Some? ==> at.base <= pointer.value < at.base + ram.Length
    {
      hide Represents;
      var pageNum := addr / 4096;
      var pageOffset := addr % 4096;
      FramesMeaning(Abs(), view);
      if pageNum >= NUM_PAGES {
        return None;
      }
      EntryMeaning(Abs(), view, pageNum);
      HeadMeaning(Abs(), view);
      if table[pageNum].pointer == 0 {
        return None;
      }
      return Some(table[pageNum].pointer + pageOffset);
    }

    /** A store that stays inside one mapped page: one byte, or the `memcpy` of a whole page. */
    method StoreInPage(addr: Word64, bytes: seq<Byte>)
      requires Valid() && Mapped(view.contents, addr) && addr % 4096 + |bytes| <= 4096
      modifies this`view, ram
      ensures Valid() && ram == old(ram)
      ensures var pn := addr / 4096;
              view == old(view).(contents := old(view).contents[pn := Splice(old(view).contents[pn], addr % 4096, bytes)])
    {
      hide Represents;
      FramesMeaning(Abs(), view);
      HeadMeaning(Abs(), view);
      StoreRefines(Abs(), view, addr / 4096, addr % 4096, bytes);
      EntryMeaning(Abs(), view, addr / 4096);
      var pointer := Translate(addr);
      Poke(pointer.value - at.base, bytes);
      view := view.(contents := view.contents[addr / 4096 := Splice(view.contents[addr / 4096], addr % 4096, bytes)]);
    }

    method StoreByte(addr: Word64, b: Byte)
      requires Valid() && Mapped(view.contents, addr)
      modifies this`view, ram
      ensures Valid() && ram == old(ram)
      ensures view == old(view).(contents := PutByte(old(view).contents, addr, b))
    {
      hide Represents;
      SpliceByte(view.contents[addr / 4096], addr % 4096, b);
      StoreInPage(addr, [b]);
    }

    method StorePage(addr: Word64, page: Page)
      requires Valid() && Mapped(view.contents, addr) && addr % 4096 == 0
      modifies this`view, ram
      ensures Valid() && ram == old(ram)
      ensures view == old(view).(contents := old(view).contents[addr / 4096 := page])
    {
      hide Represents;
      SplicePage(view.contents[addr / 4096], page);
      StoreInPage(addr, page);
    }

    /** Copies whole pages where it can and single bytes elsewhere. */
    method WriteRegion(addr: Word64, data: seq<Byte>)
      requires Valid() && |data| < 0x1_0000_0000 && MappedRange(view.contents, addr, |data|)
      modifies this`view, ram
      ensures Valid() && ram == old(ram)
      ensures view == old(view).(contents := PutBytes(old(view).contents, addr, data))
    {
      hide Represents;
      hide PutByte, Mapped;
      ghost var before := view.contents;
      assert PutBytes(before, addr, data[..0]) == before;
      var i: nat := 0;
      while i < |data|
        invariant i <= |data| && Valid() && ram == old(ram)
        invariant MappedRange(before, addr, i)
        invariant view == old(view).(contents := PutBytes(before, addr, data[..i]))
      {
        InRange(Abs(), view, before, addr + i);
        if (addr + i) % 4096 == 0 && i + 4096 < |data| {
          PutPage(before, addr, data, i);
          StorePage(addr + i, data[i..i + 4096]);
          i := i + 4096;
        } else {
          PutOne(before, addr, data, i);
          StoreByte(addr + i, data[i]);
          i := i + 1;
        }
      }
      assert data[..i] == data;
    }

    /** `read<uint8_t>`. */
    method LoadByte(addr: Word64) returns (b: Byte)
      requires Valid() && Mapped(view.contents, addr)
      ensures b == ByteAt(view.contents, addr)
    {
      hide Represents;
      FramesMeaning(Abs(), view);
      HeadMeaning(Abs(), view);
      ContentsMeaning(Abs(), view, addr / 4096);
      EntryMeaning(Abs(), view, addr / 4096);
      var pointer := Translate(addr);
      b := ram[pointer.value - at.base];
      assert b == PageAt(ram[..], view.frames[addr / 4096])[addr % 4096];
    }

    /** The `memcpy` of a whole page into `data` at `i`. */
    method LoadPage(addr: Word64, data: array<Byte>, i: nat)
      requires Valid() && Mapped(view.contents, addr) && addr % 4096 == 0
      requires data != ram && i + 4096 <= data.Length
      modifies data
      ensures data[..] == Splice(old(data[..]), i, view.contents[addr / 4096])
    {
      hide Represents;
      FramesMeaning(Abs(), view);
      HeadMeaning(Abs(), view);
      ContentsMeaning(Abs(), view, addr / 4096);
      EntryMeaning(Abs(), view, addr / 4096);
      var pointer := Translate(addr);
      var off := pointer.value - at.base;
      assert ram[off..off + 4096] == view.contents[addr / 4096];
      forall j | i <= j < i + 4096 {
        data[j] := ram[off + j - i];
      }
    }

    method ReadRegion(addr: Word64, data: array<Byte>)
      requires Valid() && data != ram && data.Length < 0x1_0000_0000 && MappedRange(view.contents, addr, data.Length)
      modifies data
      ensures Valid() && data[..] == GetBytes(view.contents, addr, data.Length)
    {
      hide Represents;
      hide Mapped;
      var i: nat := 0;
      while i < data.Length
        invariant i <= data.Length && Valid() && MappedRange(view.contents, addr, i)
        invariant data[..i] == GetBytes(view.contents, addr, i)
      {
        InRange(Abs(), view, view.contents, addr + i);
        if (addr + i) % 4096 == 0 && i + 4096 < data.Length {
          GetPage(view.contents, addr, i);
          LoadPage(addr + i, data, i);
          i := i + 4096;
        } else {
          data[i] := LoadByte(addr + i);
          i := i + 1;
        }
      }
    }

    /**
     * `read<T>` of an `n`-byte scalar. The host load does not look at page boundaries, so a load that straddles one
     * reads guest memory only where the pages it touches are mapped to consecutive frames.
     */
    method Read(addr: Word64, n: nat, ghost m: nat) returns (value: nat)
      requires Valid() && 0 < n && ConsecutiveFrames(view, addr / 4096, m) && addr % 4096 + n <= 4096 * m
      ensures MappedRange(view.contents, addr, n) && value == Decode(GetBytes(view.contents, addr, n))
    {
      hide Represents;
      hide GetBytes, MappedRange;
      FramesMeaning(Abs(), view);
      HeadMeaning(Abs(), view);
      StraddlingRead(Abs(), view, addr / 4096, m, addr % 4096, n);
      assert 4096 * (addr / 4096) + addr % 4096 == addr;
      var pointer := Translate(addr);
      var off := pointer.value - at.base;
      assert ram[off..off + n] == ram[..][off..off + n];
      value := Decode(ram[off..off + n]);
    }

    /** `writeAtomic<T>`: a compare-and-swap of an `n`-byte scalar inside one page. */
    method WriteAtomic(addr: Word64, n: nat, data: nat, expected: nat) returns (ok: bool)
      requires Valid() && 0 < n && Mapped(view.contents, addr) && addr % 4096 + n <= 4096
      modifies this`view, ram
      ensures Valid() && ram == old(ram)
      ensures MappedRange(old(view).contents, addr, n)
      ensures ok <==> Decode(GetBytes(old(view).contents, addr, n)) == expected
      ensures view == if ok then old(view).(contents := PutBytes(old(view).contents, addr, Encode(data, n))) else old(view)
    {
      hide Represents;
      hide PutBytes;
      FramesMeaning(Abs(), view);
      var current := Read(addr, n, 1);
      ok := current == expected;
      if ok {
        PutAt(view.contents, addr, Encode(data, n));
        StoreInPage(addr, Encode(data, n));
      }
    }
  }

  /** Every scalar read from a newly mapped page is 0. */
  lemma NewPageReadsZero(v: Pages, pn: Word64, o: nat, n: nat)
    requires SameKeys(v) && Allocate(v, pn).1 && pn !in v.frames && o + n <= 4096
    ensures var contents := Allocate(v, pn).0.contents;
            MappedRange(contents, 4096 * pn + o, n) && Decode(GetBytes(contents, 4096 * pn + o, n)) == 0
  {
    AllocateMeaning(v, pn);
    var contents := Allocate(v, pn).0.contents;
    var bytes := GetBytes(contents, 4096 * pn + o, n);
    forall i: nat | i < n
      ensures bytes[i] == 0
    {
      GetBytesAt(contents, 4096 * pn + o, n, i);
      ByteOfPage(contents, pn, o + i);
    }
    DecodeZeros(bytes);
  }

  /** A store inside one page is the byte-by-byte store. */
  lemma PutInPage(contents: map<nat, Page>, pn: nat, o: nat, bytes: seq<Byte>)
    requires pn in contents && o + |bytes| <= 4096 && MappedRange(contents, 4096 * pn + o, |bytes|)
    ensures contents[pn := Splice(contents[pn], o, bytes)] == PutBytes(contents, 4096 * pn + o, bytes)
  {
    var d := PutBytes(contents, 4096 * pn + o, bytes);
    forall qn | qn in contents
      ensures d[qn] == if qn == pn then Splice(contents[pn], o, bytes) else contents[qn]
    {
      forall j: nat | j < 4096
        ensures d[qn][j] == if qn == pn && o <= j < o + |bytes| then bytes[j - o] else contents[qn][j]
      {
        PutBytesIndex(contents, pn, o, bytes, qn, j);
      }
    }
  }

  lemma PutAt(contents: map<nat, Page>, addr: nat, bytes: seq<Byte>)
    requires Mapped(contents, addr) && addr % 4096 + |bytes| <= 4096 && MappedRange(contents, addr, |bytes|)
    ensures contents[addr / 4096 := Splice(contents[addr / 4096], addr % 4096, bytes)] == PutBytes(contents, addr, bytes)
  {
    hide PutBytes, Splice;
    var pn, o := addr / 4096, addr % 4096;
    assert addr == 4096 * pn + o;
    PutInPage(contents, pn, o, bytes);
  }

  /** Byte `j` of page `qn` after a store inside page `pn`. */
  lemma PutBytesIndex(contents: map<nat, Page>, pn: nat, o: nat, bytes: seq<Byte>, qn: nat, j: nat)
    requires MappedRange(contents, 4096 * pn + o, |bytes|) && o + |bytes| <= 4096 && qn in contents && j < 4096
    ensures PutBytes(contents, 4096 * pn + o, bytes)[qn][j] ==
            if qn == pn && o <= j < o + |bytes| then bytes[j - o] else contents[qn][j]
  {
    ByteOfPage(contents, qn, j);
    ByteOfPage(PutBytes(contents, 4096 * pn + o, bytes), qn, j);
    PutBytesAt(contents, 4096 * pn + o, bytes, 4096 * qn + j);
  }

  /** An address of a mapped range is below the top of guest virtual memory. */
  lemma InRange(h: Host, v: Pages, before: map<nat, Page>, a: nat)
    requires Represents(h, v) && v.contents.Keys == before.Keys && Mapped(before, a)
    ensures a < 0x40_0000_0000 && Mapped(v.contents, a)
  {
  }

  /** Linking page `p` leaves the links in all lower pages as they are. */
  lemma LinkSurvivesBelow(ram: seq<Byte>, p: nat, pointer: Word64)
    requires 4096 * p + 4096 <= |ram|
    ensures forall j: nat | j < p :: LinkIn(Splice(ram, 4096 * p, Encode(pointer, 8)), j) == LinkIn(ram, j)
  {
    forall j: nat | j < p
      ensures LinkIn(Splice(ram, 4096 * p, Encode(pointer, 8)), j) == LinkIn(ram, j)
    {
      SpliceInPage(ram, p, 0, Encode(pointer, 8), j);
    }
  }
}
