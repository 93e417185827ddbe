/**
 * The host side of guest memory: one block of bytes, a free list threaded through the free pages themselves, and a
 * page table of raw host pointers. Every change made to them is shown to do what `GuestPages` says.
 */
module HostMemory {
  import opened Words
  import opened LittleEndian
  import opened GuestPages
  import opened GuestBytes

  /** `PageTableEntry`; the null pointer is 0. */
  datatype Entry = Entry(pointer: Word64, perm: Permission)

  /** Where the allocation sits: `gMemBase` and how many pages long it is. */
  datatype Extent = Extent(base: Word64, pages: nat)
  {
    ghost predicate Valid() {
      0 < base && base + 4096 * pages <= 0x1_0000_0000_0000_0000
    }

    function Pointer(p: nat): int {
      base + 4096 * p
    }
  }

  /** The allocator's globals: the bytes, `gFreePageList`, `gMainPageTable` and the lock. */
  datatype Host = Host(at: Extent, ram: seq<Byte>, head: Word64, table: seq<Entry>, locked: bool)

  function Splice(ram: seq<Byte>, off: nat, bytes: seq<Byte>): (r: seq<Byte>)
    requires off + |bytes| <= |ram|
    ensures |r| == |ram|
  {
    ram[..off] + bytes + ram[off + |bytes|..]
  }

  lemma SpliceByte(page: Page, o: nat, b: Byte)
    requires o < 4096
    ensures Splice(page, o, [b]) == page[o := b]
  {
  }

  lemma SplicePage(page: Page, bytes: Page)
    ensures Splice(page, 0, bytes) == bytes
  {
  }

  function PageAt(ram: seq<Byte>, p: nat): Page
    requires 4096 * p + 4096 <= |ram|
  {
    ram[4096 * p..4096 * p + 4096]
  }

  /** Writing inside one host page changes that page alone. */
  lemma SpliceInPage(ram: seq<Byte>, p: nat, o: nat, bytes: seq<Byte>, q: nat)
    requires o + |bytes| <= 4096 && 4096 * p + 4096 <= |ram| && 4096 * q + 4096 <= |ram|
    ensures PageAt(Splice(ram, 4096 * p + o, bytes), q) == if q == p then Splice(PageAt(ram, p), o, bytes) else PageAt(ram, q)
  {
  }

  // The page table.

  ghost predicate InRam(ram: seq<Byte>, frames: map<nat, nat>) {
    forall pn | pn in frames :: 4096 * frames[pn] + 4096 <= |ram|
  }

  /** The table holds a pointer to each mapped page's frame and is empty elsewhere. */
  ghost predicate ValidTable(at: Extent, table: seq<Entry>, frames: map<nat, nat>) {
    && |table| == NUM_PAGES
    && (forall pn | pn in frames :: pn < |table| && frames[pn] < at.pages && table[pn].pointer == at.Pointer(frames[pn]))
    && (forall pn: nat | pn < |table| && pn !in frames :: table[pn] == Entry(0, NONE))
  }

  ghost function ContentsOf(ram: seq<Byte>, frames: map<nat, nat>): map<nat, Page>
    requires InRam(ram, frames)
  {
    map pn | pn in frames :: PageAt(ram, frames[pn])
  }

  ghost function PermsOf(table: seq<Entry>, frames: map<nat, nat>): map<nat, Permission>
    requires forall pn | pn in frames :: pn < |table|
  {
    map pn | pn in frames :: table[pn].perm
  }

  /** Writing into a page no guest page is mapped to is invisible to the guest. */
  lemma PokeUnmapped(ram: seq<Byte>, frames: map<nat, nat>, p: nat, o: nat, bytes: seq<Byte>)
    requires InRam(ram, frames) && p !in frames.Values && o + |bytes| <= 4096 && 4096 * p + 4096 <= |ram|
    ensures InRam(Splice(ram, 4096 * p + o, bytes), frames)
    ensures ContentsOf(Splice(ram, 4096 * p + o, bytes), frames) == ContentsOf(ram, frames)
  {
    forall pn | pn in frames
      ensures PageAt(Splice(ram, 4096 * p + o, bytes), frames[pn]) == PageAt(ram, frames[pn])
    {
      assert frames[pn] in frames.Values;
      SpliceInPage(ram, p, o, bytes, frames[pn]);
    }
  }

  /** Writing into a mapped page changes the contents of that guest page and of no other. */
  lemma PokeMapped(ram: seq<Byte>, frames: map<nat, nat>, pn: nat, o: nat, bytes: seq<Byte>)
    requires InRam(ram, frames) && pn in frames && Injective(frames) && o + |bytes| <= 4096
    ensures InRam(Splice(ram, 4096 * frames[pn] + o, bytes), frames)
    ensures var contents := ContentsOf(ram, frames);
            ContentsOf(Splice(ram, 4096 * frames[pn] + o, bytes), frames) == contents[pn := Splice(contents[pn], o, bytes)]
  {
    forall qn | qn in frames
      ensures PageAt(Splice(ram, 4096 * frames[pn] + o, bytes), frames[qn]) ==
              if qn == pn then Splice(PageAt(ram, frames[pn]), o, bytes) else PageAt(ram, frames[qn])
    {
      SpliceInPage(ram, frames[pn], o, bytes, frames[qn]);
    }
  }

  lemma MapContents(ram: seq<Byte>, frames: map<nat, nat>, pn: nat, p: nat)
    requires InRam(ram, frames) && pn !in frames && p !in frames.Values && 4096 * p + 4096 <= |ram|
    ensures var ram' := Splice(ram, 4096 * p, ZeroPage());
            InRam(ram', frames[pn := p]) && ContentsOf(ram', frames[pn := p]) == ContentsOf(ram, frames)[pn := ZeroPage()]
  {
    PokeUnmapped(ram, frames, p, 0, ZeroPage());
    SpliceInPage(ram, p, 0, ZeroPage(), p);
    assert Splice(PageAt(ram, p), 0, ZeroPage()) == ZeroPage();
    var ram' := Splice(ram, 4096 * p, ZeroPage());
    assert ContentsOf(ram', frames[pn := p]) == ContentsOf(ram', frames)[pn := PageAt(ram', p)];
  }

  lemma MapTable(at: Extent, table: seq<Entry>, frames: map<nat, nat>, pn: nat, p: nat)
    requires at.Valid() && ValidTable(at, table, frames) && pn < NUM_PAGES && pn !in frames && p < at.pages
    ensures var table' := table[pn := table[pn].(pointer := at.Pointer(p))];
            ValidTable(at, table', frames[pn := p]) && PermsOf(table', frames[pn := p]) == PermsOf(table, frames)[pn := NONE]
  {
  }

  lemma UnmapContents(ram: seq<Byte>, frames: map<nat, nat>, pn: nat, bytes: seq<Byte>)
    requires InRam(ram, frames) && pn in frames && Injective(frames) && |bytes| <= 4096
    ensures var ram' := Splice(ram, 4096 * frames[pn], bytes);
            InRam(ram', frames - {pn}) && ContentsOf(ram', frames - {pn}) == ContentsOf(ram, frames) - {pn}
  {
    ValuesRemove(frames, pn);
    PokeUnmapped(ram, frames - {pn}, frames[pn], 0, bytes);
  }

  lemma UnmapTable(at: Extent, table: seq<Entry>, frames: map<nat, nat>, pn: nat)
    requires ValidTable(at, table, frames) && pn in frames
    ensures var table' := table[pn := Entry(0, NONE)];
            ValidTable(at, table', frames - {pn}) && PermsOf(table', frames - {pn}) == PermsOf(table, frames) - {pn}
  {
  }

  lemma ProtectTable(at: Extent, table: seq<Entry>, frames: map<nat, nat>, pn: nat, perm: Permission)
    requires ValidTable(at, table, frames) && pn in frames
    ensures var table' := table[pn := table[pn].(perm := perm)];
            ValidTable(at, table', frames) && PermsOf(table', frames) == PermsOf(table, frames)[pn := perm]
  {
  }

  // The free list.

  /** The pointer that leads to the `k`-th node of the free list. */
  function LinkTo(at: Extent, free: seq<nat>, k: nat): int {
    if k < |free| then at.Pointer(free[k]) else 0
  }

  /** The pointer stored in the first eight bytes of host page `p`. */
  function LinkIn(ram: seq<Byte>, p: nat): nat
    requires 4096 * p + 4096 <= |ram|
  {
    Decode(PageAt(ram, p)[..8])
  }

  ghost predicate ValidList(at: Extent, ram: seq<Byte>, head: int, free: seq<nat>) {
    && |ram| == 4096 * at.pages
    && head == LinkTo(at, free, 0)
    && forall k: nat | k < |free| :: free[k] < at.pages && LinkIn(ram, free[k]) == LinkTo(at, free, k + 1)
  }

  /** Writing inside a page that is not on the free list leaves the list as it is. */
  lemma ListSurvives(at: Extent, ram: seq<Byte>, head: int, free: seq<nat>, p: nat, o: nat, bytes: seq<Byte>)
    requires ValidList(at, ram, head, free) && p !in free && p < at.pages && o + |bytes| <= 4096
    ensures ValidList(at, Splice(ram, 4096 * p + o, bytes), head, free)
  {
    forall k: nat | k < |free|
      ensures LinkIn(Splice(ram, 4096 * p + o, bytes), free[k]) == LinkIn(ram, free[k])
    {
      SpliceInPage(ram, p, o, bytes, free[k]);
    }
  }

  lemma PopList(at: Extent, ram: seq<Byte>, head: int, free: seq<nat>)
    requires at.Valid() && ValidList(at, ram, head, free) && free != []
    ensures LinkIn(ram, free[0]) == LinkTo(at, free, 1) < 0x1_0000_0000_0000_0000
    ensures ValidList(at, ram, LinkIn(ram, free[0]), free[1..])
  {
    if |free| > 1 { assert free[1] < at.pages; }
    forall k: nat | k < |free| - 1
      ensures free[1..][k] < at.pages && LinkIn(ram, free[1..][k]) == LinkTo(at, free[1..], k + 1)
    {
      assert LinkTo(at, free, k + 2) == LinkTo(at, free[1..], k + 1);
    }
  }

  lemma FirstFits(at: Extent, ram: seq<Byte>, head: int, free: seq<nat>)
    requires ValidList(at, ram, head, free) && free != []
    ensures free[0] < at.pages && |ram| == 4096 * at.pages
  {
  }

  lemma AllocateList(at: Extent, ram: seq<Byte>, head: int, free: seq<nat>)
    requires at.Valid() && ValidList(at, ram, head, free) && free != [] && Distinct(free)
    ensures ValidList(at, Splice(ram, 4096 * free[0], ZeroPage()), LinkIn(ram, free[0]), free[1..])
  {
    hide LinkIn;
    PopList(at, ram, head, free);
    assert free[0] !in free[1..];
    assert ValidList(at, ram, LinkIn(ram, free[0]), free[1..]);
    hide ValidList;
    FirstFits(at, ram, head, free);
    ListSurvives(at, ram, LinkIn(ram, free[0]), free[1..], free[0], 0, ZeroPage());
  }

  lemma LinkRoundTrip(ram: seq<Byte>, p: nat, head: Word64)
    requires 4096 * p + 4096 <= |ram|
    ensures LinkIn(Splice(ram, 4096 * p, Encode(head, 8)), p) == head
  {
    var link := Encode(head, 8);
    SpliceInPage(ram, p, 0, link, p);
    assert Splice(PageAt(ram, p), 0, link)[..8] == link;
    Pow256Values();
    DecodeEncode(head, 8);
  }

  /** The nodes behind a new front node are linked as they were. */
  lemma PrependNode(at: Extent, ram: seq<Byte>, ram': seq<Byte>, head: int, free: seq<nat>, p: nat)
    requires ValidList(at, ram, head, free) && |ram'| == |ram| && p < at.pages
    requires forall k: nat | k < |free| :: LinkIn(ram', free[k]) == LinkIn(ram, free[k])
    requires LinkIn(ram', p) == head
    ensures ValidList(at, ram', at.Pointer(p), [p] + free)
  {
    var free' := [p] + free;
    forall k: nat | k < |free'|
      ensures free'[k] < at.pages && LinkIn(ram', free'[k]) == LinkTo(at, free', k + 1)
    {
      assert LinkTo(at, free', k + 1) == LinkTo(at, free, k);
      if k > 0 { assert free'[k] == free[k - 1]; }
    }
  }

  /** Threads page `p` onto the front of the list by writing the old head into its first eight bytes. */
  lemma PushList(at: Extent, ram: seq<Byte>, head: Word64, free: seq<nat>, p: nat)
    requires ValidList(at, ram, head, free) && p !in free && p < at.pages
    ensures ValidList(at, Splice(ram, 4096 * p, Encode(head, 8)), at.Pointer(p), [p] + free)
  {
    var ram' := Splice(ram, 4096 * p, Encode(head, 8));
    LinkRoundTrip(ram, p, head);
    forall k: nat | k < |free|
      ensures LinkIn(ram', free[k]) == LinkIn(ram, free[k])
    {
      SpliceInPage(ram, p, 0, Encode(head, 8), free[k]);
    }
    PrependNode(at, ram, ram', head, free, p);
  }

  // The whole state.

  ghost predicate Related(h: Host, v: Pages) {
    && h.at.Valid() && ValidTable(h.at, h.table, v.frames) && ValidList(h.at, h.ram, h.head, v.free)
    && InRam(h.ram, v.frames) && v.contents == ContentsOf(h.ram, v.frames) && v.perms == PermsOf(h.table, v.frames)
    && v.locked == h.locked
  }

  /** The host state `h` represents the guest pages `v`, and the host pages are partitioned. */
  ghost predicate Represents(h: Host, v: Pages) {
    Related(h, v) && Partition(v, HostPages(h.at.pages))
  }

  lemma HeadMeaning(h: Host, v: Pages)
    requires Represents(h, v)
    ensures h.head == 0 <==> v.free == []
    ensures v.free != [] ==> v.free[0] < h.at.pages && h.head == h.at.Pointer(v.free[0])
    ensures h.at.Valid() && |h.ram| == 4096 * h.at.pages
  {
  }

  lemma LockMeaning(h: Host, v: Pages)
    requires Represents(h, v)
    ensures h.locked == v.locked
  {
  }

  lemma FramesMeaning(h: Host, v: Pages)
    requires Represents(h, v)
    ensures v.frames.Keys == v.contents.Keys && forall pn | pn in v.frames :: pn < NUM_PAGES
  {
  }

  lemma ContentsMeaning(h: Host, v: Pages, pn: nat)
    requires Represents(h, v) && pn in v.contents
    ensures pn in v.frames && 4096 * v.frames[pn] + 4096 <= |h.ram| && v.contents[pn] == PageAt(h.ram, v.frames[pn])
  {
  }

  lemma ByteInRun(h: Host, v: Pages, pn: nat, m: nat, o: nat)
    requires Represents(h, v) && ConsecutiveFrames(v, pn, m) && o < 4096 * m
    ensures Mapped(v.contents, 4096 * pn + o) && 4096 * v.frames[pn] + o < |h.ram|
    ensures ByteAt(v.contents, 4096 * pn + o) == h.ram[4096 * v.frames[pn] + o]
  {
    hide Represents;
    var q, j := o / 4096, o % 4096;
    assert q < m;
    FramesMeaning(h, v);
    ContentsMeaning(h, v, pn + q);
    ByteOfPage(v.contents, pn + q, j);
  }

  /**
   * A host read that starts in the frame of `pn` and runs on past its end sees the guest pages that follow `pn`,
   * as long as they are mapped to consecutive frames.
   */
  lemma {:induction false} StraddlingRead(h: Host, v: Pages, pn: nat, m: nat, o: nat, n: nat)
    requires Represents(h, v) && ConsecutiveFrames(v, pn, m) && o + n <= 4096 * m && 0 < n
    ensures MappedRange(v.contents, 4096 * pn + o, n)
    ensures var off := 4096 * v.frames[pn] + o;
            off + n <= |h.ram| && h.ram[off..off + n] == GetBytes(v.contents, 4096 * pn + o, n)
    decreases n
  {
    hide Represents;
    var addr, off := 4096 * pn + o, 4096 * v.frames[pn] + o;
    ByteInRun(h, v, pn, m, o + n - 1);
    if n > 1 {
      StraddlingRead(h, v, pn, m, o, n - 1);
    }
    forall a: nat | addr <= a < addr + n
      ensures Mapped(v.contents, a)
    {
      if a < addr + n - 1 { assert MappedRange(v.contents, addr, n - 1); }
    }
    assert h.ram[off..off + n] == h.ram[off..off + n - 1] + [h.ram[off + n - 1]];
  }

  lemma LockRefines(h: Host, v: Pages)
    requires Represents(h, v)
    ensures Represents(h.(locked := true), v.(locked := true))
  {
  }

  lemma EntryMeaning(h: Host, v: Pages, pn: nat)
    requires Represents(h, v) && pn < NUM_PAGES
    ensures |h.table| == NUM_PAGES
    ensures h.table[pn].pointer != 0 <==> pn in v.frames
    ensures pn in v.frames ==> v.frames[pn] < h.at.pages && h.table[pn].pointer == h.at.Pointer(v.frames[pn])
  {
  }

  /** The state after `init` has linked every page to the next one. */
  lemma InitRepresents(h: Host)
    requires h.at.Valid() && h.at.pages > 0 && |h.ram| == 4096 * h.at.pages && h.head == h.at.base && !h.locked
    requires |h.table| == NUM_PAGES && forall pn: nat | pn < NUM_PAGES :: h.table[pn] == Entry(0, NONE)
    requires forall p: nat | p < h.at.pages ::
               LinkIn(h.ram, p) == if p + 1 < h.at.pages then h.at.Pointer(p + 1) else 0
    ensures Represents(h, Initial(h.at.pages))
  {
    InitialPartition(h.at.pages);
  }

  lemma AllocateRefines(h: Host, v: Pages, pn: nat)
    requires Represents(h, v) && pn < NUM_PAGES && pn !in v.frames && v.free != []
    ensures var p, link := v.free[0], LinkIn(h.ram, v.free[0]);
            && link < 0x1_0000_0000_0000_0000 && h.at.Pointer(p) < 0x1_0000_0000_0000_0000
            && Represents(h.(head := link, ram := Splice(h.ram, 4096 * p, ZeroPage()),
                             table := h.table[pn := h.table[pn].(pointer := h.at.Pointer(p))]),
                          Allocate(v, pn).0)
  {
    assert v.free[0] in Elems(v.free);
    PopList(h.at, h.ram, h.head, v.free);
    AllocateList(h.at, h.ram, h.head, v.free);
    MapContents(h.ram, v.frames, pn, v.free[0]);
    MapTable(h.at, h.table, v.frames, pn, v.free[0]);
    AllocateKeepsPartition(v, pn, HostPages(h.at.pages));
  }

  lemma ReleaseRefines(h: Host, v: Pages, pn: nat)
    requires Represents(h, v) && pn < NUM_PAGES && pn in v.frames
    ensures Represents(h.(head := h.table[pn].pointer, ram := Splice(h.ram, 4096 * v.frames[pn], Encode(h.head, 8)),
                          table := h.table[pn := Entry(0, NONE)]),
                       Release(v, pn))
  {
    assert v.frames[pn] in v.frames.Values && v.frames[pn] !in Elems(v.free);
    PushList(h.at, h.ram, h.head, v.free, v.frames[pn]);
    UnmapContents(h.ram, v.frames, pn, Encode(h.head, 8));
    UnmapTable(h.at, h.table, v.frames, pn);
    ReleaseKeepsPartition(v, pn, HostPages(h.at.pages));
  }

  lemma ProtectRefines(h: Host, v: Pages, pn: nat, perm: Permission)
    requires Represents(h, v) && pn in v.frames
    ensures Represents(h.(table := h.table[pn := h.table[pn].(perm := perm)]), v.(perms := v.perms[pn := perm]))
  {
    ProtectTable(h.at, h.table, v.frames, pn, perm);
  }

  /** A store of a few bytes inside one mapped page. */
  lemma StoreRefines(h: Host, v: Pages, pn: nat, o: nat, bytes: seq<Byte>)
    requires Represents(h, v) && pn in v.frames && o + |bytes| <= 4096
    ensures Represents(h.(ram := Splice(h.ram, 4096 * v.frames[pn] + o, bytes)),
                       v.(contents := v.contents[pn := Splice(v.contents[pn], o, bytes)]))
  {
    assert v.frames[pn] in v.frames.Values && v.frames[pn] !in Elems(v.free);
    ListSurvives(h.at, h.ram, h.head, v.free, v.frames[pn], o, bytes);
    PokeMapped(h.ram, v.frames, pn, o, bytes);
  }
}
