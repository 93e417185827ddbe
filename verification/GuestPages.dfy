/**
 * What the page allocator and page table mean: a map from guest page number to 4096 bytes, backed by host page
 * frames, with the frames not in use kept in a list.
 */
module GuestPages {
  import opened Words

  const NUM_PAGES: nat := 0x400_0000

  datatype Permission = NONE | READ_ONLY | WRITE_ONLY | READ_WRITE | EXECUTE_ONLY | READ_EXECUTE | WRITE_EXECUTE | ALL

  type Page = s: seq<Byte> | |s| == 4096 witness seq(4096, _ => 0)

  function ZeroPage(): Page {
    seq(4096, _ => 0)
  }

  datatype Pages = Pages(
    frames: map<nat, nat>,
    contents: map<nat, Page>,
    perms: map<nat, Permission>,
    free: seq<nat>,
    locked: bool)

  datatype Op = AllocatePage(pn: Word64) | FreePage(pn: Word64) | ProtectPage(pn: Word64, perm: Permission)
              | WriteBytes(pn: Word64, page: Page)

  /** `allocatePage`. Running out of pages returns with the allocator lock still held. */
  function Allocate(v: Pages, pn: Word64): (Pages, bool) {
    if pn >= NUM_PAGES then (v, false)
    else if pn in v.frames then (v, true)
    else if v.free == [] then (v.(locked := true), false)
    else (Pages(v.frames[pn := v.free[0]], v.contents[pn := ZeroPage()], v.perms[pn := NONE], v.free[1..], v.locked), true)
  }

  /** `freePage`. Freeing an unmapped page returns with the allocator lock still held. */
  function Release(v: Pages, pn: Word64): Pages {
    if pn >= NUM_PAGES then v
    else if pn !in v.frames then v.(locked := true)
    else Pages(v.frames - {pn}, v.contents - {pn}, v.perms - {pn}, [v.frames[pn]] + v.free, v.locked)
  }

  /** `protectPage`. */
  function Protect(v: Pages, pn: Word64, perm: Permission): Pages {
    if pn >= NUM_PAGES || pn !in v.frames then v else v.(perms := v.perms[pn := perm])
  }

  function Store(v: Pages, pn: nat, page: Page): Pages {
    if pn in v.frames then v.(contents := v.contents[pn := page]) else v
  }

  function Apply(v: Pages, op: Op): Pages {
    match op
    case AllocatePage(pn) => Allocate(v, pn).0
    case FreePage(pn) => Release(v, pn)
    case ProtectPage(pn, perm) => Protect(v, pn, perm)
    case WriteBytes(pn, page) => Store(v, pn, page)
  }

  function Run(v: Pages, ops: seq<Op>): Pages {
    if ops == [] then v else Apply(Run(v, ops[..|ops| - 1]), ops[|ops| - 1])
  }

  function Initial(n: nat): Pages {
    Pages(map[], map[], map[], seq(n, i => i), false)
  }

  // What each operation does to the page it names.

  ghost predicate SameKeys(v: Pages) {
    v.frames.Keys == v.contents.Keys == v.perms.Keys
  }

  /**
   * A page number below 2^26 can be had exactly if it is mapped or a host page is free. A page that was mapped stays
   * as it is; a new one is zero in every byte, and nobody may access it yet; a failure maps nothing.
   */
  lemma AllocateMeaning(v: Pages, pn: Word64)
    requires SameKeys(v)
    ensures var (r, ok) := Allocate(v, pn);
            && SameKeys(r)
            && (ok <==> pn < 0x400_0000 && (pn in v.frames || v.free != []))
            && (ok && pn in v.frames ==> r == v)
            && (ok && pn !in v.frames ==>
                  && r.frames == v.frames[pn := v.free[0]] && r.free == v.free[1..] && r.locked == v.locked
                  && r.perms[pn] == NONE && forall i: nat | i < 4096 :: r.contents[pn][i] == 0)
            && (!ok ==> r == v.(locked := v.locked || pn < 0x400_0000))
  {
  }

  /** Giving a page up and asking for it again returns the same host page, zero in every byte. */
  lemma ReallocatedPageIsZero(v: Pages, pn: Word64)
    requires SameKeys(v) && pn < 0x400_0000 && pn in v.frames
    ensures pn !in Release(v, pn).frames && SameKeys(Release(v, pn)) && Release(v, pn).locked == v.locked
    ensures var (r, ok) := Allocate(Release(v, pn), pn);
            && ok && pn in r.frames && pn in r.contents && r.frames == v.frames && r.free == v.free
            && forall i: nat | i < 4096 :: r.contents[pn][i] == 0
  {
    AllocateMeaning(Release(v, pn), pn);
    assert ([v.frames[pn]] + v.free)[1..] == v.free;
    assert (v.frames - {pn})[pn := v.frames[pn]] == v.frames;
  }

  /** What one operation of a run does to a mapped page. */
  lemma ApplyMeaning(v: Pages, pn: Word64, perm: Permission, page: Page)
    requires SameKeys(v) && pn in v.frames && pn < 0x400_0000
    ensures pn in Apply(v, AllocatePage(pn)).frames && Apply(v, AllocatePage(pn)) == v
    ensures pn !in Apply(v, FreePage(pn)).frames && Apply(v, FreePage(pn)).free == [v.frames[pn]] + v.free
    ensures Apply(v, ProtectPage(pn, perm)) == v.(perms := v.perms[pn := perm])
    ensures Apply(v, WriteBytes(pn, page)) == v.(contents := v.contents[pn := page])
  {
  }

  /** The permission given is the permission set, and nothing else changes. */
  lemma ProtectMeaning(v: Pages, pn: Word64, perm: Permission)
    requires SameKeys(v)
    ensures var r := Protect(v, pn, perm);
            && r == v.(perms := r.perms) && r.perms.Keys == v.perms.Keys
            && forall qn | qn in v.perms :: r.perms[qn] == if qn == pn && pn < 0x400_0000 then perm else v.perms[qn]
  {
  }

  // The invariant.

  ghost function Elems(s: seq<nat>): set<nat> {
    set x | x in s
  }

  ghost predicate Distinct(s: seq<nat>) {
    forall i, j | 0 <= i < j < |s| :: s[i] != s[j]
  }

  ghost predicate Injective(m: map<nat, nat>) {
    forall x, y | x in m && y in m && m[x] == m[y] :: x == y
  }

  /** Frames in use and frames in the free list partition the host pages, and nothing is shared. */
  ghost predicate Partition(v: Pages, host: set<nat>) {
    && v.frames.Keys == v.contents.Keys == v.perms.Keys
    && (forall pn | pn in v.frames :: pn < NUM_PAGES)
    && Injective(v.frames) && Distinct(v.free)
    && Elems(v.free) !! v.frames.Values
    && Elems(v.free) + v.frames.Values == host
  }

  lemma ElemsTail(s: seq<nat>)
    requires s != [] && Distinct(s)
    ensures Distinct(s[1..]) && Elems(s[1..]) == Elems(s) - {s[0]}
  {
    assert s == [s[0]] + s[1..];
  }

  lemma ValuesAdd(m: map<nat, nat>, x: nat, y: nat)
    requires x !in m && y !in m.Values && Injective(m)
    ensures m[x := y].Values == m.Values + {y} && Injective(m[x := y])
  {
    var r := m[x := y];
    assert r[x] == y;
    forall z | z in m.Values
      ensures z in r.Values
    {
      var k :| k in m && m[k] == z;
      assert r[k] == z;
    }
  }

  lemma ValuesRemove(m: map<nat, nat>, x: nat)
    requires x in m && Injective(m)
    ensures (m - {x}).Values == m.Values - {m[x]} && Injective(m - {x})
  {
    var r := m - {x};
    forall z | z in m.Values - {m[x]}
      ensures z in r.Values
    {
      var k :| k in m && m[k] == z;
      assert r[k] == z;
    }
  }

  /** The pages of a host allocation `n` pages long. */
  function HostPages(n: nat): (r: set<nat>)
    ensures forall p: nat :: p in r <==> p < n
  {
    if n == 0 then {} else HostPages(n - 1) + {n - 1}
  }

  lemma {:induction false} HostPagesCount(n: nat)
    ensures |HostPages(n)| == n
  {
    if n > 0 { HostPagesCount(n - 1); }
  }

  lemma IotaElems(n: nat)
    ensures Distinct(Initial(n).free) && Elems(Initial(n).free) == HostPages(n)
  {
    var free := Initial(n).free;
    forall p | p in HostPages(n)
      ensures p in free
    {
      assert free[p] == p;
    }
  }

  lemma InitialPartition(n: nat)
    ensures Partition(Initial(n), HostPages(n))
  {
    IotaElems(n);
    assert Initial(n).frames.Values == {};
  }

  lemma AllocateKeepsPartition(v: Pages, pn: Word64, host: set<nat>)
    requires Partition(v, host)
    ensures Partition(Allocate(v, pn).0, host)
  {
    if pn < NUM_PAGES && pn !in v.frames && v.free != [] {
      assert v.free[0] in Elems(v.free);
      ElemsTail(v.free);
      ValuesAdd(v.frames, pn, v.free[0]);
    }
  }

  lemma ReleaseKeepsPartition(v: Pages, pn: Word64, host: set<nat>)
    requires Partition(v, host)
    ensures Partition(Release(v, pn), host)
  {
    if pn < NUM_PAGES && pn in v.frames {
      var f := v.frames[pn];
      assert f in v.frames.Values;
      assert f !in Elems(v.free);
      ValuesRemove(v.frames, pn);
      assert Elems([f] + v.free) == {f} + Elems(v.free);
    }
  }

  lemma ApplyKeepsPartition(v: Pages, op: Op, host: set<nat>)
    requires Partition(v, host)
    ensures Partition(Apply(v, op), host)
  {
    match op {
      case AllocatePage(pn) => AllocateKeepsPartition(v, pn, host);
      case FreePage(pn) => ReleaseKeepsPartition(v, pn, host);
      case ProtectPage(pn, perm) =>
      case WriteBytes(pn, page) =>
    }
  }

  lemma {:induction false} CardinalityElems(s: seq<nat>)
    requires Distinct(s)
    ensures |Elems(s)| == |s|
  {
    if s != [] {
      ElemsTail(s);
      CardinalityElems(s[1..]);
      assert Elems(s) == Elems(s[1..]) + {s[0]};
    }
  }

  lemma {:induction false} CardinalityValues(m: map<nat, nat>)
    requires Injective(m)
    ensures |m.Values| == |m|
    decreases |m|
  {
    if m != map[] {
      var x :| x in m;
      ValuesRemove(m, x);
      assert m.Keys == (m - {x}).Keys + {x};
      CardinalityValues(m - {x});
      assert m.Values == (m - {x}).Values + {m[x]};
    }
  }

  /** Mapped and free pages always add up to the memory given to `init`. */
  lemma PagesAreConserved(v: Pages, host: set<nat>)
    requires Partition(v, host)
    ensures |v.free| + |v.frames| == |host|
  {
    CardinalityElems(v.free);
    CardinalityValues(v.frames);
  }

  /** Whatever is allocated, freed, protected or written, no host page is lost, duplicated or shared. */
  lemma {:induction false} RunKeepsPartition(n: nat, ops: seq<Op>)
    ensures Partition(Run(Initial(n), ops), HostPages(n))
    decreases |ops|
  {
    if ops == [] {
      InitialPartition(n);
    } else {
      RunKeepsPartition(n, ops[..|ops| - 1]);
      ApplyKeepsPartition(Run(Initial(n), ops[..|ops| - 1]), ops[|ops| - 1], HostPages(n));
    }
  }

  /** No operation reaches into another guest page. */
  lemma OthersUntouched(v: Pages, op: Op, qn: nat)
    requires qn != op.pn && qn in v.frames && qn in v.contents && qn in v.perms
    ensures var r := Apply(v, op);
            && qn in r.frames && qn in r.contents && qn in r.perms
            && r.frames[qn] == v.frames[qn] && r.contents[qn] == v.contents[qn] && r.perms[qn] == v.perms[qn]
  {
  }

  /** Allocating a page that was free and releasing it again gives back the very state before, free list order included. */
  lemma ReleaseUndoesAllocate(v: Pages, pn: Word64, host: set<nat>)
    requires Partition(v, host) && pn < NUM_PAGES && pn !in v.frames && v.free != []
    ensures Release(Allocate(v, pn).0, pn) == v
  {
    var r := Release(Allocate(v, pn).0, pn);
    assert r.frames == v.frames && r.contents == v.contents && r.perms == v.perms;
    assert [v.free[0]] + v.free[1..] == v.free;
  }

  // Regions.

  /** `allocateRegion`: stops at the first page that cannot be had. */
  function AllocateRegion(v: Pages, begin: Word64, i: Word64, n: Word64): (Pages, bool)
    requires i <= n
    decreases n - i
  {
    if i == n then (v, true)
    else
      var (v', ok) := Allocate(v, Add64(begin, i));
      if ok then AllocateRegion(v', begin, i + 1, n) else (v', false)
  }

  /** The first `n` pages of `freeRegion`, none of which stops the loop. */
  function ReleaseRegion(v: Pages, begin: Word64, n: Word64): Pages {
    if n == 0 then v else Release(ReleaseRegion(v, begin, n - 1), Add64(begin, n - 1))
  }

  function ProtectRegion(v: Pages, begin: Word64, n: Word64, perm: Permission): Pages {
    if n == 0 then v else Protect(ProtectRegion(v, begin, n - 1, perm), Add64(begin, n - 1), perm)
  }

  /** Page `m` of a region could not be had, and all before it are mapped. */
  ghost predicate StopsAt(r: Pages, begin: Word64, i: nat, m: Word64) {
    && (forall j: Word64 | i <= j < m :: Add64(begin, j) in r.frames)
    && Add64(begin, m) !in r.frames && (Add64(begin, m) >= 0x400_0000 || r.free == [])
  }

  /**
   * A region in which some pages may be mapped already: those keep frame, contents and permission, the others come
   * up zero, and the region fails exactly at a page that cannot be had.
   */
  lemma {:induction false} AllocateRegionMeaning(v: Pages, begin: Word64, i: Word64, n: Word64, pn: nat)
    requires SameKeys(v) && i <= n && (forall qn | qn in v.frames :: qn < NUM_PAGES)
    ensures var (r, ok) := AllocateRegion(v, begin, i, n);
            && SameKeys(r) && (forall qn | qn in r.frames :: qn < NUM_PAGES)
            && (pn in v.frames ==> pn in r.frames && r.frames[pn] == v.frames[pn]
                                   && r.contents[pn] == v.contents[pn] && r.perms[pn] == v.perms[pn])
            && (pn in r.frames && pn !in v.frames ==>
                  r.perms[pn] == NONE && forall j: nat | j < 4096 :: r.contents[pn][j] == 0)
            && if ok then forall j: Word64 | i <= j < n :: Add64(begin, j) in r.frames
               else exists m: Word64 :: i <= m < n && StopsAt(r, begin, i, m)
    decreases n - i
  {
    if i < n {
      var qn := Add64(begin, i);
      var (v', ok) := Allocate(v, qn);
      AllocateMeaning(v, qn);
      if ok {
        hide Allocate;
        AllocateRegionMeaning(v', begin, i + 1, n, pn);
        AllocateRegionMeaning(v', begin, i + 1, n, qn);
        var (r, done) := AllocateRegion(v', begin, i + 1, n);
        if !done {
          var m: Word64 :| i + 1 <= m < n && StopsAt(r, begin, i + 1, m);
          assert StopsAt(r, begin, i, m);
        }
      } else {
        assert StopsAt(v', begin, i, i);
      }
    }
  }

  /** Page `pn` is one of the first `n` pages from `begin` on. */
  ghost predicate InRegion(begin: Word64, n: Word64, pn: nat) {
    exists j: nat :: j < n && Add64(begin, j) == pn
  }

  /** Protecting a region gives the permission to each of its mapped pages and to no other. */
  lemma {:induction false} ProtectRegionMeaning(v: Pages, begin: Word64, n: Word64, perm: Permission, pn: nat)
    requires SameKeys(v) && pn in v.perms && (forall qn | qn in v.frames :: qn < NUM_PAGES)
    ensures var r := ProtectRegion(v, begin, n, perm);
            && r == v.(perms := r.perms) && r.perms.Keys == v.perms.Keys
            && r.perms[pn] == if InRegion(begin, n, pn) then perm else v.perms[pn]
    decreases n
  {
    if n > 0 {
      ProtectRegionMeaning(v, begin, n - 1, perm, pn);
      ProtectMeaning(ProtectRegion(v, begin, n - 1, perm), Add64(begin, n - 1), perm);
      assert InRegion(begin, n, pn) <==> InRegion(begin, n - 1, pn) || Add64(begin, n - 1) == pn;
    }
  }

  /** The free list is an ascending run of host pages, as it is until the first page is freed. */
  ghost predicate Ascending(free: seq<nat>) {
    forall i | 0 <= i < |free| :: free[i] == free[0] + i
  }

  /** `v` is `v0` with `m` pages from `begin` on mapped to the first `m` free host pages, in order. */
  ghost predicate MappedRun(v0: Pages, v: Pages, begin: nat, m: nat) {
    && m <= |v0.free| && v.free == v0.free[m..]
    && (forall pn: nat :: pn in v.frames <==> pn in v0.frames || begin <= pn < begin + m)
    && (forall pn: nat | begin <= pn < begin + m :: v.frames[pn] == v0.free[pn - begin])
  }

  lemma MappedRunStep(v0: Pages, v: Pages, begin: Word64, m: nat)
    requires MappedRun(v0, v, begin, m) && m < |v0.free|
    requires begin + m < NUM_PAGES && begin + m !in v.frames
    ensures Allocate(v, begin + m).1 && MappedRun(v0, Allocate(v, begin + m).0, begin, m + 1)
  {
  }

  /**
   * A region of unmapped pages takes host pages in list order. It succeeds exactly when enough are free; otherwise
   * exactly as many pages as were free are mapped, and the lock stays held.
   */
  lemma {:induction false} RegionTakesFreePages(v0: Pages, v: Pages, begin: Word64, i: Word64, n: Word64)
    requires i <= n && begin + n <= NUM_PAGES && !v.locked && MappedRun(v0, v, begin, i)
    requires forall pn: nat | begin <= pn < begin + n :: pn !in v0.frames
    ensures var (r, ok) := AllocateRegion(v, begin, i, n);
            && (ok <==> n <= |v0.free|) && r.locked == !ok
            && MappedRun(v0, r, begin, if n <= |v0.free| then n else |v0.free|)
    decreases n - i
  {
    if i < n && i < |v0.free| {
      MappedRunStep(v0, v, begin, i);
      RegionTakesFreePages(v0, Allocate(v, begin + i).0, begin, i + 1, n);
    }
  }

  /** The `m` guest pages from `pn` on are mapped to consecutive host pages. */
  ghost predicate ConsecutiveFrames(v: Pages, pn: nat, m: nat) {
    pn in v.frames && forall qn: nat | pn <= qn < pn + m :: qn in v.frames && v.frames[qn] == v.frames[pn] + (qn - pn)
  }

  /** While nothing has been freed, such a region lands on consecutive host pages, and the next one will too. */
  lemma RegionIsContiguous(v: Pages, begin: Word64, n: Word64)
    requires Ascending(v.free) && begin + n <= NUM_PAGES && !v.locked && n > 0
    requires forall pn: nat | begin <= pn < begin + n :: pn !in v.frames
    ensures var (r, ok) := AllocateRegion(v, begin, 0, n);
            (ok <==> n <= |v.free|) && (ok ==> ConsecutiveFrames(r, begin, n)) && Ascending(r.free)
  {
    RegionTakesFreePages(v, v, begin, 0, n);
  }

  /** From `init` on, the list stays ascending for as long as nothing is freed. */
  lemma {:induction false} AscendingUntilFree(n: nat, ops: seq<Op>)
    requires forall op | op in ops :: !op.FreePage?
    ensures Ascending(Run(Initial(n), ops).free)
    decreases |ops|
  {
    if ops != [] {
      AscendingUntilFree(n, ops[..|ops| - 1]);
      assert ops[|ops| - 1] in ops;
    }
  }

  /** Freeing the first `i` pages of a region unmaps exactly those. */
  lemma {:induction false} ReleaseRegionFrames(v: Pages, begin: Word64, i: Word64, pn: nat)
    requires i < 0x1_0000_0000
    ensures pn in ReleaseRegion(v, begin, i).frames <==>
            pn in v.frames && !(pn < NUM_PAGES && exists j: nat | j < i :: Add64(begin, j) == pn)
  {
    if i > 0 {
      ReleaseRegionFrames(v, begin, i - 1, pn);
      assert Add64(begin, i - 1) == pn ==> exists j: nat | j < i :: Add64(begin, j) == pn;
    }
  }
}
