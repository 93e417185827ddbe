/** Byte-granular access to guest pages: the reference meaning of region copies. */
module GuestBytes {
  import opened Words
  import opened GuestPages

  predicate Mapped(contents: map<nat, Page>, a: nat) {
    a / 4096 in contents
  }

  ghost predicate MappedRange(contents: map<nat, Page>, addr: nat, n: nat) {
    forall a: nat | addr <= a < addr + n :: Mapped(contents, a)
  }

  function ByteAt(contents: map<nat, Page>, a: nat): Byte
    requires Mapped(contents, a)
  {
    contents[a / 4096][a % 4096]
  }

  function PutByte(contents: map<nat, Page>, a: nat, b: Byte): map<nat, Page>
    requires Mapped(contents, a)
  {
    contents[a / 4096 := contents[a / 4096][a % 4096 := b]]
  }

  /** The byte-by-byte copy of `data` to `addr`, from the first byte to the last. */
  ghost function PutBytes(contents: map<nat, Page>, addr: nat, data: seq<Byte>): (r: map<nat, Page>)
    requires MappedRange(contents, addr, |data|)
    ensures r.Keys == contents.Keys
  {
    if data == [] then contents
    else
      var n := |data| - 1;
      assert MappedRange(contents, addr, n) && Mapped(contents, addr + n);
      PutByte(PutBytes(contents, addr, data[..n]), addr + n, data[n])
  }

  lemma PutByteAt(contents: map<nat, Page>, a: nat, b: Byte, x: nat)
    requires Mapped(contents, a) && Mapped(contents, x)
    ensures Mapped(PutByte(contents, a, b), x)
    ensures ByteAt(PutByte(contents, a, b), x) == if x == a then b else ByteAt(contents, x)
  {
    if x / 4096 == a / 4096 && x % 4096 == a % 4096 {
      assert x == 4096 * (x / 4096) + x % 4096;
      assert a == 4096 * (a / 4096) + a % 4096;
    }
  }

  /** The copy puts `data` in its range and changes no byte outside it. */
  lemma {:induction false} PutBytesAt(contents: map<nat, Page>, addr: nat, data: seq<Byte>, x: nat)
    requires MappedRange(contents, addr, |data|) && Mapped(contents, x)
    ensures Mapped(PutBytes(contents, addr, data), x)
    ensures ByteAt(PutBytes(contents, addr, data), x) == if addr <= x < addr + |data| then data[x - addr] else ByteAt(contents, x)
    decreases |data|
  {
    if data != [] {
      var n := |data| - 1;
      assert MappedRange(contents, addr, n) && Mapped(contents, addr + n);
      PutBytesAt(contents, addr, data[..n], x);
      PutByteAt(PutBytes(contents, addr, data[..n]), addr + n, data[n], x);
    }
  }

  lemma ByteOfPage(contents: map<nat, Page>, pn: nat, j: nat)
    requires pn in contents && j < 4096
    ensures Mapped(contents, 4096 * pn + j) && ByteAt(contents, 4096 * pn + j) == contents[pn][j]
  {
    assert (4096 * pn + j) / 4096 == pn && (4096 * pn + j) % 4096 == j;
  }

  /** Pages with the same bytes are the same pages. */
  lemma SameBytes(c: map<nat, Page>, d: map<nat, Page>)
    requires c.Keys == d.Keys
    requires forall a: nat | Mapped(c, a) :: ByteAt(c, a) == ByteAt(d, a)
    ensures c == d
  {
    forall pn | pn in c
      ensures c[pn] == d[pn]
    {
      forall j | 0 <= j < 4096
        ensures c[pn][j] == d[pn][j]
      {
        ByteOfPage(c, pn, j);
        ByteOfPage(d, pn, j);
      }
    }
  }

  /** Copying a whole aligned page at once has the effect of copying its bytes one at a time. */
  lemma PutPage(contents: map<nat, Page>, addr: nat, data: seq<Byte>, i: nat)
    requires i + 4096 <= |data| && MappedRange(contents, addr, |data|) && (addr + i) % 4096 == 0
    ensures MappedRange(contents, addr, i) && MappedRange(contents, addr, i + 4096)
    ensures (addr + i) / 4096 in contents
    ensures PutBytes(contents, addr, data[..i + 4096]) ==
            PutBytes(contents, addr, data[..i])[(addr + i) / 4096 := data[i..i + 4096]]
  {
    var pn := (addr + i) / 4096;
    assert Mapped(contents, addr + i);
    var c := PutBytes(contents, addr, data[..i + 4096]);
    var d := PutBytes(contents, addr, data[..i])[pn := data[i..i + 4096]];
    forall a: nat | Mapped(c, a)
      ensures ByteAt(c, a) == ByteAt(d, a)
    {
      PutBytesAt(contents, addr, data[..i + 4096], a);
      PutBytesAt(contents, addr, data[..i], a);
      assert a == 4096 * (a / 4096) + a % 4096;
    }
    SameBytes(c, d);
  }

  /** The other case of the loop: one more byte. */
  lemma PutOne(contents: map<nat, Page>, addr: nat, data: seq<Byte>, i: nat)
    requires i < |data| && MappedRange(contents, addr, |data|)
    ensures MappedRange(contents, addr, i) && MappedRange(contents, addr, i + 1) && Mapped(contents, addr + i)
    ensures PutBytes(contents, addr, data[..i + 1]) == PutByte(PutBytes(contents, addr, data[..i]), addr + i, data[i])
  {
    assert data[..i + 1][..i] == data[..i];
    assert Mapped(contents, addr + i);
  }

  /** What a region read returns. */
  ghost function GetBytes(contents: map<nat, Page>, addr: nat, n: nat): (data: seq<Byte>)
    requires MappedRange(contents, addr, n)
    ensures |data| == n
  {
    if n == 0 then []
    else
      assert MappedRange(contents, addr, n - 1) && Mapped(contents, addr + n - 1);
      GetBytes(contents, addr, n - 1) + [ByteAt(contents, addr + n - 1)]
  }

  lemma {:induction false} GetBytesAt(contents: map<nat, Page>, addr: nat, n: nat, i: nat)
    requires MappedRange(contents, addr, n) && i < n
    ensures Mapped(contents, addr + i) && GetBytes(contents, addr, n)[i] == ByteAt(contents, addr + i)
    decreases n
  {
    assert Mapped(contents, addr + i);
    if i < n - 1 {
      assert MappedRange(contents, addr, n - 1);
      GetBytesAt(contents, addr, n - 1, i);
    }
  }

  /** A whole aligned page read at once is the next 4096 bytes. */
  lemma GetPage(contents: map<nat, Page>, addr: nat, i: nat)
    requires MappedRange(contents, addr, i) && (addr + i) % 4096 == 0 && Mapped(contents, addr + i)
    ensures MappedRange(contents, addr, i + 4096)
    ensures GetBytes(contents, addr, i + 4096) == GetBytes(contents, addr, i) + contents[(addr + i) / 4096]
  {
    var pn := (addr + i) / 4096;
    forall a: nat | addr <= a < addr + i + 4096
      ensures Mapped(contents, a)
    {
      if a >= addr + i { assert a / 4096 == pn; }
    }
    var whole := GetBytes(contents, addr, i) + contents[pn];
    forall j: nat | j < i + 4096
      ensures GetBytes(contents, addr, i + 4096)[j] == whole[j]
    {
      GetBytesAt(contents, addr, i + 4096, j);
      if j < i {
        GetBytesAt(contents, addr, i, j);
      } else {
        ByteOfPage(contents, pn, j - i);
      }
    }
  }

  /** Reading back what was written gives the same data. */
  lemma ReadBack(contents: map<nat, Page>, addr: nat, data: seq<Byte>)
    requires MappedRange(contents, addr, |data|)
    ensures var r := PutBytes(contents, addr, data);
            MappedRange(r, addr, |data|) && GetBytes(r, addr, |data|) == data
  {
    var r := PutBytes(contents, addr, data);
    MappedRangeKeys(contents, r, addr, |data|);
    forall i: nat | i < |data|
      ensures GetBytes(r, addr, |data|)[i] == data[i]
    {
      GetBytesAt(r, addr, |data|, i);
      assert Mapped(contents, addr + i);
      PutBytesAt(contents, addr, data, addr + i);
    }
  }

  /** Writing back what was read changes nothing. */
  lemma WriteBack(contents: map<nat, Page>, addr: nat, n: nat)
    requires MappedRange(contents, addr, n)
    ensures PutBytes(contents, addr, GetBytes(contents, addr, n)) == contents
  {
    var data := GetBytes(contents, addr, n);
    forall a: nat | Mapped(contents, a)
      ensures Mapped(PutBytes(contents, addr, data), a)
      ensures ByteAt(PutBytes(contents, addr, data), a) == ByteAt(contents, a)
    {
      PutBytesAt(contents, addr, data, a);
      if addr <= a < addr + n {
        GetBytesAt(contents, addr, n, a - addr);
      }
    }
    SameBytes(PutBytes(contents, addr, data), contents);
  }

  /** Writes to disjoint ranges commute. */
  lemma DisjointWritesCommute(contents: map<nat, Page>, addr: nat, data: seq<Byte>, addr': nat, data': seq<Byte>)
    requires MappedRange(contents, addr, |data|) && MappedRange(contents, addr', |data'|)
    requires addr + |data| <= addr' || addr' + |data'| <= addr
    ensures MappedRange(PutBytes(contents, addr, data), addr', |data'|)
    ensures MappedRange(PutBytes(contents, addr', data'), addr, |data|)
    ensures PutBytes(PutBytes(contents, addr, data), addr', data') == PutBytes(PutBytes(contents, addr', data'), addr, data)
  {
    var c, d := PutBytes(contents, addr, data), PutBytes(contents, addr', data');
    MappedRangeKeys(contents, c, addr', |data'|);
    MappedRangeKeys(contents, d, addr, |data|);
    forall a: nat | Mapped(contents, a)
      ensures Mapped(PutBytes(c, addr', data'), a)
      ensures ByteAt(PutBytes(c, addr', data'), a) == ByteAt(PutBytes(d, addr, data), a)
    {
      PutBytesAt(contents, addr, data, a);
      PutBytesAt(contents, addr', data', a);
      PutBytesAt(c, addr', data', a);
      PutBytesAt(d, addr, data, a);
    }
    SameBytes(PutBytes(c, addr', data'), PutBytes(d, addr, data));
  }

  lemma MappedRangeKeys(c: map<nat, Page>, d: map<nat, Page>, addr: nat, n: nat)
    requires c.Keys == d.Keys && MappedRange(c, addr, n)
    ensures MappedRange(d, addr, n)
  {
    forall a: nat | addr <= a < addr + n
      ensures Mapped(d, a)
    {
      assert Mapped(c, a);
    }
  }
}
