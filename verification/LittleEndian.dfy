/** Little-endian scalars: how the host stores an unsigned integer in consecutive bytes. */
module LittleEndian {
  import opened Words

  function Pow256(n: nat): (p: nat)
    ensures p >= 1
  {
    if n == 0 then 1 else 0x100 * Pow256(n - 1)
  }

  function Decode(bytes: seq<Byte>): nat {
    if bytes == [] then 0 else bytes[0] + 0x100 * Decode(bytes[1..])
  }

  function Encode(v: nat, n: nat): (bytes: seq<Byte>)
    ensures |bytes| == n
    decreases n, v
  {
    if n == 0 then [] else [v % 0x100] + Encode(v / 0x100, n - 1)
  }

  lemma {:induction false} DecodeEncode(v: nat, n: nat)
    requires v < Pow256(n)
    ensures Decode(Encode(v, n)) == v
    decreases n
  {
    if n > 0 {
      DecodeEncode(v / 0x100, n - 1);
      assert Encode(v, n)[1..] == Encode(v / 0x100, n - 1);
    }
  }

  lemma {:induction false} DecodeBound(bytes: seq<Byte>)
    ensures Decode(bytes) < Pow256(|bytes|)
  {
    if bytes != [] { DecodeBound(bytes[1..]); }
  }

  /** With `DecodeConcat`, this fixes the value of any bytes. */
  lemma DecodeSingle(b: Byte)
    ensures Decode([b]) == b
  {
    assert [b][1..] == [];
  }

  lemma {:induction false} DecodeZeros(bytes: seq<Byte>)
    requires forall i | 0 <= i < |bytes| :: bytes[i] == 0
    ensures Decode(bytes) == 0
  {
    if bytes != [] { DecodeZeros(bytes[1..]); }
  }

  lemma {:induction false} DecodeConcat(low: seq<Byte>, high: seq<Byte>)
    ensures Decode(low + high) == Decode(low) + Pow256(|low|) * Decode(high)
    decreases |low|
  {
    hide Pow256;
    if low == [] {
      assert low + high == high;
      Pow256Zero();
    } else {
      DecodeConcat(low[1..], high);
      assert (low + high)[1..] == low[1..] + high;
      assert (low + high)[0] == low[0];
      Pow256Step(|low|, Decode(high));
    }
  }

  lemma Pow256Zero()
    ensures Pow256(0) == 1
  {
  }

  lemma Pow256Step(n: nat, d: nat)
    requires n > 0
    ensures Pow256(n) * d == 0x100 * (Pow256(n - 1) * d)
  {
  }

  lemma Pow256Values()
    ensures Pow256(1) == 0x100 && Pow256(2) == 0x1_0000 && Pow256(4) == 0x1_0000_0000
    ensures Pow256(8) == 0x1_0000_0000_0000_0000
  {
    assert Pow256(4) == 0x1_0000_0000;
    assert Pow256(8) == 0x100 * (0x100 * (0x100 * (0x100 * Pow256(4))));
  }
}
