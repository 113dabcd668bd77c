/** Machine words and their byte order, shared by every codec of the miner. */
module Bytes {

  type byte = x: int | 0 <= x < 0x100
  type uint32 = x: int | 0 <= x < 0x1_0000_0000

  function Pow256(n: nat): (p: nat)
    ensures p >= 1
  {
    if n == 0 then 1 else 0x100 * Pow256(n - 1)
  }

  /** The number written by b, least significant byte first. */
  function LittleEndian(b: seq<byte>): (v: nat)
    ensures v < Pow256(|b|)
  {
    if b == [] then 0 else b[0] + 0x100 * LittleEndian(b[1..])
  }

  /** The n lowest bytes of v, least significant byte first. */
  function PutLittleEndian(v: nat, n: nat): (b: seq<byte>)
    ensures |b| == n
    decreases n
  {
    if n == 0 then [] else [v % 0x100] + PutLittleEndian(v / 0x100, n - 1)
  }

  function Reverse<T>(s: seq<T>): (r: seq<T>)
    ensures |r| == |s|
    ensures forall i :: 0 <= i < |s| ==> r[i] == s[|s| - 1 - i]
  {
    seq(|s|, i requires 0 <= i < |s| => s[|s| - 1 - i])
  }

  /** The number written by b, most significant byte first. */
  function BigEndian(b: seq<byte>): nat {
    LittleEndian(Reverse(b))
  }

  function Flatten<T>(parts: seq<seq<T>>): seq<T> {
    if parts == [] then [] else parts[0] + Flatten(parts[1..])
  }

  lemma {:induction false} PutThenRead(v: nat, n: nat)
    requires v < Pow256(n)
    ensures LittleEndian(PutLittleEndian(v, n)) == v
    decreases n
  {
    if n > 0 {
      PutThenRead(v / 0x100, n - 1);
      assert PutLittleEndian(v, n)[1..] == PutLittleEndian(v / 0x100, n - 1);
    }
  }

  lemma {:induction false} ReadThenPut(b: seq<byte>)
    ensures PutLittleEndian(LittleEndian(b), |b|) == b
  {
    if b != [] {
      ReadThenPut(b[1..]);
      assert b == [b[0]] + b[1..];
    }
  }

  lemma Pow256Word()
    ensures Pow256(1) == 0x100 && Pow256(2) == 0x1_0000
    ensures Pow256(4) == 0x1_0000_0000 && Pow256(8) == 0x1_0000_0000_0000_0000
  {
  }

  function PutUint32(v: uint32): (b: seq<byte>)
    ensures |b| == 4
  {
    PutLittleEndian(v, 4)
  }

  function Uint32(b: seq<byte>): (v: uint32)
    requires |b| == 4
  {
    Pow256Word();
    LittleEndian(b)
  }

  /** Writing a 32-bit word and reading it back is the identity, in both directions. */
  lemma Uint32Inverse(v: uint32, b: seq<byte>)
    requires |b| == 4
    ensures Uint32(PutUint32(v)) == v
    ensures PutUint32(Uint32(b)) == b
  {
    Pow256Word();
    PutThenRead(v, 4);
    ReadThenPut(b);
  }

  lemma {:induction false} FlattenConcat<T>(a: seq<seq<T>>, b: seq<seq<T>>)
    ensures Flatten(a + b) == Flatten(a) + Flatten(b)
  {
    if a == [] {
      assert a + b == b;
    } else {
      assert (a + b)[1..] == a[1..] + b;
      FlattenConcat(a[1..], b);
    }
  }
}
