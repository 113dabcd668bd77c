/** The difficulty of a block hash, as the device computes it. */
module Difficulty {
  import opened Bytes
  import opened Powers

  const HASH_LEN := 32
  const U64 := 0x1_0000_0000_0000_0000

  /** The value below which a hash has 32 leading zero bits. */
  function Top(): (top: nat)
    ensures top >= 1
  {
    Pow2(8 * (HASH_LEN - 4))
  }

  /** How often v can be doubled before it reaches top; for a hash, its leading zero bits beyond 32. */
  function Shift(v: nat, top: nat): (k: nat)
    requires 0 < v < top
    ensures Pow2(k) * v < top <= 2 * (Pow2(k) * v)
    decreases top - v
  {
    if 2 * v >= top then 0
    else
      var k := 1 + Shift(2 * v, top);
      assert Pow2(k) * v == Pow2(k - 1) * (2 * v);
      k
  }

  /** 2^k in 64 bits: multiplying by 2 or 256 wraps to 0. */
  function Wrapped(k: nat): nat {
    if k < 64 then Pow2(k) else 0
  }

  /** The difficulty of a hash of the given value: 0 above 2^224, and otherwise the power of two
      that brings it just below 2^224, in 64 bits. */
  function DifficultyOf(v: nat): nat
    requires v > 0
  {
    if v >= Top() then 0 else Wrapped(Shift(v, Top()))
  }

  /** Said with powers of two: a hash of 2^224 and more has difficulty 0, one below it 2^k if 2^k times
      the hash is below 2^224 and twice that is not, and 0 again if k is 64 or more. */
  lemma DifficultyIs(v: nat, k: nat)
    requires v > 0
    ensures v >= Pow2(224) ==> DifficultyOf(v) == 0
    ensures v < Pow2(224) && Pow2(k) * v < Pow2(224) <= 2 * (Pow2(k) * v) ==>
              DifficultyOf(v) == if k < 64 then Pow2(k) else 0
  {
    hide Pow2, Shift;
    assert Top() == Pow2(224) by { TopIsPower(); }
    if v < Pow2(224) && Pow2(k) * v < Pow2(224) <= 2 * (Pow2(k) * v) {
      ShiftUnique(v, Pow2(224), k);
    }
  }

  lemma TopIsPower()
    ensures Top() == Pow2(224)
  {
  }

  lemma WrappedTimes(k: nat)
    ensures Wrapped(k) < U64
    ensures (Wrapped(k) * 2) % U64 == Wrapped(k + 1)
    ensures (Wrapped(k) * 256) % U64 == Wrapped(k + 8)
  {
    hide Pow2;
    Pow2Small();
    if k < 64 {
      Pow2Monotonic(k, 64);
      Pow2Add(k, 8);
      OneMore(k);
      if k + 8 >= 64 {
        Pow2Add(64, k - 56);
        WholeTurns(Pow2(k - 56));
      } else {
        Pow2Monotonic(k + 8, 64);
      }
      if k + 1 < 64 {
        Pow2Monotonic(k + 1, 64);
      }
    }
  }

  lemma WrappedStart()
    ensures Wrapped(0) == 1
  {
  }

  lemma OneMore(k: nat)
    ensures Pow2(k + 1) == 2 * Pow2(k)
  {
  }

  lemma WholeTurns(x: nat)
    ensures (U64 * x) % U64 == 0
  {
  }

  lemma {:induction false} LittleEndianAppend(b: seq<byte>, x: byte)
    ensures LittleEndian(b + [x]) == LittleEndian(b) + Pow256(|b|) * x
  {
    if b == [] {
      assert [x][1..] == [];
    } else {
      assert (b + [x])[1..] == b[1..] + [x];
      LittleEndianAppend(b[1..], x);
      assert Pow256(|b|) * x == 0x100 * (Pow256(|b| - 1) * x);
    }
  }

  lemma {:induction false} Pow256IsPow2(n: nat)
    ensures Pow256(n) == Pow2(8 * n)
  {
    if n > 0 {
      Pow256IsPow2(n - 1);
      Pow2Small();
      Pow2Add(8 * (n - 1), 8);
    }
  }

  /** The value of a hash whose bytes above i are 0. */
  lemma {:induction false} TopByte(hash: seq<byte>, i: nat)
    requires i < |hash| && forall j :: i < j < |hash| ==> hash[j] == 0
    ensures LittleEndian(hash) == LittleEndian(hash[..i]) + Pow256(i) * hash[i]
    decreases |hash| - i
  {
    if i == |hash| - 1 {
      LittleEndianAppend(hash[..i], hash[i]);
      assert hash == hash[..i] + [hash[i]];
    } else {
      var n := |hash| - 1;
      assert hash == hash[..n] + [hash[n]];
      LittleEndianAppend(hash[..n], 0);
      TopByte(hash[..n], i);
      assert hash[..n][..i] == hash[..i];
    }
  }

  lemma NotTwice(a: nat, b: nat, v: nat, top: nat)
    requires b * v < top <= 2 * (a * v)
    ensures 2 * a > b
  {
  }

  lemma ShiftUnique(v: nat, top: nat, k: nat)
    requires 0 < v < top && Pow2(k) * v < top <= 2 * (Pow2(k) * v)
    ensures Shift(v, top) == k
  {
    var s := Shift(v, top);
    NotTwice(Pow2(s), Pow2(k), v, top);
    NotTwice(Pow2(k), Pow2(s), v, top);
    hide Shift;
    if s < k {
      Pow2Monotonic(s, k);
    } else if k < s {
      Pow2Monotonic(k, s);
    }
  }

  /** Doubling the top byte c0 until its highest bit is set finds the shift of the whole value,
      here for the byte i of a hash with n + 5 bytes whose bytes above i are 0. */
  lemma TopBitShift(v: nat, low: nat, n: nat, i: nat, c0: nat, t: nat)
    requires i <= n && t <= 7 && v == low + Pow2(8 * i) * c0 && low < Pow2(8 * i)
    requires 128 <= Scaled(c0, t) <= 255
    ensures 0 < v < Pow2(8 * (n + 1)) && Shift(v, Pow2(8 * (n + 1))) == 8 * (n - i) + t
  {
    hide Pow2;
    var p, q, r, k := Pow2(t), Pow2(8 * i), Pow2(8 * (n - i)), 8 * (n - i) + t;
    Room(c0, t);
    assert c0 * q <= v < (c0 + 1) * q by { assert (c0 + 1) * q == q * c0 + q; }
    ScaleUp(v, c0, p, q);
    assert Pow2(8 * i + 8) == 256 * q by { Pow2Add(8 * i, 8); Pow2Small(); }
    Pow2Add(8 * (n - i), 8 * i + 8);
    Pow2Add(8 * (n - i), t);
    Spread(r, p, v, 256 * q);
    assert Pow2(8 * (n + 1)) == r * (256 * q) && Pow2(k) == r * p;
    assert v > 0 by { assert c0 > 0; }
    Times(1, Pow2(k), v);
    ShiftUnique(v, Pow2(8 * (n + 1)), k);
  }

  lemma Room(c0: nat, t: nat)
    requires t <= 7 && c0 * Pow2(t) <= 255
    ensures (c0 + 1) * Pow2(t) <= 256
  {
    var a, b := Pow2(t), Pow2(8 - t);
    assert a * b == 256 by { Pow2Add(t, 8 - t); Pow2Small(); }
    hide Pow2;
    if c0 >= b {
      Times(b, c0, a);
    }
    Times(c0 + 1, b, a);
  }

  lemma ScaleUp(v: nat, c0: nat, p: nat, q: nat)
    requires c0 * q <= v < (c0 + 1) * q && 128 <= c0 * p && (c0 + 1) * p <= 256 && p >= 1
    ensures p * v < 256 * q <= 2 * (p * v)
  {
    ScaleBelow(v, c0 + 1, p, q);
    ScaleAbove(v, c0, p, q);
  }

  lemma ScaleBelow(v: nat, c: nat, p: nat, q: nat)
    requires v < c * q && c * p <= 256 && p >= 1
    ensures p * v < 256 * q
  {
  }

  lemma ScaleAbove(v: nat, c: nat, p: nat, q: nat)
    requires c * q <= v && 128 <= c * p
    ensures 128 * q <= p * v
  {
  }

  lemma Spread(r: nat, p: nat, v: nat, bound: nat)
    requires r >= 1 && p * v < bound <= 2 * (p * v)
    ensures (r * p) * v < r * bound <= 2 * ((r * p) * v)
  {
  }

  /** The program's loops. They end exactly because some byte of the hash is not 0. */
  method CalcDifficulty(hash: seq<byte>) returns (difficulty: nat)
    requires |hash| == HASH_LEN && LittleEndian(hash) > 0
    ensures difficulty == DifficultyOf(LittleEndian(hash))
  {
    if hash[31] != 0 || hash[30] != 0 || hash[29] != 0 || hash[28] != 0 {
      LargeHash(hash);
      return 0;
    }
    hide Pow2, Wrapped, Shift, Scaled, LittleEndian;
    var i;
    i, difficulty := SkipZeros(hash);
    LeadingByte(hash, i);
    ghost var t: nat;
    difficulty, t := DoubleByte(hash[i], 8 * (27 - i), difficulty);
    TopBitShift(LittleEndian(hash), LittleEndian(hash[..i]), 27, i, hash[i], t);
  }

  /** The first loop: eight bits for each byte that is 0, from byte 27 downwards. */
  method SkipZeros(hash: seq<byte>) returns (i: nat, difficulty: nat)
    requires |hash| == HASH_LEN && forall j :: 27 < j < 32 ==> hash[j] == 0
    ensures i <= 27 && (forall j :: i < j < 32 ==> hash[j] == 0) && (i > 0 ==> hash[i] != 0)
    ensures difficulty == Wrapped(8 * (27 - i))
  {
    hide Wrapped;
    WrappedStart();
    difficulty := 1;
    i := 27;
    while i > 0 && hash[i] == 0
      invariant 0 <= i <= 27 && (forall j :: i < j < 32 ==> hash[j] == 0)
      invariant difficulty == Wrapped(8 * (27 - i))
    {
      WrappedTimes(8 * (27 - i));
      difficulty := (difficulty * 256) % U64;
      i := i - 1;
    }
  }

  lemma LeadingByte(hash: seq<byte>, i: nat)
    requires i < |hash| && (forall j :: i < j < |hash| ==> hash[j] == 0)
    ensures LittleEndian(hash) == LittleEndian(hash[..i]) + Pow2(8 * i) * hash[i]
    ensures LittleEndian(hash[..i]) < Pow2(8 * i)
    ensures i == 0 && LittleEndian(hash) > 0 ==> hash[i] != 0
  {
    TopByte(hash, i);
    Pow256IsPow2(i);
  }

  /** The second loop, which never counts: it ends because a byte other than 0 has a highest bit. */
  method DoubleByte(c0: byte, ghost k: nat, d0: nat) returns (difficulty: nat, ghost t: nat)
    requires c0 != 0 && d0 == Wrapped(k)
    ensures t <= 7 && 128 <= Scaled(c0, t) <= 255 && difficulty == Wrapped(k + t)
  {
    hide Pow2, Wrapped, Scaled;
    var c: nat := c0;
    difficulty, t := d0, 0;
    NotScaled(c0);
    while c < 0x80
      invariant 0 < c <= 255 && c == Scaled(c0, t) && t <= 7
      invariant difficulty == Wrapped(k + t)
      decreases 256 - c
    {
      WrappedTimes(k + t);
      ScaledOnce(c0, t);
      c := (c * 2) % 256;
      difficulty := (difficulty * 2) % U64;
      t := t + 1;
    }
  }

  /** A number doubled t times. */
  function Scaled(c: nat, t: nat): nat {
    c * Pow2(t)
  }

  lemma NotScaled(c: nat)
    ensures Scaled(c, 0) == c
  {
  }

  lemma ScaledOnce(c: nat, t: nat)
    ensures Scaled(c, t + 1) == 2 * Scaled(c, t)
    ensures c >= 1 && t <= 7 && Scaled(c, t) < 128 ==> t < 7
  {
  }

  lemma LargeHash(hash: seq<byte>)
    requires |hash| == HASH_LEN && (hash[31] != 0 || hash[30] != 0 || hash[29] != 0 || hash[28] != 0)
    ensures LittleEndian(hash) >= Top()
  {
    var i := if hash[31] != 0 then 31 else if hash[30] != 0 then 30 else if hash[29] != 0 then 29 else 28;
    LargeByte(hash, HASH_LEN - 4, i);
  }

  lemma LargeByte(hash: seq<byte>, n: nat, i: nat)
    requires n <= i < |hash| && hash[i] != 0 && forall j :: i < j < |hash| ==> hash[j] == 0
    ensures LittleEndian(hash) >= Pow2(8 * n)
  {
    hide LittleEndian, Pow2;
    LeadingByte(hash, i);
    Pow2Monotonic(8 * n, 8 * i);
    AtLeast(Pow2(8 * i), hash[i]);
  }

  lemma AtLeast(p: nat, x: nat)
    requires x >= 1
    ensures p * x >= p
  {
  }

  /** On the zero hash the byte that is doubled stays 0 and never shows its highest bit, so the
      second loop of the program does not end. */
  lemma {:induction false} ZeroByteStays(c: byte, n: nat)
    requires c == 0
    ensures Doubled(c, n) == 0 && Doubled(c, n) < 0x80
    decreases n
  {
    if n > 0 {
      ZeroByteStays((c * 2) % 256, n - 1);
    }
  }

  function Doubled(c: byte, n: nat): byte
    decreases n
  {
    if n == 0 then c else Doubled((c * 2) % 256, n - 1)
  }
}
