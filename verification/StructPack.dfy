/** The little-endian struct codec of the UART link, over any list of fields. */
module StructPack {
  import opened Bytes

  /** The field types that occur in the frame structs: uint8, uint32 and [n]byte. */
  datatype Kind = Word8 | Word32 | Block(size: nat)

  datatype Field = U8(b: byte) | U32(w: uint32) | Raw(bytes: seq<byte>)

  function Size(k: Kind): nat {
    match k case Word8 => 1 case Word32 => 4 case Block(n) => n
  }

  function KindOf(f: Field): Kind {
    match f case U8(_) => Word8 case U32(_) => Word32 case Raw(b) => Block(|b|)
  }

  function Shape(fields: seq<Field>): (s: seq<Kind>)
    ensures |s| == |fields|
  {
    seq(|fields|, i requires 0 <= i < |fields| => KindOf(fields[i]))
  }

  function TotalSize(kinds: seq<Kind>): nat {
    if kinds == [] then 0 else Size(kinds[0]) + TotalSize(kinds[1..])
  }

  function FieldBytes(f: Field): (b: seq<byte>)
    ensures |b| == Size(KindOf(f))
  {
    match f case U8(b) => [b] case U32(w) => PutUint32(w) case Raw(b) => b
  }

  function ReadField(k: Kind, b: seq<byte>): (f: Field)
    requires |b| == Size(k)
    ensures KindOf(f) == k
  {
    match k case Word8 => U8(b[0]) case Word32 => U32(Uint32(b)) case Block(_) => Raw(b)
  }

  function Packed(fields: seq<Field>): seq<byte> {
    if fields == [] then [] else FieldBytes(fields[0]) + Packed(fields[1..])
  }

  /** None is the unexpected end of input that stops the reader in the middle of a struct. */
  datatype Unpacking = Short | Read(fields: seq<Field>, rest: seq<byte>)

  function Unpacked(kinds: seq<Kind>, b: seq<byte>): Unpacking {
    if kinds == [] then Read([], b)
    else if |b| < Size(kinds[0]) then Short
    else
      match Unpacked(kinds[1..], b[Size(kinds[0])..])
      case Short => Short
      case Read(fs, rest) => Read([ReadField(kinds[0], b[..Size(kinds[0])])] + fs, rest)
  }

  /** Field by field into a growing buffer. */
  method Pack(fields: seq<Field>) returns (buf: seq<byte>)
    ensures buf == Packed(fields)
  {
    buf := [];
    for i := 0 to |fields|
      invariant buf + Packed(fields[i..]) == Packed(fields)
    {
      buf := buf + FieldBytes(fields[i]);
      assert fields[i..][1..] == fields[i + 1..];
    }
    assert fields[|fields|..] == [];
  }

  /** Field by field out of the buffer, n counting the bytes consumed. */
  method Unpack(kinds: seq<Kind>, b: seq<byte>) returns (result: Unpacking, n: nat)
    ensures result == Unpacked(kinds, b)
    ensures result.Read? ==> n == TotalSize(kinds) && n <= |b| && result.rest == b[n..]
  {
    var fields: seq<Field> := [];
    n := 0;
    for i := 0 to |kinds|
      invariant n <= |b|
      invariant n + TotalSize(kinds[i..]) == TotalSize(kinds)
      invariant Unpacked(kinds, b) == Prefix(fields, Unpacked(kinds[i..], b[n..]))
    {
      assert kinds[i..][1..] == kinds[i + 1..];
      var size := Size(kinds[i]);
      if |b| - n < size {
        return Short, n;
      }
      assert b[n..][..size] == b[n..n + size];
      assert b[n..][size..] == b[n + size..];
      PrefixStep(fields, ReadField(kinds[i], b[n..n + size]), Unpacked(kinds[i + 1..], b[n + size..]));
      fields := fields + [ReadField(kinds[i], b[n..n + size])];
      n := n + size;
    }
    assert kinds[|kinds|..] == [];
    result := Read(fields, b[n..]);
  }

  function Prefix(done: seq<Field>, u: Unpacking): Unpacking {
    match u case Short => Short case Read(fs, rest) => Read(done + fs, rest)
  }

  lemma PrefixStep(done: seq<Field>, f: Field, u: Unpacking)
    ensures Prefix(done, Prefix([f], u)) == Prefix(done + [f], u)
  {
  }

  lemma FieldInverse(f: Field, b: seq<byte>)
    requires |b| == Size(KindOf(f))
    ensures ReadField(KindOf(f), FieldBytes(f)) == f
    ensures FieldBytes(ReadField(KindOf(f), b)) == b
  {
    match f
    case U8(_) => assert b == [b[0]];
    case U32(w) => Uint32Inverse(w, b);
    case Raw(_) =>
  }

  /** Reading one field off the front of what was packed. */
  lemma UnpackFirst(f: Field, kinds: seq<Kind>, tail: seq<byte>)
    ensures Unpacked([KindOf(f)] + kinds, FieldBytes(f) + tail) == Prefix([f], Unpacked(kinds, tail))
  {
    var all, b := [KindOf(f)] + kinds, FieldBytes(f) + tail;
    assert all[1..] == kinds;
    assert b[..Size(all[0])] == FieldBytes(f) && b[Size(all[0])..] == tail;
    FieldInverse(f, FieldBytes(f));
  }

  /** Reading what was packed returns every field and leaves what follows untouched. */
  lemma {:induction false} UnpackPacked(fields: seq<Field>, rest: seq<byte>)
    ensures |Packed(fields)| == TotalSize(Shape(fields))
    ensures Unpacked(Shape(fields), Packed(fields) + rest) == Read(fields, rest)
  {
    hide Unpacked, FieldBytes, KindOf, Size;
    if fields == [] {
      assert Packed(fields) + rest == rest;
      NothingToUnpack(rest);
    } else {
      var f := fields[0];
      UnpackPacked(fields[1..], rest);
      assert Shape(fields) == [KindOf(f)] + Shape(fields[1..]);
      assert Packed(fields) + rest == FieldBytes(f) + (Packed(fields[1..]) + rest);
      UnpackFirst(f, Shape(fields[1..]), Packed(fields[1..]) + rest);
      assert [f] + fields[1..] == fields;
    }
  }

  lemma NothingToUnpack(b: seq<byte>)
    ensures Unpacked([], b) == Read([], b)
  {
  }

  /** Fields of the given kinds whose packing, followed by the rest, is b. */
  predicate Splits(kinds: seq<Kind>, b: seq<byte>, u: Unpacking) {
    u.Read? && Shape(u.fields) == kinds && Packed(u.fields) + u.rest == b
  }

  /** Packing one field that was read off the front restores its bytes. */
  lemma PackFirst(k: Kind, kinds: seq<Kind>, head: seq<byte>, after: seq<byte>, tail: Unpacking)
    requires |head| == Size(k) && Splits(kinds, after, tail)
    ensures Splits([k] + kinds, head + after, Prefix([ReadField(k, head)], tail))
  {
    var f := ReadField(k, head);
    FieldInverse(f, head);
    assert ([f] + tail.fields)[1..] == tail.fields;
    assert Shape([f] + tail.fields) == [k] + kinds;
    assert head + Packed(tail.fields) + tail.rest == head + (Packed(tail.fields) + tail.rest);
  }

  /** Reading succeeds exactly when enough bytes are there, and packing the result restores them. */
  lemma {:induction false} PackUnpacked(kinds: seq<Kind>, b: seq<byte>)
    ensures |b| >= TotalSize(kinds) ==> Splits(kinds, b, Unpacked(kinds, b))
    ensures |b| < TotalSize(kinds) ==> Unpacked(kinds, b) == Short
  {
    hide Splits, ReadField, Size;
    if kinds == [] {
      NothingPacked(b);
    } else if |b| >= Size(kinds[0]) {
      var head, after := b[..Size(kinds[0])], b[Size(kinds[0])..];
      PackUnpacked(kinds[1..], after);
      if |after| >= TotalSize(kinds[1..]) {
        PackFirst(kinds[0], kinds[1..], head, after, Unpacked(kinds[1..], after));
        assert head + after == b && [kinds[0]] + kinds[1..] == kinds;
      }
    }
  }

  lemma NothingPacked(b: seq<byte>)
    ensures Splits([], b, Unpacked([], b))
  {
    assert Packed([]) + b == b;
  }
}
