/** The frames exchanged with the ASICs, their codec and their checksum. */
module Frames {
  import opened Basics
  import opened Bytes
  import opened StructPack

  const CMD_READ: byte := 2
  const CMD_READWRITE: byte := 3
  const CMD_LOAD0: byte := 4
  const CMD_LOAD3: byte := 7
  const CMD_RETURNHIT: byte := 0x40

  const RSP_LEN_CFG := 16
  const RSP_LEN_HIT := 92
  const RSP_UNIQUE: uint32 := 0xdac07654

  /** The bytes of RSP_UNIQUE on the wire, which open every frame. */
  const MAGIC: seq<byte> := [0x54, 0x76, 0xc0, 0xda]

  datatype ResponseCfg = ResponseCfg(unique: uint32, id: byte, command: byte, spare: byte,
                                     address: byte, data: uint32, crc: uint32)

  datatype ResponseHit = ResponseHit(unique: uint32, id: byte, command: byte, nbits: byte,
                                     sequence: byte, result: seq<byte>, crc: uint32)

  /** The CRC-32 of the link, left uninterpreted. */
  type Crc32 = seq<byte> -> uint32

  /** The stored checksum is the complement of the CRC-32 of everything before it. */
  function Checksum(crc: Crc32, b: seq<byte>): uint32 {
    0xFFFF_FFFF - crc(b)
  }

  const CFG_SHAPE: seq<Kind> := [Word32, Word8, Word8, Word8, Word8, Word32, Word32]
  const HIT_SHAPE: seq<Kind> := [Word32, Word8, Word8, Word8, Word8, Block(80), Word32]

  function CfgFields(r: ResponseCfg): seq<Field> {
    [U32(r.unique), U8(r.id), U8(r.command), U8(r.spare), U8(r.address), U32(r.data), U32(r.crc)]
  }

  function HitFields(r: ResponseHit): seq<Field> {
    [U32(r.unique), U8(r.id), U8(r.command), U8(r.nbits), U8(r.sequence), Raw(r.result), U32(r.crc)]
  }

  function EncodeCfg(r: ResponseCfg): (b: seq<byte>)
    ensures |b| == RSP_LEN_CFG
  {
    PutUint32(r.unique) + ([r.id] + ([r.command] + ([r.spare] + ([r.address]
      + (PutUint32(r.data) + PutUint32(r.crc))))))
  }

  function EncodeHit(r: ResponseHit): (b: seq<byte>)
    ensures |b| == 12 + |r.result|
  {
    PutUint32(r.unique) + ([r.id] + ([r.command] + ([r.nbits] + ([r.sequence]
      + (r.result + PutUint32(r.crc))))))
  }

  /** The struct read from the first 16 bytes, or None when there are fewer. */
  function DecodeCfg(b: seq<byte>): Option<ResponseCfg> {
    if |b| < RSP_LEN_CFG then None
    else Some(ResponseCfg(Uint32(b[..4]), b[4], b[5], b[6], b[7], Uint32(b[8..12]), Uint32(b[12..16])))
  }

  function DecodeHit(b: seq<byte>): Option<ResponseHit> {
    if |b| < RSP_LEN_HIT then None
    else Some(ResponseHit(Uint32(b[..4]), b[4], b[5], b[6], b[7], b[8..88], Uint32(b[88..92])))
  }

  lemma PackedFrom(fs: seq<Field>, i: nat)
    requires i < |fs|
    ensures Packed(fs[i..]) == FieldBytes(fs[i]) + Packed(fs[i + 1..])
  {
  }

  lemma PackedSeven(fs: seq<Field>)
    requires |fs| == 7
    ensures Packed(fs) == FieldBytes(fs[0]) + (FieldBytes(fs[1]) + (FieldBytes(fs[2]) + (FieldBytes(fs[3])
                          + (FieldBytes(fs[4]) + (FieldBytes(fs[5]) + FieldBytes(fs[6]))))))
  {
    assert fs[0..] == fs;
    PackedFrom(fs, 0);
    PackedFrom(fs, 1);
    PackedFrom(fs, 2);
    PackedFrom(fs, 3);
    PackedFrom(fs, 4);
    PackedFrom(fs, 5);
    PackedFrom(fs, 6);
    assert FieldBytes(fs[6]) + Packed(fs[7..]) == FieldBytes(fs[6]);
  }

  /** The explicit layout is what the field-by-field codec writes. */
  lemma EncodeIsPack(c: ResponseCfg, h: ResponseHit)
    ensures EncodeCfg(c) == Packed(CfgFields(c))
    ensures EncodeHit(h) == Packed(HitFields(h))
  {
    PackedSeven(CfgFields(c));
    PackedSeven(HitFields(h));
  }

  lemma CfgLayout(r: ResponseCfg)
    ensures var e := EncodeCfg(r);
            e[..4] == PutUint32(r.unique) && e[4] == r.id && e[5] == r.command && e[6] == r.spare
            && e[7] == r.address && e[8..12] == PutUint32(r.data) && e[12..16] == PutUint32(r.crc)
  {
    var e, u, d, c := EncodeCfg(r), PutUint32(r.unique), PutUint32(r.data), PutUint32(r.crc);
    assert e == u + [r.id, r.command, r.spare, r.address] + d + c;
  }

  lemma HitLayout(r: ResponseHit)
    requires |r.result| == 80
    ensures var e := EncodeHit(r);
            e[..4] == PutUint32(r.unique) && e[4] == r.id && e[5] == r.command && e[6] == r.nbits
            && e[7] == r.sequence && e[8..88] == r.result && e[88..92] == PutUint32(r.crc)
  {
  }

  lemma CfgInverse(r: ResponseCfg, b: seq<byte>)
    requires |b| == RSP_LEN_CFG
    ensures DecodeCfg(EncodeCfg(r)) == Some(r)
    ensures EncodeCfg(DecodeCfg(b).value) == b
  {
    CfgLayout(r);
    CfgLayout(DecodeCfg(b).value);
    Uint32Inverse(r.unique, b[..4]);
    Uint32Inverse(r.data, b[8..12]);
    Uint32Inverse(r.crc, b[12..16]);
    SameSixteen(EncodeCfg(DecodeCfg(b).value), b);
  }

  lemma SameSixteen(a: seq<byte>, b: seq<byte>)
    requires |a| == |b| == 16 && a[..4] == b[..4] && a[8..12] == b[8..12] && a[12..16] == b[12..16]
    requires a[4] == b[4] && a[5] == b[5] && a[6] == b[6] && a[7] == b[7]
    ensures a == b
  {
  }

  lemma HitInverse(r: ResponseHit, b: seq<byte>)
    requires |b| == RSP_LEN_HIT
    ensures |r.result| == 80 ==> DecodeHit(EncodeHit(r)) == Some(r)
    ensures EncodeHit(DecodeHit(b).value) == b
  {
    if |r.result| == 80 {
      HitLayout(r);
    }
    HitLayout(DecodeHit(b).value);
    Uint32Inverse(r.unique, b[..4]);
    Uint32Inverse(r.crc, b[88..92]);
    SameNinetyTwo(EncodeHit(DecodeHit(b).value), b);
  }

  lemma SameNinetyTwo(a: seq<byte>, b: seq<byte>)
    requires |a| == |b| == 92 && a[..4] == b[..4] && a[8..88] == b[8..88] && a[88..92] == b[88..92]
    requires a[4] == b[4] && a[5] == b[5] && a[6] == b[6] && a[7] == b[7]
    ensures a == b
  {
  }

  lemma UnpackKnown(fields: seq<Field>, kinds: seq<Kind>, size: nat, b: seq<byte>)
    requires Shape(fields) == kinds && TotalSize(kinds) == size
    requires |b| >= size ==> Packed(fields) == b[..size]
    ensures |b| < size ==> Unpacked(kinds, b) == Short
    ensures |b| >= size ==> Unpacked(kinds, b) == Read(fields, b[size..])
  {
    if |b| < size {
      PackUnpacked(kinds, b);
    } else {
      UnpackPacked(fields, b[size..]);
      assert b[..size] + b[size..] == b;
    }
  }

  lemma DecodePrefix(b: seq<byte>)
    ensures |b| >= RSP_LEN_CFG ==> DecodeCfg(b) == DecodeCfg(b[..RSP_LEN_CFG])
    ensures |b| >= RSP_LEN_HIT ==> DecodeHit(b) == DecodeHit(b[..RSP_LEN_HIT])
  {
    if |b| >= RSP_LEN_CFG {
      var c := b[..RSP_LEN_CFG];
      assert c[..4] == b[..4] && c[8..12] == b[8..12] && c[12..16] == b[12..16];
    }
    if |b| >= RSP_LEN_HIT {
      var h := b[..RSP_LEN_HIT];
      assert h[..4] == b[..4] && h[8..88] == b[8..88] && h[88..92] == b[88..92];
    }
  }

  lemma CfgPacksBack(r: ResponseCfg, b: seq<byte>)
    requires |b| >= RSP_LEN_CFG && DecodeCfg(b) == Some(r)
    ensures Packed(CfgFields(r)) == b[..RSP_LEN_CFG]
  {
    DecodePrefix(b);
    CfgInverse(r, b[..RSP_LEN_CFG]);
    EncodeIsPack(r, ResponseHit(0, 0, 0, 0, 0, [], 0));
  }

  lemma HitPacksBack(r: ResponseHit, b: seq<byte>)
    requires |b| >= RSP_LEN_HIT && DecodeHit(b) == Some(r)
    ensures Packed(HitFields(r)) == b[..RSP_LEN_HIT]
  {
    DecodePrefix(b);
    HitInverse(r, b[..RSP_LEN_HIT]);
    EncodeIsPack(ResponseCfg(0, 0, 0, 0, 0, 0, 0), r);
  }

  lemma FieldShapes(c: ResponseCfg, h: ResponseHit)
    ensures Shape(CfgFields(c)) == CFG_SHAPE
    ensures |h.result| == 80 ==> Shape(HitFields(h)) == HIT_SHAPE
  {
  }

  /** The explicit reader is what the field-by-field reader finds, for inputs of every length. */
  lemma DecodeCfgIsUnpack(b: seq<byte>, r: ResponseCfg)
    requires |b| >= RSP_LEN_CFG ==> DecodeCfg(b) == Some(r)
    ensures |b| < RSP_LEN_CFG ==> Unpacked(CFG_SHAPE, b) == Short
    ensures |b| >= RSP_LEN_CFG ==> Unpacked(CFG_SHAPE, b) == Read(CfgFields(r), b[RSP_LEN_CFG..])
  {
    ShapeSizes();
    FieldShapes(r, ResponseHit(0, 0, 0, 0, 0, [], 0));
    if |b| >= RSP_LEN_CFG {
      CfgPacksBack(r, b);
    }
    UnpackKnown(CfgFields(r), CFG_SHAPE, RSP_LEN_CFG, b);
  }

  lemma DecodeHitIsUnpack(b: seq<byte>, r: ResponseHit)
    requires |r.result| == 80
    requires |b| >= RSP_LEN_HIT ==> DecodeHit(b) == Some(r)
    ensures |b| < RSP_LEN_HIT ==> Unpacked(HIT_SHAPE, b) == Short
    ensures |b| >= RSP_LEN_HIT ==> Unpacked(HIT_SHAPE, b) == Read(HitFields(r), b[RSP_LEN_HIT..])
  {
    ShapeSizes();
    FieldShapes(ResponseCfg(0, 0, 0, 0, 0, 0, 0), r);
    if |b| >= RSP_LEN_HIT {
      HitPacksBack(r, b);
    }
    UnpackKnown(HitFields(r), HIT_SHAPE, RSP_LEN_HIT, b);
  }

  lemma ShapeSizes()
    ensures TotalSize(CFG_SHAPE) == RSP_LEN_CFG && TotalSize(HIT_SHAPE) == RSP_LEN_HIT
  {
  }
}
