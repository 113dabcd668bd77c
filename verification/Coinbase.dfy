/** Coinbase transactions: how they are serialised, and what parsing them back means. */
module Coinbase {
  import opened Bytes
  import opened Basics

  /** Lengths from here on turn negative when they are converted to an int. */
  const INT_LIMIT := 0x8000_0000_0000_0000

  datatype CompactSize = CompactSize(raw: seq<byte>, value: nat, ok: bool)

  datatype TxOut = TxOut(value: int, scriptBytes: CompactSize, script: seq<byte>, ok: bool)

  /** The script of the coinbase input: its length, the block height, and the rest. */
  datatype ScriptSig = ScriptSig(scriptBytes: CompactSize, heightBytes: CompactSize, height: seq<byte>,
                                 script: seq<byte>)

  datatype TxIn = TxIn(hash: seq<byte>, index: uint32, scriptSig: ScriptSig, sequence: uint32, ok: bool)

  datatype Tx = Tx(version: uint32, inCount: CompactSize, txIn: TxIn, outCount: CompactSize, outs: seq<TxOut>,
                   lockTime: uint32)

  /** What was read, and the bytes left over. */
  datatype Parsed<T> = Parsed(value: T, rest: seq<byte>)

  function SizeLength(first: byte): (n: nat)
    ensures 1 <= n <= 9
  {
    if first == 0xff then 9 else if first == 0xfe then 5 else if first == 0xfd then 3 else 1
  }

  function SizeValue(raw: seq<byte>): nat
    requires raw != []
  {
    if |raw| == 1 then raw[0] else LittleEndian(raw[1..])
  }

  predicate ValidSize(s: CompactSize) {
    s.ok && s.raw != [] && |s.raw| == SizeLength(s.raw[0]) && s.value == SizeValue(s.raw)
  }

  function ParseSize(b: seq<byte>): Option<Parsed<CompactSize>> {
    if b == [] || |b| < SizeLength(b[0]) then None
    else
      var n := SizeLength(b[0]);
      Some(Parsed(CompactSize(b[..n], SizeValue(b[..n]), true), b[n..]))
  }

  lemma SizeRoundTrip(s: CompactSize, rest: seq<byte>)
    requires ValidSize(s)
    ensures ParseSize(s.raw + rest) == Some(Parsed(s, rest))
  {
  }

  lemma SizeSound(b: seq<byte>)
    requires ParseSize(b).Some?
    ensures var p := ParseSize(b).value; ValidSize(p.value) && b == p.value.raw + p.rest
  {
  }

  /** The shortest form of a number, as the serialisation rules prescribe. */
  function Size(v: nat): CompactSize
    requires v < 0x1_0000_0000_0000_0000
  {
    if v < 0xfd then CompactSize([v], v, true)
    else if v < 0x1_0000 then CompactSize([0xfd] + PutLittleEndian(v, 2), v, true)
    else if v < 0x1_0000_0000 then CompactSize([0xfe] + PutLittleEndian(v, 4), v, true)
    else CompactSize([0xff] + PutLittleEndian(v, 8), v, true)
  }

  lemma SizeIsValid(v: nat)
    requires v < 0x1_0000_0000_0000_0000
    ensures ValidSize(Size(v)) && Size(v).value == v
  {
    Pow256Word();
    if v >= 0xfd {
      var n := if v < 0x1_0000 then 2 else if v < 0x1_0000_0000 then 4 else 8;
      PutThenRead(v, n);
      assert Size(v).raw[1..] == PutLittleEndian(v, n);
    }
  }

  /** A 64-bit word read as a signed number, and back. */
  function Signed(v: nat): int {
    if v < INT_LIMIT then v else v - 2 * INT_LIMIT
  }

  function Unsigned(v: int): (u: nat)
    requires -INT_LIMIT <= v
  {
    if v < 0 then v + 2 * INT_LIMIT else v
  }

  predicate IsInt64(v: int) {
    -INT_LIMIT <= v < INT_LIMIT
  }

  function PutInt64(v: int): (b: seq<byte>)
    requires IsInt64(v)
    ensures |b| == 8
  {
    PutLittleEndian(Unsigned(v), 8)
  }

  function Int64(b: seq<byte>): (v: int)
    requires |b| == 8
    ensures IsInt64(v)
  {
    Pow256Word();
    Signed(LittleEndian(b))
  }

  lemma Int64Inverse(v: int, b: seq<byte>)
    requires IsInt64(v) && |b| == 8
    ensures Int64(PutInt64(v)) == v && PutInt64(Int64(b)) == b
  {
    Pow256Word();
    PutThenRead(Unsigned(v), 8);
    ReadThenPut(b);
  }

  predicate ValidOut(o: TxOut) {
    && o.ok && IsInt64(o.value) && ValidSize(o.scriptBytes)
    && |o.script| == o.scriptBytes.value < INT_LIMIT
  }

  function EncodeOut(o: TxOut): seq<byte>
    requires ValidOut(o)
  {
    PutInt64(o.value) + (o.scriptBytes.raw + o.script)
  }

  function ParseOut(b: seq<byte>): Option<Parsed<TxOut>> {
    if |b| < 8 then None
    else
      match ParseSize(b[8..])
      case None => None
      case Some(Parsed(size, rest)) =>
        if size.value >= INT_LIMIT || |rest| < size.value then None
        else Some(Parsed(TxOut(Int64(b[..8]), size, rest[..size.value], true), rest[size.value..]))
  }

  lemma OutRoundTrip(o: TxOut, rest: seq<byte>)
    requires ValidOut(o)
    ensures ParseOut(EncodeOut(o) + rest) == Some(Parsed(o, rest))
  {
    hide ParseSize, ValidSize, PutInt64, Int64;
    var b, tail := EncodeOut(o) + rest, o.script + rest;
    assert b[..8] == PutInt64(o.value) && b[8..] == o.scriptBytes.raw + tail;
    SizeRoundTrip(o.scriptBytes, tail);
    assert tail[..|o.script|] == o.script && tail[|o.script|..] == rest;
    Int64Inverse(o.value, b[..8]);
  }

  lemma OutSound(b: seq<byte>)
    requires ParseOut(b).Some?
    ensures var p := ParseOut(b).value; ValidOut(p.value) && b == EncodeOut(p.value) + p.rest
  {
    hide ParseSize, ValidSize, PutInt64, Int64;
    SizeSound(b[8..]);
    Int64Inverse(0, b[..8]);
    var s := ParseSize(b[8..]).value;
    assert s.rest == s.rest[..s.value.value] + s.rest[s.value.value..];
    assert b == b[..8] + (s.value.raw + s.rest);
  }

  predicate ValidScriptSig(s: ScriptSig) {
    && ValidSize(s.scriptBytes) && ValidSize(s.heightBytes)
    && |s.height| == s.heightBytes.value
    && s.scriptBytes.value == |s.heightBytes.raw| + |s.height| + |s.script| < INT_LIMIT
  }

  function EncodeScriptSig(s: ScriptSig): seq<byte> {
    s.scriptBytes.raw + (s.heightBytes.raw + (s.height + s.script))
  }

  function ParseScriptSig(b: seq<byte>): Option<Parsed<ScriptSig>> {
    match ParseSize(b)
    case None => None
    case Some(Parsed(size, b1)) =>
      match ParseSize(b1)
      case None => None
      case Some(Parsed(height, b2)) =>
        var used := |height.raw| + height.value;
        if size.value >= INT_LIMIT || size.value < used || |b2| < size.value - |height.raw| then None
        else
          Some(Parsed(ScriptSig(size, height, b2[..height.value], b2[height.value..size.value - |height.raw|]),
                      b2[size.value - |height.raw|..]))
  }

  lemma ScriptSigRoundTrip(s: ScriptSig, rest: seq<byte>)
    requires ValidScriptSig(s)
    ensures ParseScriptSig(EncodeScriptSig(s) + rest) == Some(Parsed(s, rest))
  {
    hide ParseSize, ValidSize;
    var b2 := s.height + s.script + rest;
    var b1 := s.heightBytes.raw + b2;
    assert EncodeScriptSig(s) + rest == s.scriptBytes.raw + b1;
    SizeRoundTrip(s.scriptBytes, b1);
    SizeRoundTrip(s.heightBytes, b2);
    assert b2[..|s.height|] == s.height && b2[|s.height|..|s.height| + |s.script|] == s.script;
    assert b2[|s.height| + |s.script|..] == rest;
  }

  lemma ScriptSigSound(b: seq<byte>)
    requires ParseScriptSig(b).Some?
    ensures var p := ParseScriptSig(b).value; ValidScriptSig(p.value) && b == EncodeScriptSig(p.value) + p.rest
  {
    hide ParseSize, ValidSize;
    SizeSound(b);
    var b1 := ParseSize(b).value.rest;
    SizeSound(b1);
    var p, b2 := ParseScriptSig(b).value, ParseSize(b1).value.rest;
    assert b2 == (p.value.height + p.value.script) + p.rest;
    assert b == EncodeScriptSig(p.value) + p.rest;
  }

  predicate ValidIn(i: TxIn) {
    i.ok && |i.hash| == 32 && ValidScriptSig(i.scriptSig)
  }

  function EncodeIn(i: TxIn): seq<byte> {
    i.hash + (PutUint32(i.index) + (EncodeScriptSig(i.scriptSig) + PutUint32(i.sequence)))
  }

  function ParseIn(b: seq<byte>): Option<Parsed<TxIn>> {
    if |b| < 36 then None
    else
      match ParseScriptSig(b[36..])
      case None => None
      case Some(Parsed(sig, rest)) =>
        if |rest| < 4 then None
        else Some(Parsed(TxIn(b[..32], Uint32(b[32..36]), sig, Uint32(rest[..4]), true), rest[4..]))
  }

  lemma InRoundTrip(i: TxIn, rest: seq<byte>)
    requires ValidIn(i)
    ensures ParseIn(EncodeIn(i) + rest) == Some(Parsed(i, rest))
  {
    hide ParseScriptSig, ValidScriptSig, EncodeScriptSig, PutUint32, Uint32;
    var b, tail := EncodeIn(i) + rest, PutUint32(i.sequence) + rest;
    assert b[..32] == i.hash && b[32..36] == PutUint32(i.index);
    assert b[36..] == EncodeScriptSig(i.scriptSig) + tail;
    ScriptSigRoundTrip(i.scriptSig, tail);
    assert tail[..4] == PutUint32(i.sequence) && tail[4..] == rest;
    Uint32Inverse(i.index, b[32..36]);
    Uint32Inverse(i.sequence, tail[..4]);
  }

  lemma InSound(b: seq<byte>)
    requires ParseIn(b).Some?
    ensures var p := ParseIn(b).value; ValidIn(p.value) && b == EncodeIn(p.value) + p.rest
  {
    hide ParseScriptSig, ValidScriptSig, EncodeScriptSig, PutUint32, Uint32;
    ScriptSigSound(b[36..]);
    var s := ParseScriptSig(b[36..]).value;
    Uint32Inverse(0, b[32..36]);
    Uint32Inverse(0, s.rest[..4]);
    assert s.rest == s.rest[..4] + s.rest[4..];
    assert b == b[..32] + (b[32..36] + b[36..]);
  }

  predicate ValidOuts(outs: seq<TxOut>) {
    forall o :: o in outs ==> ValidOut(o)
  }

  function EncodeOuts(outs: seq<TxOut>): seq<byte>
    requires ValidOuts(outs)
  {
    if outs == [] then [] else EncodeOut(outs[0]) + EncodeOuts(outs[1..])
  }

  function ParseOuts(b: seq<byte>, count: nat): Option<Parsed<seq<TxOut>>>
    decreases count
  {
    if count == 0 then Some(Parsed([], b))
    else
      match ParseOut(b)
      case None => None
      case Some(Parsed(out, rest)) =>
        match ParseOuts(rest, count - 1)
        case None => None
        case Some(Parsed(outs, rest)) => Some(Parsed([out] + outs, rest))
  }

  lemma {:induction false} OutsRoundTrip(outs: seq<TxOut>, rest: seq<byte>)
    requires ValidOuts(outs)
    ensures ParseOuts(EncodeOuts(outs) + rest, |outs|) == Some(Parsed(outs, rest))
    decreases |outs|
  {
    hide ParseOut, ValidOut, EncodeOut, ParseOuts;
    if outs == [] {
      assert EncodeOuts(outs) + rest == rest;
      NoOuts(rest);
    } else {
      var tail := EncodeOuts(outs[1..]) + rest;
      assert EncodeOuts(outs) + rest == EncodeOut(outs[0]) + tail;
      OutRoundTrip(outs[0], tail);
      OutsRoundTrip(outs[1..], rest);
      OneMoreOut(EncodeOut(outs[0]) + tail, outs, tail, rest);
    }
  }

  lemma NoOuts(rest: seq<byte>)
    ensures ParseOuts(rest, 0) == Some(Parsed([], rest))
  {
  }

  lemma OneMoreOut(b: seq<byte>, outs: seq<TxOut>, tail: seq<byte>, rest: seq<byte>)
    requires outs != [] && ParseOut(b) == Some(Parsed(outs[0], tail))
    requires ParseOuts(tail, |outs| - 1) == Some(Parsed(outs[1..], rest))
    ensures ParseOuts(b, |outs|) == Some(Parsed(outs, rest))
  {
    hide ParseOut;
    assert [outs[0]] + outs[1..] == outs;
  }

  lemma {:induction false} OutsSound(b: seq<byte>, count: nat)
    requires ParseOuts(b, count).Some?
    ensures var p := ParseOuts(b, count).value;
            |p.value| == count && ValidOuts(p.value) && b == EncodeOuts(p.value) + p.rest
    decreases count
  {
    hide ParseOut, ValidOut, EncodeOut;
    if count > 0 {
      OutSound(b);
      var first := ParseOut(b).value;
      OutsSound(first.rest, count - 1);
      var p := ParseOuts(b, count).value;
      assert p.value[1..] == ParseOuts(first.rest, count - 1).value.value;
    }
  }

  predicate ValidTx(t: Tx) {
    && ValidSize(t.inCount) && ValidIn(t.txIn)
    && ValidSize(t.outCount) && t.outCount.value == |t.outs| < INT_LIMIT && ValidOuts(t.outs)
  }

  function EncodeTx(t: Tx): seq<byte>
    requires ValidTx(t)
  {
    PutUint32(t.version) + (t.inCount.raw + (EncodeIn(t.txIn)
    + (t.outCount.raw + (EncodeOuts(t.outs) + PutUint32(t.lockTime)))))
  }

  /** The outputs and the lock time. */
  function ParseTail(b: seq<byte>): Option<Parsed<(CompactSize, seq<TxOut>, uint32)>> {
    match ParseSize(b)
    case None => None
    case Some(Parsed(count, b1)) =>
      if count.value >= INT_LIMIT then None
      else
        match ParseOuts(b1, count.value)
        case None => None
        case Some(Parsed(outs, b2)) =>
          if |b2| < 4 then None else Some(Parsed((count, outs, Uint32(b2[..4])), b2[4..]))
  }

  function ParseTx(b: seq<byte>): Option<Parsed<Tx>> {
    if |b| < 4 then None
    else
      match ParseSize(b[4..])
      case None => None
      case Some(Parsed(inCount, b1)) =>
        match ParseIn(b1)
        case None => None
        case Some(Parsed(txIn, b2)) =>
          match ParseTail(b2)
          case None => None
          case Some(Parsed((outCount, outs, lockTime), rest)) =>
            Some(Parsed(Tx(Uint32(b[..4]), inCount, txIn, outCount, outs, lockTime), rest))
  }

  lemma TailRoundTrip(count: CompactSize, outs: seq<TxOut>, lockTime: uint32, rest: seq<byte>)
    requires ValidSize(count) && count.value == |outs| < INT_LIMIT && ValidOuts(outs)
    ensures ParseTail(count.raw + (EncodeOuts(outs) + PutUint32(lockTime)) + rest)
            == Some(Parsed((count, outs, lockTime), rest))
  {
    hide ParseSize, ValidSize, ParseOuts, ValidOuts, EncodeOuts, PutUint32, Uint32;
    var b2 := PutUint32(lockTime) + rest;
    var b1 := EncodeOuts(outs) + b2;
    assert count.raw + (EncodeOuts(outs) + PutUint32(lockTime)) + rest == count.raw + b1;
    SizeRoundTrip(count, b1);
    OutsRoundTrip(outs, b2);
    assert b2[..4] == PutUint32(lockTime) && b2[4..] == rest;
    Uint32Inverse(lockTime, b2[..4]);
  }

  /** Every well-formed coinbase transaction is read back field by field, and whatever follows it is
      left alone. */
  lemma TxRoundTrip(t: Tx, rest: seq<byte>)
    requires ValidTx(t)
    ensures ParseTx(EncodeTx(t) + rest) == Some(Parsed(t, rest))
  {
    hide ParseSize, ValidSize, ParseIn, ValidIn, EncodeIn, ParseTail, ValidOuts, EncodeOuts, PutUint32, Uint32;
    var tail := t.outCount.raw + (EncodeOuts(t.outs) + PutUint32(t.lockTime));
    var b1 := EncodeIn(t.txIn) + (tail + rest);
    var b := EncodeTx(t) + rest;
    assert b[..4] == PutUint32(t.version) && b[4..] == t.inCount.raw + b1;
    SizeRoundTrip(t.inCount, b1);
    InRoundTrip(t.txIn, tail + rest);
    TailRoundTrip(t.outCount, t.outs, t.lockTime, rest);
    Uint32Inverse(t.version, b[..4]);
  }

  lemma TailSound(b: seq<byte>)
    requires ParseTail(b).Some?
    ensures var p := ParseTail(b).value;
            && ValidSize(p.value.0) && p.value.0.value == |p.value.1| < INT_LIMIT && ValidOuts(p.value.1)
            && b == p.value.0.raw + (EncodeOuts(p.value.1) + PutUint32(p.value.2)) + p.rest
  {
    hide ParseSize, ValidSize, ParseOuts, ValidOuts, EncodeOuts, PutUint32, Uint32;
    SizeSound(b);
    var s := ParseSize(b).value;
    OutsSound(s.rest, s.value.value);
    var b2 := ParseOuts(s.rest, s.value.value).value.rest;
    Uint32Inverse(0, b2[..4]);
    assert b2 == b2[..4] + b2[4..];
  }

  /** And nothing else is read as one: what was parsed is the serialisation of the result. */
  lemma TxSound(b: seq<byte>)
    requires ParseTx(b).Some?
    ensures var p := ParseTx(b).value; ValidTx(p.value) && b == EncodeTx(p.value) + p.rest
  {
    hide ParseSize, ValidSize, ParseIn, ValidIn, EncodeIn, ParseTail, ValidOuts, EncodeOuts, PutUint32, Uint32;
    SizeSound(b[4..]);
    var s := ParseSize(b[4..]).value;
    InSound(s.rest);
    TailSound(ParseIn(s.rest).value.rest);
    Uint32Inverse(0, b[..4]);
    assert b == b[..4] + b[4..];
  }

  /** The standard form: every length in its shortest form, and the height first in the script. */
  function StandardOut(value: int, script: seq<byte>): TxOut
    requires |script| < INT_LIMIT
  {
    TxOut(value, Size(|script|), script, true)
  }

  function StandardIn(height: seq<byte>, script: seq<byte>, sequence: uint32): TxIn
    requires |height| < 0xfd && |script| < INT_LIMIT - 0x100
  {
    TxIn(seq(32, _ => 0), 0xffff_ffff,
         ScriptSig(Size(1 + |height| + |script|), Size(|height|), height, script), sequence, true)
  }

  lemma StandardIsValid(version: uint32, height: seq<byte>, script: seq<byte>, sequence: uint32,
                        outs: seq<TxOut>, lockTime: uint32)
    requires |height| < 0xfd && |script| < INT_LIMIT - 0x100 && |outs| < INT_LIMIT
    requires forall o :: o in outs ==> |o.script| < INT_LIMIT && IsInt64(o.value) && o == StandardOut(o.value, o.script)
    ensures ValidTx(Tx(version, Size(1), StandardIn(height, script, sequence), Size(|outs|), outs, lockTime))
  {
    hide ValidSize;
    SizeIsValid(1);
    SizeIsValid(1 + |height| + |script|);
    SizeIsValid(|height|);
    SizeIsValid(|outs|);
    forall o | o in outs ensures ValidOut(o) {
      SizeIsValid(|o.script|);
    }
  }

  /** The height of a block: the bytes of the script, least significant first. */
  lemma {:induction false} PaddedHeight(height: seq<byte>, n: nat)
    ensures LittleEndian(height + seq(n, _ => 0)) == LittleEndian(height)
  {
    if height == [] {
      Zeros(n);
      assert height + seq(n, _ => 0) == seq(n, _ => 0);
    } else {
      PaddedHeight(height[1..], n);
      assert (height + seq(n, _ => 0))[1..] == height[1..] + seq(n, _ => 0);
    }
  }

  lemma {:induction false} Zeros(n: nat)
    ensures LittleEndian(seq(n, _ => 0)) == 0
  {
    if n > 0 {
      Zeros(n - 1);
      assert seq(n, _ => 0)[1..] == seq(n - 1, _ => 0);
    }
  }
}
