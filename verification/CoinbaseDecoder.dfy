/** The coinbase decoder as the program runs it, with positions and remaining lengths. */
module CoinbaseDecoder {
  import opened Bytes
  import opened Basics
  import opened Coinbase

  /** What a decoder returns beside its position. A truncated script is reported as no fault at all:
      only the `ok` flag of the part stays false. A negative length crashes. */
  datatype Fault = NoFault | SizeTooSmall | OutTooSmall | InTooSmall | TxTooSmall | Panic

  const NO_SIZE := CompactSize([], 0, false)
  const NO_OUT := TxOut(0, NO_SIZE, [], false)
  const NO_IN := TxIn(seq(32, _ => 0), 0, ScriptSig(NO_SIZE, NO_SIZE, [], []), 0, false)

  method DecodeSize(b: seq<byte>) returns (s: CompactSize, pos: nat, fault: Fault)
    ensures pos <= |b|
    ensures match ParseSize(b)
            case None => fault == SizeTooSmall && pos == 0 && s == NO_SIZE
            case Some(p) => fault == NoFault && s == p.value && b[pos..] == p.rest && pos == |s.raw|
  {
    s, pos, fault := NO_SIZE, 0, SizeTooSmall;
    if |b| < 1 {
      return;
    }
    if b[0] == 0xff {
      if |b| < 9 {
        return;
      }
      s := s.(raw := b[0..9]);
      s := s.(value := LittleEndian(s.raw[1..9]));
      pos := pos + 9;
    } else if b[0] == 0xfe {
      if |b| < 5 {
        return;
      }
      s := s.(raw := b[0..5]);
      s := s.(value := LittleEndian(s.raw[1..5]));
      pos := pos + 5;
    } else if b[0] == 0xfd {
      if |b| < 3 {
        return;
      }
      s := s.(raw := b[0..3]);
      s := s.(value := LittleEndian(s.raw[1..3]));
      pos := pos + 3;
    } else {
      s := s.(raw := b[0..1]);
      s := s.(value := s.raw[0]);
      pos := pos + 1;
    }
    assert s.raw == b[..pos] && (pos > 1 ==> s.raw[1..pos] == s.raw[1..]);
    s := s.(ok := true);
    fault := NoFault;
  }

  method DecodeOut(b: seq<byte>) returns (o: TxOut, pos: nat, fault: Fault)
    ensures pos <= |b| && (o.ok <==> ParseOut(b).Some?)
    ensures (fault, b[pos..]) == OutStop(b)
    ensures ParseOut(b).Some? ==> var p := ParseOut(b).value; fault == NoFault && o == p.value && b[pos..] == p.rest
    ensures |b| < 8 ==> fault == OutTooSmall && pos == 0
    ensures |b| >= 8 && ParseSize(b[8..]).None? ==> fault == SizeTooSmall && pos == 8
    ensures |b| >= 8 && ParseSize(b[8..]).Some? && ParseOut(b).None? ==>
              fault == NoFault && b[pos..] == ParseSize(b[8..]).value.rest
  {
    hide ParseSize;
    o, pos, fault := NO_OUT, 0, OutTooSmall;
    var len := |b|;
    if len < 8 {
      return;
    }
    o := o.(value := Int64(b[0..8]));
    pos := pos + 8;
    len := len - 8;

    var size, n, f := DecodeSize(b[pos..]);
    o := o.(scriptBytes := size);
    fault := f;
    if fault != NoFault {
      return;
    }
    assert b[8..][n..] == b[8 + n..];
    pos := pos + n;
    len := len - n;

    if o.scriptBytes.value >= INT_LIMIT || len < o.scriptBytes.value {
      return;
    }
    o := o.(script := b[pos..pos + o.scriptBytes.value]);
    pos := pos + o.scriptBytes.value;
    o := o.(ok := true);
  }

  /** The height's length is read and turns out negative. */
  predicate NegativeHeight(b: seq<byte>) {
    ParseSize(b).Some?
    && var b1 := ParseSize(b).value.rest;
    ParseSize(b1).Some? && ParseSize(b1).value.value.value >= INT_LIMIT
  }

  /** The two lengths at the start of the script. */
  method DecodeScriptSizes(b: seq<byte>) returns (script: CompactSize, height: CompactSize, pos: nat, fault: Fault)
    ensures pos <= |b|
    ensures ParseSize(b).None? ==> fault == SizeTooSmall && pos == 0
    ensures ParseSize(b).Some? ==> var p := ParseSize(b).value;
              && (ParseSize(p.rest).None? ==> fault == SizeTooSmall && b[pos..] == p.rest)
              && (ParseSize(p.rest).Some? ==> var q := ParseSize(p.rest).value;
                    fault == NoFault && script == p.value && height == q.value && b[pos..] == q.rest)
  {
    hide ParseSize;
    height := NO_SIZE;
    script, pos, fault := DecodeSize(b);
    if fault != NoFault {
      return;
    }
    var n;
    height, n, fault := DecodeSize(b[pos..]);
    assert b[pos..][n..] == b[pos + n..];
    pos := pos + n;
  }

  /** Where reading a malformed script stops, as the bytes that are left: at the length that is not all
      there, before the height, or before the rest of the script. Only a length makes it an error. */
  function ScriptStop(b: seq<byte>): (r: (Fault, seq<byte>)) {
    match ParseSize(b)
    case None => (SizeTooSmall, b)
    case Some(Parsed(size, b1)) =>
      match ParseSize(b1)
      case None => (SizeTooSmall, b1)
      case Some(Parsed(height, b2)) =>
        if height.value >= INT_LIMIT then (Panic, b2)
        else (NoFault, if |b2| < height.value then b2 else b2[height.value..])
  }

  /** The script up to its end; `whole` tells whether it was all there. */
  method DecodeScriptSig(b: seq<byte>) returns (sig: ScriptSig, pos: nat, fault: Fault, whole: bool)
    ensures pos <= |b| && (whole <==> ParseScriptSig(b).Some?)
    ensures whole ==> fault == NoFault && ParseScriptSig(b) == Some(Parsed(sig, b[pos..]))
    ensures !whole ==> (fault, b[pos..]) == ScriptStop(b)
    ensures fault == Panic <==> NegativeHeight(b)
  {
    hide ParseSize;
    sig, pos, fault, whole := NO_IN.scriptSig, 0, NoFault, false;
    var size, heightSize;
    size, heightSize, pos, fault := DecodeScriptSizes(b);
    if fault != NoFault {
      return;
    }
    sig := sig.(scriptBytes := size, heightBytes := heightSize);
    ghost var b2 := b[pos..];
    var len := |b| - pos;
    var n := heightSize.value;
    if n >= INT_LIMIT {
      fault := Panic;
      return;
    }
    if len < n {
      return;
    }
    sig := sig.(height := b[pos..pos + n]);
    assert b2[..n] == sig.height;
    pos := pos + n;
    len := len - n;

    if size.value >= INT_LIMIT || size.value < |heightSize.raw| + heightSize.value {
      return;
    }
    var m := size.value - |heightSize.raw| - heightSize.value;
    if len < m {
      return;
    }
    sig := sig.(script := b[pos..pos + m]);
    assert b2[n..n + m] == sig.script && b2[n + m..] == b[pos + m..];
    pos := pos + m;
    whole := true;
  }

  method DecodeIn(b: seq<byte>) returns (i: TxIn, pos: nat, fault: Fault)
    ensures pos <= |b| && (i.ok <==> ParseIn(b).Some?)
    ensures fault == InStop(b).0 && (fault == NoFault ==> b[pos..] == InStop(b).1)
    ensures ParseIn(b).Some? ==> var p := ParseIn(b).value; fault == NoFault && i == p.value && b[pos..] == p.rest
    ensures |b| < 36 ==> fault == InTooSmall && pos == if |b| < 32 then 0 else 32
    ensures |b| >= 36 && ParseScriptSig(b[36..]).None? ==> (fault, b[pos..]) == ScriptStop(b[36..])
    ensures |b| >= 36 && ParseScriptSig(b[36..]).Some? && ParseIn(b).None? ==>
              fault == NoFault && b[pos..] == ParseScriptSig(b[36..]).value.rest
    ensures fault == Panic <==> |b| >= 36 && NegativeHeight(b[36..])
  {
    hide ParseScriptSig, NegativeHeight;
    i, pos, fault := NO_IN, 0, InTooSmall;
    var len := |b|;
    if len < 32 {
      return;
    }
    i := i.(hash := b[pos..pos + 32]);
    pos := pos + 32;
    len := len - 32;

    if len < 4 {
      return;
    }
    i := i.(index := Uint32(b[pos..pos + 4]));
    pos := pos + 4;
    len := len - 4;

    var sig, n, f, whole := DecodeScriptSig(b[pos..]);
    i := i.(scriptSig := sig);
    fault := f;
    assert b[pos..][n..] == b[pos + n..];
    pos := pos + n;
    len := len - n;
    if !whole {
      return;
    }

    if len < 4 {
      return;
    }
    assert b[pos..][..4] == b[pos..pos + 4] && b[pos..][4..] == b[pos + 4..];
    i := i.(sequence := Uint32(b[pos..pos + 4]));
    pos := pos + 4;
    i := i.(ok := true);
  }

  // Where reading stops, as the fault and the bytes that are left

  function OutStop(b: seq<byte>): (r: (Fault, seq<byte>)) {
    if |b| < 8 then (OutTooSmall, b)
    else
      match ParseSize(b[8..])
      case None => (SizeTooSmall, b[8..])
      case Some(Parsed(size, rest)) =>
        (NoFault, if size.value >= INT_LIMIT || |rest| < size.value then rest else rest[size.value..])
  }

  /** The outputs up to the first one with a fault; a truncated script is none. */
  function OutsStop(b: seq<byte>, count: nat): (r: (Fault, seq<byte>))
    decreases count
  {
    if count == 0 then (NoFault, b)
    else
      var (fault, rest) := OutStop(b);
      if fault != NoFault then (fault, b) else OutsStop(rest, count - 1)
  }

  function InStop(b: seq<byte>): (r: (Fault, seq<byte>)) {
    if |b| < 36 then (InTooSmall, b)
    else
      match ParseScriptSig(b[36..])
      case None => ScriptStop(b[36..])
      case Some(Parsed(_, rest)) => (NoFault, if |rest| < 4 then rest else rest[4..])
  }

  function TailStop(b: seq<byte>): (r: (Fault, seq<byte>)) {
    match ParseSize(b)
    case None => (SizeTooSmall, b)
    case Some(Parsed(count, rest)) =>
      if count.value >= INT_LIMIT then (Panic, rest)
      else
        var (fault, b1) := OutsStop(rest, count.value);
        (fault, if fault != NoFault || |b1| < 4 then b1 else b1[4..])
  }

  function PartsStop(b: seq<byte>): (r: (Fault, seq<byte>)) {
    var (fault, rest) := InStop(b);
    if fault != NoFault then (fault, b) else TailStop(rest)
  }

  /** A whole transaction: a part with a fault ends it in front of that part, or of the output. */
  function TxStop(b: seq<byte>): (r: (Fault, seq<byte>)) {
    if |b| < 4 then (TxTooSmall, b)
    else
      match ParseSize(b[4..])
      case None => (SizeTooSmall, b[4..])
      case Some(Parsed(_, rest)) =>
        PartsStop(rest)
  }

  /** How the parts of a transaction decide what is parsed and where reading stops. */
  lemma TxBranches(b: seq<byte>)
    ensures |b| < 4 ==> ParseTx(b).None? && TxStop(b) == (TxTooSmall, b)
    ensures |b| >= 4 && ParseSize(b[4..]).None? ==> ParseTx(b).None? && TxStop(b) == (SizeTooSmall, b[4..])
    ensures |b| >= 4 && ParseSize(b[4..]).Some? ==>
              var size := ParseSize(b[4..]).value;
              var i := ParseIn(size.rest);
              && TxStop(b) == PartsStop(size.rest)
              && (InStop(size.rest).0 != NoFault ==> TxStop(b) == (InStop(size.rest).0, size.rest))
              && (ParseTx(b).Some? <==> i.Some? && ParseTail(i.value.rest).Some?)
              && (ParseTx(b).Some? ==>
                    var t := ParseTail(i.value.rest).value;
                    ParseTx(b) == Some(Parsed(Tx(Uint32(b[..4]), size.value, i.value.value, t.value.0, t.value.1,
                                                 t.value.2), t.rest)))
  {
    hide ParseSize, ParseIn, ParseTail, InStop, TailStop;
  }

  /** The bytes that are left once i outputs were read without a fault. */
  function LeftAfter(b: seq<byte>, i: nat): seq<byte>
    decreases i
  {
    if i == 0 then b else LeftAfter(OutStop(b).1, i - 1)
  }

  /** The first output with a fault ends the loop, with that fault and in front of that output;
      without one it ends behind the last. */
  lemma {:induction false} OutsStopExactly(b: seq<byte>, count: nat, i: nat)
    requires i <= count && forall j :: 0 <= j < i ==> OutStop(LeftAfter(b, j)).0 == NoFault
    ensures i == count ==> OutsStop(b, count) == (NoFault, LeftAfter(b, count))
    ensures i < count && OutStop(LeftAfter(b, i)).0 != NoFault ==>
              OutsStop(b, count) == (OutStop(LeftAfter(b, i)).0, LeftAfter(b, i))
    decreases i
  {
    hide OutStop;
    if i > 0 {
      var rest := OutStop(b).1;
      assert OutStop(LeftAfter(b, 0)).0 == NoFault;
      forall j | 0 <= j < i - 1 ensures OutStop(LeftAfter(rest, j)).0 == NoFault {
        assert LeftAfter(b, j + 1) == LeftAfter(rest, j);
      }
      OutsStopExactly(rest, count - 1, i - 1);
    }
  }

  /** Well-formed outputs are read to their end. */
  lemma {:induction false} OutsStopAtEnd(b: seq<byte>, count: nat)
    requires ParseOuts(b, count).Some?
    ensures OutsStop(b, count) == (NoFault, ParseOuts(b, count).value.rest)
    decreases count
  {
    hide ParseSize;
    if count > 0 {
      OutStopAtEnd(b);
      OutsStopAtEnd(ParseOut(b).value.rest, count - 1);
    }
  }

  lemma OutStopAtEnd(b: seq<byte>)
    requires ParseOut(b).Some?
    ensures OutStop(b) == (NoFault, ParseOut(b).value.rest)
  {
  }

  lemma InStopAtEnd(b: seq<byte>)
    requires ParseIn(b).Some?
    ensures InStop(b) == (NoFault, ParseIn(b).value.rest)
  {
    hide ParseScriptSig;
  }

  /** Only malformed input is reported as a fault: a well-formed transaction is read to its end. */
  lemma FaultIsMalformed(b: seq<byte>)
    requires ParseTx(b).Some?
    ensures TxStop(b) == (NoFault, ParseTx(b).value.rest)
  {
    hide ParseSize, ParseIn, ParseOuts, OutsStop, InStop;
    var b1 := ParseSize(b[4..]).value.rest;
    InStopAtEnd(b1);
    var b2 := ParseIn(b1).value.rest;
    var size := ParseSize(b2).value;
    OutsStopAtEnd(size.rest, size.value.value);
  }

  /** The height as a number: at most eight bytes, padded with zeros; more of them crash. */
  method GetHeight(i: TxIn) returns (height: nat, fault: Fault)
    ensures fault == if |i.scriptSig.height| <= 8 then NoFault else Panic
    ensures fault == NoFault ==> height == LittleEndian(i.scriptSig.height)
  {
    var b: seq<byte> := seq(8, _ => 0);
    var n := |i.scriptSig.height|;
    if n > |b| {
      return 0, Panic;
    }
    fault := NoFault;
    b := i.scriptSig.height[0..n] + b[n..];
    PaddedHeight(i.scriptSig.height, 8 - n);
    assert b == i.scriptSig.height + seq(8 - n, _ => 0);
    height := LittleEndian(b);
  }

  class TxCoinBase {
    var version: uint32
    var inCount: CompactSize
    var txIn: TxIn
    var outCount: CompactSize
    var outs: seq<TxOut>
    var lockTime: uint32
    var ok: bool

    constructor ()
      ensures !ok && !txIn.ok && outs == []
    {
      version, inCount, txIn, outCount, outs, lockTime, ok := 0, NO_SIZE, NO_IN, NO_SIZE, [], 0, false;
    }

    function View(): Tx
      reads this
    {
      Tx(version, inCount, txIn, outCount, outs, lockTime)
    }

    /** The transaction and all its parts were read. */
    predicate AllOk()
      reads this
    {
      ok && txIn.ok && forall o :: o in outs ==> o.ok
    }

    /** The outputs, one after the other; stops at the first fault. */
    method DecodeOuts(b: seq<byte>) returns (pos: nat, fault: Fault)
      modifies this`outs
      ensures pos <= |b|
      ensures outCount.value >= INT_LIMIT ==> fault == Panic && pos == 0
      ensures outCount.value < INT_LIMIT ==> (fault, b[pos..]) == OutsStop(b, outCount.value)
      ensures var all := ParseOuts(b, outCount.value);
              && (outCount.value < INT_LIMIT && all.Some? ==>
                    && fault == NoFault && outs == all.value.value && b[pos..] == all.value.rest
                    && forall o :: o in outs ==> o.ok)
              && (all.None? ==> fault != NoFault || exists o :: o in outs && !o.ok)
    {
      hide ParseOut, ParseOuts, ParseSize, OutStop;
      pos, fault := 0, NoFault;
      var count := outCount.value;
      if count >= INT_LIMIT {
        return 0, Panic;
      }
      outs := seq(count, _ => NO_OUT);
      assert b[0..] == b;
      assert outs[..0] == [];
      PrependNone(ParseOuts(b, count));
      var i := 0;
      while i < count
        invariant 0 <= i <= count == outCount.value && |outs| == count && pos <= |b|
        invariant Followed(b, count, outs, i, pos) && fault == NoFault
        invariant OutsStop(b, count) == OutsStop(b[pos..], count - i)
      {
        var o, n, f := DecodeOut(b[pos..]);
        ghost var before := outs;
        outs := outs[i := o];
        fault := f;
        OutStep(b, count, before, i, pos, o, n, f);
        assert b[pos..][n..] == b[pos + n..];
        if fault != NoFault {
          return;
        }
        pos := pos + n;
        i := i + 1;
      }
      OutsDone(b, count, outs, pos);
      if ParseOuts(b, count).Some? {
        OutsSound(b, count);
      }
    }

    /** Reads a transaction. Everything is reported to be in order exactly when the bytes start
        with a well-formed one, and then it is the one that was read. */
    method Decode(b: seq<byte>) returns (pos: nat, fault: Fault)
      requires !ok
      modifies this
      ensures pos <= |b| && (AllOk() <==> ParseTx(b).Some?)
      ensures (fault, b[pos..]) == TxStop(b)
      ensures ParseTx(b).Some? ==> var p := ParseTx(b).value;
              fault == NoFault && View() == p.value && b[pos..] == p.rest
    {
      TxBranches(b);
      hide ParseSize, ParseIn, ParseTail, InStop, TailStop, ParseTx, TxStop;
      pos, fault := 0, TxTooSmall;
      if |b| < 4 {
        return;
      }
      version := Uint32(b[0..4]);
      pos := pos + 4;

      var n;
      inCount, n, fault := DecodeSize(b[pos..]);
      if fault != NoFault {
        return;
      }
      assert b[pos..][n..] == b[pos + n..];
      pos := pos + n;

      n, fault := DecodeParts(b[pos..]);
      assert b[pos..][n..] == b[pos + n..];
      pos := pos + n;
    }

    /** The input, the outputs and the lock time. */
    method DecodeParts(b: seq<byte>) returns (pos: nat, fault: Fault)
      requires !ok
      modifies this`txIn, this`outCount, this`outs, this`lockTime, this`ok
      ensures pos <= |b| && (fault, b[pos..]) == PartsStop(b)
      ensures AllOk() <==> ParseIn(b).Some? && ParseTail(ParseIn(b).value.rest).Some?
      ensures AllOk() ==> var p, q := ParseIn(b).value, ParseTail(ParseIn(b).value.rest).value;
              && fault == NoFault && txIn == p.value && (outCount, outs, lockTime) == q.value && b[pos..] == q.rest
    {
      hide ParseSize, ParseIn, ParseTail, InStop, TailStop;
      var n;
      txIn, pos, fault := DecodeIn(b);
      if ParseIn(b).Some? {
        InStopAtEnd(b);
      }
      if fault != NoFault {
        return 0, fault;
      }
      n, fault := DecodeTail(b[pos..]);
      assert b[pos..][n..] == b[pos + n..];
      pos := pos + n;
    }

    /** The outputs and the lock time. */
    method DecodeTail(b: seq<byte>) returns (pos: nat, fault: Fault)
      requires !ok
      modifies this`outCount, this`outs, this`lockTime, this`ok
      ensures pos <= |b| && (ok && (forall o :: o in outs ==> o.ok) <==> ParseTail(b).Some?)
      ensures (fault, b[pos..]) == TailStop(b)
      ensures ParseTail(b).Some? ==> var p := ParseTail(b).value;
              fault == NoFault && (outCount, outs, lockTime) == p.value && b[pos..] == p.rest
    {
      hide ParseSize, ParseIn, ParseOut, ParseOuts;
      var len, n := |b|, 0;
      outCount, pos, fault := DecodeSize(b);
      if fault != NoFault {
        return;
      }
      len := len - pos;

      n, fault := DecodeOuts(b[pos..]);
      assert b[pos..][n..] == b[pos + n..];
      pos := pos + n;
      if fault != NoFault {
        return;
      }
      len := len - n;

      if len < 4 {
        return;
      }
      assert b[pos..][..4] == b[pos..pos + 4] && b[pos..][4..] == b[pos + 4..];
      lockTime := Uint32(b[pos..pos + 4]);
      pos := pos + 4;
      ok := true;
    }
  }

  function Prepend(outs: seq<TxOut>, tail: Option<Parsed<seq<TxOut>>>): Option<Parsed<seq<TxOut>>> {
    match tail
    case None => None
    case Some(p) => Some(Parsed(outs + p.value, p.rest))
  }

  lemma PrependNone(tail: Option<Parsed<seq<TxOut>>>)
    ensures Prepend([], tail) == tail
  {
    if tail.Some? {
      assert [] + tail.value.value == tail.value.value;
    }
  }

  /** i outputs have been read up to pos: the whole list parses as these followed by the rest, or one
      of them is bad. */
  ghost predicate Followed(b: seq<byte>, count: nat, outs: seq<TxOut>, i: nat, pos: nat)
    requires i <= count == |outs| && pos <= |b|
  {
    if forall j :: 0 <= j < i ==> outs[j].ok
    then ParseOuts(b, count) == Prepend(outs[..i], ParseOuts(b[pos..], count - i))
    else ParseOuts(b, count).None?
  }

  lemma OutStep(b: seq<byte>, count: nat, outs: seq<TxOut>, i: nat, pos: nat, o: TxOut, n: nat, f: Fault)
    requires i < count == |outs| && pos <= |b| && Followed(b, count, outs, i, pos)
    requires n <= |b[pos..]| && (o.ok <==> ParseOut(b[pos..]).Some?)
    requires ParseOut(b[pos..]).Some? ==> f == NoFault && ParseOut(b[pos..]) == Some(Parsed(o, b[pos..][n..]))
    ensures f == NoFault ==> Followed(b, count, outs[i := o], i + 1, pos + n)
    ensures f != NoFault ==> ParseOuts(b, count).None?
  {
    hide ParseOut;
    var next := outs[i := o];
    assert b[pos..][n..] == b[pos + n..];
    assert next[..i + 1] == outs[..i] + [o];
    assert forall j :: 0 <= j < i ==> next[j] == outs[j];
    if forall j :: 0 <= j < i ==> outs[j].ok {
      if ParseOut(b[pos..]).Some? {
        var tail := ParseOuts(b[pos + n..], count - (i + 1));
        if tail.Some? {
          assert outs[..i] + ([o] + tail.value.value) == next[..i + 1] + tail.value.value;
        }
      } else {
        assert !next[i].ok;
      }
    }
  }

  lemma OutsDone(b: seq<byte>, count: nat, outs: seq<TxOut>, pos: nat)
    requires count == |outs| && pos <= |b| && Followed(b, count, outs, count, pos)
    ensures ParseOuts(b, count).Some? ==> var all := ParseOuts(b, count).value;
              outs == all.value && b[pos..] == all.rest
    ensures ParseOuts(b, count).None? ==> exists o :: o in outs && !o.ok
  {
  }
}
