/** The packet error code of the SMBus: a table-driven CRC-8 over the address byte and the data. */
module SmbusPec {

  datatype Result<T> = Ok(value: T) | Err(error: PecError)

  datatype PecError = BadRdwr | BadAddress | TooSmall | Mismatch

  const READ: bv8 := 1

  // The lookup table of 256 entries, sixteen to a row

  function Row0(col: bv8): bv8 {
    match col
    case 0 => 0x00 case 1 => 0x07 case 2 => 0x0e case 3 => 0x09
    case 4 => 0x1c case 5 => 0x1b case 6 => 0x12 case 7 => 0x15
    case 8 => 0x38 case 9 => 0x3f case 10 => 0x36 case 11 => 0x31
    case 12 => 0x24 case 13 => 0x23 case 14 => 0x2a case _ => 0x2d
  }

  function Row1(col: bv8): bv8 {
    match col
    case 0 => 0x70 case 1 => 0x77 case 2 => 0x7e case 3 => 0x79
    case 4 => 0x6c case 5 => 0x6b case 6 => 0x62 case 7 => 0x65
    case 8 => 0x48 case 9 => 0x4f case 10 => 0x46 case 11 => 0x41
    case 12 => 0x54 case 13 => 0x53 case 14 => 0x5a case _ => 0x5d
  }

  function Row2(col: bv8): bv8 {
    match col
    case 0 => 0xe0 case 1 => 0xe7 case 2 => 0xee case 3 => 0xe9
    case 4 => 0xfc case 5 => 0xfb case 6 => 0xf2 case 7 => 0xf5
    case 8 => 0xd8 case 9 => 0xdf case 10 => 0xd6 case 11 => 0xd1
    case 12 => 0xc4 case 13 => 0xc3 case 14 => 0xca case _ => 0xcd
  }

  function Row3(col: bv8): bv8 {
    match col
    case 0 => 0x90 case 1 => 0x97 case 2 => 0x9e case 3 => 0x99
    case 4 => 0x8c case 5 => 0x8b case 6 => 0x82 case 7 => 0x85
    case 8 => 0xa8 case 9 => 0xaf case 10 => 0xa6 case 11 => 0xa1
    case 12 => 0xb4 case 13 => 0xb3 case 14 => 0xba case _ => 0xbd
  }

  function Row4(col: bv8): bv8 {
    match col
    case 0 => 0xc7 case 1 => 0xc0 case 2 => 0xc9 case 3 => 0xce
    case 4 => 0xdb case 5 => 0xdc case 6 => 0xd5 case 7 => 0xd2
    case 8 => 0xff case 9 => 0xf8 case 10 => 0xf1 case 11 => 0xf6
    case 12 => 0xe3 case 13 => 0xe4 case 14 => 0xed case _ => 0xea
  }

  function Row5(col: bv8): bv8 {
    match col
    case 0 => 0xb7 case 1 => 0xb0 case 2 => 0xb9 case 3 => 0xbe
    case 4 => 0xab case 5 => 0xac case 6 => 0xa5 case 7 => 0xa2
    case 8 => 0x8f case 9 => 0x88 case 10 => 0x81 case 11 => 0x86
    case 12 => 0x93 case 13 => 0x94 case 14 => 0x9d case _ => 0x9a
  }

  function Row6(col: bv8): bv8 {
    match col
    case 0 => 0x27 case 1 => 0x20 case 2 => 0x29 case 3 => 0x2e
    case 4 => 0x3b case 5 => 0x3c case 6 => 0x35 case 7 => 0x32
    case 8 => 0x1f case 9 => 0x18 case 10 => 0x11 case 11 => 0x16
    case 12 => 0x03 case 13 => 0x04 case 14 => 0x0d case _ => 0x0a
  }

  function Row7(col: bv8): bv8 {
    match col
    case 0 => 0x57 case 1 => 0x50 case 2 => 0x59 case 3 => 0x5e
    case 4 => 0x4b case 5 => 0x4c case 6 => 0x45 case 7 => 0x42
    case 8 => 0x6f case 9 => 0x68 case 10 => 0x61 case 11 => 0x66
    case 12 => 0x73 case 13 => 0x74 case 14 => 0x7d case _ => 0x7a
  }

  function Row8(col: bv8): bv8 {
    match col
    case 0 => 0x89 case 1 => 0x8e case 2 => 0x87 case 3 => 0x80
    case 4 => 0x95 case 5 => 0x92 case 6 => 0x9b case 7 => 0x9c
    case 8 => 0xb1 case 9 => 0xb6 case 10 => 0xbf case 11 => 0xb8
    case 12 => 0xad case 13 => 0xaa case 14 => 0xa3 case _ => 0xa4
  }

  function Row9(col: bv8): bv8 {
    match col
    case 0 => 0xf9 case 1 => 0xfe case 2 => 0xf7 case 3 => 0xf0
    case 4 => 0xe5 case 5 => 0xe2 case 6 => 0xeb case 7 => 0xec
    case 8 => 0xc1 case 9 => 0xc6 case 10 => 0xcf case 11 => 0xc8
    case 12 => 0xdd case 13 => 0xda case 14 => 0xd3 case _ => 0xd4
  }

  function Row10(col: bv8): bv8 {
    match col
    case 0 => 0x69 case 1 => 0x6e case 2 => 0x67 case 3 => 0x60
    case 4 => 0x75 case 5 => 0x72 case 6 => 0x7b case 7 => 0x7c
    case 8 => 0x51 case 9 => 0x56 case 10 => 0x5f case 11 => 0x58
    case 12 => 0x4d case 13 => 0x4a case 14 => 0x43 case _ => 0x44
  }

  function Row11(col: bv8): bv8 {
    match col
    case 0 => 0x19 case 1 => 0x1e case 2 => 0x17 case 3 => 0x10
    case 4 => 0x05 case 5 => 0x02 case 6 => 0x0b case 7 => 0x0c
    case 8 => 0x21 case 9 => 0x26 case 10 => 0x2f case 11 => 0x28
    case 12 => 0x3d case 13 => 0x3a case 14 => 0x33 case _ => 0x34
  }

  function Row12(col: bv8): bv8 {
    match col
    case 0 => 0x4e case 1 => 0x49 case 2 => 0x40 case 3 => 0x47
    case 4 => 0x52 case 5 => 0x55 case 6 => 0x5c case 7 => 0x5b
    case 8 => 0x76 case 9 => 0x71 case 10 => 0x78 case 11 => 0x7f
    case 12 => 0x6a case 13 => 0x6d case 14 => 0x64 case _ => 0x63
  }

  function Row13(col: bv8): bv8 {
    match col
    case 0 => 0x3e case 1 => 0x39 case 2 => 0x30 case 3 => 0x37
    case 4 => 0x22 case 5 => 0x25 case 6 => 0x2c case 7 => 0x2b
    case 8 => 0x06 case 9 => 0x01 case 10 => 0x08 case 11 => 0x0f
    case 12 => 0x1a case 13 => 0x1d case 14 => 0x14 case _ => 0x13
  }

  function Row14(col: bv8): bv8 {
    match col
    case 0 => 0xae case 1 => 0xa9 case 2 => 0xa0 case 3 => 0xa7
    case 4 => 0xb2 case 5 => 0xb5 case 6 => 0xbc case 7 => 0xbb
    case 8 => 0x96 case 9 => 0x91 case 10 => 0x98 case 11 => 0x9f
    case 12 => 0x8a case 13 => 0x8d case 14 => 0x84 case _ => 0x83
  }

  function Row15(col: bv8): bv8 {
    match col
    case 0 => 0xde case 1 => 0xd9 case 2 => 0xd0 case 3 => 0xd7
    case 4 => 0xc2 case 5 => 0xc5 case 6 => 0xcc case 7 => 0xcb
    case 8 => 0xe6 case 9 => 0xe1 case 10 => 0xe8 case 11 => 0xef
    case 12 => 0xfa case 13 => 0xfd case 14 => 0xf4 case _ => 0xf3
  }

  /** The entry of the table at an index. */
  function Lookup(index: bv8): bv8 {
    var col := index & 0x0f;
    match index >> 4
    case 0 => Row0(col)
    case 1 => Row1(col)
    case 2 => Row2(col)
    case 3 => Row3(col)
    case 4 => Row4(col)
    case 5 => Row5(col)
    case 6 => Row6(col)
    case 7 => Row7(col)
    case 8 => Row8(col)
    case 9 => Row9(col)
    case 10 => Row10(col)
    case 11 => Row11(col)
    case 12 => Row12(col)
    case 13 => Row13(col)
    case 14 => Row14(col)
    case _ => Row15(col)
  }

  /** One bit of the division by the polynomial x^8 + x^2 + x + 1. */
  function ShiftOnce(crc: bv8): bv8 {
    if crc & 0x80 != 0 then (crc << 1) ^ 0x07 else crc << 1
  }

  function ShiftTimes(crc: bv8, n: nat): bv8
    decreases n
  {
    if n == 0 then crc else ShiftTimes(ShiftOnce(crc), n - 1)
  }

  /** A whole byte of it. */
  function Shifted(crc: bv8): bv8 {
    ShiftOnce(ShiftOnce(ShiftOnce(ShiftOnce(ShiftOnce(ShiftOnce(ShiftOnce(ShiftOnce(crc))))))))
  }

  lemma ShiftedIsEight(crc: bv8)
    ensures ShiftTimes(crc, 8) == Shifted(crc)
  {
  }

  lemma {:induction false} TimesAdd(crc: bv8, m: nat, n: nat)
    ensures ShiftTimes(crc, m + n) == ShiftTimes(ShiftTimes(crc, m), n)
    decreases m
  {
    hide ShiftOnce;
    if m > 0 {
      TimesAdd(ShiftOnce(crc), m - 1, n);
    }
  }

  /** The table holds what the bitwise division computes. */
  lemma TableIsDivision(x: bv8)
    ensures Lookup(x) == Shifted(x)
  {
  }

  function Xor(a: bv8, b: bv8): bv8 {
    a ^ b
  }

  /** The CRC of a message, bit by bit, starting from crc. */
  function Crc(crc: bv8, message: seq<bv8>): bv8
    decreases |message|
  {
    if message == [] then crc else Crc(Shifted(Xor(crc, message[0])), message[1..])
  }

  lemma {:induction false} CrcConcat(crc: bv8, a: seq<bv8>, b: seq<bv8>)
    ensures Crc(crc, a + b) == Crc(Crc(crc, a), b)
    decreases |a|
  {
    hide Shifted;
    if a == [] {
      assert a + b == b;
    } else {
      assert (a + b)[1..] == a[1..] + b;
      CrcConcat(Shifted(Xor(crc, a[0])), a[1..], b);
    }
  }

  lemma CrcOne(crc: bv8, b: bv8)
    ensures Crc(crc, [b]) == Shifted(Xor(crc, b))
  {
  }

  /** The bitwise form, kept to check the table against. */
  method CalcCRC8(data: seq<bv8>) returns (crc: bv8)
    ensures crc == Crc(0, data)
  {
    hide ShiftOnce, Shifted;
    crc := 0;
    for k := 0 to |data|
      invariant Crc(crc, data[k..]) == Crc(0, data)
    {
      ghost var mixed := Xor(crc, data[k]);
      assert data[k..][1..] == data[k + 1..];
      crc := crc ^ data[k];
      for i := 0 to 8
        invariant ShiftTimes(crc, 8 - i) == ShiftTimes(mixed, 8)
      {
        ghost var before := crc;
        if crc & 0x80 != 0 {
          crc := (crc << 1) ^ 0x07;
        } else {
          crc := crc << 1;
        }
        OneShift(before);
      }
      ShiftedIsEight(mixed);
    }
  }

  lemma OneShift(crc: bv8)
    ensures ShiftOnce(crc) == if crc & 0x80 != 0 then (crc << 1) ^ 0x07 else crc << 1
  {
  }

  /** The first byte on the bus: the address and the direction. */
  function AddressByte(addr: bv8, rdwr: bv8): bv8 {
    (addr << 1) + rdwr
  }

  /** The address stands in the seven upper bits, and a read sets the lowest. */
  lemma AddressIs(addr: bv8, rdwr: bv8)
    requires ValidCall(addr, rdwr)
    ensures AddressByte(addr, rdwr) as int == 2 * (addr as int) + rdwr as int
  {
  }

  predicate ValidCall(addr: bv8, rdwr: bv8) {
    rdwr <= READ && addr <= 0x7f
  }

  function CallError(rdwr: bv8): PecError {
    if rdwr > READ then BadRdwr else BadAddress
  }

  /** The table-driven form computes the bitwise CRC of the address byte and the data. */
  method CalcPEC(addr: bv8, rdwr: bv8, data: seq<bv8>) returns (r: Result<bv8>)
    ensures r == if ValidCall(addr, rdwr) then Ok(Crc(0, [AddressByte(addr, rdwr)] + data)) else Err(CallError(rdwr))
    ensures r.Ok? <==> rdwr <= 1 && addr <= 0x7f
    ensures r.Err? ==> r.error == if rdwr > 1 then BadRdwr else BadAddress
  {
    hide Shifted, Lookup;
    var crc: bv8 := 0;
    if rdwr > READ {
      return Err(BadRdwr);
    }
    if addr > 0x7f {
      return Err(BadAddress);
    }
    var mydata := [(addr << 1) + rdwr] + data;
    for k := 0 to |mydata|
      invariant Crc(crc, mydata[k..]) == Crc(0, mydata)
    {
      var index := crc ^ mydata[k];
      assert mydata[k..][1..] == mydata[k + 1..];
      TableIsDivision(index);
      crc := Lookup(index);
    }
    return Ok(crc);
  }

  method AppendPEC(addr: bv8, rdwr: bv8, data: seq<bv8>) returns (r: Result<seq<bv8>>)
    ensures r == if ValidCall(addr, rdwr) then Ok(WithPEC(addr, rdwr, data)) else Err(CallError(rdwr))
    ensures r.Ok? <==> rdwr <= 1 && addr <= 0x7f
    ensures r.Err? ==> r.error == if rdwr > 1 then BadRdwr else BadAddress
  {
    var pec := CalcPEC(addr, rdwr, data);
    match pec
    case Err(e) => return Err(e);
    case Ok(value) => return Ok(data + [value]);
  }

  function WithPEC(addr: bv8, rdwr: bv8, data: seq<bv8>): seq<bv8> {
    data + [Crc(0, [AddressByte(addr, rdwr)] + data)]
  }

  method CheckPEC(addr: bv8, rdwr: bv8, data: seq<bv8>) returns (r: Result<()>)
    ensures r == Verdict(addr, rdwr, data)
    ensures |data| < 2 ==> r == Err(TooSmall)
    ensures |data| >= 2 && rdwr > 1 ==> r == Err(BadRdwr)
    ensures |data| >= 2 && rdwr <= 1 && addr > 0x7f ==> r == Err(BadAddress)
    ensures |data| >= 2 && rdwr <= 1 && addr <= 0x7f ==> r == Ok(()) || r == Err(Mismatch)
  {
    if |data| < 2 {
      return Err(TooSmall);
    }
    var pec := CalcPEC(addr, rdwr, data[..|data| - 1]);
    match pec
    case Err(e) => return Err(e);
    case Ok(value) =>
      if value != data[|data| - 1] {
        return Err(Mismatch);
      }
      return Ok(());
  }

  function Verdict(addr: bv8, rdwr: bv8, frame: seq<bv8>): Result<()> {
    if |frame| < 2 then Err(TooSmall)
    else if !ValidCall(addr, rdwr) then Err(CallError(rdwr))
    else if Crc(0, [AddressByte(addr, rdwr)] + frame[..|frame| - 1]) != frame[|frame| - 1] then Err(Mismatch)
    else Ok(())
  }

  /** What is appended is accepted, unless there is no data: a lone code is too short. */
  lemma AppendedIsAccepted(addr: bv8, rdwr: bv8, data: seq<bv8>)
    requires ValidCall(addr, rdwr)
    ensures Verdict(addr, rdwr, WithPEC(addr, rdwr, data)).Ok? <==> data != []
  {
  }

  lemma ShiftedInjective(a: bv8, b: bv8)
    ensures Shifted(a) == Shifted(b) ==> a == b
  {
  }

  lemma ShiftedZero(a: bv8)
    ensures Shifted(a) == 0 <==> a == 0
  {
  }

  lemma XorCancels(a: bv8, b: bv8, c: bv8)
    ensures Xor(a, c) == Xor(b, c) <==> a == b
    ensures Xor(a, b) == 0 <==> a == b
  {
  }

  lemma {:induction false} CrcInjective(a: bv8, b: bv8, message: seq<bv8>)
    ensures Crc(a, message) == Crc(b, message) <==> a == b
    decreases |message|
  {
    hide Shifted, Xor;
    if message != [] {
      ShiftedInjective(Xor(a, message[0]), Xor(b, message[0]));
      XorCancels(a, b, message[0]);
      CrcInjective(Shifted(Xor(a, message[0])), Shifted(Xor(b, message[0])), message[1..]);
    }
  }

  /** A frame passes the check exactly when the CRC over all of it, its code included, is zero. */
  lemma AcceptedIsResidueZero(addr: bv8, rdwr: bv8, frame: seq<bv8>)
    requires ValidCall(addr, rdwr) && |frame| >= 2
    ensures Verdict(addr, rdwr, frame).Ok? <==> Crc(0, [AddressByte(addr, rdwr)] + frame) == 0
  {
    hide Crc, Shifted, Xor;
    var n := |frame| - 1;
    var body := [AddressByte(addr, rdwr)] + frame[..n];
    assert [AddressByte(addr, rdwr)] + frame == body + [frame[n]];
    CrcConcat(0, body, [frame[n]]);
    CrcOne(Crc(0, body), frame[n]);
    ShiftedZero(Xor(Crc(0, body), frame[n]));
    XorCancels(Crc(0, body), frame[n], 0);
  }

  lemma OnceLinearBoth(a: bv8, b: bv8)
    requires a & 0x80 != 0 && b & 0x80 != 0
    ensures ShiftOnce(Xor(a, b)) == Xor(ShiftOnce(a), ShiftOnce(b))
  {
  }

  lemma OnceLinearLeft(a: bv8, b: bv8)
    requires a & 0x80 != 0 && b & 0x80 == 0
    ensures ShiftOnce(Xor(a, b)) == Xor(ShiftOnce(a), ShiftOnce(b))
    ensures ShiftOnce(Xor(b, a)) == Xor(ShiftOnce(b), ShiftOnce(a))
  {
  }

  lemma OnceLinearNeither(a: bv8, b: bv8)
    requires a & 0x80 == 0 && b & 0x80 == 0
    ensures ShiftOnce(Xor(a, b)) == Xor(ShiftOnce(a), ShiftOnce(b))
  {
  }

  /** The division commutes with flipping bits. */
  lemma OnceLinear(a: bv8, b: bv8)
    ensures ShiftOnce(Xor(a, b)) == Xor(ShiftOnce(a), ShiftOnce(b))
  {
    hide ShiftOnce, Xor;
    if a & 0x80 != 0 {
      if b & 0x80 != 0 { OnceLinearBoth(a, b); } else { OnceLinearLeft(a, b); }
    } else {
      if b & 0x80 != 0 { OnceLinearLeft(b, a); } else { OnceLinearNeither(a, b); }
    }
  }

  lemma {:induction false} TimesLinear(a: bv8, b: bv8, n: nat)
    ensures ShiftTimes(Xor(a, b), n) == Xor(ShiftTimes(a, n), ShiftTimes(b, n))
    decreases n
  {
    hide ShiftOnce, Xor;
    if n > 0 {
      OnceLinear(a, b);
      TimesLinear(ShiftOnce(a), ShiftOnce(b), n - 1);
    }
  }

  lemma ShiftedLinear(a: bv8, b: bv8)
    ensures Shifted(Xor(a, b)) == Xor(Shifted(a), Shifted(b))
  {
    hide ShiftTimes, Shifted, Xor;
    ShiftedIsEight(a);
    ShiftedIsEight(b);
    ShiftedIsEight(Xor(a, b));
    TimesLinear(a, b, 8);
  }

  /** Two neighbouring bytes are hit by the errors d1 and d2, all within eight consecutive bits, of
      which s belong to the first byte. */
  predicate Burst(d1: bv8, d2: bv8, s: nat) {
    (d1 != 0 || d2 != 0) &&
    match s
    case 0 => d1 == 0
    case 1 => d1 & 0xfe == 0 && d2 & 0x01 == 0
    case 2 => d1 & 0xfc == 0 && d2 & 0x03 == 0
    case 3 => d1 & 0xf8 == 0 && d2 & 0x07 == 0
    case 4 => d1 & 0xf0 == 0 && d2 & 0x0f == 0
    case 5 => d1 & 0xe0 == 0 && d2 & 0x1f == 0
    case 6 => d1 & 0xc0 == 0 && d2 & 0x3f == 0
    case 7 => d1 & 0x80 == 0 && d2 & 0x7f == 0
    case 8 => d2 == 0
    case _ => false
  }

  /** Such a burst never cancels itself. */
  lemma BurstSurvives(d1: bv8, d2: bv8, s: nat)
    requires Burst(d1, d2, s)
    ensures Shifted(d1) != d2
  {
  }

  /** Bytes k and k + 1 of the frame changed by d1 and d2. */
  predicate Hit(frame: seq<bv8>, damaged: seq<bv8>, k: nat, d1: bv8, d2: bv8) {
    && k + 1 < |frame| == |damaged|
    && damaged == frame[k := Xor(frame[k], d1)][k + 1 := Xor(frame[k + 1], d2)]
  }

  lemma PairChanges(c: bv8, x: bv8, y: bv8, d1: bv8, d2: bv8)
    requires Shifted(d1) != d2
    ensures Crc(c, [Xor(x, d1), Xor(y, d2)]) != Crc(c, [x, y])
  {
    hide Shifted, Crc, Xor;
    CrcPair(c, x, y);
    CrcPair(c, Xor(x, d1), Xor(y, d2));
    XorMoves(c, x, d1);
    ShiftedLinear(Xor(c, x), d1);
    var p := Shifted(Xor(c, x));
    PairCancels(p, Shifted(d1), y, d2);
    ShiftedInjective(Xor(p, y), Xor(Xor(p, Shifted(d1)), Xor(y, d2)));
  }

  lemma CrcPair(c: bv8, x: bv8, y: bv8)
    ensures Crc(c, [x, y]) == Shifted(Xor(Shifted(Xor(c, x)), y))
  {
    hide Shifted, Xor;
    assert [x, y] == [x] + [y];
    CrcConcat(c, [x], [y]);
    CrcOne(c, x);
    CrcOne(Shifted(Xor(c, x)), y);
  }

  lemma XorMoves(c: bv8, x: bv8, d: bv8)
    ensures Xor(c, Xor(x, d)) == Xor(Xor(c, x), d)
  {
  }

  lemma PairCancels(p: bv8, q: bv8, y: bv8, d: bv8)
    ensures Xor(p, y) == Xor(Xor(p, q), Xor(y, d)) <==> q == d
  {
    hide Xor;
    Exchange(p, q, y, d);
    XorCancels(q, d, 0);
    Identity(Xor(p, y), Xor(q, d));
  }

  lemma Exchange(p: bv8, q: bv8, y: bv8, d: bv8)
    ensures Xor(Xor(p, q), Xor(y, d)) == Xor(Xor(p, y), Xor(q, d))
  {
    hide Xor;
    XorMoves(Xor(p, q), y, d);
    XorMoves(p, q, y);
    XorMoves(p, y, q);
    XorMoves(Xor(p, y), q, d);
    Commutes(q, y);
  }

  lemma Commutes(a: bv8, b: bv8)
    ensures Xor(a, b) == Xor(b, a)
  {
  }

  lemma Identity(a: bv8, b: bv8)
    ensures Xor(a, b) == a <==> b == 0
  {
  }

  /** A burst anywhere in the frame, its code included, is always noticed: the damaged frame of an
      accepted one is refused. */
  lemma BurstsAreCaught(addr: bv8, rdwr: bv8, frame: seq<bv8>, damaged: seq<bv8>, k: nat, d1: bv8, d2: bv8, s: nat)
    requires Verdict(addr, rdwr, frame).Ok?
    requires Hit(frame, damaged, k, d1, d2) && Burst(d1, d2, s)
    ensures Verdict(addr, rdwr, damaged) == Err(Mismatch)
  {
    hide Crc, Shifted, Burst, Xor;
    var h, x, y := AddressByte(addr, rdwr), frame[k], frame[k + 1];
    hide AddressByte;
    BurstSurvives(d1, d2, s);
    ResidueOfPair(h, frame, k);
    ResidueOfPair(h, damaged, k);
    assert damaged[..k] == frame[..k] && damaged[k + 2..] == frame[k + 2..];
    var c := Crc(0, [h] + frame[..k]);
    PairChanges(c, x, y, d1, d2);
    CrcInjective(Crc(c, [x, y]), Crc(c, [Xor(x, d1), Xor(y, d2)]), frame[k + 2..]);
    AcceptedIsResidueZero(addr, rdwr, frame);
    AcceptedIsResidueZero(addr, rdwr, damaged);
  }

  lemma ResidueOfPair(h: bv8, frame: seq<bv8>, k: nat)
    requires k + 1 < |frame|
    ensures Crc(0, [h] + frame) == Crc(Crc(Crc(0, [h] + frame[..k]), [frame[k], frame[k + 1]]), frame[k + 2..])
  {
    hide Crc;
    assert [h] + frame == ([h] + frame[..k]) + [frame[k], frame[k + 1]] + frame[k + 2..];
    SplitCrc([h] + frame[..k], [frame[k], frame[k + 1]], frame[k + 2..]);
  }

  lemma SplitCrc(a: seq<bv8>, b: seq<bv8>, c: seq<bv8>)
    ensures Crc(0, a + b + c) == Crc(Crc(Crc(0, a), b), c)
  {
    hide Crc;
    CrcConcat(0, a + b, c);
    CrcConcat(0, a, b);
  }

  /** In particular one wrong byte, wherever it is and whatever it became. */
  lemma OneByteIsCaught(addr: bv8, rdwr: bv8, frame: seq<bv8>, k: nat, wrong: bv8)
    requires Verdict(addr, rdwr, frame).Ok?
    requires k < |frame| && wrong != frame[k]
    ensures Verdict(addr, rdwr, frame[k := wrong]) == Err(Mismatch)
  {
    hide Verdict, Xor;
    var damaged, d := frame[k := wrong], Xor(frame[k], wrong);
    Mends(frame[k], wrong);
    assert |frame| >= 2 by { AtLeastTwo(addr, rdwr, frame); }
    if k + 1 < |frame| {
      Mends(frame[k + 1], 0);
      BurstsAreCaught(addr, rdwr, frame, damaged, k, d, 0, 8);
    } else {
      Mends(frame[k - 1], 0);
      BurstsAreCaught(addr, rdwr, frame, damaged, k - 1, 0, d, 0);
    }
  }

  lemma AtLeastTwo(addr: bv8, rdwr: bv8, frame: seq<bv8>)
    requires Verdict(addr, rdwr, frame).Ok?
    ensures |frame| >= 2
  {
  }

  lemma Mends(a: bv8, b: bv8)
    ensures Xor(a, Xor(a, b)) == b && (Xor(a, b) == 0 <==> a == b)
    ensures Xor(a, 0) == a
  {
  }
}
