/** Hexadecimal text: encoding, decoding, and the swaps between byte orders. */
module HexText {
  import opened Bytes

  const HEX_DIGITS: string := "0123456789abcdef"

  /** The value of a hex digit of either case, or 16. */
  function Nibble(c: char): (n: nat)
    ensures n <= 16
  {
    if '0' <= c <= '9' then c as int - '0' as int
    else if 'a' <= c <= 'f' then c as int - 'a' as int + 10
    else if 'A' <= c <= 'F' then c as int - 'A' as int + 10
    else 16
  }

  predicate IsHex(s: string) {
    |s| % 2 == 0 && forall c :: c in s ==> Nibble(c) < 16
  }

  function EncodeHex(b: seq<byte>): (s: string)
    ensures |s| == 2 * |b|
  {
    if b == [] then "" else [HEX_DIGITS[b[0] / 16], HEX_DIGITS[b[0] % 16]] + EncodeHex(b[1..])
  }

  /** The bytes up to the first fault, as the library returns them. */
  function DecodeHex(s: string): (b: seq<byte>)
    ensures 2 * |b| <= |s|
    ensures IsHex(s) ==> 2 * |b| == |s|
    decreases |s|
  {
    if |s| < 2 || Nibble(s[0]) == 16 || Nibble(s[1]) == 16 then []
    else [16 * Nibble(s[0]) + Nibble(s[1])] + DecodeHex(s[2..])
  }

  lemma {:induction false} HexInverse(b: seq<byte>)
    ensures IsHex(EncodeHex(b)) && DecodeHex(EncodeHex(b)) == b
  {
    if b != [] {
      var hi, lo := b[0] / 16, b[0] % 16;
      DigitValue(hi);
      DigitValue(lo);
      HexInverse(b[1..]);
      var s := EncodeHex(b);
      assert s[2..] == EncodeHex(b[1..]);
      assert b == [b[0]] + b[1..];
    }
  }

  lemma DigitValue(n: nat)
    requires n < 16
    ensures Nibble(HEX_DIGITS[n]) == n
  {
  }

  lemma {:induction false} DecodeConcat(a: string, b: string)
    requires IsHex(a)
    ensures DecodeHex(a + b) == DecodeHex(a) + DecodeHex(b)
    decreases |a|
  {
    hide Nibble;
    if a == "" {
      assert a + b == b;
    } else {
      assert a[0] in a && a[1] in a;
      assert (a + b)[2..] == a[2..] + b;
      assert forall c :: c in a[2..] ==> c in a;
      DecodeConcat(a[2..], b);
    }
  }

  lemma HexConcat(a: string, b: string)
    requires IsHex(a) && IsHex(b)
    ensures IsHex(a + b)
  {
  }

  lemma HexParts(s: string, n: nat)
    requires IsHex(s) && n <= |s| && n % 2 == 0
    ensures IsHex(s[..n]) && IsHex(s[n..])
  {
  }

  /** Bytes 4i to 4i+3 of the result are bytes 4i to 4i+3 of b in reverse order. */
  function SwapWords(b: seq<byte>): (r: seq<byte>)
    ensures |r| == |b| / 4 * 4
    decreases |b|
  {
    if |b| < 4 then [] else [b[3], b[2], b[1], b[0]] + SwapWords(b[4..])
  }

  /** Eight hex digits with their byte pairs in reverse order. */
  function SwapWord(w: string): (r: string)
    requires |w| == 8
    ensures |r| == 8
  {
    [w[6], w[7], w[4], w[5], w[2], w[3], w[0], w[1]]
  }

  function SwapText(s: string): (r: string)
    ensures |r| == |s| / 8 * 8
    decreases |s|
  {
    if |s| < 8 then "" else SwapWord(s[..8]) + SwapText(s[8..])
  }

  /** Digit by digit into a buffer of the same length; what is not part of a whole word stays 0. */
  method SwapBytes(s: string) returns (out: string)
    ensures out == SwapText(s) + seq(|s| % 8, _ => '\0')
  {
    out := seq(|s|, _ => '\0');
    var n := |s| / 2 / 4;
    for i := 0 to n
      invariant |out| == |s| && 8 * n <= |s|
      invariant out[..8 * i] + SwapText(s[8 * i..]) == SwapText(s)
      invariant forall k :: 8 * i <= k < |s| ==> out[k] == '\0'
    {
      var old_out := out;
      out := PlaceWord(out, s, i);
      WordDone(old_out[..8 * i], s, i);
    }
    assert out == out[..8 * n] + seq(|s| % 8, _ => '\0');
    assert SwapText(s[8 * n..]) == "";
  }

  method PlaceWord(out: string, s: string, i: nat) returns (r: string)
    requires |out| == |s| && 8 * i + 8 <= |s|
    ensures |r| == |s|
    ensures r[..8 * (i + 1)] == out[..8 * i] + SwapWord(s[8 * i..8 * i + 8])
    ensures forall k :: 8 * (i + 1) <= k < |s| ==> r[k] == out[k]
  {
    var o := 8 * i;
    r := out[o := s[o + 6]][o + 1 := s[o + 7]];
    r := r[o + 2 := s[o + 4]][o + 3 := s[o + 5]];
    r := r[o + 4 := s[o + 2]][o + 5 := s[o + 3]];
    r := r[o + 6 := s[o]][o + 7 := s[o + 1]];
  }

  lemma WordDone(before: string, s: string, i: nat)
    requires 8 * i + 8 <= |s|
    ensures before + SwapWord(s[8 * i..8 * i + 8]) + SwapText(s[8 * (i + 1)..]) == before + SwapText(s[8 * i..])
  {
  }

  lemma SwapWordDecodes(w: string)
    requires |w| == 8 && IsHex(w)
    ensures IsHex(SwapWord(w)) && DecodeHex(w) == DecodeHex(w)[..4]
    ensures DecodeHex(SwapWord(w)) == Reverse(DecodeHex(w))
  {
    hide DecodeHex, Nibble;
    assert forall i :: 0 <= i < 8 ==> w[i] in w;
    assert forall c :: c in SwapWord(w) ==> c in w;
    DecodeWord(w);
    DecodeWord(SwapWord(w));
  }

  lemma SwapWordsFront(d: seq<byte>, e: seq<byte>)
    requires |d| == 4
    ensures SwapWords(d + e) == Reverse(d) + SwapWords(e)
  {
  }

  /** Swapping the text of whole words swaps the bytes it writes. */
  lemma {:induction false} SwapDecodes(s: string)
    requires IsHex(s) && |s| % 8 == 0
    ensures IsHex(SwapText(s)) && DecodeHex(SwapText(s)) == SwapWords(DecodeHex(s))
    decreases |s|
  {
    if s != "" {
      var head, tail := s[..8], s[8..];
      hide IsHex, DecodeHex, SwapWord, SwapWords;
      assert s == head + tail;
      HexParts(s, 8);
      SwapDecodes(tail);
      SwapWordDecodes(head);
      DecodeConcat(head, tail);
      DecodeConcat(SwapWord(head), SwapText(tail));
      HexConcat(SwapWord(head), SwapText(tail));
      SwapWordsFront(DecodeHex(head), DecodeHex(tail));
    }
  }

  lemma DecodeTwo(s: string)
    requires |s| >= 2 && IsHex(s)
    ensures IsHex(s[2..]) && DecodeHex(s) == [16 * Nibble(s[0]) + Nibble(s[1])] + DecodeHex(s[2..])
  {
  }

  lemma DecodeWord(s: string)
    requires |s| == 8 && IsHex(s)
    ensures DecodeHex(s) == [16 * Nibble(s[0]) + Nibble(s[1]), 16 * Nibble(s[2]) + Nibble(s[3]),
                             16 * Nibble(s[4]) + Nibble(s[5]), 16 * Nibble(s[6]) + Nibble(s[7])]
  {
    DecodeTwo(s);
    DecodeTwo(s[2..]);
    DecodeTwo(s[4..]);
    DecodeTwo(s[6..]);
    hide Nibble, IsHex, DecodeHex;
    assert s[2..][2..] == s[4..] && s[4..][2..] == s[6..] && s[6..][2..] == "";
    assert DecodeHex("") == [] by { DecodeNothing(); }
  }

  lemma DecodeNothing()
    ensures DecodeHex("") == []
  {
  }

  /** The number in the first eight hex digits, most significant first; 0 for text that is not hex
      or empty. On two to six digits the program fails. */
  function BEHexToUint32(s: string): uint32
    requires !IsHex(s) || s == "" || |s| >= 8
  {
    if !IsHex(s) || s == "" then 0
    else
      Pow256Word();
      BigEndian(DecodeHex(s)[..4])
  }

  /** Text that is no hex, or none at all, counts as 0; of more than eight digits the first eight count. */
  lemma WordOfText(s: string)
    ensures !IsHex(s) || s == "" ==> BEHexToUint32(s) == 0
    ensures IsHex(s) && |s| >= 8 ==>
              |DecodeHex(s)| >= 4
              && var b := DecodeHex(s);
                 BEHexToUint32(s) == ((b[0] as int * 0x100 + b[1] as int) * 0x100 + b[2] as int) * 0x100 + b[3] as int
  {
    if IsHex(s) && |s| >= 8 {
      FourBytes(DecodeHex(s)[..4]);
    }
  }

  lemma FourBytes(b: seq<byte>)
    requires |b| == 4
    ensures BigEndian(b) == ((b[0] as int * 0x100 + b[1] as int) * 0x100 + b[2] as int) * 0x100 + b[3] as int
  {
    var r := Reverse(b);
    assert LittleEndian(r) == r[0] + 0x100 * LittleEndian(r[1..]);
    assert LittleEndian(r[1..]) == r[1] + 0x100 * LittleEndian(r[2..]);
    assert LittleEndian(r[2..]) == r[2] + 0x100 * LittleEndian(r[3..]);
    assert LittleEndian(r[3..]) == r[3];
  }

  /** The format %08x of a 32-bit number. */
  function Format08x(v: uint32): (s: string)
    ensures |s| == 8
  {
    EncodeHex(Reverse(PutUint32(v)))
  }

  lemma ReverseTwice<T>(s: seq<T>)
    ensures Reverse(Reverse(s)) == s
  {
  }

  lemma FormatReads(v: uint32)
    ensures IsHex(Format08x(v)) && BEHexToUint32(Format08x(v)) == v
  {
    var b := Reverse(PutUint32(v));
    HexInverse(b);
    assert b[..4] == b;
    ReverseTwice(PutUint32(v));
    Uint32Inverse(v, PutUint32(v));
  }

  /** The swapped text of a number is its little-endian encoding. */
  lemma SwapIsLittleEndian(s: string)
    requires |s| == 8 && IsHex(s)
    ensures IsHex(SwapText(s)) && DecodeHex(SwapText(s)) == PutUint32(BEHexToUint32(s))
  {
    var b := DecodeHex(s);
    SwapDecodes(s);
    SwapWordsFront(b, []);
    assert b + [] == b && b[..4] == b;
    hide DecodeHex, SwapText, IsHex;
    Uint32Inverse(0, Reverse(b));
  }

  // Numbers of any width

  /** The format %x. */
  function HexNumber(x: nat): (s: string)
    ensures |s| >= 1
  {
    if x < 16 then [HEX_DIGITS[x]] else HexNumber(x / 16) + [HEX_DIGITS[x % 16]]
  }

  function PadLeft(s: string, width: nat): (p: string)
    ensures |p| == if |s| < width then width else |s|
  {
    if |s| >= width then s else seq(width - |s|, _ => '0') + s
  }

  /** The number in nBytes bytes of hex text: padded with zeros, or cut to its last digits. */
  function HexStringFromNumber(nBytes: int, x: nat): string {
    if nBytes <= 0 then "00"
    else
      var b := PadLeft(HexNumber(x), 2 * nBytes);
      if |b| > 2 * nBytes then b[|b| - 2 * nBytes..] else b
  }

  function Digits(x: nat, m: nat): (s: string)
    ensures |s| == m
    decreases m
  {
    if m == 0 then "" else Digits(x / 16, m - 1) + [HEX_DIGITS[x % 16]]
  }

  function Last(s: string, m: nat): string
    requires m <= |s|
  {
    s[|s| - m..]
  }

  lemma PadAppend(s: string, d: char, m: nat)
    requires m >= 1
    ensures PadLeft(s + [d], m) == PadLeft(s, m - 1) + [d]
    ensures Last(PadLeft(s + [d], m), m) == Last(PadLeft(s, m - 1), m - 1) + [d]
  {
  }

  lemma SmallDigits(x: nat, m: nat)
    requires x < 16 && m >= 1
    ensures Last(PadLeft(HexNumber(x), m), m) == Digits(x, m)
  {
    ZeroDigits(m - 1);
    assert Last(PadLeft([HEX_DIGITS[x]], m), m) == seq(m - 1, _ => '0') + [HEX_DIGITS[x]];
    assert x / 16 == 0 && x % 16 == x;
  }

  /** The last m digits of the padded number. */
  lemma DigitsStep(x: nat, m: nat)
    ensures m > 0 ==> Digits(x, m) == Digits(x / 16, m - 1) + [HEX_DIGITS[x % 16]]
    ensures m == 0 ==> Digits(x, m) == ""
    ensures x >= 16 ==> HexNumber(x) == HexNumber(x / 16) + [HEX_DIGITS[x % 16]]
  {
  }

  lemma NoDigits(s: string)
    ensures Last(PadLeft(s, 0), 0) == ""
  {
  }

  lemma {:induction false} LastDigits(x: nat, m: nat)
    ensures Last(PadLeft(HexNumber(x), m), m) == Digits(x, m)
    decreases m
  {
    hide PadLeft, Last, Digits, HexNumber;
    DigitsStep(x, m);
    if m == 0 {
      NoDigits(HexNumber(x));
    } else if x < 16 {
      SmallDigits(x, m);
    } else {
      LastDigits(x / 16, m - 1);
      PadAppend(HexNumber(x / 16), HEX_DIGITS[x % 16], m);
    }
  }

  lemma {:induction false} ZeroDigits(m: nat)
    ensures Digits(0, m) == seq(m, _ => '0')
    decreases m
  {
    if m > 0 {
      ZeroDigits(m - 1);
    }
  }

  lemma {:induction false} EncodeConcat(a: seq<byte>, b: seq<byte>)
    ensures EncodeHex(a + b) == EncodeHex(a) + EncodeHex(b)
  {
    if a == [] {
      assert a + b == b;
    } else {
      assert (a + b)[1..] == a[1..] + b;
      EncodeConcat(a[1..], b);
    }
  }

  lemma ByteLast(rest: seq<byte>, low: byte)
    ensures EncodeHex(Reverse([low] + rest)) == EncodeHex(Reverse(rest)) + [HEX_DIGITS[low / 16], HEX_DIGITS[low % 16]]
  {
    assert Reverse([low] + rest) == Reverse(rest) + [low];
    EncodeConcat(Reverse(rest), [low]);
    assert EncodeHex([low]) == [HEX_DIGITS[low / 16], HEX_DIGITS[low % 16]];
  }

  lemma {:induction false} DigitsAreBytes(x: nat, n: nat)
    ensures Digits(x, 2 * n) == EncodeHex(Reverse(PutLittleEndian(x, n)))
    decreases n
  {
    if n > 0 {
      hide EncodeHex, Digits, Reverse;
      DigitsAreBytes(x / 0x100, n - 1);
      ByteLast(PutLittleEndian(x / 0x100, n - 1), x % 0x100);
      TwoDigits(x, 2 * n);
    }
  }

  lemma TwoDigits(x: nat, m: nat)
    requires m >= 2
    ensures Digits(x, m) == Digits(x / 0x100, m - 2) + [HEX_DIGITS[x % 0x100 / 16], HEX_DIGITS[x % 0x100 % 16]]
  {
    assert x / 16 / 16 == x / 0x100 && x / 16 % 16 == x % 0x100 / 16 && x % 16 == x % 0x100 % 16;
    assert Digits(x / 16, m - 1) == Digits(x / 16 / 16, m - 2) + [HEX_DIGITS[x / 16 % 16]];
  }

  /** A length that is none gives one zero byte. */
  lemma NoBytes(nBytes: int, x: nat)
    requires nBytes <= 0
    ensures HexStringFromNumber(nBytes, x) == "00"
  {
  }

  /** The text is exactly nBytes bytes long and writes the number, most significant byte first;
      higher bytes of a number that does not fit are dropped. */
  lemma NumberText(nBytes: int, x: nat)
    requires nBytes > 0
    ensures var s := HexStringFromNumber(nBytes, x);
            IsHex(s) && |s| == 2 * nBytes && DecodeHex(s) == Reverse(PutLittleEndian(x, nBytes))
  {
    CutIsLast(nBytes, x);
    LastDigits(x, 2 * nBytes);
    hide HexStringFromNumber, PadLeft, HexNumber, Last, Digits;
    DigitsAreBytes(x, nBytes);
    HexInverse(Reverse(PutLittleEndian(x, nBytes)));
  }

  lemma CutIsLast(nBytes: int, x: nat)
    requires nBytes > 0
    ensures HexStringFromNumber(nBytes, x) == Last(PadLeft(HexNumber(x), 2 * nBytes), 2 * nBytes)
  {
  }
}
