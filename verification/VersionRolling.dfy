/** Version rolling: the version numbers are split among the chips in ranges that must not overlap. */
module VersionRolling {
  import opened Bytes
  import opened Powers

  const U32 := 0x1_0000_0000
  const WORD_BITS := 32
  const DEFAULT_SHIFT: nat := 13

  function TrailingZeros(x: uint32): (n: nat)
    ensures x != 0 ==> n < WORD_BITS && Pow2(n) <= x && x % Pow2(n) == 0 && (x / Pow2(n)) % 2 == 1
    ensures x == 0 ==> n == WORD_BITS
  {
    if x == 0 then WORD_BITS
    else if x % 2 == 1 then 0
    else
      var n := TrailingZeros(x / 2);
      HalfTrailing(x, n);
      WordPower(x, n + 1);
      n + 1
  }

  lemma HalfTrailing(x: nat, n: nat)
    requires x % 2 == 0 && x > 0 && n < WORD_BITS
    requires Pow2(n) <= x / 2 && (x / 2) % Pow2(n) == 0 && (x / 2 / Pow2(n)) % 2 == 1
    ensures Pow2(n + 1) <= x && x % Pow2(n + 1) == 0 && (x / Pow2(n + 1)) % 2 == 1
  {
    var p, q := Pow2(n), x / 2 / Pow2(n);
    assert x / 2 == p * q;
    assert x == (2 * p) * q;
    Multiple(2 * p, q);
  }

  lemma Multiple(p: nat, q: nat)
    requires p > 0
    ensures (p * q) / p == q && (p * q) % p == 0
  {
    var d, m := (p * q) / p, (p * q) % p;
    assert p * (q - d) == m;
    assert q - d >= 1 ==> p * (q - d) >= p;
    assert q - d <= -1 ==> p * (q - d) <= 0 - p;
  }

  function LeadingZeros(x: uint32): (n: nat)
    ensures n <= WORD_BITS
  {
    if x == 0 then WORD_BITS
    else
      WordLog(x);
      WORD_BITS - 1 - FloorLog2(x)
  }

  lemma WordLog(x: uint32)
    requires x != 0
    ensures FloorLog2(x) < WORD_BITS
  {
    WordPower(x, FloorLog2(x));
  }

  lemma WordPower(x: uint32, n: nat)
    requires Pow2(n) <= x
    ensures n < WORD_BITS
  {
    hide Pow2;
    Pow2Small();
    if n >= WORD_BITS {
      Pow2Monotonic(32, n);
    }
  }

  /** The shift and the upper limit chosen for a version mask; the limit is cut to 32 bits. */
  datatype Window = Window(shift: nat, upper: uint32)

  function WindowOf(mask: uint32, asicNum: nat): Window {
    if TrailingZeros(mask) < WORD_BITS then
      Window(TrailingZeros(mask), Pow2(Span(mask)) % U32)
    else Window(DEFAULT_SHIFT, (4 * asicNum) % U32)
  }

  /** The width of a mask, from its lowest to its highest bit. */
  function Span(mask: uint32): (w: nat)
    ensures mask == 0 ==> w == 0
  {
    if mask == 0 then 0
    else
      ZerosFit(mask);
      WORD_BITS - TrailingZeros(mask) - LeadingZeros(mask)
  }

  lemma ZerosFit(mask: uint32)
    requires mask != 0
    ensures TrailingZeros(mask) <= FloorLog2(mask) < WORD_BITS
  {
    WordLog(mask);
    var t, e := TrailingZeros(mask), FloorLog2(mask);
    if t > e {
      Pow2Monotonic(e + 1, t);
    }
  }

  lemma SpanIs(mask: uint32)
    requires mask != 0
    ensures TrailingZeros(mask) + LeadingZeros(mask) <= WORD_BITS
    ensures Span(mask) == WORD_BITS - TrailingZeros(mask) - LeadingZeros(mask)
  {
  }

  /** Every version below 2^span, shifted, stays at or below the highest bit of the mask. */
  lemma SpanFits(mask: uint32, version: nat)
    requires mask != 0 && version < Pow2(Span(mask))
    ensures version * Pow2(TrailingZeros(mask)) < Pow2(FloorLog2(mask) + 1)
  {
    hide Pow2, TrailingZeros, FloorLog2;
    ZerosFit(mask);
    var t, w := TrailingZeros(mask), Span(mask);
    Pow2Add(w, t);
    Scale(version, Pow2(w), Pow2(t));
    assert w + t == FloorLog2(mask) + 1;
  }

  lemma Scale(a: nat, b: nat, c: nat)
    requires a < b && c > 0
    ensures a * c < b * c
  {
  }

  function RoundUp4(x: nat): (r: nat)
    ensures r % 4 == 0 && x <= r < x + 4
  {
    (x + 3) / 4 * 4
  }

  /** The width of each chip's range, a multiple of 4; 32-bit arithmetic throughout. */
  function Width(lower: uint32, upper: uint32, n: nat): nat
    requires n > 0
  {
    var window := ((upper - lower + 1) % U32) / n;
    if window < 4 then 0 else window / 4 * 4
  }

  function MinOf(lower: uint32, width: nat, i: nat): uint32 {
    (lower + width * i) % U32
  }

  function MaxOf(lower: uint32, width: nat, i: nat): uint32 {
    (MinOf(lower, width, i) + width - 1) % U32
  }

  function Packed(max: uint32, min: uint32): uint32 {
    ((max * 0x1_0000) % U32 + min) % U32
  }

  /** The range a chip reads from its register: the upper and the lower half. */
  function Decoded(reg: uint32): (uint32, uint32) {
    (reg / 0x1_0000, reg % 0x1_0000)
  }

  /** Every chip reads back its own range, within the limits and aligned, and no two ranges meet. */
  predicate Disjoint(lower: uint32, upper: uint32, n: nat)
    requires n > 0
  {
    var width := Width(lower, upper, n);
    && (forall i :: 0 <= i < n ==> GoodRange(lower, upper, width, i))
    && forall i, j :: 0 <= i < j < n ==> MaxOf(lower, width, i) < MinOf(lower, width, j)
  }

  predicate GoodRange(lower: uint32, upper: uint32, width: nat, i: nat) {
    var min, max := MinOf(lower, width, i), MaxOf(lower, width, i);
    lower <= min <= max <= upper && min % 4 == 0 && Decoded(Packed(max, min)) == (max, min)
  }

  lemma PackedDecodes(max: uint32, min: uint32)
    ensures max < 0x1_0000 && min < 0x1_0000 ==> Decoded(Packed(max, min)) == (max, min)
    ensures Decoded(Packed(max, min)) == (max, min) ==> max < 0x1_0000
  {
  }

  lemma RangeOf(lower: uint32, upper: uint32, n: nat, i: nat)
    requires n > 0 && lower <= upper && i < n && Width(lower, upper, n) >= 4
    ensures var width := Width(lower, upper, n);
            && width * (i + 1) <= width * n <= upper - lower + 1
            && MinOf(lower, width, i) == lower + width * i
            && MaxOf(lower, width, i) == lower + width * (i + 1) - 1
  {
    var width := Width(lower, upper, n);
    WidthFits(lower, upper, n);
    hide Width;
    Products(width, i, n);
  }

  lemma WidthFits(lower: uint32, upper: uint32, n: nat)
    requires n > 0 && lower <= upper
    ensures Width(lower, upper, n) * n <= upper - lower + 1
  {
    var all, width := (upper - lower + 1) % U32, Width(lower, upper, n);
    DivisionBelow(all, n);
    assert width <= all / n;
    Times(width, all / n, n);
  }

  lemma DivisionBelow(x: nat, n: nat)
    requires n > 0
    ensures x / n * n <= x
  {
  }

  lemma Products(width: nat, i: nat, n: nat)
    requires i < n
    ensures width * i + width == width * (i + 1) <= width * n
  {
    Times(i + 1, n, width);
  }

  /** The split is sound if and only if each chip gets at least four versions and the last range
      ends below 2^16, where the halves of the register end. */
  lemma DisjointExactly(lower: uint32, upper: uint32, n: nat)
    requires n > 0 && lower <= upper && lower % 4 == 0
    ensures Disjoint(lower, upper, n) <==>
            Width(lower, upper, n) >= 4 && lower + Width(lower, upper, n) * n <= 0x1_0000
  {
    var width := Width(lower, upper, n);
    if width >= 4 && lower + width * n <= 0x1_0000 {
      SplitIsDisjoint(lower, upper, n);
    }
    if Disjoint(lower, upper, n) {
      assert GoodRange(lower, upper, width, 0) && GoodRange(lower, upper, width, n - 1);
      if width < 4 {
        NarrowFails(lower, upper);
      } else {
        RangeOf(lower, upper, n, n - 1);
        PackedDecodes(MaxOf(lower, width, n - 1), MinOf(lower, width, n - 1));
      }
    }
  }

  lemma NarrowFails(lower: uint32, upper: uint32)
    ensures !GoodRange(lower, upper, 0, 0)
  {
  }

  lemma SplitIsDisjoint(lower: uint32, upper: uint32, n: nat)
    requires n > 0 && lower <= upper && lower % 4 == 0
    requires Width(lower, upper, n) >= 4 && lower + Width(lower, upper, n) * n <= 0x1_0000
    ensures Disjoint(lower, upper, n)
  {
    hide MinOf, MaxOf, GoodRange, Width;
    var width := Width(lower, upper, n);
    forall i | 0 <= i < n ensures GoodRange(lower, upper, width, i) {
      RangeIsGood(lower, upper, n, i);
    }
    forall i, j | 0 <= i < j < n ensures MaxOf(lower, width, i) < MinOf(lower, width, j) {
      RangesApart(lower, upper, n, i, j);
    }
  }

  lemma RangeIsGood(lower: uint32, upper: uint32, n: nat, i: nat)
    requires i < n && lower <= upper && lower % 4 == 0
    requires Width(lower, upper, n) >= 4 && lower + Width(lower, upper, n) * n <= 0x1_0000
    ensures GoodRange(lower, upper, Width(lower, upper, n), i)
  {
    hide MinOf, MaxOf, Packed, Decoded, Width;
    var width := Width(lower, upper, n);
    RangeOf(lower, upper, n, i);
    WidthAligned(lower, upper, n, i);
    Products(width, i, n);
    SumAligned(lower, width * i);
    PackedDecodes(MaxOf(lower, width, i), MinOf(lower, width, i));
  }

  lemma SumAligned(a: nat, b: nat)
    requires a % 4 == 0 && b % 4 == 0
    ensures (a + b) % 4 == 0
  {
  }

  lemma RangesApart(lower: uint32, upper: uint32, n: nat, i: nat, j: nat)
    requires i < j < n && lower <= upper && Width(lower, upper, n) >= 4
    ensures MaxOf(lower, Width(lower, upper, n), i) < MinOf(lower, Width(lower, upper, n), j)
  {
    hide MinOf, MaxOf, Width;
    RangeOf(lower, upper, n, i);
    RangeOf(lower, upper, n, j);
    assert Width(lower, upper, n) * (i + 1) <= Width(lower, upper, n) * j;
  }

  lemma WidthAligned(lower: uint32, upper: uint32, n: nat, i: nat)
    requires n > 0
    ensures (Width(lower, upper, n) * i) % 4 == 0 && Width(lower, upper, n) % 4 == 0
  {
    var q := Width(lower, upper, n) / 4;
    assert Width(lower, upper, n) == 4 * q;
    assert Width(lower, upper, n) * i == 4 * (q * i);
  }

  /** For a mask of 2 to 16 bits the split is sound exactly when there are at least four versions
      for each chip, and then no chip reaches 2^w. */
  lemma MaskSplit(mask: uint32, asicNum: nat, n: nat)
    requires 2 <= Span(mask) <= 16 && n > 0
    ensures var upper := WindowOf(mask, asicNum).upper;
            && upper == Pow2(Span(mask))
            && (Disjoint(0, upper, n) <==> (upper + 1) / n >= 4)
            && (Disjoint(0, upper, n) ==> forall i :: 0 <= i < n ==> MaxOf(0, Width(0, upper, n), i) < upper)
  {
    PowerOfSpan(mask, asicNum);
    PowerSplit(WindowOf(mask, asicNum).upper, n);
  }

  lemma PowerSplit(upper: uint32, n: nat)
    requires n > 0 && upper % 4 == 0 && upper <= 0x1_0000
    ensures Disjoint(0, upper, n) <==> (upper + 1) / n >= 4
    ensures Disjoint(0, upper, n) ==> forall i :: 0 <= i < n ==> MaxOf(0, Width(0, upper, n), i) < upper
  {
    hide Disjoint, MaxOf;
    var width := Width(0, upper, n);
    DisjointExactly(0, upper, n);
    WidthOf(upper, n);
    if width >= 4 {
      EndsInside(upper, n);
      forall i | 0 <= i < n ensures MaxOf(0, width, i) < upper {
        RangeOf(0, upper, n, i);
      }
    }
  }

  lemma WidthOf(upper: uint32, n: nat)
    requires n > 0 && upper < U32 - 1
    ensures Width(0, upper, n) >= 4 <==> (upper + 1) / n >= 4
  {
  }

  lemma PowerOfSpan(mask: uint32, asicNum: nat)
    requires 2 <= Span(mask) <= 16
    ensures var upper := WindowOf(mask, asicNum).upper;
            upper == Pow2(Span(mask)) && upper % 4 == 0 && 4 <= upper <= 0x1_0000
  {
    hide Pow2, TrailingZeros, LeadingZeros;
    var w := Span(mask);
    PowerOfTwoTo16(w);
  }

  lemma PowerOfTwoTo16(w: nat)
    requires 2 <= w <= 16
    ensures Pow2(w) % 4 == 0 && 4 <= Pow2(w) <= 0x1_0000
  {
    TwoIsFour();
    hide Pow2;
    Pow2Add(2, w - 2);
    Pow2Monotonic(2, w);
    Pow2Monotonic(w, 16);
    Pow2Small();
  }

  lemma TwoIsFour()
    ensures Pow2(2) == 4
  {
  }

  /** The limit counts one version too many, but whole fours never use it. */
  lemma EndsInside(upper: uint32, n: nat)
    requires n > 0 && upper % 4 == 0 && Width(0, upper, n) >= 4
    ensures Width(0, upper, n) * n <= upper
  {
    RangeOf(0, upper, n, n - 1);
    WidthAligned(0, upper, n, n);
    hide Width, MinOf, MaxOf;
    WholeFours(Width(0, upper, n) * n, upper);
  }

  lemma WholeFours(a: nat, b: nat)
    requires a % 4 == 0 && b % 4 == 0 && a <= b + 1
    ensures a <= b
  {
  }

  /** Too many chips for the mask: every chip gets the same range, 0 to 0xffff. */
  lemma NarrowSharesAll(upper: uint32, n: nat, i: nat)
    requires n > 0 && Width(0, upper, n) < 4
    ensures var width := Width(0, upper, n);
            Decoded(Packed(MaxOf(0, width, i), MinOf(0, width, i))) == (0xffff, 0)
  {
  }

  /** Without a mask there are four versions for each expected chip, enough for those detected. */
  lemma NoMaskSplit(asicNum: nat, n: nat)
    requires 0 < n <= asicNum <= 0x4000
    ensures WindowOf(0, asicNum).shift == DEFAULT_SHIFT && Disjoint(0, WindowOf(0, asicNum).upper, n)
  {
    hide Disjoint, Width;
    var upper: uint32 := 4 * asicNum;
    assert (upper + 1) / n >= 4 by {
      Fours(upper + 1, n);
    }
    PowerSplit(upper, n);
  }

  lemma Fours(x: nat, n: nat)
    requires n > 0 && 4 * n <= x
    ensures x / n >= 4
  {
  }

  datatype RegWrite = RegWrite(chip: byte, data: uint32) | WriteAll(data: uint32)

  /** The register writes that program chips i, i + 1, ... */
  function BoundWrites(chips: seq<byte>, lower: uint32, width: nat, i: nat): (w: seq<RegWrite>)
    requires i <= |chips|
    ensures |w| == |chips| - i
    decreases |chips| - i
  {
    if i == |chips| then []
    else
      var bound := Packed(MaxOf(lower, width, i), MinOf(lower, width, i));
      [RegWrite(chips[i], bound)] + BoundWrites(chips, lower, width, i + 1)
  }

  function Program(chips: seq<byte>, mask: uint32, asicNum: nat): seq<RegWrite>
    requires chips != []
  {
    var w := WindowOf(mask, asicNum);
    BoundWrites(chips, 0, Width(0, w.upper, |chips|), 0) + [WriteAll(w.shift)]
  }

  // What is written, said of chips and masks

  /** One write for each chip, in order, and then one for all of them. */
  predicate OneEach(ws: seq<RegWrite>, chips: seq<byte>, shift: nat) {
    && |ws| == |chips| + 1 && (forall i :: 0 <= i < |chips| ==> ws[i].RegWrite? && ws[i].chip == chips[i])
    && ws[|chips|].WriteAll? && ws[|chips|].data == shift
  }

  /** Chip i gets the versions from i * width to (i + 1) * width - 1 in the halves of its register. */
  predicate RangeAt(w: RegWrite, i: nat, width: nat) {
    w.data % 0x1_0000 == width * i && w.data / 0x1_0000 == width * (i + 1) - 1
  }

  /** The versions up to the limit are given out in equal ranges, as wide as whole fours allow. */
  predicate Divided(ws: seq<RegWrite>, n: nat, limit: nat, width: nat) {
    && n <= |ws| && width >= 4 && width % 4 == 0 && width * n <= limit < (width + 4) * n
    && forall i :: 0 <= i < n ==> RangeAt(ws[i], i, width)
  }

  predicate AllShared(ws: seq<RegWrite>, n: nat) {
    n <= |ws| && forall i :: 0 <= i < n ==> ws[i].data == 0xffff_0000
  }

  /** Ranges given out like this are aligned, disjoint and within the limit. */
  lemma DividedIsSound(ws: seq<RegWrite>, n: nat, limit: nat, width: nat, i: nat, j: nat)
    requires Divided(ws, n, limit, width) && i < j < n
    ensures ws[i].data % 0x1_0000 % 4 == 0 && ws[i].data % 0x1_0000 <= ws[i].data / 0x1_0000
    ensures ws[i].data / 0x1_0000 < ws[j].data % 0x1_0000 && ws[j].data / 0x1_0000 < limit
  {
    assert RangeAt(ws[i], i, width) && RangeAt(ws[j], j, width);
    Times(i + 1, j, width);
    Times(j + 1, n, width);
    FourTimes(width, i);
  }

  lemma FourTimes(width: nat, i: nat)
    requires width % 4 == 0
    ensures (width * i) % 4 == 0 && width * (i + 1) == width * i + width
  {
    assert width * i == 4 * (width / 4 * i);
  }

  lemma {:induction false} BoundWritesAt(chips: seq<byte>, lower: uint32, width: nat, i: nat, k: nat)
    requires i <= k < |chips|
    ensures BoundWrites(chips, lower, width, i)[k - i]
            == RegWrite(chips[k], Packed(MaxOf(lower, width, k), MinOf(lower, width, k)))
    decreases k - i
  {
    hide MaxOf, MinOf, Packed;
    if i < k {
      BoundWritesAt(chips, lower, width, i + 1, k);
    }
  }

  lemma ProgramAt(chips: seq<byte>, mask: uint32, asicNum: nat)
    requires chips != []
    ensures var ws, window := Program(chips, mask, asicNum), WindowOf(mask, asicNum);
            var width := Width(0, window.upper, |chips|);
            && OneEach(ws, chips, window.shift)
            && forall i :: 0 <= i < |chips| ==> ws[i].data == Packed(MaxOf(0, width, i), MinOf(0, width, i))
  {
    hide MaxOf, MinOf, Packed, Width, WindowOf;
    var window := WindowOf(mask, asicNum);
    var width := Width(0, window.upper, |chips|);
    forall i | 0 <= i < |chips|
      ensures Program(chips, mask, asicNum)[i] == RegWrite(chips[i], Packed(MaxOf(0, width, i), MinOf(0, width, i)))
    {
      BoundWritesAt(chips, 0, width, 0, i);
    }
  }

  lemma WidestFours(upper: uint32, n: nat)
    requires n > 0 && upper % 4 == 0 && upper < U32 - 1 && (upper + 1) / n >= 4
    ensures var width := Width(0, upper, n);
            width >= 4 && width % 4 == 0 && width * n <= upper < (width + 4) * n
  {
    var width := Width(0, upper, n);
    EndsInside(upper, n);
    NextFour(upper + 1, n);
  }

  lemma NextFour(x: nat, n: nat)
    requires n > 0
    ensures x < (x / n / 4 * 4 + 4) * n
  {
    var q := x / n;
    assert q < q / 4 * 4 + 4;
    Times(q + 1, q / 4 * 4 + 4, n);
    assert x < (q + 1) * n;
  }

  /** What the limit makes of the writes, whatever the mask. */
  lemma ProgramDivides(chips: seq<byte>, mask: uint32, asicNum: nat)
    requires chips != []
    requires var upper := WindowOf(mask, asicNum).upper; upper % 4 == 0 && 4 <= upper <= 0x1_0000
    ensures var ws, upper, n := Program(chips, mask, asicNum), WindowOf(mask, asicNum).upper, |chips|;
            && ((upper + 1) / n >= 4 ==> Divided(ws, n, upper, Width(0, upper, n)))
            && ((upper + 1) / n < 4 ==> AllShared(ws, n))
  {
    hide WindowOf, Program;
    var ws, upper, n := Program(chips, mask, asicNum), WindowOf(mask, asicNum).upper, |chips|;
    var width := Width(0, upper, n);
    ProgramAt(chips, mask, asicNum);
    WidthOf(upper, n);
    if width >= 4 {
      WidestFours(upper, n);
      forall i | 0 <= i < n ensures RangeAt(ws[i], i, width) {
        RangeOf(0, upper, n, i);
        hide Width, MaxOf, MinOf, Packed;
        PackedDecodes(MaxOf(0, width, i), MinOf(0, width, i));
        DecodedParts(ws[i].data);
      }
    } else {
      forall i | 0 <= i < n ensures ws[i].data == 0xffff_0000 {
        NarrowSharesAll(upper, n, i);
        DecodedParts(ws[i].data);
      }
    }
  }

  lemma DecodedParts(reg: uint32)
    ensures Decoded(reg) == (reg / 0x1_0000, reg % 0x1_0000)
  {
  }

  /** A number is an odd multiple of one power of two only. */
  lemma ShiftIs(mask: uint32, shift: nat)
    requires mask != 0 && mask % Pow2(shift) == 0 && (mask / Pow2(shift)) % 2 == 1
    ensures TrailingZeros(mask) == shift
  {
    var t := TrailingZeros(mask);
    if t < shift {
      OddOnce(mask, t, shift);
    } else if shift < t {
      OddOnce(mask, shift, t);
    }
  }

  lemma OddOnce(x: nat, a: nat, b: nat)
    requires a < b && x % Pow2(b) == 0
    ensures (x / Pow2(a)) % 2 == 0
  {
    hide Pow2;
    Pow2Add(a, b - a);
    Pow2Add(1, b - a - 1);
    TwoIsTwo();
    var p, r, q := Pow2(a), Pow2(b - a - 1), x / Pow2(b);
    assert x == Pow2(b) * q;
    EvenQuotient(x, p, r, q);
  }

  lemma TwoIsTwo()
    ensures Pow2(1) == 2
  {
  }

  lemma EvenQuotient(x: nat, p: nat, r: nat, q: nat)
    requires p > 0 && x == p * (2 * r) * q
    ensures (x / p) % 2 == 0
  {
    assert x == p * (2 * (r * q));
    Multiple(p, 2 * (r * q));
  }

  /** For a mask whose bits lie between two places, the lowest and the highest of them set: every chip
      is written its own range of the 2^w versions, as wide as whole fours allow, or 0 to 0xffff if
      there are fewer than four for each; and then the place of the lowest bit. */
  lemma MaskWrites(chips: seq<byte>, mask: uint32, asicNum: nat, shift: nat, w: nat)
    requires chips != [] && mask != 0 && mask % Pow2(shift) == 0 && (mask / Pow2(shift)) % 2 == 1
    requires 2 <= w <= 16 && Pow2(shift + w - 1) <= mask < Pow2(shift + w)
    ensures var ws, n := Program(chips, mask, asicNum), |chips|;
            && OneEach(ws, chips, shift)
            && ((Pow2(w) + 1) / n >= 4 ==> exists width :: Divided(ws, n, Pow2(w), width))
            && ((Pow2(w) + 1) / n < 4 ==> AllShared(ws, n))
  {
    hide Pow2, TrailingZeros, FloorLog2, OneEach, Divided, AllShared, Program, Width, Span, WindowOf;
    MaskWindow(mask, asicNum, shift, w);
    ProgramAt(chips, mask, asicNum);
    ProgramDivides(chips, mask, asicNum);
  }

  lemma MaskWindow(mask: uint32, asicNum: nat, shift: nat, w: nat)
    requires mask != 0 && mask % Pow2(shift) == 0 && (mask / Pow2(shift)) % 2 == 1
    requires 2 <= w <= 16 && Pow2(shift + w - 1) <= mask < Pow2(shift + w)
    ensures var window := WindowOf(mask, asicNum);
            window.shift == shift && window.upper == Pow2(w) && window.upper % 4 == 0 && 4 <= window.upper <= 0x1_0000
  {
    ShiftIs(mask, shift);
    FloorLog2Unique(mask, shift + w - 1);
    SpanIs(mask);
    hide Pow2, TrailingZeros, FloorLog2;
    PowerOfSpan(mask, asicNum);
  }

  lemma NoMaskWindow(asicNum: nat)
    requires 0 < asicNum <= 0x4000
    ensures WindowOf(0, asicNum) == Window(13, 4 * asicNum) && (4 * asicNum) % 4 == 0
  {
  }

  /** Without a mask the limit is four versions for each expected chip, and the shift 13. */
  lemma NoMaskWrites(chips: seq<byte>, asicNum: nat)
    requires 0 < |chips| <= asicNum <= 0x4000
    ensures var ws := Program(chips, 0, asicNum);
            OneEach(ws, chips, 13) && exists width :: Divided(ws, |chips|, 4 * asicNum, width)
  {
    hide OneEach, Divided, AllShared, Program, Width, WindowOf;
    NoMaskWindow(asicNum);
    Fours(4 * asicNum + 1, |chips|);
    ProgramAt(chips, 0, asicNum);
    ProgramDivides(chips, 0, asicNum);
  }

  ghost predicate EndsWith(writes: seq<RegWrite>, last: seq<RegWrite>) {
    exists k :: 0 <= k <= |writes| && writes[k..] == last
  }

  lemma Appended(writes: seq<RegWrite>, last: seq<RegWrite>)
    ensures EndsWith(writes + last, last)
  {
    assert (writes + last)[|writes|..] == last;
  }

  class AuraAsic {
    const seqChipIds: seq<byte>
    const actualChipIds: seq<byte>
    var verMask: uint32
    var jobCount: nat
    var writes: seq<RegWrite>

    /** Once a job has been sent, the last writes programmed the ranges for the current mask. */
    ghost predicate Valid()
      reads this
    {
      actualChipIds != [] && (jobCount > 0 ==> EndsWith(writes, Program(actualChipIds, verMask, |seqChipIds|)))
    }

    constructor (seqChipIds: seq<byte>, actualChipIds: seq<byte>)
      requires actualChipIds != []
      ensures Valid() && jobCount == 0 && writes == []
      ensures this.seqChipIds == seqChipIds && this.actualChipIds == actualChipIds
    {
      this.seqChipIds, this.actualChipIds := seqChipIds, actualChipIds;
      verMask, jobCount, writes := 0, 0, [];
    }

    method FirstAndWidth(lower: uint32, upper: uint32) returns (low: uint32, window: nat)
      requires actualChipIds != [] && lower + 3 < U32
      ensures low == RoundUp4(lower) && window == Width(low, upper, |actualChipIds|)
    {
      low := (lower + 3) / 4 * 4;
      window := ((upper - low + 1) % U32) / |actualChipIds|;
      if window < 4 {
        window := 1;
      }
      window := window / 4 * 4;
    }

    /** The register value of chip number i. */
    method BoundValue(low: uint32, window: nat, i: nat) returns (reg: uint32)
      ensures reg == Packed(MaxOf(low, window, i), MinOf(low, window, i))
    {
      var min := (low + window * i) % U32;
      var max := (min + window - 1) % U32;
      reg := ((max * 0x1_0000) % U32 + min) % U32;
    }

    /** Divides [lower, upper] among the chips that were detected. */
    method SetVerRolling(shift: uint32, lower: uint32, upper: uint32)
      requires actualChipIds != [] && lower + 3 < U32
      modifies this`writes
      ensures var low := RoundUp4(lower);
              var width := Width(low, upper, |actualChipIds|);
              writes == old(writes) + BoundWrites(actualChipIds, low, width, 0) + [WriteAll(shift)]
    {
      hide MinOf, MaxOf, Packed, RoundUp4, Width;
      var low, window := FirstAndWidth(lower, upper);
      ghost var all := old(writes) + BoundWrites(actualChipIds, low, window, 0);
      for i := 0 to |actualChipIds|
        invariant writes + BoundWrites(actualChipIds, low, window, i) == all
      {
        var bound := BoundValue(low, window, i);
        writes := writes + [RegWrite(actualChipIds[i], bound)];
      }
      writes := writes + [WriteAll(shift)];
    }

    /** The part of sending a job that programs the version ranges: on a new mask, and on every
        sixteenth job. */
    method SendJob(versionMask: uint32)
      requires Valid()
      modifies this
      ensures Valid() && verMask == versionMask && jobCount == old(jobCount) + 1
      ensures writes == old(writes) + if versionMask != old(verMask) || old(jobCount) % 16 == 0
                                      then Program(actualChipIds, versionMask, |seqChipIds|) else []
    {
      hide Pow2, TrailingZeros, LeadingZeros, FloorLog2, Width, BoundWrites, EndsWith;
      if versionMask != verMask || jobCount % 16 == 0 {
        var shift := TrailingZeros(versionMask);
        var lzs := LeadingZeros(versionMask);
        var max := 4 * |seqChipIds|;
        if shift < 32 {
          SpanIs(versionMask);
          max := Pow2(32 - shift - lzs);
        } else {
          shift := 13;
        }
        SetVerRolling(shift, 0, max % U32);
        verMask := versionMask;
        assert writes == old(writes) + Program(actualChipIds, versionMask, |seqChipIds|);
        Appended(old(writes), Program(actualChipIds, versionMask, |seqChipIds|));
      }
      jobCount := jobCount + 1;
    }
  }
}
