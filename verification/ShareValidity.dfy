/** Device difficulty, chip difficulty and pool target: which shares reach the pool. */
module ShareValidity {
  import opened Powers
  import opened Difficulty

  const DIFF_MIN: nat := 32
  const DIFF_MAX: nat := 16384

  method Min(vars: seq<nat>) returns (m: nat)
    requires vars != []
    ensures m in vars && forall x :: x in vars ==> m <= x
  {
    m := vars[0];
    for k := 0 to |vars|
      invariant m in vars && forall j :: 0 <= j < k ==> m <= vars[j]
    {
      if m > vars[k] {
        m := vars[k];
      }
    }
  }

  method Max(vars: seq<nat>) returns (m: nat)
    requires vars != []
    ensures m in vars && forall x :: x in vars ==> m >= x
  {
    m := vars[0];
    for k := 0 to |vars|
      invariant m in vars && forall j :: 0 <= j < k ==> m >= vars[j]
    {
      if m < vars[k] {
        m := vars[k];
      }
    }
  }

  /** The power of two at or below n; the floating-point code yields 0 for 0. */
  function ClosestPowerOf2(n: nat): nat {
    if n == 0 then 0 else Pow2(FloorLog2(n))
  }

  function DiffToHWDiff(x: nat): nat
    requires x >= 1
  {
    FloorLog2(x) + 32
  }

  function HWDiffToDiff(x: nat): nat {
    Pow2(if x < 32 then 0 else x - 32)
  }

  /** The exponent of the device difficulty for a pool difficulty. */
  function DevLog(target: nat): nat {
    if target < DIFF_MIN then 5 else FloorLog2(target)
  }

  /** The closest power of two is the largest that is not above n, on the same side of both limits. */
  lemma ClosestBounds(n: nat)
    ensures ClosestPowerOf2(n) <= n
    ensures n >= 1 ==> n < 2 * ClosestPowerOf2(n) && exists e :: ClosestPowerOf2(n) == Pow2(e)
    ensures n < DIFF_MIN ==> ClosestPowerOf2(n) < DIFF_MIN
    ensures n >= DIFF_MIN ==> ClosestPowerOf2(n) >= DIFF_MIN
    ensures n >= DIFF_MAX ==> ClosestPowerOf2(n) >= DIFF_MAX
  {
    Pow2Small();
    if n >= DIFF_MIN {
      var e := FloorLog2(n);
      if e < 5 {
        Pow2Monotonic(e + 1, 5);
      }
      Pow2Monotonic(5, e);
      if n >= DIFF_MAX {
        if e < 14 {
          Pow2Monotonic(e + 1, 14);
        }
        Pow2Monotonic(14, e);
      }
    }
  }

  /** Chip and device difficulty of a power of two. */
  lemma RoundTrip(e: nat)
    ensures DiffToHWDiff(Pow2(e)) == 32 + e && HWDiffToDiff(32 + e) == Pow2(e)
    ensures e < 32 ==> HWDiffToDiff(e) == 1
  {
    FloorLog2Unique(Pow2(e), e);
  }

  lemma DevDiffIs(target: nat)
    ensures Pow2(DevLog(target)) == if ClosestPowerOf2(target) < DIFF_MIN then DIFF_MIN else ClosestPowerOf2(target)
    ensures Pow2(DevLog(target)) <= target <==> target >= DIFF_MIN
    ensures target >= DIFF_MIN ==> target < 2 * Pow2(DevLog(target))
    ensures target < DIFF_MIN ==> Pow2(DevLog(target)) == DIFF_MIN
  {
    Pow2Small();
    ClosestBounds(target);
  }

  /** The difficulty part of preparing a job: the chips are told hwDiff leading zero bits, and the
      device checks results against devDiff. */
  method PreScanDifficulty(target: nat) returns (devDiff: nat, hwDiff: nat)
    ensures hwDiff == 32 + DevLog(target) && devDiff == Pow2(DevLog(target))
    ensures devDiff >= DIFF_MIN && (devDiff <= target <==> target >= DIFF_MIN)
    ensures target >= DIFF_MIN ==> devDiff <= target < 2 * devDiff
    ensures target < DIFF_MIN ==> devDiff == DIFF_MIN
    ensures Pow2(hwDiff) == 0x1_0000_0000 * devDiff
  {
    hide Pow2, FloorLog2, ClosestPowerOf2, DevLog, DiffToHWDiff, HWDiffToDiff;
    var closest := ClosestPowerOf2(target);
    ClosestBounds(target);
    DevDiffIs(target);
    TwoMembers(DIFF_MAX, closest);
    if target < DIFF_MAX {
      devDiff := Min([DIFF_MAX, closest]);
    } else {
      devDiff := Max([DIFF_MAX, closest]);
    }
    TwoMembers(DIFF_MIN, closest);
    devDiff := Max([DIFF_MIN, devDiff]);
    RoundTrip(DevLog(target));
    hwDiff := DiffToHWDiff(devDiff);
    devDiff := HWDiffToDiff(hwDiff);
    Pow2Add(32, DevLog(target));
    Pow2Small();
  }

  lemma TwoMembers(a: nat, b: nat)
    ensures a in [a, b] && b in [a, b] && forall x :: x in [a, b] ==> x == a || x == b
  {
  }

  /** The pool's difficulty-1 target, 0xFFFF times 2^208. */
  function PoolTarget(): nat {
    0xFFFF * Pow2(8 * (HASH_LEN - 6))
  }

  predicate PoolAccepts(v: nat, target: nat)
    requires target >= 1
  {
    v <= PoolTarget() / target
  }

  /** The check that decides whether a result is counted as a hit or as a hardware error. */
  predicate DeviceAccepts(v: nat, target: nat)
    requires v > 0
  {
    DifficultyOf(v) >= Pow2(DevLog(target))
  }

  lemma TopIs()
    ensures Top() == 0x1_0000 * Pow2(8 * (HASH_LEN - 6))
    ensures Top() == Pow2(64) * Pow2(8 * (HASH_LEN - 12))
  {
    Pow2Add(16, 8 * (HASH_LEN - 6));
    Pow2Add(64, 8 * (HASH_LEN - 12));
    Pow2Small();
  }

  lemma DivBound(v: nat, t: nat, d: nat)
    requires d >= 1 && v <= t / d
    ensures v * d <= t
  {
  }

  lemma ShiftReaches(v: nat, top: nat, e: nat, target: nat)
    requires 0 < v < top && Pow2(e) <= target && v * target < top
    ensures Shift(v, top) >= e
  {
    var k := Shift(v, top);
    assert 2 * Pow2(k) * v == 2 * (Pow2(k) * v);
    if k < e {
      Pow2Monotonic(k, e);
      Times(2 * Pow2(k), target, v);
    }
  }

  /** A hash has fewer than 96 leading zero bits exactly when its difficulty fits 64 bits. */
  lemma ShiftFits(v: nat, top: nat, low: nat)
    requires 0 < v < top && top == Pow2(64) * low
    ensures Shift(v, top) < 64 <==> v >= low
  {
    var k := Shift(v, top);
    var p, q := Pow2(k), Pow2(64);
    if k < 64 {
      Pow2Monotonic(k, 64);
    } else {
      Pow2Monotonic(64, k);
    }
    hide Shift, Pow2;
    Fits(p, q, v, low);
  }

  lemma Fits(p: nat, q: nat, v: nat, low: nat)
    requires p * v < q * low <= 2 * (p * v) && p >= 1 && q >= 1
    ensures 2 * p <= q ==> v >= low
    ensures q <= p ==> v < low
  {
  }

  lemma CancelLeft(p: nat, a: nat, b: nat)
    requires p >= 1 && p * a <= p * b
    ensures a <= b
  {
  }

  lemma CancelLess(p: nat, a: nat, b: nat)
    requires p * a < p * b
    ensures a < b
  {
  }

  /** For a pool difficulty of at least 32, every share the pool accepts is accepted by the device
      if and only if its hash has fewer than 96 leading zero bits. */
  lemma PoolSharesReach(v: nat, target: nat)
    requires v > 0 && target >= DIFF_MIN && PoolAccepts(v, target)
    ensures v < Top()
    ensures DeviceAccepts(v, target) <==> v >= Pow2(8 * (HASH_LEN - 12))
  {
    AcceptedBelow(v, target);
    hide Pow2, Shift, PoolAccepts, DevLog, Top;
    TopIs();
    Times(1, target, v);
    FloorBelow(target);
    ShiftReaches(v, Top(), DevLog(target), target);
    ShiftFits(v, Top(), Pow2(8 * (HASH_LEN - 12)));
    Pow2Monotonic(DevLog(target), Shift(v, Top()));
  }

  lemma AcceptedBelow(v: nat, target: nat)
    requires target >= 1 && PoolAccepts(v, target)
    ensures v * target < Top()
  {
    hide Pow2;
    DivBound(v, PoolTarget(), target);
    TopIs();
    AtLeast(1, Pow2(8 * (HASH_LEN - 6)));
  }

  lemma FloorBelow(target: nat)
    requires target >= DIFF_MIN
    ensures Pow2(DevLog(target)) <= target
  {
  }

  /** Below 32 the device asks for more than the pool: at every such pool difficulty there is a
      share, with fewer than 96 leading zero bits, that the pool accepts and the device throws away. */
  lemma LowTargetsLose(target: nat) returns (v: nat)
    requires 1 <= target < DIFF_MIN
    ensures v > 0 && PoolAccepts(v, target) && v >= Pow2(8 * (HASH_LEN - 12))
    ensures !DeviceAccepts(v, target)
  {
    var p := Pow2(8 * (HASH_LEN - 6));
    v := 2048 * p;
    assert v <= PoolTarget() / target by { DivAtMost(p, target); }
    Pow2Monotonic(8 * (HASH_LEN - 12), 8 * (HASH_LEN - 6));
    TopIs();
    Pow2Small();
    ShiftUnique(v, Top(), 4);
    hide Shift;
  }

  lemma DivAtMost(p: nat, target: nat)
    requires 1 <= target < 32
    ensures 2048 * p <= (0xFFFF * p) / target
  {
  }

  /** What the chip is asked for is what the device checks: a result whose difficulty fits 64 bits
      has the hwDiff leading zero bits exactly when its difficulty is at least devDiff. */
  lemma ChipFilterAgrees(v: nat, target: nat)
    requires v >= Pow2(8 * (HASH_LEN - 12)) && 32 + DevLog(target) <= 8 * HASH_LEN
    ensures v > 0 && (v < Pow2(8 * HASH_LEN - (32 + DevLog(target))) <==> DeviceAccepts(v, target))
  {
    hide Pow2, Shift, DevLog;
    var e, top := DevLog(target), Top();
    var bound := Pow2(8 * HASH_LEN - (32 + e));
    Pow2Add(8 * HASH_LEN - (32 + e), e);
    DevLogLarge(target);
    if v < top {
      TopIs();
      ShiftFits(v, top, Pow2(8 * (HASH_LEN - 12)));
      var k := Shift(v, top);
      if k >= e {
        Pow2Monotonic(e, k);
      } else {
        Pow2Monotonic(k, e);
      }
      FilterBound(Pow2(k), Pow2(e), v, bound, top);
    } else {
      Times(1, Pow2(e), bound);
    }
  }

  lemma DevLogLarge(target: nat)
    ensures DevLog(target) >= 5 && Pow2(DevLog(target)) >= 32
  {
  }

  lemma FilterBound(d: nat, p: nat, v: nat, bound: nat, top: nat)
    requires d * v < top <= 2 * (d * v) && bound * p == top && p >= 1
    ensures p <= d ==> v < bound
    ensures 2 * d <= p ==> v >= bound
  {
    if p <= d {
      Times(p, d, v);
      CancelLess(p, v, bound);
    }
    if 2 * d <= p {
      Times(2 * d, p, v);
      CancelLeft(p, bound, v);
    }
  }
}
