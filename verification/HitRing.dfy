/** Hit counters of the chips: sampled every few seconds, kept in a ring, reported as sums. */
module HitRing {
  import opened Bytes

  const RING := 12
  const HIT_MAX: nat := 2000
  const U32 := 0x1_0000_0000

  /** A counter reading; -1 stands for a chip that did not answer. */
  type Reading = x: int | -1 <= x < U32

  /** The advance of a 32-bit counter. */
  function Advance(from: uint32, to: uint32): nat {
    (to - from) % U32
  }

  /** The hits credited to each chip: what its counter advanced, nothing if it did not answer, and
      its left neighbour's hits if the advance is not credible. */
  function Deltas(counts: seq<uint32>, readings: seq<Reading>): (d: seq<nat>)
    requires |counts| == |readings|
    ensures |d| == |readings| && forall i :: 0 <= i < |d| ==> d[i] <= HIT_MAX
    decreases |readings|
  {
    if readings == [] then []
    else
      var n := |readings| - 1;
      var d := Deltas(counts[..n], readings[..n]);
      d + [if readings[n] == -1 then 0
           else if Advance(counts[n], readings[n]) <= HIT_MAX then Advance(counts[n], readings[n])
           else if n == 0 then 0
           else d[n - 1]]
  }

  /** The counters as last read. */
  function Latest(counts: seq<uint32>, readings: seq<Reading>): (c: seq<uint32>)
    requires |counts| == |readings|
    ensures |c| == |counts|
  {
    seq(|counts|, i requires 0 <= i < |counts| => if readings[i] == -1 then counts[i] else readings[i])
  }

  lemma {:induction false} DeltaAt(counts: seq<uint32>, readings: seq<Reading>, i: nat)
    requires |counts| == |readings| && i < |readings|
    ensures Deltas(counts, readings)[i] ==
            if readings[i] == -1 then 0
            else if Advance(counts[i], readings[i]) <= HIT_MAX then Advance(counts[i], readings[i])
            else if i == 0 then 0
            else Deltas(counts, readings)[i - 1]
    decreases |readings|
  {
    var n := |readings| - 1;
    if i < n {
      DeltaAt(counts[..n], readings[..n], i);
    }
  }

  /** One bank of counters with its ring. */
  datatype Bank = Bank(counts: seq<uint32>, ring: seq<seq<nat>>)

  predicate ValidBank(b: Bank) {
    && |b.ring| == RING
    && (forall k :: 0 <= k < RING ==> |b.ring[k]| == |b.counts|)
    && forall k, i :: 0 <= k < RING && 0 <= i < |b.ring[k]| ==> b.ring[k][i] <= HIT_MAX
  }

  function Sample(b: Bank, cursor: nat, readings: seq<Reading>): (b': Bank)
    requires ValidBank(b) && cursor < RING && |readings| == |b.counts|
    ensures ValidBank(b') && |b'.counts| == |b.counts| && |b'.ring| == RING
  {
    Bank(Latest(b.counts, readings), b.ring[cursor := Deltas(b.counts, readings)])
  }

  /** The slot of the a-th sample. */
  function Slot(a: nat): (k: nat)
    ensures k < RING
  {
    a % RING
  }

  function Next(cursor: nat): nat {
    (cursor + 1) % RING
  }

  function AddUp(a: seq<nat>, b: seq<nat>): (s: seq<nat>)
    requires |a| == |b|
    ensures |s| == |a|
  {
    seq(|a|, i requires 0 <= i < |a| => a[i] + b[i])
  }

  /** The sum of the slots from one cursor up to another, around the ring. */
  function RingSum(ring: seq<seq<nat>>, from: nat, to: nat, n: nat): (s: seq<nat>)
    requires |ring| == RING && from < RING && to < RING && forall k :: 0 <= k < RING ==> |ring[k]| == n
    ensures |s| == n
    decreases (to - from) % RING
  {
    if from == to then seq(n, _ => 0) else AddUp(ring[from], RingSum(ring, Next(from), to, n))
  }

  /** The sum of a list of samples. */
  function Total(samples: seq<seq<nat>>, n: nat): (s: seq<nat>)
    requires forall x :: x in samples ==> |x| == n
    ensures |s| == n
  {
    if samples == [] then seq(n, _ => 0)
    else
      assert samples[0] in samples && forall x :: x in samples[1..] ==> x in samples;
      AddUp(samples[0], Total(samples[1..], n))
  }

  /** The ring holds the last samples taken since the report cursor was set; `pending` lists all of
      them, including those the ring has overwritten. */
  predicate Holds(b: Bank, report: nat, cursor: nat, pending: seq<seq<nat>>) {
    ValidBank(b) && report < RING && cursor == Slot(report + |pending|) && InSlots(b.ring, report, pending)
  }

  /** The last twelve pending samples each stand in their slot. */
  predicate InSlots(ring: seq<seq<nat>>, report: nat, pending: seq<seq<nat>>) {
    |ring| == RING
    && forall j :: 0 <= j < |pending| && j + RING >= |pending| ==> ring[Slot(report + j)] == pending[j]
  }

  lemma NextSlot(from: nat, n: nat)
    ensures Next(Slot(from + n)) == Slot(from + (n + 1))
  {
    var a := from + n;
    var q, r := a / RING, a % RING;
    assert a == RING * q + r;
    assert from + (n + 1) == RING * q + (r + 1);
  }

  lemma SampleHolds(b: Bank, report: nat, cursor: nat, pending: seq<seq<nat>>, readings: seq<Reading>)
    requires Holds(b, report, cursor, pending) && |readings| == |b.counts|
    ensures Holds(Sample(b, cursor, readings), report, Next(cursor), pending + [Deltas(b.counts, readings)])
  {
    hide Deltas, Latest, InSlots, Slot, Next;
    HoldsNext(b, Sample(b, cursor, readings), report, cursor, pending, Deltas(b.counts, readings));
  }

  lemma HoldsNext(b: Bank, b': Bank, report: nat, cursor: nat, pending: seq<seq<nat>>, d: seq<nat>)
    requires Holds(b, report, cursor, pending) && ValidBank(b')
    requires cursor < |b.ring| && b'.ring == b.ring[cursor := d]
    ensures Holds(b', report, Next(cursor), pending + [d])
  {
    var n := |pending|;
    NextSlot(report, n);
    forall j | 0 <= j < n + 1 && j + RING >= n + 1
      ensures b'.ring[Slot(report + j)] == (pending + [d])[j]
    {
      if j < n {
        OtherSlot(report + j, report + n);
      }
    }
    hide Slot, Next, ValidBank;
  }

  /** Samples fewer than twelve apart stand in different slots. */
  lemma OtherSlot(a: nat, b: nat)
    requires a < b < a + RING
    ensures Slot(a) != Slot(b)
  {
  }

  /** A report returns exactly the last samples, as many as are pending modulo 12. */
  lemma ReportIsTail(b: Bank, report: nat, cursor: nat, pending: seq<seq<nat>>)
    requires Holds(b, report, cursor, pending) && forall x :: x in pending ==> |x| == |b.counts|
    ensures var tail := pending[|pending| - |pending| % RING..];
            (forall x :: x in tail ==> |x| == |b.counts|)
            && RingSum(b.ring, report, cursor, |b.counts|) == Total(tail, |b.counts|)
  {
    var k := |pending| - |pending| % RING;
    assert Slot(report + k) == report by { WholeTurns(report, |pending| / RING); }
    TailSum(b, report, cursor, pending, k);
  }

  lemma WholeTurns(a: nat, q: nat)
    requires a < RING
    ensures Slot(a + RING * q) == a
  {
  }

  lemma {:induction false} TailSum(b: Bank, report: nat, cursor: nat, pending: seq<seq<nat>>, k: nat)
    requires Holds(b, report, cursor, pending) && forall x :: x in pending ==> |x| == |b.counts|
    requires |pending| - |pending| % RING <= k <= |pending|
    ensures forall x :: x in pending[k..] ==> |x| == |b.counts|
    ensures RingSum(b.ring, Slot(report + k), cursor, |b.counts|) == Total(pending[k..], |b.counts|)
    decreases |pending| - k
  {
    hide Slot, Next, Total, RingSum;
    assert forall x :: x in pending[k..] ==> x in pending;
    if k < |pending| {
      TailSum(b, report, cursor, pending, k + 1);
      OtherSlot(report + k, report + |pending|);
      NextSlot(report, k);
      TotalFirst(pending, k, |b.counts|);
      assert Slot(report + k) != cursor && b.ring[Slot(report + k)] == pending[k];
    } else {
      NothingLeft(|b.counts|);
      assert pending[k..] == [] && Slot(report + k) == cursor;
    }
    RingSumFirst(b.ring, Slot(report + k), cursor, |b.counts|);
  }

  lemma TotalFirst(samples: seq<seq<nat>>, k: nat, n: nat)
    requires k < |samples| && forall x :: x in samples ==> |x| == n
    ensures (forall x :: x in samples[k..] ==> |x| == n) && (forall x :: x in samples[k + 1..] ==> |x| == n)
    ensures Total(samples[k..], n) == AddUp(samples[k], Total(samples[k + 1..], n))
  {
  }

  lemma NothingLeft(n: nat)
    ensures Total([], n) == seq(n, _ => 0)
  {
  }

  lemma RingSumFirst(ring: seq<seq<nat>>, from: nat, to: nat, n: nat)
    requires |ring| == RING && from < RING && to < RING && forall k :: 0 <= k < RING ==> |ring[k]| == n
    ensures RingSum(ring, from, to, n)
            == if from == to then seq(n, _ => 0) else AddUp(ring[from], RingSum(ring, Next(from), to, n))
  {
  }

  /** A chip cannot report more than eleven full samples, whatever has been read. */
  lemma {:induction false} ReportIsSmall(b: Bank, from: nat, to: nat, i: nat)
    requires ValidBank(b) && from < RING && to < RING && i < |b.counts|
    ensures RingSum(b.ring, from, to, |b.counts|)[i] <= HIT_MAX * ((to - from) % RING)
    decreases (to - from) % RING
  {
    if from != to {
      ReportIsSmall(b, Next(from), to, i);
    }
  }
}
