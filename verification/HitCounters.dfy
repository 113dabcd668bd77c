/** The ring as the program runs it, and the hash counts the board adds up from a report. */
module HitCounters {
  import opened Basics
  import opened Bytes
  import opened HitRing

  const CHIP_MAX := 256
  const MAX_TRUE_HIT: nat := 64 * 1024
  const HASHES_PER_HIT: nat := 0x1_0000_0000

  function Sum(s: seq<nat>): nat {
    if s == [] then 0 else s[0] + Sum(s[1..])
  }

  lemma {:induction false} SumSplit(a: seq<nat>, b: seq<nat>)
    ensures Sum(a + b) == Sum(a) + Sum(b)
  {
    if a == [] {
      assert a + b == b;
    } else {
      assert (a + b)[1..] == a[1..] + b;
      SumSplit(a[1..], b);
    }
  }

  lemma SumUpdate(s: seq<nat>, i: nat, v: nat)
    requires i < |s|
    ensures Sum(s[i := s[i] + v]) == Sum(s) + v
  {
    assert s == s[..i] + ([s[i]] + s[i + 1..]);
    assert s[i := s[i] + v] == s[..i] + ([s[i] + v] + s[i + 1..]);
    SumSplit(s[..i], [s[i]] + s[i + 1..]);
    SumSplit(s[..i], [s[i] + v] + s[i + 1..]);
  }

  lemma {:induction false} SumZeros(n: nat)
    ensures Sum(seq(n, _ => 0)) == 0
  {
    if n > 0 {
      assert seq(n, _ => 0)[1..] == seq(n - 1, _ => 0);
      SumZeros(n - 1);
    }
  }

  /** Hits entered under the chips' ids. */
  function AddByChip(table: seq<nat>, ids: seq<byte>, hits: seq<nat>): (t: seq<nat>)
    requires |table| == CHIP_MAX && |ids| == |hits|
    ensures |t| == CHIP_MAX
    decreases |ids|
  {
    if ids == [] then table
    else AddByChip(table[ids[0] := table[ids[0]] + hits[0]], ids[1..], hits[1..])
  }

  /** Nothing is lost or counted twice in the table. */
  lemma {:induction false} AddByChipSum(table: seq<nat>, ids: seq<byte>, hits: seq<nat>)
    requires |table| == CHIP_MAX && |ids| == |hits|
    ensures Sum(AddByChip(table, ids, hits)) == Sum(table) + Sum(hits)
    decreases |ids|
  {
    if ids != [] {
      SumUpdate(table, ids[0], hits[0]);
      AddByChipSum(table[ids[0] := table[ids[0]] + hits[0]], ids[1..], hits[1..]);
    }
  }

  /** With distinct ids every chip's entry grows by its own hits and the others stay. */
  lemma {:induction false} AddByChipAt(table: seq<nat>, ids: seq<byte>, hits: seq<nat>, c: byte)
    requires |table| == CHIP_MAX && |ids| == |hits|
    requires forall i, j :: 0 <= i < j < |ids| ==> ids[i] != ids[j]
    ensures c !in ids ==> AddByChip(table, ids, hits)[c] == table[c]
    ensures forall j :: 0 <= j < |ids| && ids[j] == c ==> AddByChip(table, ids, hits)[c] == table[c] + hits[j]
    decreases |ids|
  {
    if ids != [] {
      AddByChipAt(table[ids[0] := table[ids[0]] + hits[0]], ids[1..], hits[1..], c);
    }
  }

  /** The table a report builds, slot after slot. */
  function ReportTable(table: seq<nat>, ids: seq<byte>, ring: seq<seq<nat>>, from: nat, to: nat): (t: seq<nat>)
    requires |table| == CHIP_MAX && |ring| == RING && from < RING && to < RING
    requires forall k :: 0 <= k < RING ==> |ring[k]| == |ids|
    ensures |t| == CHIP_MAX
    decreases (to - from) % RING
  {
    if from == to then table
    else ReportTable(AddByChip(table, ids, ring[from]), ids, ring, Next(from), to)
  }

  lemma {:induction false} ReportTableAt(table: seq<nat>, ids: seq<byte>, ring: seq<seq<nat>>,
                                         from: nat, to: nat, j: nat)
    requires |table| == CHIP_MAX && |ring| == RING && from < RING && to < RING
    requires forall k :: 0 <= k < RING ==> |ring[k]| == |ids|
    requires forall i, k :: 0 <= i < k < |ids| ==> ids[i] != ids[k]
    requires j < |ids|
    ensures ReportTable(table, ids, ring, from, to)[ids[j]] == table[ids[j]] + RingSum(ring, from, to, |ids|)[j]
    decreases (to - from) % RING
  {
    if from != to {
      AddByChipAt(table, ids, ring[from], ids[j]);
      ReportTableAt(AddByChip(table, ids, ring[from]), ids, ring, Next(from), to, j);
    }
  }

  lemma {:induction false} ReportTableElsewhere(table: seq<nat>, ids: seq<byte>, ring: seq<seq<nat>>,
                                                from: nat, to: nat, c: byte)
    requires |table| == CHIP_MAX && |ring| == RING && from < RING && to < RING
    requires forall k :: 0 <= k < RING ==> |ring[k]| == |ids|
    requires forall i, k :: 0 <= i < k < |ids| ==> ids[i] != ids[k]
    requires c !in ids
    ensures ReportTable(table, ids, ring, from, to)[c] == table[c]
    decreases (to - from) % RING
  {
    if from != to {
      AddByChipAt(table, ids, ring[from], c);
      ReportTableElsewhere(AddByChip(table, ids, ring[from]), ids, ring, Next(from), to, c);
    }
  }

  /** No entry of a report comes near the limit above which the board ignores it. */
  lemma GuardsNeverFire(b: Bank, ids: seq<byte>, from: nat, to: nat, c: byte)
    requires ValidBank(b) && |ids| == |b.counts| && from < RING && to < RING
    requires forall i, k :: 0 <= i < k < |ids| ==> ids[i] != ids[k]
    ensures ReportTable(seq(CHIP_MAX, _ => 0), ids, b.ring, from, to)[c] <= 11 * HIT_MAX < MAX_TRUE_HIT
  {
    var zero := seq(CHIP_MAX, _ => 0);
    if c in ids {
      var j: nat :| j < |ids| && ids[j] == c;
      ReportTableAt(zero, ids, b.ring, from, to, j);
      ReportIsSmall(b, from, to, j);
    } else {
      ReportTableElsewhere(zero, ids, b.ring, from, to, c);
    }
  }

  /** The hashes credited for one chip's hits: an absurd count is taken for one hit. */
  function Hashes(hits: nat): nat {
    if hits > MAX_TRUE_HIT then HASHES_PER_HIT else hits * HASHES_PER_HIT
  }

  function HashesOf(hits: seq<nat>): (h: seq<nat>)
    ensures |h| == |hits|
  {
    seq(|hits|, i requires 0 <= i < |hits| => Hashes(hits[i]))
  }

  /** Adds up a report; fewer general than true hashes are impossible and raised. */
  method BoardHashes(trueHit: seq<nat>, genHit: seq<nat>) returns (hashCount: nat, genHashCount: nat)
    requires |trueHit| == |genHit| == CHIP_MAX
    ensures hashCount == Sum(HashesOf(trueHit))
    ensures genHashCount == if Sum(HashesOf(genHit)) < hashCount then hashCount else Sum(HashesOf(genHit))
  {
    hashCount, genHashCount := 0, 0;
    for i := 0 to CHIP_MAX
      invariant hashCount + Sum(HashesOf(trueHit[i..])) == Sum(HashesOf(trueHit))
      invariant genHashCount + Sum(HashesOf(genHit[i..])) == Sum(HashesOf(genHit))
    {
      var chipTrueHit, chipHashCount: nat := trueHit[i], 0;
      if chipTrueHit > MAX_TRUE_HIT {
        chipHashCount := 1 * HASHES_PER_HIT;
      } else {
        chipHashCount := chipTrueHit * HASHES_PER_HIT;
      }
      HashesHead(trueHit, i);
      hashCount := hashCount + chipHashCount;

      var chipGenHit, chipGenHashCount: nat := genHit[i], 0;
      if chipGenHit > MAX_TRUE_HIT {
        chipGenHashCount := 1 * HASHES_PER_HIT;
      } else {
        chipGenHashCount := chipGenHit * HASHES_PER_HIT;
      }
      HashesHead(genHit, i);
      genHashCount := genHashCount + chipGenHashCount;
    }
    if genHashCount < hashCount {
      genHashCount := hashCount;
    }
  }

  lemma HashesHead(hits: seq<nat>, i: nat)
    requires i < |hits|
    ensures Sum(HashesOf(hits[i..])) == Hashes(hits[i]) + Sum(HashesOf(hits[i + 1..]))
  {
    assert HashesOf(hits[i..])[1..] == HashesOf(hits[i + 1..]);
  }

  lemma {:induction false} HashesScale(hits: seq<nat>)
    requires forall h :: h in hits ==> h <= MAX_TRUE_HIT
    ensures Sum(HashesOf(hits)) == Sum(hits) * HASHES_PER_HIT
  {
    if hits != [] {
      assert hits[0] in hits && forall h :: h in hits[1..] ==> h in hits;
      HashesScale(hits[1..]);
      assert HashesOf(hits)[1..] == HashesOf(hits[1..]);
      assert (hits[0] + Sum(hits[1..])) * HASHES_PER_HIT == hits[0] * HASHES_PER_HIT + Sum(hits[1..]) * HASHES_PER_HIT;
    }
  }

  /** The hits of a chip as the board counts them: an absurd number is one. */
  function Counted(hits: seq<nat>): (c: seq<nat>)
    ensures |c| == |hits|
  {
    seq(|hits|, i requires 0 <= i < |hits| => if hits[i] <= 65536 then hits[i] else 1)
  }

  /** What the board adds up is 2^32 hashes for each hit, whatever is reported. */
  lemma {:induction false} HashesAre(hits: seq<nat>)
    ensures Sum(HashesOf(hits)) == 0x1_0000_0000 * Sum(Counted(hits))
  {
    if hits != [] {
      HashesAre(hits[1..]);
      assert HashesOf(hits)[1..] == HashesOf(hits[1..]) && Counted(hits)[1..] == Counted(hits[1..]);
      Distribute(Counted(hits)[0], Sum(Counted(hits[1..])));
    }
  }

  lemma Distribute(a: nat, b: nat)
    ensures HASHES_PER_HIT * (a + b) == a * HASHES_PER_HIT + HASHES_PER_HIT * b
  {
  }

  lemma {:induction false} ReportTableSum(table: seq<nat>, ids: seq<byte>, ring: seq<seq<nat>>, from: nat, to: nat)
    requires |table| == CHIP_MAX && |ring| == RING && from < RING && to < RING
    requires forall k :: 0 <= k < RING ==> |ring[k]| == |ids|
    ensures Sum(ReportTable(table, ids, ring, from, to)) == Sum(table) + Sum(RingSum(ring, from, to, |ids|))
    decreases (to - from) % RING
  {
    if from == to {
      SumZeros(|ids|);
    } else {
      AddByChipSum(table, ids, ring[from]);
      ReportTableSum(AddByChip(table, ids, ring[from]), ids, ring, Next(from), to);
      SumAddUp(ring[from], RingSum(ring, Next(from), to, |ids|));
    }
  }

  lemma {:induction false} SumAddUp(a: seq<nat>, b: seq<nat>)
    requires |a| == |b|
    ensures Sum(AddUp(a, b)) == Sum(a) + Sum(b)
  {
    if a != [] {
      SumAddUp(a[1..], b[1..]);
      assert AddUp(a, b)[1..] == AddUp(a[1..], b[1..]);
    }
  }

  /** The board's hash count is exactly 2^32 times the hits of the slots reported. */
  lemma BoardCountsAll(b: Bank, ids: seq<byte>, from: nat, to: nat)
    requires ValidBank(b) && |ids| == |b.counts| && from < RING && to < RING
    requires forall i, k :: 0 <= i < k < |ids| ==> ids[i] != ids[k]
    ensures Sum(HashesOf(ReportTable(seq(CHIP_MAX, _ => 0), ids, b.ring, from, to)))
            == Sum(RingSum(b.ring, from, to, |ids|)) * HASHES_PER_HIT
  {
    hide Sum, RingSum, HashesOf, ReportTable;
    var zero := seq(CHIP_MAX, _ => 0);
    var table := ReportTable(zero, ids, b.ring, from, to);
    forall h | h in table ensures h <= MAX_TRUE_HIT {
      var c: nat :| c < |table| && table[c] == h;
      GuardsNeverFire(b, ids, from, to, c);
    }
    HashesScale(table);
    ReportTableSum(zero, ids, b.ring, from, to);
    SumZeros(CHIP_MAX);
  }

  /** One bank of counters: `counts` holds the last readings, `ring` the credited hits. */
  class CounterBank {
    const counts: array<uint32>
    const ring: array<seq<nat>>

    constructor (chips: nat)
      ensures fresh(counts) && fresh(ring)
      ensures Value() == Bank(seq(chips, _ => 0), seq(RING, _ => seq(chips, _ => 0))) && ValidBank(Value())
    {
      counts := new uint32[chips](_ => 0);
      ring := new seq<nat>[RING](_ => seq(chips, _ => 0));
      new;
      assert counts[..] == seq(chips, _ => 0) && ring[..] == seq(RING, _ => seq(chips, _ => 0));
    }

    ghost function Value(): Bank
      reads counts, ring
    {
      Bank(counts[..], ring[..])
    }

    /** Credits one chip's reading to the current slot. */
    method CreditChip(cursor: nat, i: nat, result: Reading)
      requires cursor < ring.Length && i < counts.Length && |ring[cursor]| == counts.Length
      modifies counts, ring
      ensures counts[..] == old(counts[..])[i := if result == -1 then old(counts[i]) else result]
      ensures var slot := old(ring[cursor]);
              ring[..] == old(ring[..])[cursor := slot[i := Delta(old(counts[i]), result, i, slot)]]
    {
      var delta: nat := 0;
      if result != -1 {
        delta := (result - counts[i]) % U32;
        if delta > HIT_MAX {
          delta := if i == 0 then 0 else ring[cursor][i - 1];
        }
        counts[i] := result;
      }
      ring[cursor] := ring[cursor][i := delta];
    }

    /** Credits one reading of every chip to the current slot. */
    method Credit(cursor: nat, results: seq<Reading>)
      requires ValidBank(Value()) && cursor < RING && |results| == counts.Length
      modifies counts, ring
      ensures Value() == Sample(old(Value()), cursor, results)
    {
      hide Deltas, Latest, Delta;
      ghost var was, slots := counts[..], ring[..];
      assert slots[cursor := slots[cursor]] == slots;
      NothingCredited();
      for i := 0 to |results|
        invariant |ring[cursor]| == counts.Length && ring[..] == slots[cursor := ring[cursor]]
        invariant counts[..] == Latest(was[..i], results[..i]) + was[i..]
        invariant ring[cursor][..i] == Deltas(was[..i], results[..i])
      {
        CreditStep(was, results, i, ring[cursor]);
        assert counts[i] == was[i];
        CreditChip(cursor, i, results[i]);
      }
      assert was[..|results|] == was && results[..|results|] == results && was[|results|..] == [];
      assert ring[cursor] == ring[cursor][..|results|];
      assert counts[..] == Latest(was, results) && ring[..] == slots[cursor := Deltas(was, results)];
    }
  }

  /** The credit of chip i, its left neighbour's standing in the slot already. */
  function Delta(count: uint32, result: Reading, i: nat, slot: seq<nat>): nat
    requires i < |slot|
  {
    if result == -1 then 0
    else if Advance(count, result) <= HIT_MAX then Advance(count, result)
    else if i == 0 then 0 else slot[i - 1]
  }

  lemma NothingCredited()
    ensures Latest([], []) == [] && Deltas([], []) == []
  {
  }

  lemma CreditStep(was: seq<uint32>, results: seq<Reading>, i: nat, slot: seq<nat>)
    requires |was| == |results| == |slot| && i < |results|
    requires slot[..i] == Deltas(was[..i], results[..i])
    ensures Deltas(was[..i + 1], results[..i + 1]) == slot[i := Delta(was[i], results[i], i, slot)][..i + 1]
    ensures Latest(was[..i + 1], results[..i + 1]) + was[i + 1..]
            == (Latest(was[..i], results[..i]) + was[i..])[i := if results[i] == -1 then was[i] else results[i]]
  {
    assert was[..i + 1][..i] == was[..i] && results[..i + 1][..i] == results[..i];
    assert i > 0 ==> slot[i - 1] == slot[..i][i - 1];
  }

  // The hit rates of the chips, in percent

  /** The true hits of a sample as a percentage of the general ones; none for a chip that did not
      answer or had no general hits. */
  function PercentOf(reading: Reading, trueHit: nat, genHit: nat): Option<real> {
    if reading == -1 || genHit == 0 then None else Some((trueHit as real) * 100.0 / (genHit as real))
  }

  /** A list of rates with those replaced that a sample gives. */
  function Rated(rates: seq<real>, readings: seq<Reading>, trueHit: seq<nat>, genHit: seq<nat>): (r: seq<real>)
    requires |rates| == |readings| == |trueHit| == |genHit|
    ensures |r| == |rates|
  {
    seq(|rates|, i requires 0 <= i < |rates| =>
      match PercentOf(readings[i], trueHit[i], genHit[i])
      case None => rates[i]
      case Some(p) => p)
  }

  /** A chip that answered and counted general hits gets the rate that makes its true hits out of them;
      any other keeps the one it had. */
  lemma RatedAt(rates: seq<real>, readings: seq<Reading>, trueHit: seq<nat>, genHit: seq<nat>, i: nat)
    requires |rates| == |readings| == |trueHit| == |genHit| && i < |rates|
    ensures var r := Rated(rates, readings, trueHit, genHit)[i];
            if readings[i] == -1 || genHit[i] == 0 then r == rates[i]
            else r * (genHit[i] as real) == 100.0 * (trueHit[i] as real)
  {
  }

  /** A rate is never negative, and at most 100 if no more true than general hits were counted. */
  lemma RateInRange(reading: Reading, trueHit: nat, genHit: nat)
    ensures var p := PercentOf(reading, trueHit, genHit);
            p.Some? ==> 0.0 <= p.value && (p.value <= 100.0 <==> trueHit <= genHit)
  {
    if reading != -1 && genHit > 0 {
      var g := genHit as real;
      assert (trueHit as real) * 100.0 / g * g == (trueHit as real) * 100.0;
    }
  }

  /** Rates entered under the chips' ids. */
  function RateByChip(table: seq<real>, ids: seq<byte>, rates: seq<real>): (t: seq<real>)
    requires |table| == CHIP_MAX && |ids| == |rates|
    ensures |t| == CHIP_MAX
    decreases |ids|
  {
    if ids == [] then table else RateByChip(table[ids[0] := rates[0]], ids[1..], rates[1..])
  }

  /** The rates a report enters, once for each slot. */
  function RateTable(table: seq<real>, ids: seq<byte>, rates: seq<real>, from: nat, to: nat): (t: seq<real>)
    requires |table| == CHIP_MAX && |ids| == |rates| && from < RING && to < RING
    ensures |t| == CHIP_MAX
    decreases (to - from) % RING
  {
    if from == to then table else RateTable(RateByChip(table, ids, rates), ids, rates, Next(from), to)
  }

  lemma {:induction false} RateByChipAt(table: seq<real>, ids: seq<byte>, rates: seq<real>, c: byte)
    requires |table| == CHIP_MAX && |ids| == |rates|
    requires forall i, j :: 0 <= i < j < |ids| ==> ids[i] != ids[j]
    ensures c !in ids ==> RateByChip(table, ids, rates)[c] == table[c]
    ensures forall j :: 0 <= j < |ids| && ids[j] == c ==> RateByChip(table, ids, rates)[c] == rates[j]
    decreases |ids|
  {
    if ids != [] {
      RateByChipAt(table[ids[0] := rates[0]], ids[1..], rates[1..], c);
    }
  }

  /** With distinct ids a report gives each chip its own rate, and leaves all other entries. */
  lemma {:induction false} RateTableAt(table: seq<real>, ids: seq<byte>, rates: seq<real>, from: nat, to: nat, c: byte)
    requires |table| == CHIP_MAX && |ids| == |rates| && from < RING && to < RING
    requires forall i, j :: 0 <= i < j < |ids| ==> ids[i] != ids[j]
    ensures c !in ids ==> RateTable(table, ids, rates, from, to)[c] == table[c]
    ensures forall j :: 0 <= j < |ids| && ids[j] == c ==>
              RateTable(table, ids, rates, from, to)[c] == if from == to then table[c] else rates[j]
    decreases (to - from) % RING
  {
    if from != to {
      RateByChipAt(table, ids, rates, c);
      RateTableAt(RateByChip(table, ids, rates), ids, rates, Next(from), to, c);
    }
  }

  lemma RateTableStep(table: seq<real>, ids: seq<byte>, rates: seq<real>, from: nat, to: nat)
    requires |table| == CHIP_MAX && |ids| == |rates| && from < RING && to < RING
    ensures RateTable(table, ids, rates, from, to)
            == if from == to then table else RateTable(RateByChip(table, ids, rates), ids, rates, Next(from), to)
  {
  }

  lemma RatedStep(rates: seq<real>, readings: seq<Reading>, t: seq<nat>, g: seq<nat>, i: nat)
    requires |rates| == |readings| == |t| == |g| && i < |rates|
    ensures var r, p := Rated(rates, readings, t, g), PercentOf(readings[i], t[i], g[i]);
            && (p.None? ==> r[..i + 1] + rates[i + 1..] == r[..i] + rates[i..])
            && (p.Some? ==> r[..i + 1] + rates[i + 1..] == (r[..i] + rates[i..])[i := p.value])
  {
    hide PercentOf;
  }

  /** The hit statistics of one hash board: true and general hits share their cursors. */
  class HitStats {
    const ids: seq<byte>
    const trueHits: CounterBank
    const genHits: CounterBank
    const performance: array<real>
    var hitStatsCursor: nat
    var reportCursor: nat

    ghost predicate Valid()
      reads this, trueHits.counts, trueHits.ring, genHits.counts, genHits.ring
    {
      && trueHits.counts != genHits.counts && trueHits.ring != genHits.ring
      && ValidBank(trueHits.Value()) && ValidBank(genHits.Value())
      && trueHits.counts.Length == genHits.counts.Length == performance.Length == |ids|
      && hitStatsCursor < RING && reportCursor < RING
    }

    constructor (ids: seq<byte>)
      ensures Valid() && this.ids == ids && hitStatsCursor == reportCursor == 0
      ensures fresh(trueHits) && fresh(genHits) && fresh(performance)
      ensures fresh(trueHits.counts) && fresh(trueHits.ring) && fresh(genHits.counts) && fresh(genHits.ring)
    {
      hide ValidBank;
      this.ids := ids;
      var t := new CounterBank(|ids|);
      var g := new CounterBank(|ids|);
      trueHits, genHits := t, g;
      performance := new real[|ids|](_ => 0.0);
      hitStatsCursor, reportCursor := 0, 0;
      new;
      assert |trueHits.Value().counts| == |ids| && |genHits.Value().counts| == |ids|;
    }

    /** Takes one sample of every chip and moves on to the next slot; returns the hit rates it gives
        and keeps them for the next report. */
    method CheckHitCounters(trueResults: seq<Reading>, genResults: seq<Reading>) returns (percents: seq<real>)
      requires Valid() && |trueResults| == |genResults| == |ids|
      modifies this`hitStatsCursor, trueHits.counts, trueHits.ring, genHits.counts, genHits.ring, performance
      ensures Valid() && hitStatsCursor == Next(old(hitStatsCursor))
      ensures trueHits.Value() == Sample(old(trueHits.Value()), old(hitStatsCursor), trueResults)
      ensures genHits.Value() == Sample(old(genHits.Value()), old(hitStatsCursor), genResults)
      ensures var t, g := Deltas(old(trueHits.counts[..]), trueResults), Deltas(old(genHits.counts[..]), genResults);
              && performance[..] == Rated(old(performance[..]), genResults, t, g)
              && percents == Rated(seq(|ids|, _ => 0.0), genResults, t, g)
    {
      hide ValidBank, Sample;
      ghost var t, g := Deltas(trueHits.counts[..], trueResults), Deltas(genHits.counts[..], genResults);
      SampleSlot(trueHits.Value(), hitStatsCursor, trueResults);
      SampleSlot(genHits.Value(), hitStatsCursor, genResults);
      trueHits.Credit(hitStatsCursor, trueResults);
      genHits.Credit(hitStatsCursor, genResults);
      percents := Rate(genResults, t, g);
      hitStatsCursor := (hitStatsCursor + 1) % RING;
    }

    /** The hit rates of the current slot. */
    method Rate(genResults: seq<Reading>, ghost t: seq<nat>, ghost g: seq<nat>) returns (percents: seq<real>)
      requires |genResults| == |ids| == performance.Length == |t| == |g|
      requires hitStatsCursor < trueHits.ring.Length && trueHits.ring[hitStatsCursor] == t
      requires hitStatsCursor < genHits.ring.Length && genHits.ring[hitStatsCursor] == g
      modifies performance
      ensures performance[..] == Rated(old(performance[..]), genResults, t, g)
      ensures percents == Rated(seq(|ids|, _ => 0.0), genResults, t, g)
    {
      hide Rated;
      ghost var was, zero := performance[..], seq(|ids|, _ => 0.0);
      percents := seq(|ids|, _ => 0.0);
      ghost var rated, rates := Rated(was, genResults, t, g), Rated(zero, genResults, t, g);
      for i := 0 to |ids|
        invariant performance[..] == rated[..i] + was[i..]
        invariant percents == rates[..i] + zero[i..]
      {
        RatedStep(was, genResults, t, g, i);
        RatedStep(zero, genResults, t, g, i);
        var deltaThits, deltaGhits := trueHits.ring[hitStatsCursor][i], genHits.ring[hitStatsCursor][i];
        if genResults[i] != -1 && deltaGhits > 0 {
          var percent := (deltaThits as real) * 100.0 / (deltaGhits as real);
          percents := percents[i := percent];
          performance[i] := percent;
        }
      }
    }

    /** Reports the slots filled since the last report, if there are any, and the last hit rates. */
    method ReportHits() returns (msg: Option<HashRateUpdate>)
      requires Valid()
      modifies this`reportCursor
      ensures Valid() && reportCursor == hitStatsCursor
      ensures msg == None <==> old(reportCursor) == hitStatsCursor
      ensures msg.Some? ==> var zero := seq(CHIP_MAX, _ => 0);
              && msg.value.trueHit == ReportTable(zero, ids, trueHits.ring[..], old(reportCursor), hitStatsCursor)
              && msg.value.genHit == ReportTable(zero, ids, genHits.ring[..], old(reportCursor), hitStatsCursor)
              && msg.value.hitRate == RateTable(seq(CHIP_MAX, _ => 0.0), ids, performance[..], old(reportCursor),
                                                hitStatsCursor)
    {
      msg := None;
      if reportCursor != hitStatsCursor {
        var update := SumUnreported();
        msg := Some(update);
        reportCursor := hitStatsCursor;
      }
    }

    /** The message for the slots that are not reported yet. */
    method SumUnreported() returns (update: HashRateUpdate)
      requires Valid()
      ensures var zero := seq(CHIP_MAX, _ => 0);
              && update.trueHit == ReportTable(zero, ids, trueHits.ring[..], reportCursor, hitStatsCursor)
              && update.genHit == ReportTable(zero, ids, genHits.ring[..], reportCursor, hitStatsCursor)
              && update.hitRate == RateTable(seq(CHIP_MAX, _ => 0.0), ids, performance[..], reportCursor,
                                             hitStatsCursor)
    {
      hide ReportTable, AddByChip, RateTable, RateByChip, ValidBank;
      SlotsSized(trueHits.Value());
      SlotsSized(genHits.Value());
      var trueHit, genHit, hitRate := seq(CHIP_MAX, _ => 0), seq(CHIP_MAX, _ => 0), seq(CHIP_MAX, _ => 0.0);
      ghost var ts, gs, rs, end := trueHits.ring[..], genHits.ring[..], performance[..], hitStatsCursor;
      ghost var t := ReportTable(trueHit, ids, ts, reportCursor, end);
      ghost var g := ReportTable(genHit, ids, gs, reportCursor, end);
      ghost var r := RateTable(hitRate, ids, rs, reportCursor, end);
      var i: nat := reportCursor;
      while i != hitStatsCursor
        invariant i < RING && |trueHit| == |genHit| == |hitRate| == CHIP_MAX
        invariant ReportTable(trueHit, ids, ts, i, end) == t
        invariant ReportTable(genHit, ids, gs, i, end) == g
        invariant RateTable(hitRate, ids, rs, i, end) == r
        decreases (hitStatsCursor - i) % RING
      {
        TableStep(trueHit, ids, ts, i, end);
        TableStep(genHit, ids, gs, i, end);
        RateTableStep(hitRate, ids, rs, i, end);
        assert trueHits.ring[i] == ts[i] && genHits.ring[i] == gs[i];
        trueHit := AddStats(trueHit, trueHits.ring[i]);
        genHit := AddStats(genHit, genHits.ring[i]);
        hitRate := SetRates(hitRate);
        i := (i + 1) % RING;
      }
      TableDone(trueHit, ids, ts, i);
      TableDone(genHit, ids, gs, i);
      RateTableStep(hitRate, ids, rs, i, i);
      update := HashRateUpdate(trueHit, genHit, hitRate);
    }

    /** Enters the hit rates into the message, under the ids of the chips. */
    method SetRates(table: seq<real>) returns (t: seq<real>)
      requires |table| == CHIP_MAX && performance.Length == |ids|
      ensures t == RateByChip(table, ids, performance[..])
    {
      t := table;
      assert ids[0..] == ids && performance[0..] == performance[..];
      for j := 0 to |ids|
        invariant |t| == CHIP_MAX
        invariant RateByChip(t, ids[j..], performance[j..]) == RateByChip(table, ids, performance[..])
      {
        assert ids[j..][1..] == ids[j + 1..] && performance[j..][1..] == performance[j + 1..];
        t := t[ids[j] := performance[j]];
      }
    }

    /** Adds one slot to the message, under the ids of the chips. */
    method AddStats(table: seq<nat>, deltas: seq<nat>) returns (t: seq<nat>)
      requires |table| == CHIP_MAX && |deltas| == |ids|
      ensures t == AddByChip(table, ids, deltas)
    {
      t := table;
      for j := 0 to |ids|
        invariant |t| == CHIP_MAX && AddByChip(t, ids[j..], deltas[j..]) == AddByChip(table, ids, deltas)
      {
        var asicId := ids[j];
        t := t[asicId := t[asicId] + deltas[j]];
        assert ids[j..][1..] == ids[j + 1..] && deltas[j..][1..] == deltas[j + 1..];
      }
    }
  }

  lemma SlotsSized(b: Bank)
    requires ValidBank(b)
    ensures |b.ring| == RING && forall k :: 0 <= k < RING ==> |b.ring[k]| == |b.counts|
  {
  }

  lemma SampleSlot(b: Bank, cursor: nat, readings: seq<Reading>)
    requires ValidBank(b) && cursor < RING && |readings| == |b.counts|
    ensures Sample(b, cursor, readings).ring[cursor] == Deltas(b.counts, readings)
  {
  }

  lemma TableStep(table: seq<nat>, ids: seq<byte>, ring: seq<seq<nat>>, from: nat, to: nat)
    requires |table| == CHIP_MAX && |ring| == RING && from < RING && to < RING && from != to
    requires forall k :: 0 <= k < RING ==> |ring[k]| == |ids|
    ensures ReportTable(table, ids, ring, from, to)
            == ReportTable(AddByChip(table, ids, ring[from]), ids, ring, Next(from), to)
  {
  }

  lemma TableDone(table: seq<nat>, ids: seq<byte>, ring: seq<seq<nat>>, to: nat)
    requires |table| == CHIP_MAX && |ring| == RING && to < RING
    requires forall k :: 0 <= k < RING ==> |ring[k]| == |ids|
    ensures ReportTable(table, ids, ring, to, to) == table
  {
  }

  /** The message a report sends: hits and hit rates by chip id. */
  datatype HashRateUpdate = HashRateUpdate(trueHit: seq<nat>, genHit: seq<nat>, hitRate: seq<real>)
}
