/** Runs of samples and reports: what is credited, what is reported, and what can be lost. */
module HitLedger {
  import opened Bytes
  import opened HitRing

  datatype Event = Sampled(readings: seq<Reading>) | Reported

  /** A bank in use, with the books of the run: the samples not yet reported, and per chip the hits
      credited, reported and overwritten before they were reported. */
  datatype Books = Books(bank: Bank, report: nat, cursor: nat,
                         pending: seq<seq<nat>>, sampled: seq<nat>, reported: seq<nat>, lost: seq<nat>)
  {
    function Chips(): nat { |bank.counts| }
  }

  predicate Kept(b: Books) {
    && Holds(b.bank, b.report, b.cursor, b.pending)
    && (forall x :: x in b.pending ==> |x| == b.Chips())
    && |b.sampled| == |b.reported| == |b.lost| == b.Chips()
  }

  /** How many of the pending samples the ring no longer holds. */
  function Dropped(b: Books): nat {
    |b.pending| - |b.pending| % RING
  }

  predicate Fits(b: Books, e: Event) {
    e.Sampled? ==> |e.readings| == b.Chips()
  }

  function Step(b: Books, e: Event): (b': Books)
    requires Kept(b) && Fits(b, e)
    ensures Kept(b') && b'.Chips() == b.Chips()
  {
    match e
    case Sampled(readings) =>
      var d := Deltas(b.bank.counts, readings);
      SampleHolds(b.bank, b.report, b.cursor, b.pending, readings);
      Books(Sample(b.bank, b.cursor, readings), b.report, Next(b.cursor), b.pending + [d],
            AddUp(b.sampled, d), b.reported, b.lost)
    case Reported =>
      assert forall x :: x in b.pending[..Dropped(b)] ==> x in b.pending;
      Books(b.bank, b.cursor, b.cursor, [], b.sampled,
            AddUp(b.reported, RingSum(b.bank.ring, b.report, b.cursor, b.Chips())),
            AddUp(b.lost, Total(b.pending[..Dropped(b)], b.Chips())))
  }

  predicate AllFit(chips: nat, events: seq<Event>) {
    forall e :: e in events ==> e.Sampled? ==> |e.readings| == chips
  }

  function Run(b: Books, events: seq<Event>): (b': Books)
    requires Kept(b) && AllFit(b.Chips(), events)
    ensures Kept(b') && b'.Chips() == b.Chips()
    decreases |events|
  {
    if events == [] then b
    else
      assert events[0] in events && forall e :: e in events[1..] ==> e in events;
      Run(Step(b, events[0]), events[1..])
  }

  /** Every hit credited has been reported, lost to the ring, or is still pending. */
  ghost predicate Balanced(b: Books)
    requires Kept(b)
  {
    b.sampled == AddUp(AddUp(b.reported, b.lost), Total(b.pending, b.Chips()))
  }

  lemma {:induction false} TotalConcat(a: seq<seq<nat>>, b: seq<seq<nat>>, n: nat)
    requires (forall x :: x in a ==> |x| == n) && (forall x :: x in b ==> |x| == n)
    ensures Total(a + b, n) == AddUp(Total(a, n), Total(b, n))
  {
    if a == [] {
      assert a + b == b;
    } else {
      assert a[0] in a && forall x :: x in a[1..] ==> x in a;
      TotalConcat(a[1..], b, n);
      assert (a + b)[1..] == a[1..] + b;
    }
  }

  lemma TotalOne(d: seq<nat>)
    ensures Total([d], |d|) == d
  {
  }

  lemma SampleBalances(b: Books, e: Event)
    requires Kept(b) && Fits(b, e) && Balanced(b) && e.Sampled?
    ensures Balanced(Step(b, e))
  {
    hide Deltas, Sample, Holds, Total;
    var d := Deltas(b.bank.counts, e.readings);
    TotalConcat(b.pending, [d], b.Chips());
    TotalOne(d);
  }

  lemma ReportBalances(b: Books)
    requires Kept(b) && Balanced(b)
    ensures Balanced(Step(b, Reported))
  {
    hide Holds, Total, RingSum;
    var n := b.Chips();
    ReportIsTail(b.bank, b.report, b.cursor, b.pending);
    SplitPending(b.pending, Dropped(b), n);
    NothingLeft(n);
  }

  lemma SplitPending(pending: seq<seq<nat>>, k: nat, n: nat)
    requires k <= |pending| && forall x :: x in pending ==> |x| == n
    ensures (forall x :: x in pending[..k] ==> |x| == n) && (forall x :: x in pending[k..] ==> |x| == n)
    ensures Total(pending, n) == AddUp(Total(pending[..k], n), Total(pending[k..], n))
  {
    hide Total, AddUp;
    assert forall x :: x in pending[..k] ==> x in pending;
    assert forall x :: x in pending[k..] ==> x in pending;
    assert pending == pending[..k] + pending[k..];
    TotalConcat(pending[..k], pending[k..], n);
  }

  /** Conservation, whatever the order of samples and reports. */
  lemma {:induction false} RunBalances(b: Books, events: seq<Event>)
    requires Kept(b) && AllFit(b.Chips(), events) && Balanced(b)
    ensures Balanced(Run(b, events))
    decreases |events|
  {
    hide Balanced, Step, Kept;
    if events != [] {
      assert events[0] in events && forall e :: e in events[1..] ==> e in events;
      if events[0].Sampled? { SampleBalances(b, events[0]); } else { ReportBalances(b); }
      RunBalances(Step(b, events[0]), events[1..]);
    }
  }

  /** At every report fewer than twelve samples are pending, `k` of them from before. */
  predicate Timely(events: seq<Event>, k: nat) {
    if events == [] then true
    else if events[0].Sampled? then Timely(events[1..], k + 1)
    else k < RING && Timely(events[1..], 0)
  }

  /** With timely reports the ring loses nothing: what was credited is reported or still pending. */
  lemma {:induction false} NothingLost(b: Books, events: seq<Event>)
    requires Kept(b) && AllFit(b.Chips(), events) && Timely(events, |b.pending|)
    ensures Run(b, events).lost == b.lost
    decreases |events|
  {
    hide Step, Kept;
    if events != [] {
      assert events[0] in events && forall e :: e in events[1..] ==> e in events;
      StepLoses(b, events[0]);
      NothingLost(Step(b, events[0]), events[1..]);
    }
  }

  lemma StepLoses(b: Books, e: Event)
    requires Kept(b) && Fits(b, e) && (e.Reported? ==> |b.pending| < RING)
    ensures Step(b, e).lost == b.lost
    ensures |Step(b, e).pending| == if e.Sampled? then |b.pending| + 1 else 0
  {
  }

  /** A late report loses exactly the samples that do not fit: all but the last |pending| mod 12. */
  lemma LateReport(b: Books)
    requires Kept(b)
    ensures (|b.pending| < RING <==> Dropped(b) == 0)
    ensures |b.pending| == RING ==> Step(b, Reported).reported == b.reported
  {
  }

  // Exactly the runs that lose nothing

  predicate NoHits(sample: seq<nat>) {
    forall i :: 0 <= i < |sample| ==> sample[i] == 0
  }

  /** No sample that a report drops credits a hit. */
  predicate Harmless(b: Books, events: seq<Event>)
    requires Kept(b) && AllFit(b.Chips(), events)
    decreases |events|
  {
    events == [] ||
    (assert events[0] in events && forall e :: e in events[1..] ==> e in events;
     && (events[0].Reported? ==> forall x :: x in b.pending[..Dropped(b)] ==> NoHits(x))
     && Harmless(Step(b, events[0]), events[1..]))
  }

  /** Every sample that a report drops credits a hit. */
  predicate Productive(b: Books, events: seq<Event>)
    requires Kept(b) && AllFit(b.Chips(), events)
    decreases |events|
  {
    events == [] ||
    (assert events[0] in events && forall e :: e in events[1..] ==> e in events;
     && (events[0].Reported? ==> forall x :: x in b.pending[..Dropped(b)] ==> !NoHits(x))
     && Productive(Step(b, events[0]), events[1..]))
  }

  lemma {:induction false} TotalNoHits(samples: seq<seq<nat>>, n: nat)
    requires forall x :: x in samples ==> |x| == n
    ensures NoHits(Total(samples, n)) <==> forall x :: x in samples ==> NoHits(x)
  {
    if samples != [] {
      assert samples[0] in samples && forall x :: x in samples[1..] ==> x in samples;
      TotalNoHits(samples[1..], n);
      AddNoHits(samples[0], Total(samples[1..], n));
      assert forall x :: x in samples ==> x == samples[0] || x in samples[1..];
    }
  }

  lemma AddNoHits(a: seq<nat>, b: seq<nat>)
    requires |a| == |b|
    ensures NoHits(AddUp(a, b)) <==> NoHits(a) && NoHits(b)
    ensures AddUp(a, b) == a <==> NoHits(b)
  {
    forall i | 0 <= i < |a| ensures AddUp(a, b)[i] == a[i] + b[i] {
      AddUpAt(a, b, i);
    }
    if NoHits(b) {
      assert forall i :: 0 <= i < |a| ==> AddUp(a, b)[i] == a[i];
    } else {
      var i :| 0 <= i < |b| && b[i] != 0;
      assert AddUp(a, b)[i] != a[i];
    }
  }

  lemma AddUpAt(a: seq<nat>, b: seq<nat>, i: nat)
    requires |a| == |b| && i < |a|
    ensures AddUp(a, b)[i] == a[i] + b[i]
  {
  }

  /** A loss is never made good. */
  predicate NoLess(a: seq<nat>, b: seq<nat>) {
    |a| == |b| && forall i :: 0 <= i < |a| ==> a[i] <= b[i]
  }

  lemma StepLost(b: Books, e: Event)
    requires Kept(b) && Fits(b, e)
    ensures NoLess(b.lost, Step(b, e).lost)
    ensures Step(b, e).lost == b.lost
            <==> (e.Reported? ==> forall x :: x in b.pending[..Dropped(b)] ==> NoHits(x))
  {
    hide Holds, RingSum, Total, NoHits, AddUp;
    if e.Reported? {
      var dropped, n := b.pending[..Dropped(b)], b.Chips();
      assert forall x :: x in dropped ==> x in b.pending;
      TotalNoHits(dropped, n);
      AddNoHits(b.lost, Total(dropped, n));
      forall i | 0 <= i < n ensures b.lost[i] <= AddUp(b.lost, Total(dropped, n))[i] {
        AddUpAt(b.lost, Total(dropped, n), i);
      }
    }
  }

  lemma {:induction false} LostGrows(b: Books, events: seq<Event>)
    requires Kept(b) && AllFit(b.Chips(), events)
    ensures NoLess(b.lost, Run(b, events).lost)
    decreases |events|
  {
    hide Step, Kept;
    if events != [] {
      assert events[0] in events && forall e :: e in events[1..] ==> e in events;
      StepLost(b, events[0]);
      LostGrows(Step(b, events[0]), events[1..]);
    }
  }

  lemma Squeezed(a: seq<nat>, b: seq<nat>, c: seq<nat>)
    requires NoLess(a, b) && NoLess(b, c) && c == a
    ensures b == a
  {
  }

  /** A run loses no hit if and only if no report of it drops a sample that credits one. */
  lemma {:induction false} LossExactly(b: Books, events: seq<Event>)
    requires Kept(b) && AllFit(b.Chips(), events)
    ensures Run(b, events).lost == b.lost <==> Harmless(b, events)
    decreases |events|
  {
    hide Step, Kept, NoLess, NoHits;
    if events != [] {
      assert events[0] in events && forall e :: e in events[1..] ==> e in events;
      StepLost(b, events[0]);
      LostGrows(Step(b, events[0]), events[1..]);
      LossExactly(Step(b, events[0]), events[1..]);
      if Run(b, events).lost == b.lost {
        Squeezed(b.lost, Step(b, events[0]).lost, Run(b, events).lost);
      }
    }
  }

  /** If every sample that a report drops credits a hit, a run loses nothing if and only if at every
      report fewer than twelve samples are pending. */
  lemma TimelyExactly(b: Books, events: seq<Event>)
    requires Kept(b) && AllFit(b.Chips(), events) && Productive(b, events)
    ensures Run(b, events).lost == b.lost <==> Timely(events, |b.pending|)
  {
    LossExactly(b, events);
    HarmlessIsTimely(b, events);
  }

  lemma {:induction false} HarmlessIsTimely(b: Books, events: seq<Event>)
    requires Kept(b) && AllFit(b.Chips(), events) && Productive(b, events)
    ensures Harmless(b, events) <==> Timely(events, |b.pending|)
    decreases |events|
  {
    hide Step, Kept, NoHits;
    if events != [] {
      assert events[0] in events && forall e :: e in events[1..] ==> e in events;
      StepPending(b, events[0]);
      HarmlessIsTimely(Step(b, events[0]), events[1..]);
      LateReport(b);
      assert Dropped(b) > 0 ==> b.pending[0] in b.pending[..Dropped(b)];
    }
  }

  lemma StepPending(b: Books, e: Event)
    requires Kept(b) && Fits(b, e)
    ensures |Step(b, e).pending| == if e.Sampled? then |b.pending| + 1 else 0
  {
  }

  function Samples(chips: nat, events: seq<Event>): (s: seq<seq<Reading>>)
    requires AllFit(chips, events)
    ensures forall x :: x in s ==> |x| == chips
    decreases |events|
  {
    if events == [] then []
    else
      assert events[0] in events && forall e :: e in events[1..] ==> e in events;
      (if events[0].Sampled? then [events[0].readings] else []) + Samples(chips, events[1..])
  }

  predicate SameChips(counts: seq<uint32>, samples: seq<seq<Reading>>) {
    forall x :: x in samples ==> |x| == |counts|
  }

  function After(counts: seq<uint32>, samples: seq<seq<Reading>>): (c: seq<uint32>)
    requires SameChips(counts, samples)
    ensures |c| == |counts|
    decreases |samples|
  {
    if samples == [] then counts
    else
      assert samples[0] in samples && forall x :: x in samples[1..] ==> x in samples;
      After(Latest(counts, samples[0]), samples[1..])
  }

  /** The hits credited to chip i over a list of samples. */
  function Credit(counts: seq<uint32>, samples: seq<seq<Reading>>, i: nat): nat
    requires SameChips(counts, samples) && i < |counts|
    decreases |samples|
  {
    if samples == [] then 0
    else
      assert samples[0] in samples && forall x :: x in samples[1..] ==> x in samples;
      Deltas(counts, samples[0])[i] + Credit(Latest(counts, samples[0]), samples[1..], i)
  }

  /** No sample of chip i is clamped: between two answers its counter advances at most 2000. */
  predicate Credible(count: uint32, readings: seq<Reading>)
    decreases |readings|
  {
    if readings == [] then true
    else if readings[0] == -1 then Credible(count, readings[1..])
    else Advance(count, readings[0]) <= HIT_MAX && Credible(readings[0], readings[1..])
  }

  function OfChip(samples: seq<seq<Reading>>, i: nat): (r: seq<Reading>)
    requires forall x :: x in samples ==> i < |x|
    ensures |r| == |samples|
  {
    seq(|samples|, k requires 0 <= k < |samples| => assert samples[k] in samples; samples[k][i])
  }

  lemma AdvanceChain(a: uint32, b: uint32, c: uint32)
    ensures (Advance(a, b) + Advance(b, c)) % U32 == Advance(a, c)
  {
  }

  lemma AddAdvance(d: nat, credit: nat, b: uint32, c: uint32)
    requires credit % U32 == Advance(b, c)
    ensures (d + credit) % U32 == (d + Advance(b, c)) % U32
  {
  }

  /** Unclamped credits telescope to the advance of the counter, even across missed answers. */
  lemma {:induction false} Telescopes(counts: seq<uint32>, samples: seq<seq<Reading>>, i: nat)
    requires SameChips(counts, samples) && i < |counts|
    requires Credible(counts[i], OfChip(samples, i))
    ensures Credit(counts, samples, i) % U32 == Advance(counts[i], After(counts, samples)[i])
    ensures Credit(counts, samples, i) <= HIT_MAX * |samples|
    decreases |samples|
  {
    if samples != [] {
      assert samples[0] in samples && forall x :: x in samples[1..] ==> x in samples;
      assert OfChip(samples, i)[0] == samples[0][i] && OfChip(samples, i)[1..] == OfChip(samples[1..], i);
      var next := Latest(counts, samples[0]);
      Telescopes(next, samples[1..], i);
      DeltaAt(counts, samples[0], i);
      TelescopeStep(counts[i], next[i], After(next, samples[1..])[i], Deltas(counts, samples[0])[i],
                    Credit(next, samples[1..], i));
    }
  }

  lemma TelescopeStep(a: uint32, b: uint32, c: uint32, d: nat, credit: nat)
    requires d == Advance(a, b) && credit % U32 == Advance(b, c)
    ensures (d + credit) % U32 == Advance(a, c)
  {
    AddAdvance(d, credit, b, c);
    AdvanceChain(a, b, c);
  }

  lemma StepCredit(b: Books, e: Event, rest: seq<seq<Reading>>, i: nat)
    requires Kept(b) && Fits(b, e) && SameChips(b.bank.counts, rest) && i < b.Chips()
    ensures var samples := (if e.Sampled? then [e.readings] else []) + rest;
            var b' := Step(b, e);
            && SameChips(b.bank.counts, samples) && SameChips(b'.bank.counts, rest)
            && After(b.bank.counts, samples) == After(b'.bank.counts, rest)
            && b'.sampled[i] + Credit(b'.bank.counts, rest, i) == b.sampled[i] + Credit(b.bank.counts, samples, i)
  {
    hide Holds, Total, RingSum, Deltas, Latest, Credit, After, AddUp;
    if e.Sampled? {
      FirstCredit(b.bank.counts, e.readings, rest, i);
      AddUpAt(b.sampled, Deltas(b.bank.counts, e.readings), i);
    } else {
      assert [] + rest == rest;
    }
  }

  lemma FirstCredit(counts: seq<uint32>, readings: seq<Reading>, rest: seq<seq<Reading>>, i: nat)
    requires |readings| == |counts| && SameChips(counts, rest) && i < |counts|
    ensures SameChips(counts, [readings] + rest)
    ensures After(counts, [readings] + rest) == After(Latest(counts, readings), rest)
    ensures Credit(counts, [readings] + rest, i)
            == Deltas(counts, readings)[i] + Credit(Latest(counts, readings), rest, i)
  {
  }

  /** The credit entered in the books is the credit of the samples, and the counters end as read. */
  lemma {:induction false} BooksCredit(b: Books, events: seq<Event>, i: nat)
    requires Kept(b) && AllFit(b.Chips(), events) && i < b.Chips()
    ensures Run(b, events).sampled[i] == b.sampled[i] + Credit(b.bank.counts, Samples(b.Chips(), events), i)
    ensures Run(b, events).bank.counts == After(b.bank.counts, Samples(b.Chips(), events))
    decreases |events|
  {
    hide Kept, Step, After, Credit;
    if events == [] {
      NoSamples(b.bank.counts, i);
    } else {
      assert events[0] in events && forall e :: e in events[1..] ==> e in events;
      BooksCredit(Step(b, events[0]), events[1..], i);
      StepCredit(b, events[0], Samples(b.Chips(), events[1..]), i);
    }
  }

  lemma NoSamples(counts: seq<uint32>, i: nat)
    requires i < |counts|
    ensures After(counts, []) == counts && Credit(counts, [], i) == 0
  {
  }

  /** A bank taken into use. */
  function Fresh(bank: Bank, cursor: nat): (b: Books)
    requires ValidBank(bank) && cursor < RING
    ensures Kept(b) && b.bank == bank
  {
    var zero := seq(|bank.counts|, _ => 0);
    Books(bank, cursor, cursor, [], zero, zero, zero)
  }

  /** End to end: after a run of timely reports with nothing pending, a chip whose samples were all
      credible has been reported exactly the advance of its hardware counter. */
  lemma ReportedIsAdvance(bank: Bank, cursor: nat, events: seq<Event>, i: nat)
    requires ValidBank(bank) && cursor < RING && i < |bank.counts|
    requires AllFit(|bank.counts|, events) && Timely(events, 0)
    requires Run(Fresh(bank, cursor), events).pending == []
    requires Credible(bank.counts[i], OfChip(Samples(|bank.counts|, events), i))
    ensures var end := Run(Fresh(bank, cursor), events);
            end.reported[i] % U32 == Advance(bank.counts[i], end.bank.counts[i])
  {
    hide Step, Total, Samples, Run, After, Credit, Holds, Advance;
    var b, n := Fresh(bank, cursor), |bank.counts|;
    NothingLeft(n);
    RunBalances(b, events);
    NothingLost(b, events);
    BooksCredit(b, events, i);
    Telescopes(bank.counts, Samples(n, events), i);
    ZeroTotal(Run(b, events), i);
  }

  lemma ZeroTotal(b: Books, i: nat)
    requires Kept(b) && Balanced(b) && b.pending == [] && i < b.Chips()
    ensures b.sampled[i] == b.reported[i] + b.lost[i]
  {
  }
}
