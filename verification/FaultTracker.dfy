/** When a chip that does not answer is taken out of use, and when it gets another chance. */
module FaultTracker {
  import opened Bytes
  import opened Basics

  const FAULTY_WINDOW := 10 * 1000
  const FAULTY_COUNT: nat := 10
  const CLEAR_AFTER := 10 * 60 * 1000
  const CLEAR_LIMIT := 3

  /** The failures of one chip since `first`, in milliseconds. */
  datatype Track = Track(first: nat, counts: nat, isFaulty: bool, falseBadCheck: nat)

  /** The failures of all chips, and when a chip was last marked faulty. */
  datatype Health = Health(tracks: map<byte, Track>, lastMarking: nat)

  function TrackOf(h: Health, id: byte): Option<Track> {
    if id in h.tracks then Some(h.tracks[id]) else None
  }

  predicate IsFaulty(h: Health, id: byte) {
    id in h.tracks && h.tracks[id].isFaulty
  }

  /** One more failed read. */
  function Blamed(t: Option<Track>, now: nat): Track {
    match t
    case None => Track(now, 1, false, 0)
    case Some(t) =>
      if now < t.first + FAULTY_WINDOW then
        t.(counts := t.counts + 1, isFaulty := t.isFaulty || t.counts + 1 == FAULTY_COUNT)
      else Track(now, 1, false, 0)
  }

  function Blame(h: Health, id: byte, now: nat): Health {
    Health(h.tracks[id := Blamed(TrackOf(h, id), now)],
           if id in h.tracks && now < h.tracks[id].first + FAULTY_WINDOW && h.tracks[id].counts + 1 == FAULTY_COUNT
           then now else h.lastMarking)
  }

  predicate MayClear(h: Health, id: byte, now: nat) {
    id in h.tracks && h.tracks[id].falseBadCheck < CLEAR_LIMIT && now > h.lastMarking + CLEAR_AFTER
  }

  function Clear(h: Health, id: byte, now: nat): Health {
    if MayClear(h, id, now) then
      h.(tracks := h.tracks[id := Track(now, 1, false, h.tracks[id].falseBadCheck + 1)])
    else h
  }

  /** What holds of a track that is blamed only while its chip is in use. */
  predicate Sane(t: Option<Track>) {
    t.Some? ==> 1 <= t.value.counts <= FAULTY_COUNT && (t.value.isFaulty <==> t.value.counts == FAULTY_COUNT)
  }

  /** The track after failed reads at the given times; a faulty chip is not read any more. */
  function Feed(t: Option<Track>, times: seq<nat>): (r: Option<Track>)
    requires Sane(t)
    ensures Sane(r)
    decreases |times|
  {
    if times == [] || (t.Some? && t.value.isFaulty) then t else Feed(Some(Blamed(t, times[0])), times[1..])
  }

  predicate Ascending(times: seq<nat>) {
    forall i, j :: 0 <= i < j < |times| ==> times[i] <= times[j]
  }

  predicate Out(t: Option<Track>) {
    t.Some? && t.value.isFaulty
  }

  /** Within the window of a track, the failures it lacks are what marks the chip. */
  lemma {:induction false} WindowExactly(t: Track, times: seq<nat>)
    requires Sane(Some(t)) && forall x :: x in times ==> x < t.first + FAULTY_WINDOW
    ensures Out(Feed(Some(t), times)) <==> |times| + t.counts >= FAULTY_COUNT
    decreases |times|
  {
    if !t.isFaulty && times != [] {
      assert times[0] in times && forall x :: x in times[1..] ==> x in times;
      WindowExactly(Blamed(Some(t), times[0]), times[1..]);
    }
  }

  /** How many of the first failures still fall into the window of the track. */
  function Leading(t: Option<Track>, times: seq<nat>): (m: nat)
    ensures m <= |times|
  {
    if t.Some? && times != [] && times[0] < t.value.first + FAULTY_WINDOW then 1 + Leading(t, times[1..]) else 0
  }

  /** Failures within ten seconds mark a chip in use if and only if those in the window that is open
      bring its count to ten, or there are ten behind that window. */
  lemma {:induction false} BurstExactly(t: Option<Track>, times: seq<nat>)
    requires Sane(t) && !Out(t) && Ascending(times)
    requires times != [] ==> times[|times| - 1] < times[0] + FAULTY_WINDOW
    ensures var m := Leading(t, times);
            Out(Feed(t, times))
            <==> (t.Some? && m + t.value.counts >= FAULTY_COUNT) || |times| - m >= FAULTY_COUNT
    decreases |times|
  {
    if times != [] {
      var next, rest := Blamed(t, times[0]), times[1..];
      if t.Some? && times[0] < t.value.first + FAULTY_WINDOW {
        LeadingNext(t.value, next, rest);
        if !Out(Some(next)) {
          BurstExactly(Some(next), rest);
        }
      } else {
        WindowExactly(next, rest);
      }
    }
  }

  lemma {:induction false} LeadingNext(t: Track, u: Track, times: seq<nat>)
    requires t.first == u.first
    ensures Leading(Some(t), times) == Leading(Some(u), times)
  {
    if times != [] {
      LeadingNext(t, u, times[1..]);
    }
  }

  /** Eighteen failures within ten seconds always take a chip out of use, whatever came before. */
  lemma EighteenMark(t: Option<Track>, times: seq<nat>)
    requires Sane(t) && Ascending(times) && |times| >= 18
    requires times[|times| - 1] < times[0] + FAULTY_WINDOW
    ensures Out(Feed(t, times))
  {
    if !Out(t) {
      BurstExactly(t, times);
    }
  }

  /** Seventeen need not: the window is counted from its first failure and then starts afresh. */
  lemma SeventeenMayNot()
    ensures var burst: seq<nat> := seq(8, _ => 9000) + seq(9, _ => 10000);
            Ascending([0] + burst) && |burst| == 17 && !Out(Feed(None, [0] + burst))
  {
    var late: seq<nat> := seq(9, _ => 10000);
    var t1 := Track(0, 1, false, 0);
    Repeated(t1, 9000, 8, late);
    var burst: seq<nat> := seq(8, _ => 9000) + late;
    assert ([0] + burst)[1..] == burst;
    assert late[1..] == seq(8, _ => 10000);
    Repeated(Track(10000, 1, false, 0), 10000, 8, []);
    assert late[1..] + [] == late[1..];
    assert Blamed(Some(Track(0, 9, false, 0)), 10000) == Track(10000, 1, false, 0);
  }

  lemma {:induction false} Repeated(t: Track, time: nat, n: nat, rest: seq<nat>)
    requires Sane(Some(t)) && t.counts + n < FAULTY_COUNT && time < t.first + FAULTY_WINDOW
    ensures Feed(Some(t), seq(n, _ => time) + rest) == Feed(Some(t.(counts := t.counts + n)), rest)
    decreases n
  {
    var times: seq<nat> := seq(n, _ => time);
    if n == 0 {
      assert times + rest == rest;
    } else {
      assert (times + rest)[1..] == seq(n - 1, _ => time) + rest;
      Repeated(Blamed(Some(t), time), time, n - 1, rest);
    }
  }

  /** After a second chance nine failures within ten seconds are enough, and fewer are not. */
  lemma NineAfterClearing(h: Health, id: byte, cleared: nat, times: seq<nat>)
    requires MayClear(h, id, cleared) && forall x :: x in times ==> x < cleared + FAULTY_WINDOW
    ensures Out(Feed(TrackOf(Clear(h, id, cleared), id), times)) <==> |times| >= FAULTY_COUNT - 1
  {
    WindowExactly(Clear(h, id, cleared).tracks[id], times);
  }

  // Runs of failures and second chances, of all chips

  datatype Event = Failed(id: byte, time: nat) | Chance(id: byte, time: nat)

  /** A chip is offered a second chance only while it is marked. */
  function Step(h: Health, e: Event): Health {
    match e
    case Failed(id, time) => Blame(h, id, time)
    case Chance(id, time) => if IsFaulty(h, id) then Clear(h, id, time) else h
  }

  function RunAll(h: Health, es: seq<Event>): Health
    decreases |es|
  {
    if es == [] then h else RunAll(Step(h, es[0]), es[1..])
  }

  /** What happened to one chip: a failure, or a second chance that it got. */
  datatype Entry = Entry(time: nat, cleared: bool)

  function EntryOf(h: Health, id: byte, e: Event): seq<Entry> {
    if e.id != id then []
    else match e
      case Failed(_, time) => [Entry(time, false)]
      case Chance(_, time) => if IsFaulty(h, id) && MayClear(h, id, time) then [Entry(time, true)] else []
  }

  function History(h: Health, id: byte, es: seq<Event>): seq<Entry>
    decreases |es|
  {
    if es == [] then [] else EntryOf(h, id, es[0]) + History(Step(h, es[0]), id, es[1..])
  }

  /** Nine failures within ten seconds of an earlier failure or of a second chance. */
  predicate HasBurst(past: seq<Entry>) {
    exists i :: 0 <= i <= |past| - FAULTY_COUNT && BurstAt(past, i)
  }

  predicate BurstAt(past: seq<Entry>, i: nat)
    requires i <= |past| - FAULTY_COUNT
  {
    forall k :: i < k < i + FAULTY_COUNT ==> !past[k].cleared && past[k].time < past[i].time + FAULTY_WINDOW
  }

  /** A track counts the second chance or failure its window began with, and all failures since. */
  predicate Records(t: Option<Track>, past: seq<Entry>) {
    t.Some? ==>
      var i := |past| - t.value.counts;
      && 0 <= i < |past| && past[i].time == t.value.first
      && (forall k :: i < k < |past| ==> !past[k].cleared && past[k].time < t.value.first + FAULTY_WINDOW)
      && (t.value.isFaulty ==> t.value.counts >= FAULTY_COUNT)
  }

  lemma StepRecords(h: Health, id: byte, past: seq<Entry>, e: Event)
    requires Records(TrackOf(h, id), past)
    ensures Records(TrackOf(Step(h, e), id), past + EntryOf(h, id, e))
  {
    if EntryOf(h, id, e) == [] {
      assert past + [] == past;
    }
  }

  lemma {:induction false} RunRecords(h: Health, id: byte, past: seq<Entry>, es: seq<Event>)
    requires Records(TrackOf(h, id), past)
    ensures Records(TrackOf(RunAll(h, es), id), past + History(h, id, es))
    decreases |es|
  {
    hide Records, Step, EntryOf;
    if es == [] {
      assert past + [] == past;
    } else {
      StepRecords(h, id, past, es[0]);
      RunRecords(Step(h, es[0]), id, past + EntryOf(h, id, es[0]), es[1..]);
      assert past + EntryOf(h, id, es[0]) + History(Step(h, es[0]), id, es[1..])
          == past + (EntryOf(h, id, es[0]) + History(Step(h, es[0]), id, es[1..]));
    }
  }

  /** Over every run: no chip is taken out of use without nine failures within ten seconds of an
      earlier failure or of its last second chance. */
  lemma MarkedNeedsBurst(id: byte, es: seq<Event>)
    requires IsFaulty(RunAll(Health(map[], 0), es), id)
    ensures HasBurst(History(Health(map[], 0), id, es))
  {
    hide RunAll, History;
    var h, past := Health(map[], 0), History(Health(map[], 0), id, es);
    RunRecords(h, id, [], es);
    assert [] + past == past;
    assert BurstAt(past, |past| - RunAll(h, es).tracks[id].counts);
  }

  /** The times at which failures took a chip out of use. */
  function Markings(h: Health, es: seq<Event>): seq<nat>
    decreases |es|
  {
    if es == [] then []
    else (if es[0].Failed? && !IsFaulty(h, es[0].id) && IsFaulty(Step(h, es[0]), es[0].id) then [es[0].time] else [])
         + Markings(Step(h, es[0]), es[1..])
  }

  /** A marked chip has failed ten times. */
  predicate CountsAgree(h: Health) {
    forall id :: id in h.tracks && h.tracks[id].isFaulty ==> h.tracks[id].counts >= FAULTY_COUNT
  }

  lemma StepMarks(h: Health, e: Event)
    requires CountsAgree(h)
    ensures CountsAgree(Step(h, e))
    ensures Step(h, e).lastMarking == if e.Failed? && !IsFaulty(h, e.id) && IsFaulty(Step(h, e), e.id) then e.time
                                      else h.lastMarking
  {
  }

  /** Over every run the time that is kept is that of the last marking, of whichever chip. */
  lemma {:induction false} LastMarkingIs(h: Health, es: seq<Event>)
    requires CountsAgree(h)
    ensures CountsAgree(RunAll(h, es))
    ensures var ms := Markings(h, es);
            RunAll(h, es).lastMarking == if ms == [] then h.lastMarking else ms[|ms| - 1]
    decreases |es|
  {
    hide Step, CountsAgree, IsFaulty;
    if es != [] {
      StepMarks(h, es[0]);
      LastMarkingIs(Step(h, es[0]), es[1..]);
    }
  }

  /** In every run a marked chip gets a second chance if and only if it was cleared fewer than three
      times and more than ten minutes have gone by since the last marking of any chip. */
  lemma SecondChanceExactly(es: seq<Event>, id: byte, time: nat)
    requires IsFaulty(RunAll(Health(map[], 0), es), id)
    ensures var h, ms := RunAll(Health(map[], 0), es), Markings(Health(map[], 0), es);
            !IsFaulty(Step(h, Chance(id, time)), id)
            <==> h.tracks[id].falseBadCheck < 3 && time > (if ms == [] then 0 else ms[|ms| - 1]) + 600_000
  {
    hide RunAll, Markings;
    LastMarkingIs(Health(map[], 0), es);
  }

  /** A chip cleared three times stays out for good: nothing that happens to other chips and no
      further offer of a second chance changes its track. It is not read, so it does not fail. */
  lemma {:induction false} ThreeClearingsAreFinal(h: Health, id: byte, es: seq<Event>)
    requires IsFaulty(h, id) && h.tracks[id].falseBadCheck >= CLEAR_LIMIT
    requires forall e :: e in es && e.Failed? ==> e.id != id
    ensures TrackOf(RunAll(h, es), id) == TrackOf(h, id) && IsFaulty(RunAll(h, es), id)
    decreases |es|
  {
    if es != [] {
      assert es[0] in es && forall e :: e in es[1..] ==> e in es;
      ThreeClearingsAreFinal(Step(h, es[0]), id, es[1..]);
    }
  }

  /** But the clearings are counted only as long as each new failure comes within ten seconds of the
      clearing: a later one starts a new track with a clean record. */
  lemma ClearingsForgotten(h: Health, id: byte, cleared: nat, failed: nat)
    requires MayClear(h, id, cleared) && failed >= cleared
    ensures Blame(Clear(h, id, cleared), id, failed).tracks[id].falseBadCheck
            == if failed < cleared + FAULTY_WINDOW then h.tracks[id].falseBadCheck + 1 else 0
  {
  }
}
