/** Claims about every run of the read tracker. */
module TrackerRuns {
  import opened Basics
  import opened Bytes
  import opened ReadTracker
  import opened TrackerInvariant
  import opened TrackerSteps
  import opened TrackerCompleteness

  /** The atomic steps: the writer submits a read, the reader loop turns or counts a response, the
      checker scans. */
  datatype Event<K> =
    | Submission(k: K, targets: seq<byte>, addrs: seq<byte>, now: nat)
    | Response(a: Answer, now: nat)
    | ReaderTurn(now: nat)
    | TimeoutScan(now: nat)

  /** Every submission is a command object of its own. */
  predicate FreshIn<K>(e: Event<K>, s: Tracker<K>) {
    e.Submission? ==> e.k !in s.cmds
  }

  ghost function Step<K>(s: Tracker<K>, e: Event<K>): (s': Tracker<K>)
    requires Inv(s) && FreshIn(e, s)
    ensures Inv(s')
  {
    match e
    case Submission(k, targets, addrs, now) =>
      SubmitKeeps(s, k, targets, addrs, now);
      Submit(s, k, targets, addrs, now)
    case Response(a, now) =>
      RespondKeeps(s, a, now);
      Respond(s, a, now)
    case ReaderTurn(now) => s.(clock := Tick(s.clock, now))
    case TimeoutScan(now) =>
      ScanKeeps(s, now);
      Scan(s, now)
  }

  ghost predicate Possible<K>(s: Tracker<K>, es: seq<Event<K>>)
    requires Inv(s)
    decreases |es|
  {
    es == [] || (FreshIn(es[0], s) && Possible(Step(s, es[0]), es[1..]))
  }

  ghost function RunAll<K>(s: Tracker<K>, es: seq<Event<K>>): (s': Tracker<K>)
    requires Inv(s) && Possible(s, es)
    ensures Inv(s')
    decreases |es|
  {
    if es == [] then s else RunAll(Step(s, es[0]), es[1..])
  }


  // Exactly one value per command

  /** Submitted commands stay known, numbered and unchanged in what they ask. */
  ghost predicate Extends<K>(s: Tracker<K>, s': Tracker<K>) {
    forall k :: k in s.cmds ==>
      && k in s'.cmds && s'.cmds[k].targets == s.cmds[k].targets && s'.cmds[k].addrs == s.cmds[k].addrs
      && s.cmds[k].requestTime <= s'.cmds[k].requestTime
      && (k !in s.history ==> k !in s'.history && s'.cmds[k] == s.cmds[k])
  }

  lemma StepExtends<K>(s: Tracker<K>, e: Event<K>)
    requires Inv(s) && FreshIn(e, s)
    ensures Extends(s, Step(s, e))
  {
    hide Respond, Scan, Submit, Extends, Inv;
    match e
    case Submission(k, targets, addrs, now) =>
      SubmitExtends(s, k, targets, addrs, now);
    case Response(a, now) =>
      RespondExtends(s, a, now);
    case ReaderTurn(now) =>
      ClockExtends(s, now);
    case TimeoutScan(now) =>
      ScanExtends(s, now);
  }

  lemma SubmitExtends<K>(s: Tracker<K>, k: K, targets: seq<byte>, addrs: seq<byte>, now: nat)
    requires k !in s.cmds
    ensures Extends(s, Submit(s, k, targets, addrs, now))
  {
  }

  lemma ClockExtends<K>(s: Tracker<K>, now: nat)
    ensures Extends(s, s.(clock := Tick(s.clock, now)))
  {
  }

  /** A response touches one command, and takes no other out of the history. */
  lemma RespondShape<K>(s: Tracker<K>, a: Answer, now: nat, k: K)
    requires Sound(s) && Oldest(s.cmds, Waiting(s.forward, a.reg)) == Some(k) && k in s.cmds
    ensures var s' := Respond(s, a, now);
            && s'.cmds.Keys == s.cmds.Keys && (forall x :: x in s.cmds && x != k ==> s'.cmds[x] == s.cmds[x])
            && s'.cmds[k].targets == s.cmds[k].targets && s'.cmds[k].addrs == s.cmds[k].addrs
            && s'.cmds[k].requestTime == s.cmds[k].requestTime
            && (s'.history == s.history || s'.history == RemoveFirst(s.history, k))
  {
  }

  lemma OldestIsLive<K>(s: Tracker<K>, reg: Register)
    requires Inv(s)
    ensures (forall k :: k in Waiting(s.forward, reg) ==> k in s.cmds && k in s.history) && NoDuplicates(s.history)
  {
  }

  lemma RespondExtends<K>(s: Tracker<K>, a: Answer, now: nat)
    requires Inv(s)
    ensures Sound(s) && Extends(s, Respond(s, a, now))
  {
    hide Inv, Sound, Respond, Oldest;
    InvSound(s);
    OldestIsLive(s, a.reg);
    var ks := Waiting(s.forward, a.reg);
    if ks == [] {
      RespondNobody(s, a, now);
    } else {
      var k := Oldest(s.cmds, ks).value;
      RespondShape(s, a, now, k);
      RemoveFirstLeaves(s.history, k);
    }
  }

  lemma RespondNobody<K>(s: Tracker<K>, a: Answer, now: nat)
    requires Sound(s) && Waiting(s.forward, a.reg) == []
    ensures Respond(s, a, now) == s
  {
  }

  lemma OutcomeTime(c: Cmd, clock: Clock, now: nat)
    ensures c.requestTime <= Outcome(c, clock, now).requestTime
    ensures Outcome(c, clock, now).targets == c.targets && Outcome(c, clock, now).addrs == c.addrs
  {
  }

  lemma {:induction false} SurvivorsAre<K>(s: Tracker<K>, n: nat, now: nat, k: K)
    requires n <= |s.history| && forall i :: 0 <= i < n ==> s.history[i] in s.cmds
    ensures k in Survivors(s, n, now) <==> k in s.history[..n] && !Judge(s.cmds[k], s.clock, now).GiveUp?
  {
    if n > 0 {
      SurvivorsAre(s, n - 1, now, k);
      assert s.history[..n] == s.history[..n - 1] + [s.history[n - 1]];
    }
  }

  lemma ScanExtends<K>(s: Tracker<K>, now: nat)
    requires Inv(s)
    ensures forall k :: k in s.history ==> k in s.cmds
    ensures Extends(s, Scan(s, now))
  {
    hide Outcome, InvOn, Judge;
    ScanKeeps(s, now);
    var s' := Scan(s, now);
    var n := |s.history|;
    assert s.history[..n] == s.history && [] + Survivors(s, n, now) == Survivors(s, n, now);
    forall k | k in s.cmds
      ensures s'.cmds[k].targets == s.cmds[k].targets && s'.cmds[k].addrs == s.cmds[k].addrs
      ensures s.cmds[k].requestTime <= s'.cmds[k].requestTime
      ensures k !in s.history ==> k !in s'.history && s'.cmds[k] == s.cmds[k]
    {
      OutcomeTime(s.cmds[k], s.clock, now);
      SurvivorsAre(s, n, now, k);
    }
  }

  lemma {:induction false} RunExtends<K>(s: Tracker<K>, es: seq<Event<K>>)
    requires Inv(s) && Possible(s, es)
    ensures Extends(s, RunAll(s, es))
    decreases |es|
  {
    if es != [] {
      StepExtends(s, es[0]);
      RunExtends(Step(s, es[0]), es[1..]);
    }
  }

  /** After any run, a command that is still live has sent nothing, and any other has sent exactly
      one value: 0 if and only if every expected answer was counted. What it sent, and the data
      that go with it, never change afterwards. */
  lemma ExactlyOneValue<K>(now: nat, before: seq<Event<K>>, after: seq<Event<K>>, k: K)
    requires Inv(Start<K>(now)) && Possible(Start<K>(now), before)
    requires var s := RunAll(Start<K>(now), before); Possible(s, after) && k in s.cmds
    ensures var s := RunAll(Start<K>(now), before);
            var c := s.cmds[k];
            && (k in s.history <==> k in s.reverse)
            && (k in s.history ==> c.sent == [])
            && (k !in s.history ==>
                  && (c.sent == [0] || c.sent == [1])
                  && (c.sent == [0] <==> c.resps == c.Expected() > 0)
                  && k in RunAll(s, after).cmds && RunAll(s, after).cmds[k] == c)
  {
    var s := RunAll(Start<K>(now), before);
    RunExtends(s, after);
    assert Accounted(s.cmds[k], k in s.reverse);
    hide RunAll, Possible, SlotsHold;
  }

  // Timeouts

  /** The commands a scan gives up. */
  predicate Expired(c: Cmd, clock: Clock, now: nat) {
    || now >= c.requestTime + READ_MAX_TIMEOUT
    || (&& now >= c.requestTime + READ_TIMEOUT && c.requestTime >= clock.blackoutStart
        && clock.readTime + ACTIVITY_MIN <= now <= clock.readTime + ACTIVITY_MAX)
  }

  /** A scan removes exactly the expired commands; they receive 1. Every survivor is younger than
      a second, and its request time moves exactly if it is overdue and lay before the last blackout:
      to the end of that. */
  lemma ScanTimeouts<K>(s: Tracker<K>, now: nat, k: K)
    requires Inv(s) && k in s.history
    ensures Inv(Scan(s, now)) && k in Scan(s, now).cmds
    ensures var c, c' := s.cmds[k], Scan(s, now).cmds[k];
            && (k in Scan(s, now).history <==> !Expired(c, s.clock, now))
            && (Expired(c, s.clock, now) ==>
                  c'.sent == [1] && c'.finishTime == Some(now) && c'.requestTime == c.requestTime)
            && (!Expired(c, s.clock, now) ==>
                  && c' == c.(requestTime := c'.requestTime) && now < c'.requestTime + READ_MAX_TIMEOUT
                  && c'.requestTime == if now >= c.requestTime + READ_TIMEOUT && c.requestTime < s.clock.blackoutStart
                                       then s.clock.blackoutStart + s.clock.blackoutLength
                                       else c.requestTime)
  {
    hide InvOn;
    ScanKeeps(s, now);
    var n := |s.history|;
    assert s.history[..n] == s.history && [] + Survivors(s, n, now) == Survivors(s, n, now);
    SurvivorsAre(s, n, now, k);
    LiveSentNothing(s, k);
    JudgeIsExpired(s.cmds[k], s.clock, now);
    hide Judge, Expired, Survivors;
  }

  lemma LiveSentNothing<K>(s: Tracker<K>, k: K)
    requires Inv(s) && k in s.history
    ensures k in s.cmds && s.cmds[k].sent == [] && !s.cmds[k].completed
  {
  }

  lemma JudgeIsExpired(c: Cmd, clock: Clock, now: nat)
    requires c.sent == [] && !c.completed
    ensures Judge(c, clock, now).GiveUp? <==> Expired(c, clock, now)
    ensures Expired(c, clock, now) ==>
              var d := Outcome(c, clock, now);
              d.sent == [1] && d.finishTime == Some(now) && d.requestTime == c.requestTime
    ensures !Expired(c, clock, now) ==>
              var t := Outcome(c, clock, now).requestTime;
              && Outcome(c, clock, now) == c.(requestTime := t) && now < t + READ_MAX_TIMEOUT
              && t == if now >= c.requestTime + READ_TIMEOUT && c.requestTime < clock.blackoutStart
                      then clock.blackoutStart + clock.blackoutLength else c.requestTime
  {
  }

  lemma StepKeepsTime<K>(s: Tracker<K>, e: Event<K>, k: K)
    requires Inv(s) && FreshIn(e, s) && k in s.cmds && s.cmds[k].requestTime >= s.clock.blackoutStart
    ensures k in Step(s, e).cmds && Step(s, e).cmds[k].requestTime == s.cmds[k].requestTime
  {
    hide InvOn, RemoveAll, Sound;
    StepExtends(s, e);
    match e
    case Submission(_, _, _, _) =>
    case Response(a, now) =>
      InvSound(s);
      OldestIsLive(s, a.reg);
      if Waiting(s.forward, a.reg) != [] {
        RespondShape(s, a, now, Oldest(s.cmds, Waiting(s.forward, a.reg)).value);
      }
      hide Respond;
    case ReaderTurn(_) =>
    case TimeoutScan(now) =>
      if k in s.history {
        ScanTimeouts(s, now, k);
      }
      hide Scan;
  }

  /** How often the request time of a command moves in a run. */
  ghost function Moves<K>(s: Tracker<K>, es: seq<Event<K>>, k: K): nat
    requires Inv(s) && Possible(s, es) && k in s.cmds
    decreases |es|
  {
    if es == [] then 0
    else
      StepExtends(s, es[0]);
      var s' := Step(s, es[0]);
      (if s'.cmds[k].requestTime != s.cmds[k].requestTime then 1 else 0) + Moves(s', es[1..], k)
  }

  /** How many blackout windows open in a run. */
  ghost function Windows<K>(s: Tracker<K>, es: seq<Event<K>>): nat
    requires Inv(s) && Possible(s, es)
    decreases |es|
  {
    if es == [] then 0
    else
      var s' := Step(s, es[0]);
      (if s'.clock.blackoutStart != s.clock.blackoutStart then 1 else 0) + Windows(s', es[1..])
  }

  /** Whether a command was asked before the last window, and may still be moved. */
  ghost function Behind<K>(s: Tracker<K>, k: K): nat
    requires k in s.cmds
  {
    if s.cmds[k].requestTime < s.clock.blackoutStart then 1 else 0
  }

  lemma StepClock<K>(s: Tracker<K>, e: Event<K>)
    requires Inv(s) && FreshIn(e, s)
    ensures Step(s, e).clock == if e.ReaderTurn? then Tick(s.clock, e.now) else s.clock
  {
    hide InvOn, RemoveAll, Oldest, SlotOf;
    match e
    case Submission(_, _, _, _) =>
    case Response(a, now) => InvSound(s);
    case ReaderTurn(_) =>
    case TimeoutScan(now) => ScanKeeps(s, now);
  }

  /** A move puts the request time at or past the start of the window. */
  lemma StepMoves<K>(s: Tracker<K>, e: Event<K>, k: K)
    requires Inv(s) && FreshIn(e, s) && k in s.cmds
    ensures k in Step(s, e).cmds
    ensures Step(s, e).cmds[k].requestTime != s.cmds[k].requestTime ==>
              Behind(s, k) == 1 && Behind(Step(s, e), k) == 0 && Step(s, e).clock == s.clock
    ensures Behind(Step(s, e), k) > Behind(s, k) ==> Step(s, e).clock.blackoutStart != s.clock.blackoutStart
  {
    hide InvOn, RemoveAll, Sound, Judge;
    StepExtends(s, e);
    StepClock(s, e);
    if s.cmds[k].requestTime >= s.clock.blackoutStart {
      StepKeepsTime(s, e, k);
    } else if e.TimeoutScan? && k in s.history {
      ScanTimeouts(s, e.now, k);
    } else {
      OthersKeepTime(s, e, k);
    }
    hide Step;
  }

  lemma OthersKeepTime<K>(s: Tracker<K>, e: Event<K>, k: K)
    requires Inv(s) && FreshIn(e, s) && k in s.cmds && !(e.TimeoutScan? && k in s.history)
    ensures k in Step(s, e).cmds && Step(s, e).cmds[k].requestTime == s.cmds[k].requestTime
  {
    hide InvOn, RemoveAll, Sound;
    StepExtends(s, e);
    if e.Response? {
      InvSound(s);
      OldestIsLive(s, e.a.reg);
      if Waiting(s.forward, e.a.reg) != [] {
        RespondShape(s, e.a, e.now, Oldest(s.cmds, Waiting(s.forward, e.a.reg)).value);
      }
    }
    hide Respond, Scan;
  }

  /** A request time moves at most once for every blackout window that opens, and once more if it
      lay before the last one: what was asked, was waiting in or came after a window is not moved. */
  lemma {:induction false} OneMovePerWindow<K>(s: Tracker<K>, es: seq<Event<K>>, k: K)
    requires Inv(s) && Possible(s, es) && k in s.cmds
    ensures Moves(s, es, k) <= Windows(s, es) + Behind(s, k)
    ensures k in RunAll(s, es).cmds
    ensures Moves(s, es, k) == 0 ==> RunAll(s, es).cmds[k].requestTime == s.cmds[k].requestTime
    decreases |es|
  {
    hide Step, Inv;
    if es != [] {
      StepMoves(s, es[0], k);
      OneMovePerWindow(Step(s, es[0]), es[1..], k);
    }
  }

  /** The reader turns of a run happen one after the other. */
  predicate InTimeOrder<K>(from: nat, es: seq<Event<K>>)
    decreases |es|
  {
    es == [] || (&& (es[0].ReaderTurn? ==> from <= es[0].now)
                 && InTimeOrder(if es[0].ReaderTurn? then es[0].now else from, es[1..]))
  }

  /** When the reader last turned. */
  function LastTurn<K>(from: nat, es: seq<Event<K>>): nat
    decreases |es|
  {
    if es == [] then from else LastTurn(if es[0].ReaderTurn? then es[0].now else from, es[1..])
  }

  /** The last blackout, if there was one, took more than 50 ms and is over. */
  predicate WindowPast(c: Clock) {
    && c.blackoutStart + c.blackoutLength <= c.loopTime == c.readTime
    && (c.blackoutLength > BLACKOUT_MIN || (c.blackoutStart == 0 && c.blackoutLength == 0))
  }

  /** In every run the last blackout lies wholly in the past of the reader, and windows open in the
      order of time. */
  lemma {:induction false} WindowInPast<K>(s: Tracker<K>, es: seq<Event<K>>)
    requires Inv(s) && Possible(s, es) && InTimeOrder(s.clock.loopTime, es) && WindowPast(s.clock)
    ensures var c := RunAll(s, es).clock;
            WindowPast(c) && c.loopTime == LastTurn(s.clock.loopTime, es) && s.clock.blackoutStart <= c.blackoutStart
    decreases |es|
  {
    hide Step, Inv;
    if es != [] {
      StepClock(s, es[0]);
      WindowInPast(Step(s, es[0]), es[1..]);
    }
  }

  /** From the start, in particular. */
  lemma ClockOfRun<K>(now: nat, es: seq<Event<K>>)
    requires Inv(Start<K>(now)) && Possible(Start<K>(now), es) && InTimeOrder(now, es)
    ensures var c := RunAll(Start<K>(now), es).clock; WindowPast(c) && c.loopTime == LastTurn(now, es)
  {
    WindowInPast(Start<K>(now), es);
  }

  // Which blackout is recorded

  /** When the reader turned. */
  function Turns<K>(es: seq<Event<K>>): seq<nat>
    decreases |es|
  {
    if es == [] then [] else (if es[0].ReaderTurn? then [es[0].now] else []) + Turns(es[1..])
  }

  /** More than 50 ms between two turns. */
  predicate IsGap(turns: seq<nat>, i: nat)
    requires i + 1 < |turns|
  {
    turns[i + 1] > turns[i] + BLACKOUT_MIN
  }

  predicate NoGapFrom(turns: seq<nat>, from: nat) {
    forall i :: from <= i && i + 1 < |turns| ==> !IsGap(turns, i)
  }

  /** The clock shows the last turn, and the last gap between two turns if there was one. */
  ghost predicate ShowsLastGap(c: Clock, turns: seq<nat>) {
    && turns != [] && c.loopTime == c.readTime == turns[|turns| - 1]
    && (|| (c.blackoutStart == c.blackoutLength == 0 && NoGapFrom(turns, 0))
        || exists i :: 0 <= i && IsLastGap(c, turns, i))
  }

  predicate IsLastGap(c: Clock, turns: seq<nat>, i: nat) {
    && i + 1 < |turns| && IsGap(turns, i) && NoGapFrom(turns, i + 1)
    && c.blackoutStart == turns[i] && c.blackoutLength == turns[i + 1] - turns[i]
  }

  lemma GapsAppended(turns: seq<nat>, now: nat)
    requires turns != []
    ensures forall i :: 0 <= i && i + 1 < |turns| ==> IsGap(turns + [now], i) == IsGap(turns, i)
    ensures IsGap(turns + [now], |turns| - 1) <==> now > turns[|turns| - 1] + BLACKOUT_MIN
  {
  }

  lemma TickShows(c: Clock, turns: seq<nat>, now: nat)
    requires ShowsLastGap(c, turns)
    ensures ShowsLastGap(Tick(c, now), turns + [now])
  {
    var c', after := Tick(c, now), turns + [now];
    GapsAppended(turns, now);
    if now > c.loopTime + BLACKOUT_MIN {
      assert IsLastGap(c', after, |turns| - 1);
    } else if i: nat :| IsLastGap(c, turns, i) {
      assert IsLastGap(c', after, i);
    }
  }

  /** In every run the blackout recorded is the last gap of more than 50 ms between two turns of the
      reader. */
  lemma {:induction false} BlackoutIsLastGap<K>(s: Tracker<K>, turns: seq<nat>, es: seq<Event<K>>)
    requires Inv(s) && Possible(s, es) && ShowsLastGap(s.clock, turns)
    ensures ShowsLastGap(RunAll(s, es).clock, turns + Turns(es))
    decreases |es|
  {
    hide Step, Inv, ShowsLastGap, Tick;
    if es == [] {
      assert turns + [] == turns;
    } else {
      StepClock(s, es[0]);
      if es[0].ReaderTurn? {
        TickShows(s.clock, turns, es[0].now);
        assert turns + ([es[0].now] + Turns(es[1..])) == turns + [es[0].now] + Turns(es[1..]);
        BlackoutIsLastGap(Step(s, es[0]), turns + [es[0].now], es[1..]);
      } else {
        assert [] + Turns(es[1..]) == Turns(es[1..]);
        BlackoutIsLastGap(Step(s, es[0]), turns, es[1..]);
      }
    }
  }

  lemma StartShows<K>(now: nat)
    ensures ShowsLastGap(Start<K>(now).clock, [now])
  {
  }

  /** The scan for the least sequence number finds the command at the front of the list. */
  lemma OldestIsFront<K>(s: Tracker<K>, reg: Register)
    requires Inv(s) && Waiting(s.forward, reg) != []
    ensures Oldest(s.cmds, Waiting(s.forward, reg)) == Some(Waiting(s.forward, reg)[0])
  {
    assert InOrder(s.cmds, Waiting(s.forward, reg));
    OldestIsHead(s.cmds, Waiting(s.forward, reg));
  }

  // Two commands that share a register

  /** Two read commands for chip 5, the first for registers 10 and 11, the second for register 10,
      and then both answers for register 10. */
  function SharedRun(): seq<Event<int>> {
    var a := Answer(Register(10, 5), 7);
    [Submission(1, [5], [10, 11], 0), Submission(2, [5], [10], 0), Response(a, 1), Response(a, 2)]
  }

  lemma RunStep<K>(s: Tracker<K>, es: seq<Event<K>>)
    requires Inv(s) && es != [] && FreshIn(es[0], s) && Possible(Step(s, es[0]), es[1..])
    ensures Possible(s, es) && RunAll(s, es) == RunAll(Step(s, es[0]), es[1..])
  {
  }

  lemma OneChip(addrs: seq<byte>)
    ensures Registers([5], addrs) == Row(5, addrs)
  {
  }

  lemma TwoReads(s: Tracker<int>)
    requires s == Submit(Submit(Start<int>(0), 1, [5], [10, 11], 0), 2, [5], [10], 0)
    ensures Inv(s) && s.cmds.Keys == {1, 2} && Waiting(s.forward, Register(10, 5)) == [1, 2]
    ensures s.cmds[1].seqNo == 1 && s.cmds[1].targets == [5] && s.cmds[1].addrs == [10, 11]
    ensures s.cmds[2].seqNo == 2 && s.cmds[2].sent == [] && s.cmds[2].resps == 0
    ensures s.cmds[1].resps == 0 && s.cmds[1].log == []
  {
    hide Inv, AddAll, Registers;
    var s0, reg := Start<int>(0), Register(10, 5);
    StartInv<int>(0);
    SubmitKeeps(s0, 1, [5], [10, 11], 0);
    var s1 := Submit(s0, 1, [5], [10, 11], 0);
    SubmitKeeps(s1, 2, [5], [10], 0);
    OneChip([10, 11]);
    OneChip([10]);
    assert Registers([5], [10, 11]) == [reg, Register(11, 5)] && Registers([5], [10]) == [reg];
    AddAllWaiting(s0.forward, [reg, Register(11, 5)], 1, reg);
    AddAllWaiting(s1.forward, [reg], 2, reg);
  }

  /** What the two answers do to them. */
  lemma BothAnswers(s2: Tracker<int>, a: Answer)
    requires s2 == Submit(Submit(Start<int>(0), 1, [5], [10, 11], 0), 2, [5], [10], 0)
    requires a == Answer(Register(10, 5), 7)
    ensures Inv(s2) && Sound(s2) && Inv(Respond(s2, a, 1)) && Sound(Respond(s2, a, 1))
    ensures var s := Respond(Respond(s2, a, 1), a, 2);
            && s.cmds.Keys == {1, 2} && s.cmds[1].sent == [0] && !Filled(s.cmds[1])
            && s.cmds[2].sent == [] && s.cmds[2].resps == 0
  {
    hide InvOn, Filled, SlotOf, Submit;
    TwoReads(s2);
    OldestOfTwo(s2.cmds);
    RespondKeeps(s2, a, 1);
    RespondCounts(s2, a, 1, 1);
    var s3 := Respond(s2, a, 1);
    OldestOfTwo(s3.cmds);
    assert Answered([a])[0] == a.reg && s3.cmds[1].log == [a];
    hide Respond;
    SecondAnswerFinishes(s3, a, 2, 1);
    RespondKeeps(s3, a, 2);
    OthersUntouched(s3, a, 2, 1, 2);
  }

  /** A run in which both answers go to the first command, which is told 0 without register 11,
      while the second goes on waiting for an answer that has been used up. */
  lemma SharedRegister()
    ensures Inv(Start<int>(0)) && Possible(Start<int>(0), SharedRun())
    ensures var s := RunAll(Start<int>(0), SharedRun());
            && s.cmds.Keys == {1, 2} && s.cmds[1].sent == [0] && !Filled(s.cmds[1])
            && s.cmds[2].sent == [] && s.cmds[2].resps == 0
  {
    hide Submit, Respond, Filled, Inv;
    var es, a := SharedRun(), Answer(Register(10, 5), 7);
    StartInv<int>(0);
    var s1 := Step(Start<int>(0), es[0]);
    assert s1.cmds.Keys == {1} by { SubmittedKeys(Start<int>(0), 1, [5], [10, 11], 0); }
    var s2 := Step(s1, es[1]);
    BothAnswers(s2, a);
    var s3 := Step(s2, es[2]);
    assert es[1..][1..][1..] == [es[3]] && [es[3]][1..] == [];
    RunStep(s3, [es[3]]);
    RunStep(s2, es[2..]);
    RunStep(s1, es[1..]);
    RunStep(Start<int>(0), es);
  }

  lemma SubmittedKeys<K>(s: Tracker<K>, k: K, targets: seq<byte>, addrs: seq<byte>, now: nat)
    ensures Submit(s, k, targets, addrs, now).cmds.Keys == s.cmds.Keys + {k}
  {
  }
}
