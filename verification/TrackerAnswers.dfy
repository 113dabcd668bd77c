/** What the data of a command are, said of the events of a run alone. */
module TrackerAnswers {
  import opened Basics
  import opened Bytes
  import opened ReadTracker
  import opened TrackerInvariant
  import opened TrackerSteps
  import opened TrackerCompleteness
  import opened TrackerRuns

  predicate Reads(c: Cmd, reg: Register) {
    reg.chip in c.targets && reg.addr in c.addrs
  }

  /** k is the first submitted of the live commands that read the register. */
  ghost predicate IsOldest<K>(s: Tracker<K>, reg: Register, k: K) {
    && k in s.history && k in s.cmds && Reads(s.cmds[k], reg)
    && forall o :: o in s.history && o in s.cmds && Reads(s.cmds[o], reg) ==> s.cmds[k].seqNo <= s.cmds[o].seqNo
  }

  /** A command waits for a register exactly as long as it is live and reads it. */
  lemma WaitsIfReads<K>(s: Tracker<K>, reg: Register, k: K)
    requires Inv(s)
    ensures k in Waiting(s.forward, reg) <==> k in s.history && k in s.cmds && Reads(s.cmds[k], reg)
  {
    if k in s.history {
      RegistersMembers(s.cmds[k].targets, s.cmds[k].addrs, reg);
      assert multiset(Waiting(s.forward, reg))[k] == multiset(s.reverse[k])[reg];
    }
  }

  lemma FrontIsLeast<K>(s: Tracker<K>, reg: Register, k: K)
    requires Inv(s) && Waiting(s.forward, reg) != [] && k in Waiting(s.forward, reg)
    ensures Waiting(s.forward, reg)[0] in s.cmds && k in s.cmds
    ensures s.cmds[Waiting(s.forward, reg)[0]].seqNo <= s.cmds[k].seqNo
    ensures s.cmds[Waiting(s.forward, reg)[0]].seqNo == s.cmds[k].seqNo ==> Waiting(s.forward, reg)[0] == k
  {
    assert InOrder(s.cmds, Waiting(s.forward, reg));
  }

  /** A response counts for the command that is the oldest of those that wait for it. */
  lemma OldestIsServed<K>(s: Tracker<K>, reg: Register, k: K)
    requires Inv(s)
    ensures IsOldest(s, reg, k) <==> Waiting(s.forward, reg) != [] && Waiting(s.forward, reg)[0] == k
  {
    hide Inv;
    var w := Waiting(s.forward, reg);
    forall o ensures o in w <==> o in s.history && o in s.cmds && Reads(s.cmds[o], reg) {
      WaitsIfReads(s, reg, o);
    }
    if w != [] && w[0] == k {
      forall o | o in w ensures o in s.cmds && s.cmds[k].seqNo <= s.cmds[o].seqNo {
        FrontIsLeast(s, reg, o);
      }
    }
    if IsOldest(s, reg, k) {
      assert w[0] in w;
      FrontIsLeast(s, reg, k);
    }
  }

  /** The responses of a run that arrive while k is the oldest live command that reads them. */
  ghost function ResponsesFor<K>(s: Tracker<K>, es: seq<Event<K>>, k: K): (r: seq<Event<K>>)
    requires Inv(s) && Possible(s, es)
    ensures forall e :: e in r ==> e.Response? && e in es
    decreases |es|
  {
    if es == [] then []
    else
      assert forall e :: e in es[1..] ==> e in es;
      (if es[0].Response? && IsOldest(s, es[0].a.reg, k) then [es[0]] else [])
      + ResponsesFor(Step(s, es[0]), es[1..], k)
  }

  function AnswersOf<K>(es: seq<Event<K>>): (r: seq<Answer>)
    requires forall e :: e in es ==> e.Response?
    ensures |r| == |es| && forall i :: 0 <= i < |es| ==> r[i] == es[i].a
  {
    seq(|es|, i requires 0 <= i < |es| => assert es[i] in es; es[i].a)
  }

  function LogOf<K>(s: Tracker<K>, k: K): seq<Answer> {
    if k in s.cmds then s.cmds[k].log else []
  }

  function FirstTime<K>(s: Tracker<K>, k: K): Option<nat> {
    if k in s.cmds then s.cmds[k].responseTime else None
  }

  lemma ServedLog<K>(s: Tracker<K>, a: Answer, now: nat, k: K)
    requires Sound(s) && Oldest(s.cmds, Waiting(s.forward, a.reg)) == Some(k) && k in s.cmds
    ensures k in Respond(s, a, now).cmds && Respond(s, a, now).cmds[k].log == s.cmds[k].log + [a]
    ensures Respond(s, a, now).cmds[k].responseTime
            == if s.cmds[k].responseTime.None? then Some(now) else s.cmds[k].responseTime
  {
    hide SlotOf, RemoveAll, Oldest;
  }

  lemma RespondLogs<K>(s: Tracker<K>, a: Answer, now: nat, k: K)
    requires Inv(s)
    ensures Sound(s)
    ensures var s' := Respond(s, a, now);
            && LogOf(s', k) == LogOf(s, k) + (if IsOldest(s, a.reg, k) then [a] else [])
            && FirstTime(s', k) == if IsOldest(s, a.reg, k) && FirstTime(s, k).None? then Some(now) else FirstTime(s, k)
  {
    hide Inv, Sound, Respond, Oldest, IsOldest;
    InvSound(s);
    OldestIsServed(s, a.reg, k);
    OldestIsLive(s, a.reg);
    if Waiting(s.forward, a.reg) == [] {
      RespondNobody(s, a, now);
    } else {
      OldestIsFront(s, a.reg);
      var o := Waiting(s.forward, a.reg)[0];
      RespondShape(s, a, now, o);
      ServedLog(s, a, now, o);
    }
  }

  lemma ScanLogs<K>(s: Tracker<K>, now: nat, k: K)
    requires Inv(s)
    ensures forall x :: x in s.history ==> x in s.cmds
    ensures LogOf(Scan(s, now), k) == LogOf(s, k) && FirstTime(Scan(s, now), k) == FirstTime(s, k)
  {
    hide InvOn;
    ScanKeeps(s, now);
    assert s.history[..|s.history|] == s.history;
    hide Scan;
  }

  /** What one event adds to the answers counted for a command. */
  lemma StepLogs<K>(s: Tracker<K>, e: Event<K>, k: K)
    requires Inv(s) && FreshIn(e, s)
    ensures var mine, s' := e.Response? && IsOldest(s, e.a.reg, k), Step(s, e);
            && LogOf(s', k) == LogOf(s, k) + (if mine then [e.a] else [])
            && FirstTime(s', k) == if mine && FirstTime(s, k).None? then Some(e.now) else FirstTime(s, k)
  {
    hide Inv, IsOldest, Respond, Scan;
    match e
    case Submission(_, _, _, _) =>
    case Response(a, now) => RespondLogs(s, a, now, k);
    case ReaderTurn(_) =>
    case TimeoutScan(now) => ScanLogs(s, now, k);
  }

  /** Over every run: the answers counted for a command are exactly the responses that arrived while
      it was the oldest live command that reads them, and its response time is that of the first. */
  lemma {:induction false} LogIsResponses<K>(s: Tracker<K>, es: seq<Event<K>>, k: K)
    requires Inv(s) && Possible(s, es)
    ensures LogOf(RunAll(s, es), k) == LogOf(s, k) + AnswersOf(ResponsesFor(s, es, k))
    ensures FirstTime(RunAll(s, es), k)
            == if FirstTime(s, k).Some? || ResponsesFor(s, es, k) == [] then FirstTime(s, k)
               else Some(ResponsesFor(s, es, k)[0].now)
    decreases |es|
  {
    hide Step, Inv, IsOldest, LogOf, FirstTime, AnswersOf;
    NoAnswers<K>();
    if es == [] {
      assert LogOf(s, k) + [] == LogOf(s, k);
    } else {
      StepLogs(s, es[0], k);
      LogIsResponses(Step(s, es[0]), es[1..], k);
      var later := ResponsesFor(Step(s, es[0]), es[1..], k);
      if es[0].Response? && IsOldest(s, es[0].a.reg, k) {
        AnswersFirst(es[0], later);
        AppendFirst(LogOf(s, k), es[0].a, AnswersOf(later));
      } else {
        assert [] + later == later && LogOf(s, k) + [] == LogOf(s, k);
      }
    }
  }

  lemma NoAnswers<K>()
    ensures AnswersOf<K>([]) == []
  {
  }

  lemma AnswersFirst<K>(e: Event<K>, es: seq<Event<K>>)
    requires e.Response? && forall x :: x in es ==> x.Response?
    ensures AnswersOf([e] + es) == [e.a] + AnswersOf(es)
  {
  }

  lemma AppendFirst<T>(a: seq<T>, x: T, b: seq<T>)
    ensures a + [x] + b == a + ([x] + b)
  {
  }

  /** v is the data of the last response of a register, or -1 if there was none. */
  ghost predicate IsLastData<K>(es: seq<Event<K>>, reg: Register, v: int)
    requires forall e :: e in es ==> e.Response?
  {
    if exists m :: 0 <= m < |es| && es[m].a.reg == reg
    then exists m :: 0 <= m < |es| && es[m].a.reg == reg && es[m].a.data == v
                     && forall n :: m < n < |es| ==> es[n].a.reg != reg
    else v == -1
  }

  /** Where the last answer of a register stands; -1 if there is none. */
  lemma {:induction false} LastAnswerAt(log: seq<Answer>, reg: Register) returns (m: int)
    ensures -1 <= m < |log| && forall n :: m < n < |log| ==> log[n].reg != reg
    ensures LastAnswer(log, reg) == if m < 0 then -1 else log[m].data
    ensures m >= 0 ==> log[m].reg == reg
  {
    if log == [] {
      m := -1;
    } else if log[|log| - 1].reg == reg {
      m := |log| - 1;
    } else {
      m := LastAnswerAt(log[..|log| - 1], reg);
    }
  }

  lemma LastAnswerIsLast<K>(es: seq<Event<K>>, reg: Register)
    requires forall e :: e in es ==> e.Response?
    ensures IsLastData(es, reg, LastAnswer(AnswersOf(es), reg))
  {
    hide LastAnswer;
    var m := LastAnswerAt(AnswersOf(es), reg);
    if m >= 0 {
      assert es[m].a.reg == reg;
    }
  }

  /** A read entered into the tracker: what it asks and when, with a number behind all others. */
  lemma SubmittedAs<K>(s: Tracker<K>, k: K, targets: seq<byte>, addrs: seq<byte>, now: nat)
    requires Inv(s) && k !in s.cmds
    ensures var e := Submission(k, targets, addrs, now);
            var s' := Step(s, e);
            && FreshIn(e, s) && k in s'.cmds && k in s'.history
            && s'.cmds[k].targets == targets && s'.cmds[k].addrs == addrs && s'.cmds[k].requestTime == now
            && s'.cmds[k].log == [] && s'.cmds[k].responseTime == None
            && forall o :: o in s.cmds ==> o in s'.cmds && s'.cmds[o] == s.cmds[o] && s.cmds[o].seqNo < s'.cmds[k].seqNo
  {
    hide AddAll, Registers, InvOn;
    assert Numbered(s) by { InvNumbered(s); }
  }

  lemma InvNumbered<K>(s: Tracker<K>)
    requires Inv(s)
    ensures Numbered(s)
  {
  }

  /** Slot (i, j) of a command holds the data of the last of these responses for register j of
      target i, or -1 if there is none. */
  ghost predicate SlotHoldsLast<K>(c: Cmd, es: seq<Event<K>>, i: nat, j: nat)
    requires (forall e :: e in es ==> e.Response?) && i < |c.targets| && j < |c.addrs|
  {
    && |c.data| == |c.targets| * |c.addrs| && |c.addrs| * i + j < |c.data|
    && IsLastData(es, Register(c.addrs[j], c.targets[i]), c.data[|c.addrs| * i + j])
  }

  /** What a caller reads: after any run from a state in which nothing was counted for the command, as
      when it was submitted, each slot holds the data of the last response of its register that
      arrived while the command was the oldest live one reading it, and -1 if there was none. */
  lemma SlotIsLastResponse<K>(s: Tracker<K>, es: seq<Event<K>>, k: K, i: nat, j: nat)
    requires Inv(s) && Possible(s, es) && k in s.cmds && s.cmds[k].log == [] && s.cmds[k].responseTime == None
    requires NoDuplicates(s.cmds[k].targets) && NoDuplicates(s.cmds[k].addrs)
    requires i < |s.cmds[k].targets| && j < |s.cmds[k].addrs|
    ensures k in RunAll(s, es).cmds
    ensures var c, mine := RunAll(s, es).cmds[k], ResponsesFor(s, es, k);
            && c.targets == s.cmds[k].targets && c.addrs == s.cmds[k].addrs && SlotHoldsLast(c, mine, i, j)
            && c.responseTime == (if mine == [] then None else Some(mine[0].now))
  {
    hide Inv, LastAnswer, ResponsesFor, IsLastData, SlotsHold, RunAll, Possible, AnswersOf;
    RunExtends(s, es);
    LogIsResponses(s, es, k);
    var c, mine := RunAll(s, es).cmds[k], ResponsesFor(s, es, k);
    assert [] + AnswersOf(mine) == AnswersOf(mine);
    InvSlots(RunAll(s, es), k);
    SlotIsLastAnswer(c, i, j);
    LastAnswerIsLast(mine, Register(c.addrs[j], c.targets[i]));
  }

  lemma InvSlots<K>(s: Tracker<K>, k: K)
    requires Inv(s) && k in s.cmds
    ensures SlotsHold(s.cmds[k]) && |s.cmds[k].data| == |s.cmds[k].targets| * |s.cmds[k].addrs|
  {
    InvAccounts(s, k);
  }

  // When a command is finished

  /** The time of a finish: that of the step which takes the command out of the history. */
  lemma FinishedAt<K>(s: Tracker<K>, e: Event<K>, k: K)
    requires Inv(s) && FreshIn(e, s) && k in s.cmds
    ensures k in Step(s, e).cmds
    ensures Step(s, e).cmds[k].finishTime
            == if k in s.history && k !in Step(s, e).history then Some(e.now) else s.cmds[k].finishTime
  {
    hide InvOn, Respond, Scan, RemoveAll, AddAll;
    StepExtends(s, e);
    if e.Response? {
      RespondFinish(s, e.a, e.now, k);
    } else if e.TimeoutScan? {
      ScanFinish(s, e.now, k);
    }
  }

  lemma RespondFinish<K>(s: Tracker<K>, a: Answer, now: nat, k: K)
    requires Inv(s) && k in s.cmds
    ensures Sound(s) && k in Respond(s, a, now).cmds
    ensures Respond(s, a, now).cmds[k].finishTime
            == if k in s.history && k !in Respond(s, a, now).history then Some(now) else s.cmds[k].finishTime
  {
    hide Inv, Sound, Oldest, Respond;
    InvSound(s);
    OldestIsLive(s, a.reg);
    if Waiting(s.forward, a.reg) == [] {
      RespondNobody(s, a, now);
    } else {
      OldestIsFront(s, a.reg);
      var o := Waiting(s.forward, a.reg)[0];
      RespondShape(s, a, now, o);
      RemoveFirstLeaves(s.history, o);
      ServedFinish(s, a, now, o);
    }
  }

  lemma ServedFinish<K>(s: Tracker<K>, a: Answer, now: nat, k: K)
    requires Sound(s) && Oldest(s.cmds, Waiting(s.forward, a.reg)) == Some(k) && k in s.cmds
    ensures k in Respond(s, a, now).cmds
    ensures var s' := Respond(s, a, now);
            || (s'.history == s.history && s'.cmds[k].finishTime == s.cmds[k].finishTime)
            || (s'.history == RemoveFirst(s.history, k) && s'.cmds[k].finishTime == Some(now))
  {
    hide SlotOf, RemoveAll, Oldest;
  }

  lemma ScanFinish<K>(s: Tracker<K>, now: nat, k: K)
    requires Inv(s) && k in s.cmds
    ensures forall x :: x in s.history ==> x in s.cmds
    ensures k in Scan(s, now).cmds
    ensures Scan(s, now).cmds[k].finishTime
            == if k in s.history && k !in Scan(s, now).history then Some(now) else s.cmds[k].finishTime
  {
    hide InvOn;
    ScanKeeps(s, now);
    var n := |s.history|;
    assert s.history[..n] == s.history && [] + Survivors(s, n, now) == Survivors(s, n, now);
    SurvivorsAre(s, n, now, k);
    hide Scan, Survivors;
  }
}
