/** The read tracker as the program runs it: shared command objects, two maps and a history. */
module TrackerImpl {
  import opened Basics
  import opened Bytes
  import opened ReadTracker
  import opened TrackerInvariant
  import opened TrackerSteps

  /** A command object. `ch` lists the values sent on its channel. */
  class AsicCmd {
    const targets: seq<byte>
    const addrs: seq<byte>
    var seqNo: nat
    var requestTime: nat
    var responseTime: Option<nat>
    var finishTime: Option<nat>
    var data: seq<int>
    var resps: nat
    var done: bool
    var completed: bool
    var ch: seq<int>
    ghost var log: seq<Answer>

    constructor (targets: seq<byte>, addrs: seq<byte>)
      ensures this.targets == targets && this.addrs == addrs
      ensures Record() == Cmd(0, targets, addrs, 0, None, None, [], 0, false, false, [], [])
    {
      this.targets, this.addrs := targets, addrs;
      seqNo, requestTime, responseTime, finishTime := 0, 0, None, None;
      data, resps, done, completed, ch, log := [], 0, false, false, [], [];
    }

    ghost function Record(): Cmd
      reads this
    {
      Cmd(seqNo, targets, addrs, requestTime, responseTime, finishTime, data, resps, done, completed, ch, log)
    }

    /** Every slot starts as -1. */
    method PrepareData()
      modifies this`data
      ensures data == seq(|targets| * |addrs|, _ => -1)
    {
      var n := |targets| * |addrs|;
      data := seq(n, _ => 0);
      for i := 0 to n
        invariant |data| == n && forall j :: 0 <= j < i ==> data[j] == -1
      {
        data := data[i := -1];
      }
    }
  }

  class AuraAsicIO {
    var lastSeq: nat
    var cmdRegReadMap: map<Register, seq<AsicCmd>>
    var cmdReverseRegReadMap: map<AsicCmd, seq<Register>>
    var cmdHistory: seq<AsicCmd>
    var clock: Clock
    ghost var submitted: set<AsicCmd>

    ghost function View(): Tracker<AsicCmd>
      reads this, submitted
    {
      Tracker(lastSeq, map c | c in submitted :: c.Record(), cmdRegReadMap, cmdReverseRegReadMap, cmdHistory, clock)
    }

    constructor (now: nat)
      ensures View() == Start(now) && submitted == {}
    {
      lastSeq, cmdRegReadMap, cmdReverseRegReadMap, cmdHistory := 0, map[], map[], [];
      clock, submitted := Clock(now, now, 0, 0), {};
    }

    /** Enters a command in both maps, once per register, and in the history. */
    method CreatePayloadEntriesInMap(cmd: AsicCmd, now: nat)
      modifies this`cmdRegReadMap, this`cmdReverseRegReadMap, this`cmdHistory, cmd`requestTime
      ensures cmdRegReadMap == AddAll(old(cmdRegReadMap), Registers(cmd.targets, cmd.addrs), cmd)
      ensures cmdReverseRegReadMap == old(cmdReverseRegReadMap)[cmd := Registers(cmd.targets, cmd.addrs)]
      ensures cmdHistory == old(cmdHistory) + [cmd] && cmd.requestTime == now
    {
      var payloads: seq<Register> := [];
      ghost var all := Registers(cmd.targets, cmd.addrs);
      for i := 0 to |cmd.targets|
        invariant payloads + Registers(cmd.targets[i..], cmd.addrs) == all
        invariant AddAll(cmdRegReadMap, Registers(cmd.targets[i..], cmd.addrs), cmd)
                  == AddAll(old(cmdRegReadMap), all, cmd)
        invariant cmdReverseRegReadMap == old(cmdReverseRegReadMap) && cmdHistory == old(cmdHistory)
      {
        var chip := cmd.targets[i];
        assert cmd.targets[i..][1..] == cmd.targets[i + 1..];
        ghost var rest := Registers(cmd.targets[i + 1..], cmd.addrs);
        assert cmd.addrs[0..] == cmd.addrs;
        for j := 0 to |cmd.addrs|
          invariant payloads + (Row(chip, cmd.addrs[j..]) + rest) == all
          invariant AddAll(cmdRegReadMap, Row(chip, cmd.addrs[j..]) + rest, cmd) == AddAll(old(cmdRegReadMap), all, cmd)
          invariant cmdReverseRegReadMap == old(cmdReverseRegReadMap) && cmdHistory == old(cmdHistory)
        {
          var payload := Register(cmd.addrs[j], chip);
          RowStep(chip, cmd.addrs, j, rest);
          var waiting := if payload in cmdRegReadMap then cmdRegReadMap[payload] else [];
          cmdRegReadMap := cmdRegReadMap[payload := waiting + [cmd]];
          payloads := payloads + [payload];
        }
        assert Row(chip, cmd.addrs[|cmd.addrs|..]) + rest == rest;
      }
      assert cmd.targets[|cmd.targets|..] == [] && payloads == all;
      cmdReverseRegReadMap := cmdReverseRegReadMap[cmd := payloads];
      cmdHistory := cmdHistory + [cmd];
      cmd.requestTime := now;
    }

    /** Gives a command the next sequence number and empty slots. */
    method NumberCommand(cmd: AsicCmd)
      modifies this`lastSeq, cmd`seqNo, cmd`data
      ensures lastSeq == old(lastSeq) + 1
      ensures cmd.Record() == old(cmd.Record()).(seqNo := lastSeq, data := seq(|cmd.targets| * |cmd.addrs|, _ => -1))
    {
      lastSeq := lastSeq + 1;
      cmd.seqNo := lastSeq;
      cmd.PrepareData();
    }

    /** The read branch of the writer: number the command, prepare its slots, enter it. */
    method SubmitRead(cmd: AsicCmd, now: nat)
      requires cmd !in submitted
      requires cmd.Record() == Cmd(0, cmd.targets, cmd.addrs, 0, None, None, [], 0, false, false, [], [])
      modifies this, cmd
      ensures View() == Submit(old(View()), cmd, cmd.targets, cmd.addrs, now)
      ensures submitted == old(submitted) + {cmd}
    {
      hide AddAll, Registers;
      NumberCommand(cmd);
      CreatePayloadEntriesInMap(cmd, now);
      submitted := submitted + {cmd};
      assert View().cmds == old(View()).cmds[cmd := cmd.Record()];
    }

    /** The scan for the oldest command waiting for a register. */
    method GetCmdRegReadFromPayload(reg: Register) returns (res: AsicCmd?)
      requires forall c :: c in Waiting(cmdRegReadMap, reg) ==> c in submitted
      ensures res == null <==> Oldest(View().cmds, Waiting(cmdRegReadMap, reg)) == None
      ensures res != null ==> Oldest(View().cmds, Waiting(cmdRegReadMap, reg)) == Some(res)
    {
      var cmds := if reg in cmdRegReadMap then cmdRegReadMap[reg] else [];
      res := null;
      for i := 0 to |cmds|
        invariant res == null <==> Oldest(View().cmds, cmds[..i]) == None
        invariant res != null ==> Oldest(View().cmds, cmds[..i]) == Some(res)
      {
        assert cmds[..i + 1][..i] == cmds[..i];
        if res == null || cmds[i].seqNo <= res.seqNo {
          res := cmds[i];
        }
      }
      assert cmds[..|cmds|] == cmds;
    }

    method ReleaseCommand(c: AsicCmd, val: int)
      modifies c`ch, c`completed
      ensures c.Record() == Released(old(c.Record()), val)
    {
      if c.completed {
        return;
      }
      c.ch := c.ch + [val];
      if c.finishTime != None && c.responseTime != None {
        c.completed := true;
      }
    }

    method RemovePayloadsFromMap(cmd: AsicCmd)
      modifies this`cmdRegReadMap, this`cmdReverseRegReadMap
      ensures var regs := if cmd in old(cmdReverseRegReadMap) then old(cmdReverseRegReadMap)[cmd] else [];
              cmdRegReadMap == RemoveAll(old(cmdRegReadMap), regs, cmd)
      ensures cmdReverseRegReadMap == old(cmdReverseRegReadMap) - {cmd}
    {
      var payloads := if cmd in cmdReverseRegReadMap then cmdReverseRegReadMap[cmd] else [];
      for i := 0 to |payloads|
        invariant RemoveAll(cmdRegReadMap, payloads[i..], cmd) == RemoveAll(old(cmdRegReadMap), payloads, cmd)
        modifies this`cmdRegReadMap
      {
        assert payloads[i..][1..] == payloads[i + 1..];
        var cmds := if payloads[i] in cmdRegReadMap then cmdRegReadMap[payloads[i]] else [];
        if cmd in cmds {
          var others := CutOut(cmds, cmd);
          cmdRegReadMap := cmdRegReadMap[payloads[i] := others];
        }
      }
      assert payloads[|payloads|..] == [];
      cmdReverseRegReadMap := cmdReverseRegReadMap - {cmd};
    }

    /** Takes a command out of both maps and answers its caller. */
    method RemovePayloadsFromMapAndRelease(cmd: AsicCmd, val: int)
      requires cmd in submitted
      modifies this`cmdRegReadMap, this`cmdReverseRegReadMap, cmd`ch, cmd`completed
      ensures View() == Release(old(View()), cmd, val)
    {
      hide RemoveAll, Released;
      RemovePayloadsFromMap(cmd);
      ReleaseCommand(cmd, val);
      assert View().cmds == old(View()).cmds[cmd := cmd.Record()];
    }

    method RemoveCommand(cmd: AsicCmd, val: int)
      requires cmd in submitted
      modifies this`cmdHistory, this`cmdRegReadMap, this`cmdReverseRegReadMap, cmd`ch, cmd`completed
      ensures View() == Release(old(View()).(history := RemoveFirst(old(cmdHistory), cmd)), cmd, val)
    {
      hide Release;
      cmdHistory := CutOut(cmdHistory, cmd);
      assert View().cmds == old(View()).cmds;
      RemovePayloadsFromMapAndRelease(cmd, val);
    }

    /** Stores an answer in a command's data and counts it. */
    method CountAnswer(cmd: AsicCmd, a: Answer, now: nat)
      requires SlotOf(cmd.Record(), a.reg) < |cmd.data|
      modifies cmd`data, cmd`responseTime, cmd`resps, cmd`log
      ensures cmd.Record() == Counted(old(cmd.Record()), a, now)
    {
      var asicIdx := FindTarget(cmd.targets, a.reg.chip);
      var addrIdx := FindAddr(cmd.addrs, a.reg.addr);
      assert |cmd.addrs| * asicIdx + addrIdx == SlotOf(cmd.Record(), a.reg);
      cmd.data := cmd.data[|cmd.addrs| * asicIdx + addrIdx := a.data];
      if cmd.responseTime == None {
        cmd.responseTime := Some(now);
      }
      cmd.resps := cmd.resps + 1;
      cmd.log := cmd.log + [a];
    }

    method CountForCommand(cmd: AsicCmd, a: Answer, now: nat)
      requires cmd in submitted && SlotOf(cmd.Record(), a.reg) < |cmd.data|
      modifies this`cmdHistory, this`cmdRegReadMap, this`cmdReverseRegReadMap, cmd
      ensures View() == CountFor(old(View()), cmd, a, now)
    {
      hide SlotOf, Release, RemoveFirst;
      ghost var s0 := View();
      CountAnswer(cmd, a, now);
      assert View() == s0.(cmds := s0.cmds[cmd := Counted(s0.cmds[cmd], a, now)]);
      hide Counted;
      if cmd.resps == |cmd.targets| * |cmd.addrs| {
        Finish(cmd, now);
        ghost var c := Counted(s0.cmds[cmd], a, now);
        ghost var last := c.(finishTime := Some(now), done := true);
        assert s0.cmds[cmd := c][cmd := last] == s0.cmds[cmd := last];
      }
    }

    /** Counts a response for the oldest command waiting for its register, and finishes the
        command with its last expected answer. */
    method UpdatePayload(a: Answer, now: nat) returns (cmd: AsicCmd?)
      requires Inv(View())
      modifies this`cmdHistory, this`cmdRegReadMap, this`cmdReverseRegReadMap, submitted
      ensures Sound(old(View())) && View() == Respond(old(View()), a, now) && Inv(View())
    {
      hide Inv, Sound, SlotOf, Oldest, CountFor;
      ghost var s0 := View();
      RespondKeeps(s0, a, now);
      WaitingSubmitted(s0, a.reg);
      cmd := GetCmdRegReadFromPayload(a.reg);
      if cmd != null {
        WaitingSlot(s0, a.reg, cmd);
        CountForCommand(cmd, a, now);
      }
    }

    method Finish(cmd: AsicCmd, now: nat)
      requires cmd in submitted
      modifies this`cmdHistory, this`cmdRegReadMap, this`cmdReverseRegReadMap, cmd
      ensures var s1 := old(View());
              View() == Release(s1.(cmds := s1.cmds[cmd := s1.cmds[cmd].(finishTime := Some(now), done := true)],
                                    history := RemoveFirst(s1.history, cmd)), cmd, 0)
    {
      ghost var s1 := View();
      cmd.finishTime := Some(now);
      cmd.done := true;
      assert View() == s1.(cmds := s1.cmds[cmd := s1.cmds[cmd].(finishTime := Some(now), done := true)]);
      hide Release, RemoveFirst;
      RemoveCommand(cmd, 0);
    }

    /** The five cases for one command of the history. */
    method CheckCommand(cmd: AsicCmd, now: nat) returns (keep: bool)
      requires cmd in submitted
      modifies this`cmdRegReadMap, this`cmdReverseRegReadMap, cmd
      ensures View() == Checked(old(View()), cmd, now)
      ensures keep == !Judge(old(cmd.Record()), clock, now).GiveUp?
    {
      hide Release;
      keep := true;
      if now - cmd.requestTime >= READ_TIMEOUT {
        if now - cmd.requestTime >= READ_MAX_TIMEOUT {
          keep := false;
        } else if cmd.requestTime < clock.blackoutStart {
          Renew(cmd);
        } else if now - clock.readTime > ACTIVITY_MAX {
        } else if now - clock.readTime < ACTIVITY_MIN {
        } else {
          keep := false;
        }
      }
      if !keep {
        GiveUp(cmd, now);
      }
    }

    /** Starts the command's time again after the blackout. */
    method Renew(cmd: AsicCmd)
      requires cmd in submitted
      modifies cmd`requestTime
      ensures var s0 := old(View());
              var t := clock.blackoutStart + clock.blackoutLength;
              View() == s0.(cmds := s0.cmds[cmd := s0.cmds[cmd].(requestTime := t)])
    {
      ghost var s0 := View();
      cmd.requestTime := clock.blackoutStart + clock.blackoutLength;
      assert View().cmds == s0.cmds[cmd := cmd.Record()];
    }

    method GiveUp(cmd: AsicCmd, now: nat)
      requires cmd in submitted
      modifies this`cmdRegReadMap, this`cmdReverseRegReadMap, cmd
      ensures var s0 := old(View());
              View() == Release(s0.(cmds := s0.cmds[cmd := s0.cmds[cmd].(finishTime := Some(now))]), cmd, 1)
    {
      ghost var s0 := View();
      cmd.finishTime := Some(now);
      assert View() == s0.(cmds := s0.cmds[cmd := s0.cmds[cmd].(finishTime := Some(now))]);
      hide Release;
      RemovePayloadsFromMapAndRelease(cmd, 1);
    }

    /** Checks one command and keeps it in the new history unless it is given up. */
    method CheckNext(cmd: AsicCmd, kept: seq<AsicCmd>, now: nat) returns (next: seq<AsicCmd>)
      requires cmd in submitted
      modifies this`cmdRegReadMap, this`cmdReverseRegReadMap, cmd
      ensures View() == Checked(old(View()), cmd, now)
      ensures next == if Judge(old(View()).cmds[cmd], clock, now).GiveUp? then kept else kept + [cmd]
    {
      hide Checked, Judge;
      next := kept;
      var keep := CheckCommand(cmd, now);
      if keep {
        next := next + [cmd];
      }
    }

    /** One scan of the timeout checker. */
    method CmdTimeoutCheck(now: nat)
      requires Inv(View())
      modifies this`cmdHistory, this`cmdRegReadMap, this`cmdReverseRegReadMap, submitted
      ensures (forall c :: c in old(View()).history ==> c in old(View()).cmds)
      ensures View() == Scan(old(View()), now) && Inv(View())
    {
      ghost var s0 := View();
      hide Inv, Scanned, Scan, ScanLoop, Checked, Judge;
      ScanKeeps(s0, now);
      ScanStart(s0, now);
      cmdHistory := CheckAll(now);
    }

    /** Goes through the history backwards; returns the commands that stay. */
    method CheckAll(now: nat) returns (newCommandHistory: seq<AsicCmd>)
      requires forall c :: c in cmdHistory ==> c in submitted
      modifies this`cmdRegReadMap, this`cmdReverseRegReadMap, submitted
      ensures View().(history := newCommandHistory) == ScanLoop(old(View()), |cmdHistory|, [], now)
    {
      hide ScanLoop, Checked, Judge;
      newCommandHistory := [];
      var idx := |cmdHistory|;
      while idx > 0
        invariant 0 <= idx <= |cmdHistory|
        invariant ScanLoop(View(), idx, newCommandHistory, now) == ScanLoop(old(View()), |cmdHistory|, [], now)
      {
        ScanTurn(View(), idx, newCommandHistory, now);
        idx := idx - 1;
        newCommandHistory := CheckNext(cmdHistory[idx], newCommandHistory, now);
      }
      ScanEnd(View(), newCommandHistory, now);
    }

    /** One turn of the reader loop. */
    method ReaderTurn(now: nat)
      modifies this`clock
      ensures View() == old(View()).(clock := Tick(old(clock), now))
    {
      if now > clock.loopTime + BLACKOUT_MIN {
        clock := clock.(blackoutStart := clock.loopTime, blackoutLength := now - clock.loopTime);
      }
      clock := clock.(loopTime := now, readTime := now);
    }
  }

  lemma ScanTurn<K>(s: Tracker<K>, n: nat, kept: seq<K>, now: nat)
    requires 0 < n <= |s.history| && forall i :: 0 <= i < n ==> s.history[i] in s.cmds
    ensures ScanLoop(s, n, kept, now) ==
            ScanLoop(Checked(s, s.history[n - 1], now), n - 1, KeptNext(s, n, kept, now), now)
  {
  }

  lemma ScanStart<K>(s: Tracker<K>, now: nat)
    requires forall k :: k in s.history ==> k in s.cmds
    ensures Scan(s, now) == ScanLoop(s, |s.history|, [], now)
  {
  }

  lemma ScanEnd<K>(s: Tracker<K>, kept: seq<K>, now: nat)
    ensures ScanLoop(s, 0, kept, now) == s.(history := kept)
  {
  }

  lemma WaitingSubmitted<K>(s: Tracker<K>, reg: Register)
    requires Inv(s)
    ensures forall c :: c in Waiting(s.forward, reg) ==> c in s.cmds
  {
  }

  lemma WaitingSlot<K>(s: Tracker<K>, reg: Register, k: K)
    requires Sound(s) && k in Waiting(s.forward, reg)
    ensures k in s.cmds && SlotOf(s.cmds[k], reg) < |s.cmds[k].data|
  {
  }

  method FindTarget(targets: seq<byte>, chip: byte) returns (i: nat)
    ensures i == FirstIndex(targets, chip)
  {
    for idx := 0 to |targets|
      invariant chip !in targets[..idx]
    {
      if targets[idx] == chip {
        FirstAt(targets, chip, idx);
        return idx;
      }
    }
    assert targets[..|targets|] == targets;
    i := 0;
  }

  lemma FirstAt(s: seq<byte>, x: byte, i: nat)
    requires i < |s| && s[i] == x && x !in s[..i]
    ensures FirstIndex(s, x) == i
  {
  }

  method FindAddr(addrs: seq<byte>, addr: byte) returns (i: nat)
    ensures i == LastIndex(addrs, addr)
  {
    i := 0;
    for idx := 0 to |addrs|
      invariant i == LastIndex(addrs[..idx], addr)
    {
      assert addrs[..idx + 1][..idx] == addrs[..idx];
      if addrs[idx] == addr {
        i := idx;
      }
    }
    assert addrs[..|addrs|] == addrs;
  }

  lemma RowStep(chip: byte, addrs: seq<byte>, j: nat, rest: seq<Register>)
    requires j < |addrs|
    ensures var r := Row(chip, addrs[j..]) + rest;
            r[0] == Register(addrs[j], chip) && r[1..] == Row(chip, addrs[j + 1..]) + rest
            && r == [r[0]] + (Row(chip, addrs[j + 1..]) + rest)
  {
  }

  /** The list without its first entry for k: everything before it, then everything after. */
  method CutOut<K(==)>(ks: seq<K>, k: K) returns (r: seq<K>)
    ensures r == RemoveFirst(ks, k)
  {
    for i := 0 to |ks|
      invariant k !in ks[..i]
    {
      if ks[i] == k {
        RemoveFirstAt(ks, k, i);
        return ks[..i] + ks[i + 1..];
      }
    }
    assert ks[..|ks|] == ks;
    RemoveAbsent(ks, k);
    r := ks;
  }

  lemma {:induction false} RemoveFirstAt<K>(ks: seq<K>, k: K, i: nat)
    requires i < |ks| && ks[i] == k && k !in ks[..i]
    ensures RemoveFirst(ks, k) == ks[..i] + ks[i + 1..]
  {
    if i > 0 {
      assert ks[0] == ks[..i][0] && ks[1..][..i - 1] == ks[..i][1..];
      RemoveFirstAt(ks[1..], k, i - 1);
      assert ks[1..][i..] == ks[i + 1..];
    }
  }

  lemma {:induction false} RemoveAbsent<K>(ks: seq<K>, k: K)
    requires k !in ks
    ensures RemoveFirst(ks, k) == ks
  {
    if ks != [] {
      RemoveAbsent(ks[1..], k);
    }
  }
}
