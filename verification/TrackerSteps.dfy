/** Every step of the read tracker keeps its invariant. */
module TrackerSteps {
  import opened Basics
  import opened Bytes
  import opened ReadTracker
  import opened TrackerInvariant

  lemma {:induction false} RegistersMembers(targets: seq<byte>, addrs: seq<byte>, reg: Register)
    ensures reg in Registers(targets, addrs) <==> reg.chip in targets && reg.addr in addrs
  {
    if targets != [] {
      var row := Row(targets[0], addrs);
      RegistersMembers(targets[1..], addrs, reg);
      if reg.addr in addrs {
        var j :| 0 <= j < |addrs| && addrs[j] == reg.addr;
        assert row[j] == Register(reg.addr, targets[0]);
      }
      assert Registers(targets, addrs) == row + Registers(targets[1..], addrs);
    }
  }

  lemma SlotInRange(n: nat, m: nat, i: nat, j: nat)
    requires i < m && j < n
    ensures n * i + j < m * n
  {
    assert n * (i + 1) <= n * m;
  }

  lemma RowApart(n: nat, i: nat, i': nat)
    requires i < i'
    ensures n * i + n <= n * i'
  {
    assert n * i' == n * (i + 1) + n * (i' - i - 1);
  }

  lemma SlotUnique(n: nat, i: nat, j: nat, i': nat, j': nat)
    requires j < n && j' < n && n * i + j == n * i' + j'
    ensures i == i' && j == j'
  {
    if i < i' {
      RowApart(n, i, i');
    } else if i' < i {
      RowApart(n, i', i);
    }
  }

  /** A waiting command reads the register, so the slot exists. */
  lemma WaitingReads<K>(s: Tracker<K>, live: seq<K>, reg: Register, k: K)
    requires AgreeOn(s, live) && k in Waiting(s.forward, reg)
    ensures k in s.cmds && reg.chip in s.cmds[k].targets && reg.addr in s.cmds[k].addrs
    ensures SlotOf(s.cmds[k], reg) < s.cmds[k].Expected()
  {
    var c := s.cmds[k];
    assert multiset(Waiting(s.forward, reg))[k] > 0;
    assert reg in multiset(s.reverse[k]);
    RegistersMembers(c.targets, c.addrs, reg);
    SlotInRange(|c.addrs|, |c.targets|, FirstIndex(c.targets, reg.chip), LastIndex(c.addrs, reg.addr));
  }

  lemma InvSound<K>(s: Tracker<K>)
    requires Inv(s)
    ensures Sound(s)
  {
    forall reg, k | reg in s.forward && k in s.forward[reg]
      ensures k in s.cmds && SlotOf(s.cmds[k], reg) < |s.cmds[k].data|
    {
      assert k in Waiting(s.forward, reg);
      WaitingReads(s, s.history, reg, k);
    }
  }

  lemma StartInv<K>(now: nat)
    ensures Inv(Start<K>(now))
  {
  }

  // Submitting

  lemma {:induction false} CopiesCount<K>(n: nat, k: K, other: K)
    ensures multiset(Copies(n, k))[other] == if other == k then n else 0
  {
    if n > 0 {
      CopiesCount(n - 1, k, other);
      assert Copies(n, k) == [k] + Copies(n - 1, k);
    }
  }

  lemma FreshAccount(targets: seq<byte>, addrs: seq<byte>, seqNo: nat, now: nat)
    ensures Accounted(Cmd(seqNo, targets, addrs, now, None, None, seq(|targets| * |addrs|, _ => -1),
                          0, false, false, [], []), true)
  {
    var c := Cmd(seqNo, targets, addrs, now, None, None, seq(|targets| * |addrs|, _ => -1), 0, false, false, [], []);
    forall i, j | 0 <= i < |targets| && 0 <= j < |addrs|
      ensures SlotIndex(c, i, j) < |c.data|
    {
      SlotInRange(|addrs|, |targets|, i, j);
    }
  }

  lemma SubmitCounts<K>(s: Tracker<K>, k: K, targets: seq<byte>, addrs: seq<byte>, now: nat, reg: Register)
    requires Agree(s) && k !in s.cmds
    ensures var s' := Submit(s, k, targets, addrs, now);
            && (forall k' :: k' in Waiting(s'.forward, reg) ==> k' in s'.reverse)
            && (forall k' :: k' in s'.reverse ==>
                  multiset(Waiting(s'.forward, reg))[k'] == multiset(s'.reverse[k'])[reg])
  {
    var s' := Submit(s, k, targets, addrs, now);
    var regs := Registers(targets, addrs);
    var w, extra := Waiting(s.forward, reg), Copies(multiset(regs)[reg], k);
    AddAllWaiting(s.forward, regs, k, reg);
    hide AddAll, Registers;
    forall k' | k' in s'.reverse
      ensures multiset(w + extra)[k'] == multiset(s'.reverse[k'])[reg]
    {
      CopiesCount(multiset(regs)[reg], k, k');
      if k' == k {
        assert k !in multiset(w);
      }
    }
  }

  lemma SubmitAgrees<K>(s: Tracker<K>, k: K, targets: seq<byte>, addrs: seq<byte>, now: nat)
    requires Agree(s) && k !in s.cmds
    ensures Agree(Submit(s, k, targets, addrs, now))
  {
    hide AddAll, Registers, Waiting;
    var s' := Submit(s, k, targets, addrs, now);
    forall reg
      ensures forall k' :: k' in Waiting(s'.forward, reg) ==> k' in s'.reverse
      ensures forall k' :: k' in s'.reverse ==>
                multiset(Waiting(s'.forward, reg))[k'] == multiset(s'.reverse[k'])[reg]
    {
      SubmitCounts(s, k, targets, addrs, now, reg);
    }
    assert k !in s.history;
  }

  /** Appending the newest command keeps a list in order. */
  lemma AppendInOrder<K>(cmds: map<K, Cmd>, cmds': map<K, Cmd>, w: seq<K>, n: nat, k: K)
    requires (forall x :: x in w ==> x in cmds) && InOrder(cmds, w)
    requires k in cmds' && forall x :: x in w ==> x in cmds' && cmds'[x].seqNo == cmds[x].seqNo <= cmds'[k].seqNo
    ensures (forall x :: x in w + Copies(n, k) ==> x in cmds') && InOrder(cmds', w + Copies(n, k))
  {
  }

  lemma SubmitNumbered<K>(s: Tracker<K>, k: K, targets: seq<byte>, addrs: seq<byte>, now: nat)
    requires Numbered(s) && k !in s.cmds
    ensures Numbered(Submit(s, k, targets, addrs, now))
  {
    hide InOrder, AddAll, Registers, Waiting;
    var s' := Submit(s, k, targets, addrs, now);
    var regs := Registers(targets, addrs);
    forall reg
      ensures (forall x :: x in Waiting(s'.forward, reg) ==> x in s'.cmds) && InOrder(s'.cmds, Waiting(s'.forward, reg))
    {
      AddAllWaiting(s.forward, regs, k, reg);
      AppendInOrder(s.cmds, s'.cmds, Waiting(s.forward, reg), multiset(regs)[reg], k);
    }
  }

  lemma SubmitKeeps<K>(s: Tracker<K>, k: K, targets: seq<byte>, addrs: seq<byte>, now: nat)
    requires Inv(s) && k !in s.cmds
    ensures Inv(Submit(s, k, targets, addrs, now))
  {
    hide AgreeOn, Numbered;
    SubmitAgrees(s, k, targets, addrs, now);
    SubmitNumbered(s, k, targets, addrs, now);
    FreshAccount(targets, addrs, s.lastSeq + 1, now);
  }

  // Counting an answer

  lemma LastAnswerNext(log: seq<Answer>, a: Answer, reg: Register)
    ensures LastAnswer(log + [a], reg) == if a.reg == reg then a.data else LastAnswer(log, reg)
  {
  }

  lemma CountedKeeps(c: Cmd, a: Answer, now: nat)
    requires SlotsHold(c) && Counts(c) && a.reg.chip in c.targets && a.reg.addr in c.addrs
    requires SlotOf(c, a.reg) < |c.data|
    ensures SlotsHold(Counted(c, a, now)) && Counts(Counted(c, a, now))
  {
    var c' := Counted(c, a, now);
    var fi, lj := FirstIndex(c.targets, a.reg.chip), LastIndex(c.addrs, a.reg.addr);
    forall i, j | 0 <= i < |c.targets| && 0 <= j < |c.addrs|
      ensures SlotIndex(c', i, j) < |c'.data| && c'.data[SlotIndex(c', i, j)] == SlotValue(c', i, j)
    {
      assert c.data[SlotIndex(c, i, j)] == SlotValue(c, i, j);
      LastAnswerNext(c.log, a, Register(c.addrs[j], c.targets[i]));
      if SlotIndex(c, i, j) == SlotOf(c, a.reg) {
        SlotUnique(|c.addrs|, i, j, fi, lj);
      }
    }
  }

  // Releasing

  /** The slots and the counts depend on what was asked and answered alone. */
  lemma SameAnswers(c: Cmd, d: Cmd)
    requires SlotsHold(c) && Counts(c)
    requires c.targets == d.targets && c.addrs == d.addrs && c.data == d.data && c.log == d.log
    requires c.resps == d.resps && c.responseTime == d.responseTime
    ensures SlotsHold(d) && Counts(d)
  {
    forall i, j | 0 <= i < |d.targets| && 0 <= j < |d.addrs|
      ensures SlotIndex(d, i, j) < |d.data| && d.data[SlotIndex(d, i, j)] == SlotValue(d, i, j)
    {
      assert c.data[SlotIndex(c, i, j)] == SlotValue(c, i, j);
    }
  }

  /** `after` is `live` without k. */
  predicate Leaves<K(==)>(live: seq<K>, k: K, after: seq<K>) {
    && NoDuplicates(after) && k !in after
    && (forall x :: x in after ==> x in live) && (forall x :: x in live && x != k ==> x in after)
  }

  lemma ReleaseWaiting<K>(s: Tracker<K>, live: seq<K>, k: K, val: int, reg: Register)
    requires AgreeOn(s, live) && k in s.reverse
    ensures k in s.cmds
    ensures Waiting(Release(s, k, val).forward, reg) == Dropping(Waiting(s.forward, reg), k)
  {
    RemoveAllWaiting(s.forward, s.reverse[k], k, reg);
  }

  lemma ReleaseAgrees<K>(s: Tracker<K>, live: seq<K>, k: K, val: int, after: seq<K>)
    requires AgreeOn(s, live) && k in s.reverse && k in s.cmds && Leaves(live, k, after)
    ensures AgreeOn(Release(s, k, val), after)
  {
    var s' := Release(s, k, val);
    forall reg
      ensures Waiting(s'.forward, reg) == Dropping(Waiting(s.forward, reg), k)
      ensures multiset(Waiting(s'.forward, reg)) == multiset(Waiting(s.forward, reg))[k := 0]
    {
      ReleaseWaiting(s, live, k, val, reg);
      DroppingCounts(Waiting(s.forward, reg), k);
    }
  }

  /** Numbering looks at sequence numbers alone. */
  lemma SameNumbers<K>(cmds: map<K, Cmd>, cmds': map<K, Cmd>, ks: seq<K>)
    requires (forall x :: x in ks ==> x in cmds && x in cmds' && cmds[x].seqNo == cmds'[x].seqNo) && InOrder(cmds, ks)
    ensures InOrder(cmds', ks)
  {
  }

  lemma ReleaseNumbered<K>(s: Tracker<K>, live: seq<K>, k: K, val: int)
    requires AgreeOn(s, live) && Numbered(s) && k in s.reverse && k in s.cmds
    ensures Numbered(Release(s, k, val))
  {
    hide AgreeOn, InOrder, Waiting, RemoveAll;
    var s' := Release(s, k, val);
    forall reg
      ensures (forall x :: x in Waiting(s'.forward, reg) ==> x in s'.cmds) && InOrder(s'.cmds, Waiting(s'.forward, reg))
    {
      ReleaseWaiting(s, live, k, val, reg);
      DroppingInOrder(s.cmds, Waiting(s.forward, reg), k);
      SameNumbers(s.cmds, s'.cmds, Dropping(Waiting(s.forward, reg), k));
    }
  }

  lemma ReleaseKeeps<K>(s: Tracker<K>, live: seq<K>, k: K, val: int, after: seq<K>)
    requires AgreeOn(s, live) && Numbered(s) && k in s.reverse && k in s.cmds && Leaves(live, k, after)
    requires forall x :: x in s.cmds && x != k ==> Accounted(s.cmds[x], x in s.reverse)
    requires Accounted(Released(s.cmds[k], val), false)
    ensures InvOn(Release(s, k, val), after)
  {
    hide AgreeOn, Numbered, Accounted, RemoveAll, Released;
    ReleaseAgrees(s, live, k, val, after);
    ReleaseNumbered(s, live, k, val);
  }

  // Responses

  /** Changing the account of a command disturbs neither the maps nor the numbering. */
  lemma UpdateKeeps<K>(s: Tracker<K>, live: seq<K>, k: K, c: Cmd, history: seq<K>)
    requires AgreeOn(s, live) && Numbered(s) && k in s.cmds
    requires c.seqNo == s.cmds[k].seqNo && c.targets == s.cmds[k].targets && c.addrs == s.cmds[k].addrs
    ensures AgreeOn(s.(cmds := s.cmds[k := c], history := history), live)
    ensures Numbered(s.(cmds := s.cmds[k := c], history := history))
  {
    hide AgreeOn, Numbered;
    UpdateAgrees(s, live, k, c, history);
    UpdateNumbered(s, k, c, history);
  }

  lemma UpdateAgrees<K>(s: Tracker<K>, live: seq<K>, k: K, c: Cmd, history: seq<K>)
    requires AgreeOn(s, live) && k in s.cmds && c.targets == s.cmds[k].targets && c.addrs == s.cmds[k].addrs
    ensures AgreeOn(s.(cmds := s.cmds[k := c], history := history), live)
  {
  }

  lemma UpdateNumbered<K>(s: Tracker<K>, k: K, c: Cmd, history: seq<K>)
    requires Numbered(s) && k in s.cmds && c.seqNo == s.cmds[k].seqNo
    ensures Numbered(s.(cmds := s.cmds[k := c], history := history))
  {
  }

  lemma {:induction false} RemoveFirstLeaves<K>(ks: seq<K>, k: K)
    requires NoDuplicates(ks) && k in ks
    ensures Leaves(ks, k, RemoveFirst(ks, k))
  {
    if ks[0] == k {
      assert forall x :: x in ks && x != k ==> x in ks[1..];
    } else {
      RemoveFirstLeaves(ks[1..], k);
      var r := RemoveFirst(ks[1..], k);
      assert ks[0] !in ks[1..];
      assert forall x :: x in r ==> x in ks[1..] && x != ks[0];
      assert forall x :: x in ks && x != k ==> x == ks[0] || x in r;
    }
  }

  lemma CountedAccount(c: Cmd, a: Answer, now: nat)
    requires Accounted(c, true) && a.reg.chip in c.targets && a.reg.addr in c.addrs
    requires SlotOf(c, a.reg) < |c.data| && SlotOf(c, a.reg) < c.Expected()
    ensures Counted(c, a, now).resps != c.Expected() ==> Accounted(Counted(c, a, now), true)
    ensures Counted(c, a, now).resps == c.Expected() ==>
              Accounted(Released(Counted(c, a, now).(finishTime := Some(now), done := true), 0), false)
  {
    CountedKeeps(c, a, now);
    hide SlotOf;
    var c' := Counted(c, a, now);
    if c'.resps == c.Expected() {
      var d := c'.(finishTime := Some(now), done := true);
      SameAnswers(c', Released(d, 0));
      hide SlotsHold;
    }
  }

  lemma RespondKeeps<K>(s: Tracker<K>, a: Answer, now: nat)
    requires Inv(s)
    ensures Sound(s) && Inv(Respond(s, a, now))
  {
    hide SlotsHold, Counts, LiveAccount, DeadAccount, Released, SlotOf, Numbered;
    InvSound(s);
    match Oldest(s.cmds, Waiting(s.forward, a.reg))
    case None =>
    case Some(k) =>
      WaitingReads(s, s.history, a.reg, k);
      CountedAccount(s.cmds[k], a, now);
      var c := Counted(s.cmds[k], a, now);
      if c.resps == c.Expected() {
        var d := c.(finishTime := Some(now), done := true);
        var history := RemoveFirst(s.history, k);
        UpdateKeeps(s, s.history, k, d, history);
        RemoveFirstLeaves(s.history, k);
        hide AgreeOn, Accounted, Release, RemoveFirst, Waiting;
        ReleaseKeeps(s.(cmds := s.cmds[k := d], history := history), s.history, k, 0, history);
      } else {
        UpdateKeeps(s, s.history, k, c, s.history);
      }
  }

  // The timeout scan

  /** What a scan makes of a command. */
  function Outcome(c: Cmd, clock: Clock, now: nat): Cmd {
    match Judge(c, clock, now)
    case Keep => c
    case Renew(t) => c.(requestTime := t)
    case GiveUp => Released(c.(finishTime := Some(now)), 1)
  }

  lemma OutcomeAccount(c: Cmd, clock: Clock, now: nat)
    requires Accounted(c, true)
    ensures Accounted(Outcome(c, clock, now), !Judge(c, clock, now).GiveUp?)
  {
    SameAnswers(c, Outcome(c, clock, now));
    assert [1] != [0] by {
      assert [1][0] != [0][0];
    }
    hide SlotsHold;
  }

  lemma CheckedKeeps<K>(s: Tracker<K>, live: seq<K>, k: K, now: nat, after: seq<K>)
    requires InvOn(s, live) && k in live && k in s.cmds
    requires Judge(s.cmds[k], s.clock, now).GiveUp? ==> Leaves(live, k, after)
    requires !Judge(s.cmds[k], s.clock, now).GiveUp? ==> after == live
    ensures InvOn(Checked(s, k, now), after)
    ensures Checked(s, k, now).cmds == s.cmds[k := Outcome(s.cmds[k], s.clock, now)]
  {
    hide SlotsHold, Counts, LiveAccount, DeadAccount, Released, AgreeOn, Numbered, Leaves, RemoveAll, Waiting;
    assert k in s.reverse by { LiveInReverse(s, live, k); }
    OutcomeAccount(s.cmds[k], s.clock, now);
    match Judge(s.cmds[k], s.clock, now)
    case Keep =>
      assert s.cmds[k := s.cmds[k]] == s.cmds;
    case Renew(t) =>
      UpdateKeeps(s, live, k, s.cmds[k].(requestTime := t), s.history);
    case GiveUp =>
      var d := s.cmds[k].(finishTime := Some(now));
      UpdateKeeps(s, live, k, d, s.history);
      ReleaseKeeps(s.(cmds := s.cmds[k := d]), live, k, 1, after);
  }

  lemma LiveInReverse<K>(s: Tracker<K>, live: seq<K>, k: K)
    requires AgreeOn(s, live) && k in live
    ensures k in s.reverse && k in s.cmds
  {
  }

  /** The survivors of the last n commands of the history, as a scan keeps them. */
  function Survivors<K>(s: Tracker<K>, n: nat, now: nat): seq<K>
    requires n <= |s.history| && forall i :: 0 <= i < n ==> s.history[i] in s.cmds
  {
    if n == 0 then []
    else
      var k := s.history[n - 1];
      (if Judge(s.cmds[k], s.clock, now).GiveUp? then [] else [k]) + Survivors(s, n - 1, now)
  }

  lemma {:induction false} SurvivorsSame<K>(s: Tracker<K>, s': Tracker<K>, n: nat, now: nat)
    requires n <= |s.history| && s.history == s'.history && s.clock == s'.clock
    requires forall i :: 0 <= i < n ==>
               s.history[i] in s.cmds && s.history[i] in s'.cmds && s.cmds[s.history[i]] == s'.cmds[s.history[i]]
    ensures Survivors(s, n, now) == Survivors(s', n, now)
  {
    if n > 0 {
      SurvivorsSame(s, s', n - 1, now);
    }
  }

  /** The list of live commands while the scan moves k from the history to the kept ones, or drops it. */
  lemma MoveLive<K>(kept: seq<K>, before: seq<K>, k: K)
    requires NoDuplicates(kept + (before + [k]))
    ensures NoDuplicates(kept + [k] + before) && Leaves(kept + (before + [k]), k, kept + before)
    ensures forall x :: x in kept + [k] + before ==> x in kept + (before + [k])
    ensures forall x :: x in kept + (before + [k]) ==> x in kept + [k] + before
  {
    var all, a, n := kept + (before + [k]), kept + [k] + before, |kept|;
    assert forall i :: 0 <= i < |a| ==> a[i] == all[MovedFrom(n, |all|, i)];
    forall i, j | 0 <= i < j < |a|
      ensures a[i] != a[j]
    {
      assert all[MovedFrom(n, |all|, i)] != all[MovedFrom(n, |all|, j)];
    }
    assert all[|all| - 1] == k && all[..|all| - 1] == kept + before;
  }

  /** Where the element at i stood before the last one of `size` moved to place n. */
  function MovedFrom(n: nat, size: nat, i: nat): int {
    if i < n then i else if i == n then size - 1 else i - 1
  }

  lemma SameMembers<K>(s: Tracker<K>, live: seq<K>, after: seq<K>)
    requires InvOn(s, live) && NoDuplicates(after)
    requires (forall x :: x in after ==> x in live) && (forall x :: x in live ==> x in after)
    ensures InvOn(s, after)
  {
  }

  /** How a scan of the last n commands changes the tracker. */
  ghost predicate Scanned<K>(s: Tracker<K>, s': Tracker<K>, n: nat, kept: seq<K>, now: nat)
    requires n <= |s.history| && forall i :: 0 <= i < n ==> s.history[i] in s.cmds
  {
    && s'.history == kept + Survivors(s, n, now)
    && s'.cmds.Keys == s.cmds.Keys && s'.clock == s.clock && s'.lastSeq == s.lastSeq
    && (forall k :: k in s.history[..n] && k in s.cmds ==> s'.cmds[k] == Outcome(s.cmds[k], s.clock, now))
    && (forall k :: k in s.cmds && k !in s.history[..n] ==> s'.cmds[k] == s.cmds[k])
  }

  /** The kept commands after one more turn of the scan. */
  function KeptNext<K>(s: Tracker<K>, n: nat, kept: seq<K>, now: nat): seq<K>
    requires 0 < n <= |s.history| && s.history[n - 1] in s.cmds
  {
    var k := s.history[n - 1];
    if Judge(s.cmds[k], s.clock, now).GiveUp? then kept else kept + [k]
  }

  lemma ScannedNext<K>(s: Tracker<K>, s1: Tracker<K>, s': Tracker<K>, n: nat, kept: seq<K>, now: nat)
    requires 0 < n <= |s.history| && (forall i :: 0 <= i < n ==> s.history[i] in s.cmds)
    requires s.history[n - 1] !in s.history[..n - 1]
    requires s1.history == s.history && s1.clock == s.clock && s1.lastSeq == s.lastSeq
    requires s1.cmds == s.cmds[s.history[n - 1] := Outcome(s.cmds[s.history[n - 1]], s.clock, now)]
    requires Scanned(s1, s', n - 1, KeptNext(s, n, kept, now), now)
    ensures Scanned(s, s', n, kept, now)
  {
    hide Outcome, Judge, Survivors;
    var k := s.history[n - 1];
    assert s.history[..n] == s.history[..n - 1] + [k];
    SurvivorsSame(s, s1, n - 1, now);
    OneMoreSurvivor(s, n, kept, now);
  }

  lemma OneMoreSurvivor<K>(s: Tracker<K>, n: nat, kept: seq<K>, now: nat)
    requires 0 < n <= |s.history| && forall i :: 0 <= i < n ==> s.history[i] in s.cmds
    ensures KeptNext(s, n, kept, now) + Survivors(s, n - 1, now) == kept + Survivors(s, n, now)
  {
  }

  lemma LastIsNew<K>(kept: seq<K>, history: seq<K>, n: nat)
    requires 0 < n <= |history| && NoDuplicates(kept + history[..n])
    ensures history[n - 1] !in history[..n - 1] && history[..n] == history[..n - 1] + [history[n - 1]]
  {
    var all := kept + history[..n];
    assert forall i :: 0 <= i < n ==> all[|kept| + i] == history[i];
  }

  lemma DistinctLive<K>(s: Tracker<K>, live: seq<K>)
    requires InvOn(s, live)
    ensures NoDuplicates(live)
  {
  }

  /** One turn of the scan. */
  lemma CheckedStep<K>(s: Tracker<K>, n: nat, kept: seq<K>, now: nat)
    requires 0 < n <= |s.history| && InvOn(s, kept + s.history[..n])
    ensures s.history[n - 1] in s.cmds && s.history[n - 1] !in s.history[..n - 1]
    ensures var k := s.history[n - 1];
            var s1 := Checked(s, k, now);
            && InvOn(s1, KeptNext(s, n, kept, now) + s1.history[..n - 1]) && s1.lastSeq == s.lastSeq
            && s1.cmds == s.cmds[k := Outcome(s.cmds[k], s.clock, now)]
  {
    var k, before := s.history[n - 1], s.history[..n - 1];
    var live := kept + s.history[..n];
    DistinctLive(s, live);
    hide InvOn, NoDuplicates, Leaves, Outcome;
    LastIsNew(kept, s.history, n);
    assert live[|live| - 1] == k;
    LiveInReverse(s, live, k);
    MoveLive(kept, before, k);
    if Judge(s.cmds[k], s.clock, now).GiveUp? {
      CheckedKeeps(s, live, k, now, kept + before);
    } else {
      CheckedKeeps(s, live, k, now, live);
      SameMembers(Checked(s, k, now), live, kept + [k] + before);
    }
  }

  lemma {:induction false} ScanLoopKeeps<K>(s: Tracker<K>, n: nat, kept: seq<K>, now: nat)
    requires n <= |s.history| && InvOn(s, kept + s.history[..n])
    ensures forall i :: 0 <= i < n ==> s.history[i] in s.cmds
    ensures var s' := ScanLoop(s, n, kept, now); Inv(s') && Scanned(s, s', n, kept, now)
    decreases n
  {
    HistoryKnown(s, n, kept);
    if n == 0 {
      ScanNone(s, kept, now);
    } else {
      hide InvOn, Scanned, Outcome, Judge, Checked, Inv;
      CheckedStep(s, n, kept, now);
      ScanLoopKeeps(Checked(s, s.history[n - 1], now), n - 1, KeptNext(s, n, kept, now), now);
      ScannedNext(s, Checked(s, s.history[n - 1], now), ScanLoop(s, n, kept, now), n, kept, now);
    }
  }

  lemma ScanNone<K>(s: Tracker<K>, kept: seq<K>, now: nat)
    requires InvOn(s, kept + s.history[..0])
    ensures Inv(s.(history := kept)) && Scanned(s, s.(history := kept), 0, kept, now)
  {
    assert kept + s.history[..0] == kept && kept + [] == kept;
  }

  lemma HistoryKnown<K>(s: Tracker<K>, n: nat, kept: seq<K>)
    requires n <= |s.history| && InvOn(s, kept + s.history[..n])
    ensures forall i :: 0 <= i < n ==> s.history[i] in s.cmds
  {
  }

  lemma ScanKeeps<K>(s: Tracker<K>, now: nat)
    requires Inv(s)
    ensures forall k :: k in s.history ==> k in s.cmds
    ensures Inv(Scan(s, now)) && Scanned(s, Scan(s, now), |s.history|, [], now)
  {
    assert [] + s.history[..|s.history|] == s.history;
    hide InvOn, Scanned;
    ScanLoopKeeps(s, |s.history|, [], now);
  }
}
