/** What every step of the read tracker keeps. */
module TrackerInvariant {
  import opened Basics
  import opened ReadTracker

  /** The sequence without k, in the same order. */
  function Dropping<K(==)>(ks: seq<K>, k: K): (r: seq<K>)
    ensures k !in r && forall x :: x in r ==> x in ks
  {
    if ks == [] then [] else (if ks[0] == k then [] else [ks[0]]) + Dropping(ks[1..], k)
  }

  function Copies<K>(n: nat, k: K): seq<K> {
    seq(n, _ => k)
  }

  /** The two maps describe the same live commands, with the same multiplicities; `live` lists
      them once each. Between two steps it is the history. */
  ghost predicate AgreeOn<K>(s: Tracker<K>, live: seq<K>) {
    && NoDuplicates(live)
    && (forall k :: k in live ==> k in s.reverse) && (forall k :: k in s.reverse ==> k in live)
    && (forall k :: k in s.reverse ==>
          k in s.cmds && s.reverse[k] == Registers(s.cmds[k].targets, s.cmds[k].addrs))
    && (forall reg, k :: k in Waiting(s.forward, reg) ==> k in s.reverse)
    && (forall reg, k :: k in s.reverse ==>
          multiset(Waiting(s.forward, reg))[k] == multiset(s.reverse[k])[reg])
  }

  ghost predicate Agree<K>(s: Tracker<K>) {
    AgreeOn(s, s.history)
  }

  predicate InOrder<K>(cmds: map<K, Cmd>, ks: seq<K>)
    requires forall k :: k in ks ==> k in cmds
  {
    forall i, j :: 0 <= i <= j < |ks| ==> cmds[ks[i]].seqNo <= cmds[ks[j]].seqNo
  }

  /** Sequence numbers identify commands, and every list of waiting commands is in their order. */
  ghost predicate Numbered<K>(s: Tracker<K>) {
    && (forall k :: k in s.cmds ==> s.cmds[k].seqNo <= s.lastSeq)
    && (forall k, k' :: k in s.cmds && k' in s.cmds && s.cmds[k].seqNo == s.cmds[k'].seqNo ==> k == k')
    && (forall reg ::
          (forall k :: k in Waiting(s.forward, reg) ==> k in s.cmds) && InOrder(s.cmds, Waiting(s.forward, reg)))
  }

  lemma {:induction false} AddAllWaiting<K>(forward: map<Register, seq<K>>, regs: seq<Register>, k: K, reg: Register)
    ensures Waiting(AddAll(forward, regs, k), reg) == Waiting(forward, reg) + Copies(multiset(regs)[reg], k)
    decreases |regs|
  {
    if regs != [] {
      var next := forward[regs[0] := Waiting(forward, regs[0]) + [k]];
      AddAllWaiting(next, regs[1..], k, reg);
      assert regs == [regs[0]] + regs[1..];
      if regs[0] == reg {
        assert [k] + Copies(multiset(regs[1..])[reg], k) == Copies(multiset(regs)[reg], k);
      }
    }
  }

  lemma {:induction false} RemoveFirstCounts<K>(ks: seq<K>, k: K)
    requires k in ks
    ensures multiset(RemoveFirst(ks, k)) == multiset(ks) - multiset{k}
    ensures Dropping(RemoveFirst(ks, k), k) == Dropping(ks, k)
  {
    hide Dropping;
    assert ks == [ks[0]] + ks[1..];
    DroppingFirst(ks[0], ks[1..], k);
    if ks[0] != k {
      RemoveFirstCounts(ks[1..], k);
      assert RemoveFirst(ks, k) == [ks[0]] + RemoveFirst(ks[1..], k);
      DroppingFirst(ks[0], RemoveFirst(ks[1..], k), k);
    }
  }

  lemma DroppingFirst<K>(x: K, ks: seq<K>, k: K)
    ensures Dropping([x] + ks, k) == (if x == k then [] else [x]) + Dropping(ks, k)
  {
  }

  lemma {:induction false} DroppingNothing<K>(ks: seq<K>, k: K)
    requires k !in ks
    ensures Dropping(ks, k) == ks
  {
    if ks != [] {
      DroppingNothing(ks[1..], k);
    }
  }

  lemma {:induction false} DroppingCounts<K>(ks: seq<K>, k: K)
    ensures multiset(Dropping(ks, k)) == multiset(ks)[k := 0]
  {
    if ks != [] {
      DroppingCounts(ks[1..], k);
      assert ks == [ks[0]] + ks[1..];
    }
  }

  lemma {:induction false} DroppingInOrder<K>(cmds: map<K, Cmd>, ks: seq<K>, k: K)
    requires (forall x :: x in ks ==> x in cmds) && InOrder(cmds, ks)
    ensures InOrder(cmds, Dropping(ks, k))
  {
    if ks != [] {
      var rest := Dropping(ks[1..], k);
      DroppingInOrder(cmds, ks[1..], k);
      forall x | x in rest
        ensures cmds[ks[0]].seqNo <= cmds[x].seqNo
      {
        assert x in ks[1..];
      }
    }
  }

  /** Taking a command out once per entry of its list leaves every list without it. */
  lemma {:induction false} RemoveAllWaiting<K>(forward: map<Register, seq<K>>, regs: seq<Register>, k: K, reg: Register)
    requires multiset(Waiting(forward, reg))[k] == multiset(regs)[reg]
    ensures Waiting(RemoveAll(forward, regs, k), reg) == Dropping(Waiting(forward, reg), k)
    decreases |regs|
  {
    if regs == [] {
      assert k !in multiset(Waiting(forward, reg));
      DroppingNothing(Waiting(forward, reg), k);
    } else {
      var ks := Waiting(forward, regs[0]);
      assert regs == [regs[0]] + regs[1..];
      if k in ks {
        RemoveFirstCounts(ks, k);
        RemoveAllWaiting(forward[regs[0] := RemoveFirst(ks, k)], regs[1..], k, reg);
      } else {
        assert regs[0] == reg ==> multiset(regs)[reg] >= 1;
        RemoveAllWaiting(forward, regs[1..], k, reg);
      }
    }
  }

  lemma {:induction false} OldestIsHead<K>(cmds: map<K, Cmd>, ks: seq<K>)
    requires forall k :: k in ks ==> k in cmds
    requires InOrder(cmds, ks) && ks != []
    requires forall k, k' :: k in cmds && k' in cmds && cmds[k].seqNo == cmds[k'].seqNo ==> k == k'
    ensures Oldest(cmds, ks) == Some(ks[0])
  {
    var n := |ks| - 1;
    if n > 0 {
      OldestIsHead(cmds, ks[..n]);
      assert cmds[ks[0]].seqNo <= cmds[ks[n]].seqNo;
    }
  }

  // The account of one command

  /** The last answer of a register, or -1. */
  function LastAnswer(log: seq<Answer>, reg: Register): int {
    if log == [] then -1
    else if log[|log| - 1].reg == reg then log[|log| - 1].data
    else LastAnswer(log[..|log| - 1], reg)
  }

  /** Each register's slot holds its last answer, and slots no register maps to hold -1. */
  predicate SlotsHold(c: Cmd) {
    && |c.data| == |c.targets| * |c.addrs|
    && forall i, j :: 0 <= i < |c.targets| && 0 <= j < |c.addrs| ==>
         SlotIndex(c, i, j) < |c.data| && c.data[SlotIndex(c, i, j)] == SlotValue(c, i, j)
  }

  function SlotIndex(c: Cmd, i: nat, j: nat): nat {
    |c.addrs| * i + j
  }

  function SlotValue(c: Cmd, i: nat, j: nat): int
    requires i < |c.targets| && j < |c.addrs|
  {
    if i == FirstIndex(c.targets, c.targets[i]) && j == LastIndex(c.addrs, c.addrs[j])
    then LastAnswer(c.log, Register(c.addrs[j], c.targets[i]))
    else -1
  }

  /** Answers are counted one by one, for registers the command reads. */
  predicate Counts(c: Cmd) {
    && c.resps == |c.log|
    && (c.responseTime.Some? <==> c.resps > 0)
    && forall a :: a in c.log ==> a.reg.chip in c.targets && a.reg.addr in c.addrs
  }

  /** A live command has sent nothing and still misses an answer, unless it expects none. */
  predicate LiveAccount(c: Cmd) {
    && c.sent == [] && !c.completed && !c.done && c.finishTime.None?
    && (c.resps < c.Expected() || c.resps == c.Expected() == 0)
  }

  /** A command that is no longer live has sent exactly one value: 0 if every expected answer was
      counted, and 1 otherwise. */
  predicate DeadAccount(c: Cmd) {
    && (c.sent == [0] || c.sent == [1]) && c.finishTime.Some?
    && (c.sent == [0] <==> c.done) && (c.sent == [0] <==> c.resps == c.Expected() && c.resps > 0)
    && (c.completed <==> c.resps > 0)
  }

  predicate Accounted(c: Cmd, live: bool) {
    SlotsHold(c) && Counts(c) && if live then LiveAccount(c) else DeadAccount(c)
  }

  ghost predicate Inv<K>(s: Tracker<K>) {
    InvOn(s, s.history)
  }

  ghost predicate InvOn<K>(s: Tracker<K>, live: seq<K>) {
    && AgreeOn(s, live) && Numbered(s)
    && forall k :: k in s.cmds ==> Accounted(s.cmds[k], k in s.reverse)
  }
}
