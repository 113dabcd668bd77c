/** What the data of a finished read command are worth. */
module TrackerCompleteness {
  import opened Basics
  import opened Bytes
  import opened ReadTracker
  import opened TrackerInvariant
  import opened TrackerSteps

  function Members<T(==)>(s: seq<T>): set<T> {
    set x | x in s
  }

  /** A sequence has as many distinct members as elements exactly when it repeats none. */
  lemma {:induction false} DistinctCount<T>(s: seq<T>)
    ensures |Members(s)| <= |s|
    ensures |Members(s)| == |s| <==> NoDuplicates(s)
  {
    if s != [] {
      var rest := s[1..];
      DistinctCount(rest);
      if s[0] in rest {
        assert Members(s) == Members(rest);
        var i :| 0 <= i < |rest| && rest[i] == s[0];
        assert s[0] == s[i + 1];
      } else {
        assert Members(s) == Members(rest) + {s[0]};
        if NoDuplicates(rest) {
          assert forall j :: 0 < j < |s| ==> s[j] in rest;
        } else {
          var i, j :| 0 <= i < j < |rest| && rest[i] == rest[j];
          assert s[i + 1] == s[j + 1];
        }
      }
    }
  }

  /** Pigeons and holes: as many letters as distinct boxes, every letter in a box; then every box
      has a letter exactly when no box has two. */
  lemma Pigeonhole<T>(boxes: seq<T>, letters: seq<T>)
    requires NoDuplicates(boxes) && |boxes| == |letters| && forall x :: x in letters ==> x in boxes
    ensures (forall b :: b in boxes ==> b in letters) <==> NoDuplicates(letters)
  {
    DistinctCount(boxes);
    DistinctCount(letters);
    assert Members(letters) <= Members(boxes);
    if NoDuplicates(letters) {
      SubsetOfSameSize(Members(letters), Members(boxes));
      assert forall b :: b in boxes ==> b in Members(boxes);
    } else {
      assert (forall b :: b in boxes ==> b in letters) ==> Members(boxes) == Members(letters);
    }
  }

  lemma SubsetOfSameSize<T>(a: set<T>, b: set<T>)
    requires a <= b && |a| == |b|
    ensures a == b
  {
    assert b == a + (b - a);
  }

  lemma {:induction false} RegistersDistinct(targets: seq<byte>, addrs: seq<byte>)
    requires NoDuplicates(targets) && NoDuplicates(addrs)
    ensures NoDuplicates(Registers(targets, addrs))
  {
    if targets != [] {
      var row := Row(targets[0], addrs);
      var rest := Registers(targets[1..], addrs);
      RegistersDistinct(targets[1..], addrs);
      forall reg | reg in rest
        ensures reg.chip != targets[0]
      {
        RegistersMembers(targets[1..], addrs, reg);
      }
    }
  }

  /** The registers of the answers counted for a command, in the order they came. */
  function Answered(log: seq<Answer>): (r: seq<Register>)
    ensures |r| == |log|
  {
    seq(|log|, i requires 0 <= i < |log| => log[i].reg)
  }

  lemma {:induction false} LastAnswerKnown(log: seq<Answer>, reg: Register)
    ensures LastAnswer(log, reg) != -1 <==> reg in Answered(log)
  {
    if log != [] {
      var n := |log| - 1;
      LastAnswerKnown(log[..n], reg);
      assert Answered(log) == Answered(log[..n]) + [log[n].reg];
    }
  }

  lemma DistinctIndex(s: seq<byte>, i: nat)
    requires NoDuplicates(s) && i < |s|
    ensures FirstIndex(s, s[i]) == i && LastIndex(s, s[i]) == i
  {
  }

  /** With distinct targets and registers, every slot holds the last answer of its own register,
      and -1 if there was none. */
  lemma SlotIsLastAnswer(c: Cmd, i: nat, j: nat)
    requires SlotsHold(c) && NoDuplicates(c.targets) && NoDuplicates(c.addrs)
    requires i < |c.targets| && j < |c.addrs|
    ensures |c.addrs| * i + j < |c.data|
    ensures c.data[|c.addrs| * i + j] == LastAnswer(c.log, Register(c.addrs[j], c.targets[i]))
  {
    DistinctIndex(c.targets, i);
    DistinctIndex(c.addrs, j);
    assert SlotIndex(c, i, j) < |c.data| && c.data[SlotIndex(c, i, j)] == SlotValue(c, i, j);
  }

  predicate Filled(c: Cmd) {
    forall n :: 0 <= n < |c.data| ==> c.data[n] != -1
  }

  /** Every place in the data is the slot of some register. */
  lemma PlaceIsSlot(c: Cmd, n: nat) returns (i: nat, j: nat)
    requires |c.data| == |c.targets| * |c.addrs| && n < |c.data|
    ensures i < |c.targets| && j < |c.addrs| && n == |c.addrs| * i + j
  {
    var m := |c.addrs|;
    assert m > 0;
    i, j := n / m, n % m;
    assert n == m * i + j;
    assert i >= |c.targets| ==> m * i >= m * |c.targets|;
  }

  lemma FilledIsAnswered(c: Cmd)
    requires SlotsHold(c) && NoDuplicates(c.targets) && NoDuplicates(c.addrs)
    ensures Filled(c) <==> forall reg :: reg in Registers(c.targets, c.addrs) ==> reg in Answered(c.log)
  {
    if Filled(c) {
      forall reg | reg in Registers(c.targets, c.addrs)
        ensures reg in Answered(c.log)
      {
        RegistersMembers(c.targets, c.addrs, reg);
        var i, j := FirstIndex(c.targets, reg.chip), FirstIndex(c.addrs, reg.addr);
        SlotIsLastAnswer(c, i, j);
        LastAnswerKnown(c.log, reg);
      }
    }
    if forall reg :: reg in Registers(c.targets, c.addrs) ==> reg in Answered(c.log) {
      forall n | 0 <= n < |c.data|
        ensures c.data[n] != -1
      {
        var i, j := PlaceIsSlot(c, n);
        var reg := Register(c.addrs[j], c.targets[i]);
        RegistersMembers(c.targets, c.addrs, reg);
        SlotIsLastAnswer(c, i, j);
        LastAnswerKnown(c.log, reg);
      }
    }
  }

  /** A command that was told 0 has every slot filled if and only if no register answered it
      twice: the counter does not look at which register an answer came from. */
  lemma CompleteExactly(c: Cmd)
    requires Accounted(c, false) && c.sent == [0]
    requires NoDuplicates(c.targets) && NoDuplicates(c.addrs)
    ensures Filled(c) <==> NoDuplicates(Answered(c.log))
  {
    var boxes, letters := Registers(c.targets, c.addrs), Answered(c.log);
    RegistersDistinct(c.targets, c.addrs);
    forall reg | reg in letters
      ensures reg in boxes
    {
      RegistersMembers(c.targets, c.addrs, reg);
    }
    Pigeonhole(boxes, letters);
    FilledIsAnswered(c);
  }

  /** A second answer for a register can stand in for one that never came: if the oldest command
      waiting for it lacks one answer and has this one already, it is told 0 with an empty slot. */
  lemma SecondAnswerFinishes<K>(s: Tracker<K>, a: Answer, now: nat, k: K)
    requires Inv(s) && Oldest(s.cmds, Waiting(s.forward, a.reg)) == Some(k) && k in s.cmds
    requires var c := s.cmds[k];
             && c.resps + 1 == c.Expected() && a.reg in Answered(c.log)
             && NoDuplicates(c.targets) && NoDuplicates(c.addrs)
    ensures Sound(s) && k in Respond(s, a, now).cmds
    ensures var c' := Respond(s, a, now).cmds[k]; c'.sent == [0] && !Filled(c')
  {
    hide InvOn, RemoveAll, SlotsHold, Filled;
    RespondKeeps(s, a, now);
    OnlyWaiting(s, a.reg, k);
    var c, c' := s.cmds[k], Respond(s, a, now).cmds[k];
    assert c'.sent == [0] && c'.log == c.log + [a];
    assert Accounted(c', k in Respond(s, a, now).reverse) by { InvAccounts(Respond(s, a, now), k); }
    var i :| 0 <= i < |Answered(c.log)| && Answered(c.log)[i] == a.reg;
    assert Answered(c'.log)[i] == Answered(c'.log)[|c.log|];
    CompleteExactly(c');
  }

  lemma InvAccounts<K>(s: Tracker<K>, k: K)
    requires Inv(s) && k in s.cmds
    ensures Accounted(s.cmds[k], k in s.reverse)
  {
  }

  lemma OnlyWaiting<K>(s: Tracker<K>, reg: Register, k: K)
    requires Inv(s) && k in Waiting(s.forward, reg)
    ensures k in s.cmds && s.cmds[k].sent == [] && !s.cmds[k].completed
  {
    InvAccounts(s, k);
  }

  /** An answer that leaves a command short of others changes the account of that command alone. */
  lemma RespondCounts<K>(s: Tracker<K>, a: Answer, now: nat, k: K)
    requires Sound(s) && Waiting(s.forward, a.reg) != [] && k in s.cmds
    requires Oldest(s.cmds, Waiting(s.forward, a.reg)) == Some(k) && s.cmds[k].resps + 1 != s.cmds[k].Expected()
    ensures SlotOf(s.cmds[k], a.reg) < |s.cmds[k].data|
    ensures Respond(s, a, now) == s.(cmds := s.cmds[k := Counted(s.cmds[k], a, now)])
  {
  }

  lemma OldestOfTwo(cmds: map<int, Cmd>)
    requires 1 in cmds && 2 in cmds && cmds[1].seqNo < cmds[2].seqNo
    ensures Oldest(cmds, [1, 2]) == Some(1)
  {
  }

  lemma OthersUntouched<K>(s: Tracker<K>, a: Answer, now: nat, k: K, other: K)
    requires Sound(s) && Oldest(s.cmds, Waiting(s.forward, a.reg)) == Some(k) && k != other && other in s.cmds
    ensures k in s.cmds && Respond(s, a, now).cmds.Keys == s.cmds.Keys
    ensures Respond(s, a, now).cmds[other] == s.cmds[other]
  {
  }
}
