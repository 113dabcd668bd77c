/** From the answers on the link to the values a caller reads. */
module ReadResults {
  import opened Bytes
  import opened Basics
  import opened ReadTracker
  import opened TrackerInvariant
  import opened TrackerCompleteness
  import opened TrackerRuns
  import opened TrackerAnswers
  import opened PipelinedRead

  /** What a pipelined read returns for register r of target i is the last answer that register
      gave to the command, -1 if it gave none, and -1 if the target was not asked. */
  lemma ResultIsLastAnswer(c: Cmd, targets: seq<byte>, picked: seq<nat>, res: seq<int>, i: nat, r: nat)
    requires SlotsHold(c) && NoDuplicates(targets) && NoDuplicates(c.addrs)
    requires forall p :: 0 <= p < |picked| ==> picked[p] < |targets|
    requires forall p, q :: 0 <= p < q < |picked| ==> picked[p] < picked[q]
    requires c.targets == Asked(targets, picked) && InPlace(res, |targets|, |c.addrs|, picked, c.data)
    requires i < |targets| && r < |c.addrs|
    ensures res[At(i, r, |targets|, |c.addrs|)]
            == if i in picked then LastAnswer(c.log, Register(c.addrs[r], targets[i])) else -1
  {
    hide SlotsHold;
    AskedOnce(targets, picked);
    assert Placed(res, |targets|, |c.addrs|, picked, c.data, i, r);
    if i in picked {
      var p: nat :| p < |picked| && picked[p] == i;
      SlotIsLastAnswer(c, p, r);
    }
  }

  /** The same, said of the events of the run: the data of the last response for that register that
      arrived while the command was the oldest live one reading it. */
  lemma ResultIsLastResponse<K>(s: Tracker<K>, es: seq<TrackerRuns.Event<K>>, k: K, targets: seq<byte>,
                                picked: seq<nat>, res: seq<int>, i: nat, r: nat)
    requires Inv(s) && Possible(s, es) && k in s.cmds && s.cmds[k].log == [] && s.cmds[k].responseTime == None
    requires NoDuplicates(targets) && NoDuplicates(s.cmds[k].addrs)
    requires forall p :: 0 <= p < |picked| ==> picked[p] < |targets|
    requires forall p, q :: 0 <= p < q < |picked| ==> picked[p] < picked[q]
    requires s.cmds[k].targets == Asked(targets, picked) && i < |targets| && r < |s.cmds[k].addrs|
    requires k in RunAll(s, es).cmds
             && InPlace(res, |targets|, |s.cmds[k].addrs|, picked, RunAll(s, es).cmds[k].data)
    ensures var v := res[At(i, r, |targets|, |s.cmds[k].addrs|)];
            if i in picked then IsLastData(ResponsesFor(s, es, k), Register(s.cmds[k].addrs[r], targets[i]), v)
            else v == -1
  {
    hide Inv, RunAll, Possible, ResponsesFor, IsLastData;
    AskedOnce(targets, picked);
    assert Placed(res, |targets|, |s.cmds[k].addrs|, picked, RunAll(s, es).cmds[k].data, i, r);
    if i in picked {
      var p: nat :| p < |picked| && picked[p] == i;
      SlotIsLastResponse(s, es, k, p, r);
    }
  }

  /** A read that was told 0, with no register answering twice, has every asked register: only
      targets that were not asked show -1. */
  lemma CompleteResult(c: Cmd, targets: seq<byte>, picked: seq<nat>, res: seq<int>, i: nat, r: nat)
    requires Accounted(c, false) && c.sent == [0] && NoDuplicates(Answered(c.log))
    requires NoDuplicates(targets) && NoDuplicates(c.addrs)
    requires forall p :: 0 <= p < |picked| ==> picked[p] < |targets|
    requires forall p, q :: 0 <= p < q < |picked| ==> picked[p] < picked[q]
    requires c.targets == Asked(targets, picked) && InPlace(res, |targets|, |c.addrs|, picked, c.data)
    requires i < |targets| && r < |c.addrs|
    ensures res[At(i, r, |targets|, |c.addrs|)] == -1 <==> i !in picked
  {
    hide SlotsHold;
    AskedOnce(targets, picked);
    CompleteExactly(c);
    assert Placed(res, |targets|, |c.addrs|, picked, c.data, i, r);
    if i in picked {
      var p: nat :| p < |picked| && picked[p] == i;
      assert c.data[At(p, r, |picked|, |c.addrs|)] != -1;
    }
  }
}
