/** The pipelined register read as the program runs it. */
module PipelinedReader {
  import opened Bytes
  import opened Basics
  import opened FaultTracker
  import opened PipelinedRead

  class AuraAsic {
    const seqChipIds: seq<byte>
    const actualChipIds: seq<byte>
    var faultyAsicsTrack: map<byte, Track>
    var lastBadAsicMarking: nat

    ghost function View(): Health
      reads this
    {
      Health(faultyAsicsTrack, lastBadAsicMarking)
    }

    constructor (seqChipIds: seq<byte>, actualChipIds: seq<byte>)
      ensures this.seqChipIds == seqChipIds && this.actualChipIds == actualChipIds
      ensures View() == Health(map[], 0)
    {
      this.seqChipIds, this.actualChipIds := seqChipIds, actualChipIds;
      faultyAsicsTrack, lastBadAsicMarking := map[], 0;
    }

    method IsFaultyAsic(id: byte) returns (faulty: bool)
      ensures faulty == IsFaulty(View(), id)
    {
      if id in faultyAsicsTrack {
        if faultyAsicsTrack[id].isFaulty {
          return true;
        }
      }
      return false;
    }

    /** Gives a faulty chip another chance, ten minutes after the last one was marked. */
    method ClearFaultyAsic(id: byte, now: nat) returns (cleared: bool)
      modifies this
      ensures cleared == MayClear(old(View()), id, now) && View() == Clear(old(View()), id, now)
    {
      if id in faultyAsicsTrack {
        var track := faultyAsicsTrack[id];
        if track.falseBadCheck < CLEAR_LIMIT && now - lastBadAsicMarking > CLEAR_AFTER {
          track := track.(falseBadCheck := track.falseBadCheck + 1);
          track := track.(first := now);
          track := track.(counts := 1);
          track := track.(isFaulty := false);
          faultyAsicsTrack := faultyAsicsTrack[id := track];
          return true;
        }
      }
      return false;
    }

    method IsAsicDetected(id: byte) returns (detected: bool)
      ensures detected == (id in actualChipIds)
    {
      for i := 0 to |actualChipIds|
        invariant id !in actualChipIds[..i]
      {
        if actualChipIds[i] == id {
          return true;
        }
      }
      assert actualChipIds[..|actualChipIds|] == actualChipIds;
      return false;
    }

    method UpdateAsicFaultyTracker(id: byte, now: nat)
      modifies this
      ensures View() == Blame(old(View()), id, now)
    {
      if id !in faultyAsicsTrack {
        faultyAsicsTrack := faultyAsicsTrack[id := Track(now, 1, false, 0)];
        return;
      }
      var track := faultyAsicsTrack[id];
      if now - track.first < FAULTY_WINDOW {
        track := track.(counts := track.counts + 1);
        if track.counts == FAULTY_COUNT {
          track := track.(isFaulty := true);
          lastBadAsicMarking := now;
        }
        faultyAsicsTrack := faultyAsicsTrack[id := track];
      } else {
        faultyAsicsTrack := faultyAsicsTrack[id := Track(now, 1, false, 0)];
      }
    }

    /** Collects the targets to ask and remembers where each one came from. */
    method ChooseTargets(targets: seq<byte>, readAll: bool, clock: nat -> nat)
      returns (newTargets: seq<byte>, indexMap: map<nat, nat>, faultyAsics: bool)
      modifies this
      ensures var detected := if readAll then Some(set c | c in actualChipIds) else None;
              var s := Select(old(View()), targets, |targets|, detected, clock);
              && View() == s.health && faultyAsics == s.leftOut && newTargets == Asked(targets, s.picked)
              && forall p :: 0 <= p < |s.picked| ==> p in indexMap && indexMap[p] == s.picked[p]
    {
      newTargets, indexMap, faultyAsics := [], map[], false;
      ghost var detected := if readAll then Some(set c | c in actualChipIds) else None;
      for idx := 0 to |targets|
        invariant var s := Select(old(View()), targets, idx, detected, clock);
          && View() == s.health && faultyAsics == s.leftOut && newTargets == Asked(targets, s.picked)
          && forall p :: 0 <= p < |s.picked| ==> p in indexMap && indexMap[p] == s.picked[p]
      {
        hide Clear, MayClear, IsFaulty, Asked;
        ghost var s := Select(old(View()), targets, idx, detected, clock);
        var target := targets[idx];
        var faulty := IsFaultyAsic(target);
        if faulty {
          var cleared := ClearFaultyAsic(target, clock(idx));
          if !cleared {
            faultyAsics := true;
            continue;
          }
        }
        if readAll {
          var known := IsAsicDetected(target);
          if !known {
            continue;
          }
        }
        AskOneMore(targets, s.picked, idx);
        indexMap := indexMap[|newTargets| := idx];
        newTargets := newTargets + [target];
      }
    }

    /** Copies the answer of the asked targets to their places and blames, once each, those with a
        register missing. */
    method Reconstruct(targets: seq<byte>, newTargets: seq<byte>, indexMap: map<nat, nat>, regs: nat,
                       retData: seq<int>, clock: nat -> nat, ghost picked: seq<nat>)
      returns (res: seq<int>)
      requires forall p :: 0 <= p < |picked| ==> picked[p] < |targets|
      requires forall p, q :: 0 <= p < q < |picked| ==> picked[p] < picked[q]
      requires newTargets == Asked(targets, picked) && |retData| == |newTargets| * regs
      requires forall p :: 0 <= p < |picked| ==> p in indexMap && indexMap[p] == picked[p]
      modifies this
      ensures InPlace(res, |targets|, regs, picked, retData)
      ensures View() == BlameSilent(old(View()), newTargets, retData, regs, |newTargets|, clock)
    {
      hide AllUpTo, CopiedUpTo, HoleBefore, Blame, BlameSilent, InPlace;
      var n := |targets|;
      res := seq(n * regs, _ => 0);
      for i := 0 to |res|
        invariant |res| == n * regs && forall k :: 0 <= k < i ==> res[k] == -1
      {
        res := res[i := -1];
      }
      NonePlaced(res, n, regs, picked, retData);
      BlameNone(View(), newTargets, retData, regs, clock);
      for asicIdx := 0 to |newTargets|
        invariant |res| == n * regs
        invariant AllUpTo(res, n, regs, picked, retData, asicIdx)
        invariant View() == BlameSilent(old(View()), newTargets, retData, regs, asicIdx, clock)
      {
        ghost var before := res;
        var flag := false;
        var resIdx := indexMap[asicIdx];
        NoneCopied(res, n, regs, retData, |picked|, resIdx, asicIdx);
        for regIdx := 0 to regs
          invariant |res| == n * regs
          invariant CopiedUpTo(before, res, n, regs, retData, |picked|, resIdx, asicIdx, regIdx)
          invariant flag == HoleBefore(retData, asicIdx, regs, regIdx)
          invariant View() == var h := BlameSilent(old(View()), newTargets, retData, regs, asicIdx, clock);
                              if flag then Blame(h, newTargets[asicIdx], clock(asicIdx)) else h
        {
          var index := At(asicIdx, regIdx, |newTargets|, regs);
          HoleStep(retData, asicIdx, regs, regIdx);
          CopyStep(before, res, n, regs, retData, |picked|, resIdx, asicIdx, regIdx);
          res := res[At(resIdx, regIdx, n, regs) := retData[index]];
          if retData[index] == -1 && !flag {
            flag := true;
            UpdateAsicFaultyTracker(newTargets[asicIdx], clock(asicIdx));
          }
        }
        RowDone(before, res, n, regs, picked, retData, asicIdx);
        BlameNext(old(View()), newTargets, retData, regs, asicIdx, clock);
      }
      AllPlaced(res, n, regs, picked, retData);
    }

    /** Reads registers of the given chips, or of all chips. `answer` is what the link returns: a
        code, 0 for success, and the registers of the chips asked. The clocks give the time at which
        each target is chosen and each silent chip is blamed. */
    method ReadRegsPipelined(chips: Option<seq<byte>>, addrs: seq<byte>, answer: seq<byte> -> (int, seq<int>),
                             clock: nat -> nat, later: nat -> nat)
      returns (res: seq<int>)
      requires forall asked :: |answer(asked).1| == |asked| * |addrs|
      modifies this
      ensures var targets := if chips.Some? then chips.value else seqChipIds;
              var detected := if chips.Some? then None else Some(set c | c in actualChipIds);
              var s := Select(old(View()), targets, |targets|, detected, clock);
              var asked := Asked(targets, s.picked);
              && InPlace(res, |targets|, |addrs|, s.picked, answer(asked).1)
              && View() == if answer(asked).0 == 0 && !s.leftOut && chips.Some? then s.health
                           else BlameSilent(s.health, asked, answer(asked).1, |addrs|, |asked|, later)
    {
      hide InPlace, Placed, BlameSilent;
      var targets := if chips.Some? then chips.value else seqChipIds;
      ghost var detected := if chips.None? then Some(set c | c in actualChipIds) else None;
      ghost var s := Select(View(), targets, |targets|, detected, clock);
      var newTargets, indexMap, faultyAsics := ChooseTargets(targets, chips.None?, clock);
      if faultyAsics && |newTargets| == 0 {
        NobodyAsked(|targets|, |addrs|, s.picked, answer(newTargets).1);
        BlameNone(View(), newTargets, answer(newTargets).1, |addrs|, later);
        res := seq(|addrs| * |targets|, _ => -1);
        return;
      }
      var (code, retData) := answer(newTargets);
      if code == 0 && !faultyAsics && chips.Some? {
        AllAsked(old(View()), targets, |targets|, clock);
        assert Asked(targets, Indices(|targets|)) == targets;
        FastReturn(|targets|, |addrs|, retData);
        return retData;
      }
      res := Reconstruct(targets, newTargets, indexMap, |addrs|, retData, later, s.picked);
    }
  }

  lemma AskOneMore(targets: seq<byte>, picked: seq<nat>, i: nat)
    requires (forall p :: 0 <= p < |picked| ==> picked[p] < |targets|) && i < |targets|
    ensures Asked(targets, picked + [i]) == Asked(targets, picked) + [targets[i]]
  {
  }

  lemma NobodyAsked(n: nat, regs: nat, picked: seq<nat>, data: seq<int>)
    requires picked == [] && data == []
    ensures |seq(regs * n, _ => -1)| == n * regs
    ensures InPlace(seq(regs * n, _ => -1), n, regs, picked, data)
  {
  }

  /** Slot (i, r) when the answers of the first k asked targets have been copied. */
  ghost predicate PlacedUpTo(res: seq<int>, n: nat, regs: nat, picked: seq<nat>, data: seq<int>, k: nat, i: nat, r: nat)
    requires |res| == n * regs && |data| == |picked| * regs && i < n && r < regs && k <= |picked|
  {
    && (i !in picked[..k] ==> res[At(i, r, n, regs)] == -1)
    && forall p :: 0 <= p < k && picked[p] == i ==> res[At(i, r, n, regs)] == data[At(p, r, |picked|, regs)]
  }

  ghost predicate AllUpTo(res: seq<int>, n: nat, regs: nat, picked: seq<nat>, data: seq<int>, k: nat) {
    && |res| == n * regs && |data| == |picked| * regs && k <= |picked|
    && forall i: nat, r: nat :: i < n && r < regs ==> PlacedUpTo(res, n, regs, picked, data, k, i, r)
  }

  lemma NonePlaced(res: seq<int>, n: nat, regs: nat, picked: seq<nat>, data: seq<int>)
    requires |res| == n * regs && |data| == |picked| * regs && forall k :: 0 <= k < |res| ==> res[k] == -1
    ensures AllUpTo(res, n, regs, picked, data, 0)
  {
  }

  lemma BlameNone(h: Health, asked: seq<byte>, data: seq<int>, regs: nat, clock: nat -> nat)
    ensures BlameSilent(h, asked, data, regs, 0, clock) == h
  {
  }

  /** The first m registers of asked target p are in the slots of target j; nothing else changed. */
  ghost predicate CopiedUpTo(before: seq<int>, res: seq<int>, n: nat, regs: nat, data: seq<int>, asked: nat,
                             j: nat, p: nat, m: nat)
    requires |before| == |res| == n * regs && |data| == asked * regs && j < n && p < asked && m <= regs
  {
    forall i: nat, r: nat :: i < n && r < regs ==>
      res[At(i, r, n, regs)] == if i == j && r < m then data[At(p, r, asked, regs)] else before[At(i, r, n, regs)]
  }

  lemma NoneCopied(res: seq<int>, n: nat, regs: nat, data: seq<int>, asked: nat, j: nat, p: nat)
    requires |res| == n * regs && |data| == asked * regs && j < n && p < asked
    ensures CopiedUpTo(res, res, n, regs, data, asked, j, p, 0) && !HoleBefore(data, p, regs, 0)
  {
  }

  lemma CopyStep(before: seq<int>, res: seq<int>, n: nat, regs: nat, data: seq<int>, asked: nat, j: nat, p: nat, m: nat)
    requires |before| == |res| == n * regs && |data| == asked * regs && j < n && p < asked && m < regs
    requires CopiedUpTo(before, res, n, regs, data, asked, j, p, m)
    ensures CopiedUpTo(before, res[At(j, m, n, regs) := data[At(p, m, asked, regs)]], n, regs, data, asked, j, p, m + 1)
  {
    forall i: nat, r: nat | i < n && r < regs ensures At(i, r, n, regs) == At(j, m, n, regs) <==> i == j && r == m {
      AtUnique(i, r, j, m, regs);
    }
  }

  lemma RowDone(before: seq<int>, res: seq<int>, n: nat, regs: nat, picked: seq<nat>, data: seq<int>, k: nat)
    requires |before| == |res| == n * regs && |data| == |picked| * regs && k < |picked| && picked[k] < n
    requires forall p, q :: 0 <= p < q < |picked| ==> picked[p] < picked[q]
    requires AllUpTo(before, n, regs, picked, data, k)
    requires CopiedUpTo(before, res, n, regs, data, |picked|, picked[k], k, regs)
    ensures AllUpTo(res, n, regs, picked, data, k + 1)
  {
    var k' := k + 1;
    forall i: nat, r: nat | i < n && r < regs ensures PlacedUpTo(res, n, regs, picked, data, k', i, r) {
      assert PlacedUpTo(before, n, regs, picked, data, k, i, r);
      assert picked[..k + 1] == picked[..k] + [picked[k]];
    }
  }

  lemma AllPlaced(res: seq<int>, n: nat, regs: nat, picked: seq<nat>, data: seq<int>)
    requires |res| == n * regs && |data| == |picked| * regs
    requires AllUpTo(res, n, regs, picked, data, |picked|)
    ensures InPlace(res, n, regs, picked, data)
  {
    forall i: nat, r: nat | i < n && r < regs ensures Placed(res, n, regs, picked, data, i, r) {
      assert PlacedUpTo(res, n, regs, picked, data, |picked|, i, r);
      assert picked[..|picked|] == picked;
    }
  }

  predicate HoleBefore(data: seq<int>, p: nat, regs: nat, m: nat) {
    p * regs + m <= |data| && -1 in data[p * regs..p * regs + m]
  }

  lemma HoleStep(data: seq<int>, p: nat, regs: nat, m: nat)
    requires p * regs + m < |data|
    ensures HoleBefore(data, p, regs, m + 1) == (HoleBefore(data, p, regs, m) || data[p * regs + m] == -1)
  {
  }

  lemma BlameNext(h: Health, asked: seq<byte>, data: seq<int>, regs: nat, p: nat, clock: nat -> nat)
    requires |data| == |asked| * regs && p < |asked|
    ensures BlameSilent(h, asked, data, regs, p + 1, clock)
            == var before := BlameSilent(h, asked, data, regs, p, clock);
               if HoleBefore(data, p, regs, regs) then Blame(before, asked[p], clock(p)) else before
  {
  }
}
