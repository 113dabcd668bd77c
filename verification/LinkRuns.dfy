/** Whole runs of the UART reader: lossless delivery, and exactly when a run is lossless. */
module LinkRuns {
  import opened Bytes
  import opened Frames
  import opened FrameDecoder
  import opened Framing
  import opened Reading
  import opened ReadLosses

  const IDLE := Link([], false, [], [])

  /** Reads that all cut the stream well, when n bytes of it are held before the first of them.
      Whether they do depends on their sizes alone. */
  predicate ReadsWell(segs: seq<Segment>, n: int, chunks: seq<seq<byte>>)
    requires IsStream(segs)
    decreases |chunks|
  {
    chunks == [] ||
    (var seen := n + |chunks[0]|;
     && |chunks[0]| <= BUF_LEN && Fits(segs, seen) && CutsWell(segs, seen)
     && ReadsWell(Settle(segs, seen).0, Settle(segs, seen).1, chunks[1..]))
  }

  /** What is left of the stream after the reads, and how many bytes of that are held. */
  function After(segs: seq<Segment>, n: int, chunks: seq<seq<byte>>): (r: (seq<Segment>, int))
    requires IsStream(segs)
    ensures IsStream(r.0)
    decreases |chunks|
  {
    if chunks == [] then (segs, n)
    else
      var r := Settle(segs, n + |chunks[0]|);
      After(r.0, r.1, chunks[1..])
  }

  lemma DigestedTwice(s: Link, s1: Link, s2: Link, mid: seq<byte>, more: seq<byte>, segs: seq<Segment>, j: nat, k: nat)
    requires IsStream(segs) && Digested(s, s1, mid, segs, j) && Digested(s1, s2, more, segs[j..], k)
    ensures Digested(s, s2, more, segs, j + k)
  {
    hide Stream, HitsOf, RespsOf, Held, IsStream;
    assert segs[j..][k..] == segs[j + k..];
  }

  lemma DigestedNothing(s: Link, more: seq<byte>, segs: seq<Segment>)
    requires IsStream(segs) && Held(s, segs) && s.received + more == Stream(segs)
    ensures Digested(s, s, more, segs, 0)
  {
    assert segs[0..] == segs;
  }

  /** With what is held, there is nothing to do. */
  lemma HeldSettled(s: Link, segs: seq<Segment>)
    requires IsStream(segs) && Held(s, segs)
    ensures Fits(segs, |s.received|) && CutsWell(segs, |s.received|)
    ensures Settle(segs, |s.received|) == (segs, |s.received|)
  {
    if segs != [] {
      EnoughSeen(segs);
    }
  }

  lemma OneChunk(s: Link, chunk: seq<byte>, rest: seq<byte>, segs: seq<Segment>) returns (j: nat)
    requires IsStream(segs) && Held(s, segs) && s.received + chunk + rest == Stream(segs)
    requires Fits(segs, |s.received| + |chunk|) && CutsWell(segs, |s.received| + |chunk|)
    ensures Digested(s, Receive(s, chunk), rest, segs, j)
    ensures Settle(segs, |s.received| + |chunk|) == (segs[j..], |Receive(s, chunk).received|)
  {
    hide Held, Digested, Stream, Process, CutsWell, Settle, Fits;
    if chunk == [] {
      j := 0;
      assert segs[0..] == segs && s.received + chunk == s.received;
      HeldSettled(s, segs);
      DigestedNothing(s, rest, segs);
    } else {
      StreamNotEmpty(segs, s.received + chunk, rest);
      j := Digest(s, chunk, rest, segs);
    }
  }

  lemma RunFirst(s: Link, chunks: seq<seq<byte>>)
    ensures chunks == [] ==> Run(s, chunks) == s && Flatten(chunks) == []
    ensures chunks != [] ==> Run(s, chunks) == Run(Receive(s, chunks[0]), chunks[1..])
                             && Flatten(chunks) == chunks[0] + Flatten(chunks[1..])
  {
  }

  lemma Regroup4(a: seq<byte>, b: seq<byte>, c: seq<byte>, d: seq<byte>)
    ensures a + (b + c) + d == a + b + (c + d)
  {
  }

  lemma DigestedFacts(s: Link, s1: Link, more: seq<byte>, segs: seq<Segment>, j: nat)
    requires IsStream(segs) && Digested(s, s1, more, segs, j)
    ensures j <= |segs| && IsStream(segs[j..]) && Held(s1, segs[j..]) && s1.received + more == Stream(segs[j..])
  {
  }

  lemma FirstChunk(s: Link, chunks: seq<seq<byte>>, more: seq<byte>, segs: seq<Segment>) returns (j: nat)
    requires chunks != [] && IsStream(segs) && Held(s, segs)
    requires Fits(segs, |s.received| + |chunks[0]|) && CutsWell(segs, |s.received| + |chunks[0]|)
    requires s.received + Flatten(chunks) + more == Stream(segs)
    ensures var s1 := Receive(s, chunks[0]);
            && Digested(s, s1, Flatten(chunks[1..]) + more, segs, j)
            && j <= |segs| && IsStream(segs[j..]) && Held(s1, segs[j..])
            && s1.received + Flatten(chunks[1..]) + more == Stream(segs[j..])
            && Settle(segs, |s.received| + |chunks[0]|) == (segs[j..], |s1.received|)
  {
    hide Process, Receive, Held, Conserves, CutsWell, Settle, Digested, Stream;
    var rest := Flatten(chunks[1..]) + more;
    Regroup4(s.received, chunks[0], Flatten(chunks[1..]), more);
    j := OneChunk(s, chunks[0], rest, segs);
    DigestedFacts(s, Receive(s, chunks[0]), rest, segs, j);
    Regroup(Receive(s, chunks[0]).received, Flatten(chunks[1..]), more);
  }

  lemma WellFirst(segs: seq<Segment>, n: int, chunks: seq<seq<byte>>)
    requires IsStream(segs) && ReadsWell(segs, n, chunks) && chunks != []
    ensures |chunks[0]| <= BUF_LEN && Fits(segs, n + |chunks[0]|) && CutsWell(segs, n + |chunks[0]|)
    ensures var r := Settle(segs, n + |chunks[0]|); ReadsWell(r.0, r.1, chunks[1..])
  {
  }

  lemma AfterFirst(segs: seq<Segment>, n: int, chunks: seq<seq<byte>>)
    requires IsStream(segs)
    ensures chunks == [] ==> After(segs, n, chunks) == (segs, n)
    ensures chunks != [] ==> var r := Settle(segs, n + |chunks[0]|);
                             After(segs, n, chunks) == After(r.0, r.1, chunks[1..])
  {
  }

  /** Any run over the stream of segs: after reads that cut it well, the first j segments have
      gone to their queues, repaired and in order, and the reader holds exactly the bytes since. */
  lemma {:induction false} Delivery(s: Link, chunks: seq<seq<byte>>, more: seq<byte>, segs: seq<Segment>)
    returns (j: nat)
    requires IsStream(segs) && Held(s, segs) && ReadsWell(segs, |s.received|, chunks)
    requires s.received + Flatten(chunks) + more == Stream(segs)
    ensures Digested(s, Run(s, chunks), more, segs, j)
    ensures After(segs, |s.received|, chunks) == (segs[j..], |Run(s, chunks).received|)
    decreases |chunks|
  {
    hide Digested, Process, Receive, Held, Run, Flatten, Stream, CutsWell, Fits, Settle, After;
    hide ReadsWell, IsStream;
    RunFirst(s, chunks);
    AfterFirst(segs, |s.received|, chunks);
    if chunks == [] {
      assert s.received + [] + more == s.received + more;
      j := 0;
      assert segs[0..] == segs;
      DigestedNothing(s, more, segs);
    } else {
      WellFirst(segs, |s.received|, chunks);
      j := FirstChunk(s, chunks, more, segs);
      var s1 := Receive(s, chunks[0]);
      var k := Delivery(s1, chunks[1..], more, segs[j..]);
      DigestedTwice(s, s1, Run(s, chunks), Flatten(chunks[1..]) + more, more, segs, j, k);
      DigestedFacts(s1, Run(s, chunks), more, segs[j..], k);
      assert segs[j..][k..] == segs[j + k..];
      j := j + k;
    }
  }

  // One call after another

  /** The calls of the reader, each with its reads: what was received stays, and every call begins
      without a frame start. */
  function Calls(s: Link, calls: seq<seq<seq<byte>>>): Link
    decreases |calls|
  {
    if calls == [] then s else Calls(Run(s.(frameStart := false), calls[0]), calls[1..])
  }

  lemma HeldAnew(s: Link, segs: seq<Segment>)
    requires Held(s, segs)
    ensures Held(s.(frameStart := false), segs)
  {
  }

  lemma DigestedAnew(s: Link, s': Link, more: seq<byte>, segs: seq<Segment>, j: nat)
    requires IsStream(segs) && Digested(s.(frameStart := false), s', more, segs, j)
    ensures Digested(s, s', more, segs, j)
  {
  }

  lemma {:induction false} WellSplit(segs: seq<Segment>, n: int, a: seq<seq<byte>>, b: seq<seq<byte>>)
    requires IsStream(segs) && ReadsWell(segs, n, a + b)
    ensures ReadsWell(segs, n, a)
    ensures var r := After(segs, n, a); ReadsWell(r.0, r.1, b) && After(segs, n, a + b) == After(r.0, r.1, b)
    decreases |a|
  {
    hide Fits, CutsWell, Settle;
    if a == [] {
      assert a + b == b;
    } else {
      assert (a + b)[0] == a[0] && (a + b)[1..] == a[1..] + b;
      var r := Settle(segs, n + |a[0]|);
      WellSplit(r.0, r.1, a[1..], b);
    }
  }

  lemma CallsFirst(s: Link, calls: seq<seq<seq<byte>>>)
    requires calls != []
    ensures Calls(s, calls) == Calls(Run(s.(frameStart := false), calls[0]), calls[1..])
    ensures Flatten(calls) == calls[0] + Flatten(calls[1..])
    ensures Flatten(Flatten(calls)) == Flatten(calls[0]) + Flatten(Flatten(calls[1..]))
  {
    FlattenConcat(calls[0], Flatten(calls[1..]));
  }

  /** The same over any list of calls: where one ends and the next begins does not matter. */
  lemma {:induction false} CallsDelivery(s: Link, calls: seq<seq<seq<byte>>>, more: seq<byte>, segs: seq<Segment>)
    returns (j: nat)
    requires IsStream(segs) && Held(s, segs) && ReadsWell(segs, |s.received|, Flatten(calls))
    requires s.received + Flatten(Flatten(calls)) + more == Stream(segs)
    ensures Digested(s, Calls(s, calls), more, segs, j)
    ensures After(segs, |s.received|, Flatten(calls)) == (segs[j..], |Calls(s, calls).received|)
    decreases |calls|
  {
    hide Digested, Held, Run, Stream, ReadsWell, After, Flatten, Calls;
    if calls == [] {
      NoCalls(s, more, segs);
      DigestedNothing(s, more, segs);
      j := 0;
    } else {
      CallsFirst(s, calls);
      var s0, rest := s.(frameStart := false), Flatten(calls[1..]);
      var later := Flatten(rest) + more;
      HeldAnew(s, segs);
      Regroup4(s.received, Flatten(calls[0]), Flatten(rest), more);
      WellSplit(segs, |s.received|, calls[0], rest);
      j := Delivery(s0, calls[0], later, segs);
      var s1 := Run(s0, calls[0]);
      DigestedFacts(s0, s1, later, segs, j);
      Regroup(s1.received, Flatten(rest), more);
      var k := CallsDelivery(s1, calls[1..], more, segs[j..]);
      DigestedAnew(s, s1, later, segs, j);
      DigestedTwice(s, s1, Calls(s, calls), later, more, segs, j, k);
      DigestedFacts(s1, Calls(s, calls), more, segs[j..], k);
      assert segs[j..][k..] == segs[j + k..];
      j := j + k;
    }
  }

  lemma NoCalls(s: Link, more: seq<byte>, segs: seq<Segment>)
    requires IsStream(segs)
    ensures Calls(s, []) == s && Flatten<seq<byte>>([]) == [] && Flatten<byte>([]) == []
    ensures After(segs, |s.received|, []) == (segs[0..], |s.received|)
    ensures s.received + [] + more == s.received + more
  {
    assert segs[0..] == segs;
  }

  // The end of a stream

  /** The first j segments have been delivered, and the bytes of the others are held. */
  predicate Delivered(s: Link, segs: seq<Segment>, j: nat)
    requires IsStream(segs)
  {
    && j <= |segs| && IsStream(segs[..j]) && IsStream(segs[j..])
    && s.hits == HitsOf(segs[..j]) && s.resps == RespsOf(segs[..j]) && s.received == Stream(segs[j..])
  }

  /** What the reader can still hold when a stream is over: a response that is short of a byte behind
      its magic, or three or more damaged ones, since nothing follows that shows where they end. */
  predicate Waiting(rest: seq<Segment>) {
    || rest == []
    || (|rest| == 1 && rest[0].Short?)
    || (|rest| >= 3 && forall g :: g in rest ==> g.Lossy?)
  }

  lemma {:induction false} RowEnds(segs: seq<Segment>)
    requires IsStream(segs)
    ensures |Stream(segs)| >= FirstMagic(segs)
    ensures |Stream(segs)| < FirstMagic(segs) + 4 ==>
              |Stream(segs)| == FirstMagic(segs) == (RSP_LEN_CFG - 1) * |segs| && forall g :: g in segs ==> g.Lossy?
  {
    hide IsSegment, Fuses;
    if segs != [] {
      OneSegment(segs);
      if segs[0].Lossy? {
        RowEnds(segs[1..]);
        assert forall g :: g in segs ==> g == segs[0] || g in segs[1..];
      }
    }
  }

  lemma OneSegment(segs: seq<Segment>)
    requires IsStream(segs) && segs != []
    ensures |Stream(segs)| == |Wire(segs[0])| + |Stream(segs[1..])| && |Wire(segs[0])| >= RSP_LEN_CFG - 1
    ensures Fuses(segs) ==> |Stream(segs)| >= RSP_LEN_CFG * 2 - 2
    ensures |segs| > 1 ==> |Stream(segs[1..])| > 0
  {
  }

  lemma HeldAtEnd(s: Link, segs: seq<Segment>)
    requires IsStream(segs) && Held(s, segs) && s.received == Stream(segs)
    ensures Waiting(segs)
  {
    hide FirstMagic, IsSegment, Stream;
    if segs != [] {
      RowEnds(segs);
      OneSegment(segs);
    }
  }

  lemma {:induction false} QueuesSplit(segs: seq<Segment>, j: nat)
    requires IsStream(segs) && j <= |segs|
    ensures IsStream(segs[..j]) && IsStream(segs[j..])
    ensures HitsOf(segs) == HitsOf(segs[..j]) + HitsOf(segs[j..])
    ensures RespsOf(segs) == RespsOf(segs[..j]) + RespsOf(segs[j..])
  {
    hide HitPart, RespPart, Due, IsSegment;
    if j == 0 {
      assert segs[0..] == segs && segs[..0] == [];
    } else {
      QueuesSplit(segs[1..], j - 1);
      var front, back := segs[1..][..j - 1], segs[j..];
      assert segs[..j][1..] == front && segs[1..][j - 1..] == back;
      Regroup(HitPart(Due(segs[0])), HitsOf(front), HitsOf(back));
      Regroup(RespPart(Due(segs[0])), RespsOf(front), RespsOf(back));
    }
  }

  lemma SameEnd<T>(all: seq<T>, a: seq<T>, b: seq<T>, tail: seq<T>)
    requires all == a + tail && all == b + tail
    ensures a == b
  {
    assert a == all[..|all| - |tail|] == b;
  }

  lemma DigestedAll(s0: Link, s: Link, segs: seq<Segment>, j: nat)
    requires IsStream(segs) && Digested(s0, s, [], segs, j) && s0.hits == [] && s0.resps == []
    ensures Delivered(s, segs, j) && Waiting(segs[j..]) && EndIsHeld(segs, j)
  {
    hide Stream, RespsOf, HitsOf, IsStream, Held, Waiting;
    assert s.received + [] == s.received;
    HeldAtEnd(s, segs[j..]);
    QueuesSplit(segs, j);
    assert [] + HitsOf(segs) == HitsOf(segs) && [] + RespsOf(segs) == RespsOf(segs);
    SameEnd(HitsOf(segs), s.hits, HitsOf(segs[..j]), HitsOf(segs[j..]));
    SameEnd(RespsOf(segs), s.resps, RespsOf(segs[..j]), RespsOf(segs[j..]));
  }

  /** How many segments of a stream the reads complete. */
  function Arrived(segs: seq<Segment>, n: int, chunks: seq<seq<byte>>): (j: int)
    requires IsStream(segs)
  {
    |segs| - |After(segs, n, chunks).0|
  }

  /** A complete stream, in any calls whose reads cut it well: every segment is delivered but for the
      few that may wait at the end. The sizes of the reads decide nothing else. */
  lemma CompleteDelivery(calls: seq<seq<seq<byte>>>, segs: seq<Segment>)
    requires IsStream(segs) && ReadsWell(segs, 0, Flatten(calls)) && Flatten(Flatten(calls)) == Stream(segs)
    ensures var j := Arrived(segs, 0, Flatten(calls));
            && 0 <= j && Delivered(Calls(IDLE, calls), segs, j) && Waiting(segs[j..]) && EndIsHeld(segs, j)
  {
    hide Calls, ReadsWell, Delivered, Digested, After, Stream, Waiting, Flatten, EndIsHeld;
    assert IDLE.received + Flatten(Flatten(calls)) + [] == Stream(segs);
    var j := CallsDelivery(IDLE, calls, [], segs);
    DigestedFacts(IDLE, Calls(IDLE, calls), [], segs, j);
    DigestedAll(IDLE, Calls(IDLE, calls), segs, j);
  }

  // Exactly the runs that lose nothing

  /** After every read of a run, the queues hold the first segments and the buffer the rest. */
  ghost predicate Lossless(s: Link, chunks: seq<seq<byte>>, more: seq<byte>, segs: seq<Segment>)
    requires IsStream(segs)
  {
    forall i :: 0 <= i <= |chunks| ==> KeepsAll(s, Run(s, chunks[..i]), Flatten(chunks[i..]) + more, segs)
  }

  lemma CutHolds(r: seq<byte>)
    requires |r| >= RSP_LEN_CFG && !IsHitCommand(r[5])
    ensures CutLength(r) >= RSP_LEN_CFG - 1
  {
  }

  lemma SyncSize(s: Link)
    ensures |Sync(s).received| <= |s.received|
            || (|Sync(s).received| == |s.received| + 1 && Sync(s).frameStart && CutLength(Sync(s).received) > 1)
  {
    hide Index, CutLength;
    if |s.received| > 4 && LossSuspected(Index(s.received), |s.received|) && DamagedHeader(s.received) {
      CutHolds(MAGIC + s.received[3..]);
    }
  }

  /** A pass never holds more than it was given. */
  lemma PassSize(s: Link, data: seq<byte>)
    ensures |OnePass(s, data).link.received| + |OnePass(s, data).leftover| <= |s.received| + |data|
  {
    hide Sync, CutLength;
    SyncSize(Append(s, data));
  }

  lemma {:induction false} ProcessSize(s: Link, data: seq<byte>)
    ensures |Process(s, data).received| <= |s.received| + |data|
    decreases |s.received| + |data|
  {
    hide OnePass;
    PassSize(s, data);
    var p := OnePass(s, data);
    if p.leftover != [] {
      ProcessSize(p.link, p.leftover);
    }
  }

  lemma {:induction false} RunSize(s: Link, chunks: seq<seq<byte>>)
    ensures |Run(s, chunks).received| <= |s.received| + |Flatten(chunks)|
    decreases |chunks|
  {
    hide Process;
    if chunks != [] {
      ProcessSize(s, chunks[0]);
      RunSize(Receive(s, chunks[0]), chunks[1..]);
    }
  }

  /** What a later state has delivered, an earlier one had not delivered twice. */
  lemma DigestedSince(s: Link, s1: Link, s2: Link, mid: seq<byte>, more: seq<byte>, segs: seq<Segment>, j: nat, k: nat)
    requires IsStream(segs) && Digested(s, s1, mid, segs, j) && Digested(s, s2, more, segs, k)
    requires |s2.received| + |more| <= |s1.received| + |mid|
    ensures j <= k && IsStream(segs[j..]) && Digested(s1, s2, more, segs[j..], k - j)
  {
    hide Stream, HitsOf, RespsOf, Held, IsStream;
    if k < j {
      assert segs[k..][j - k..] == segs[j..];
      assert |s2.received + more| <= |s1.received + mid|;
      RestIsShorter(segs[k..], j - k);
    } else {
      assert segs[j..][k - j..] == segs[k..];
    }
  }

  lemma FlattenSplit(chunks: seq<seq<byte>>, i: nat)
    requires i <= |chunks|
    ensures Flatten(chunks) == Flatten(chunks[..i]) + Flatten(chunks[i..])
  {
    assert chunks[..i] + chunks[i..] == chunks;
    FlattenConcat(chunks[..i], chunks[i..]);
  }

  lemma {:induction false} LosslessWhenWell(s: Link, chunks: seq<seq<byte>>, more: seq<byte>, segs: seq<Segment>)
    requires IsStream(segs) && Held(s, segs) && ReadsWell(segs, |s.received|, chunks)
    requires s.received + Flatten(chunks) + more == Stream(segs)
    ensures Lossless(s, chunks, more, segs)
  {
    hide Digested, Held, Stream, ReadsWell, Run;
    forall i | 0 <= i <= |chunks|
      ensures KeepsAll(s, Run(s, chunks[..i]), Flatten(chunks[i..]) + more, segs)
    {
      FlattenSplit(chunks, i);
      Regroup4(s.received, Flatten(chunks[..i]), Flatten(chunks[i..]), more);
      WellPrefix(segs, |s.received|, chunks, i);
      Regroup(s.received + Flatten(chunks[..i]), Flatten(chunks[i..]), more);
      var j := Delivery(s, chunks[..i], Flatten(chunks[i..]) + more, segs);
    }
  }

  lemma {:induction false} WellPrefix(segs: seq<Segment>, n: int, chunks: seq<seq<byte>>, i: nat)
    requires IsStream(segs) && ReadsWell(segs, n, chunks) && i <= |chunks|
    ensures ReadsWell(segs, n, chunks[..i])
    decreases i
  {
    hide Fits, CutsWell, Settle;
    if i > 0 {
      var seen := n + |chunks[0]|;
      WellPrefix(Settle(segs, seen).0, Settle(segs, seen).1, chunks[1..], i - 1);
      assert chunks[1..][..i - 1] == chunks[..i][1..];
    }
  }

  /** A lossless run goes on losslessly from the state after its first read. */
  lemma LosslessRest(s: Link, chunks: seq<seq<byte>>, more: seq<byte>, segs: seq<Segment>, j: nat)
    requires IsStream(segs) && chunks != [] && Lossless(s, chunks, more, segs)
    requires Digested(s, Receive(s, chunks[0]), Flatten(chunks[1..]) + more, segs, j)
    ensures j <= |segs| && IsStream(segs[j..]) && Lossless(Receive(s, chunks[0]), chunks[1..], more, segs[j..])
  {
    hide Stream, Run, Flatten, Receive, Digested, IsStream, KeepsAll;
    var s1, rest := Receive(s, chunks[0]), chunks[1..];
    DigestedFacts(s, s1, Flatten(rest) + more, segs, j);
    forall i | 0 <= i <= |rest|
      ensures KeepsAll(s1, Run(s1, rest[..i]), Flatten(rest[i..]) + more, segs[j..])
    {
      LosslessAfter(s, chunks, more, segs, i);
      LaterKeepsAll(s, s1, rest, more, segs, j, i);
    }
  }

  lemma LosslessAfter(s: Link, chunks: seq<seq<byte>>, more: seq<byte>, segs: seq<Segment>, i: nat)
    requires IsStream(segs) && i < |chunks| && Lossless(s, chunks, more, segs)
    ensures KeepsAll(s, Run(Receive(s, chunks[0]), chunks[1..][..i]), Flatten(chunks[1..][i..]) + more, segs)
  {
    hide Run, Flatten, Receive, IsStream, KeepsAll;
    assert chunks[i + 1..] == chunks[1..][i..] && chunks[..i + 1][1..] == chunks[1..][..i];
    RunFirst(s, chunks[..i + 1]);
    assert KeepsAll(s, Run(s, chunks[..i + 1]), Flatten(chunks[i + 1..]) + more, segs);
  }

  lemma LaterKeepsAll(s: Link, s1: Link, rest: seq<seq<byte>>, more: seq<byte>, segs: seq<Segment>, j: nat, i: nat)
    requires IsStream(segs) && i <= |rest| && Digested(s, s1, Flatten(rest) + more, segs, j)
    requires KeepsAll(s, Run(s1, rest[..i]), Flatten(rest[i..]) + more, segs)
    ensures j <= |segs| && IsStream(segs[j..])
    ensures KeepsAll(s1, Run(s1, rest[..i]), Flatten(rest[i..]) + more, segs[j..])
  {
    hide Stream, Run, Flatten, Digested, IsStream;
    var s2, after := Run(s1, rest[..i]), Flatten(rest[i..]) + more;
    var k :| Digested(s, s2, after, segs, k);
    RunSize(s1, rest[..i]);
    FlattenSplit(rest, i);
    DigestedFacts(s, s1, Flatten(rest) + more, segs, j);
    DigestedSince(s, s1, s2, Flatten(rest) + more, after, segs, j, k);
  }

  lemma {:induction false} WellWhenLossless(s: Link, chunks: seq<seq<byte>>, more: seq<byte>, segs: seq<Segment>)
    requires IsStream(segs) && Held(s, segs) && Lossless(s, chunks, more, segs)
    requires forall c :: c in chunks ==> |c| <= BUF_LEN
    requires s.received + Flatten(chunks) + more == Stream(segs)
    ensures ReadsWell(segs, |s.received|, chunks)
    decreases |chunks|
  {
    hide Digested, Process, Receive, Held, Run, Flatten, Stream, CutsWell, Fits, Settle, IsStream, Lossless;
    if chunks != [] {
      RunFirst(s, chunks);
      FirstIsWell(s, chunks, more, segs);
      var j := FirstChunk(s, chunks, more, segs);
      LosslessRest(s, chunks, more, segs, j);
      assert forall c :: c in chunks[1..] ==> c in chunks;
      WellWhenLossless(Receive(s, chunks[0]), chunks[1..], more, segs[j..]);
    }
  }

  lemma FirstIsWell(s: Link, chunks: seq<seq<byte>>, more: seq<byte>, segs: seq<Segment>)
    requires IsStream(segs) && Held(s, segs) && chunks != [] && Lossless(s, chunks, more, segs)
    requires |chunks[0]| <= BUF_LEN && s.received + Flatten(chunks) + more == Stream(segs)
    ensures Fits(segs, |s.received| + |chunks[0]|) && CutsWell(segs, |s.received| + |chunks[0]|)
  {
    hide Digested, Process, Held, Stream, CutsWell, Fits, IsStream;
    var chunk, rest := chunks[0], Flatten(chunks[1..]) + more;
    if chunk == [] {
      HeldSettled(s, segs);
    } else {
      assert chunks[..1] == [chunk];
      RunOne(s, chunk);
      assert KeepsAll(s, Run(s, chunks[..1]), Flatten(chunks[1..]) + more, segs);
      Regroup4(s.received, chunk, Flatten(chunks[1..]), more);
      StreamNotEmpty(segs, s.received + chunk, rest);
      ReadExactly(s, chunk, rest, segs);
    }
  }

  lemma RunOne(s: Link, chunk: seq<byte>)
    ensures Run(s, [chunk]) == Receive(s, chunk)
  {
    hide Receive;
    assert [chunk][1..] == [];
  }

  /** For every stream: a run loses nothing after any of its reads if and
      only if its reads cut the stream well. */
  lemma LosslessExactly(s: Link, chunks: seq<seq<byte>>, more: seq<byte>, segs: seq<Segment>)
    requires IsStream(segs) && Held(s, segs) && s.received + Flatten(chunks) + more == Stream(segs)
    requires forall c :: c in chunks ==> |c| <= BUF_LEN
    ensures Lossless(s, chunks, more, segs) <==> ReadsWell(segs, |s.received|, chunks)
  {
    hide Lossless, ReadsWell, Held, Stream, IsStream;
    if Lossless(s, chunks, more, segs) {
      WellWhenLossless(s, chunks, more, segs);
    }
    if ReadsWell(segs, |s.received|, chunks) {
      LosslessWhenWell(s, chunks, more, segs);
    }
  }

  // Streams that reads cannot cut badly

  /** Nothing is dropped, wherever the reads cut: there are never three damaged responses in a row,
      and no two of them fuse. */
  predicate NoDrops(segs: seq<Segment>) {
    segs == []
    || (&& (!segs[0].Lossy? || FirstMagic(segs) == RSP_LEN_CFG - 1 || FirstMagic(segs) == (RSP_LEN_CFG - 1) * 2)
        && NoDrops(segs[1..]))
  }

  predicate Recoverable(segs: seq<Segment>) {
    IsStream(segs) && NoDrops(segs)
  }

  lemma {:induction false} NoDropsSuffix(segs: seq<Segment>, j: nat)
    requires NoDrops(segs) && j <= |segs|
    ensures NoDrops(segs[j..])
  {
    if j > 0 {
      NoDropsSuffix(segs[1..], j - 1);
      assert segs[1..][j - 1..] == segs[j..];
    } else {
      assert segs[0..] == segs;
    }
  }

  /** At the end of such a stream only a last response short of a byte behind its magic waits. */
  lemma AllArrive(segs: seq<Segment>, j: nat)
    requires NoDrops(segs) && j <= |segs| && Waiting(segs[j..]) && EndIsHeld(segs, j)
    ensures j == if segs != [] && segs[|segs| - 1].Short? then |segs| - 1 else |segs|
  {
    NoDropsSuffix(segs, j);
    var rest := segs[j..];
    if rest == [] {
      assert j == |segs|;
    } else {
      assert rest[|rest| - 1] == segs[|segs| - 1];
      if |rest| >= 3 {
        assert rest[0] in rest && rest[1] in rest && rest[2] in rest;
        ThreeInRow(rest);
      }
    }
  }

  lemma ThreeInRow(segs: seq<Segment>)
    requires |segs| >= 3 && segs[0].Lossy? && segs[1].Lossy? && segs[2].Lossy?
    ensures !NoDrops(segs)
  {
    var tail := segs[1..];
    assert tail[0] == segs[1] && tail[1..][0] == segs[2];
    assert FirstMagic(tail[1..]) >= RSP_LEN_CFG - 2;
    assert FirstMagic(tail) >= RSP_LEN_CFG - 2;
  }

  /** No response is short of a byte behind its magic, and none ends in the first magic byte
      before one that lost its own. */
  predicate Plain(segs: seq<Segment>) {
    segs == [] || (!segs[0].Short? && !Fuses(segs) && Plain(segs[1..]))
  }

  predicate AllIntact(segs: seq<Segment>) {
    forall g :: g in segs ==> g.Intact?
  }

  /** The largest read that fits whatever is held: the whole buffer, unless 33 bytes of two damaged
      responses may be held, of which 15 are handed over first. */
  function ReadLimit(segs: seq<Segment>): nat {
    if AllIntact(segs) then BUF_LEN else BUF_LEN - 18
  }

  lemma {:induction false} PlainCuts(segs: seq<Segment>, n: int)
    requires Recoverable(segs) && Plain(segs)
    ensures CutsWell(segs, n)
    decreases |segs|
  {
    hide FirstMagic, Incomplete, Fuses, IsSegment;
    if segs != [] && !Incomplete(segs, n) {
      PlainCuts(segs[1..], n - |Wire(segs[0])|);
    }
  }

  lemma {:induction false} PlainSettles(segs: seq<Segment>, n: int)
    requires Recoverable(segs) && Plain(segs)
    ensures var r := Settle(segs, n); Recoverable(r.0) && Plain(r.0) && (r.0 == [] || Incomplete(r.0, r.1))
    ensures AllIntact(segs) ==> AllIntact(Settle(segs, n).0)
    decreases |segs|
  {
    hide FirstMagic, Incomplete, Fuses, IsSegment;
    if segs != [] && !Incomplete(segs, n) {
      PlainSettles(segs[1..], n - |Wire(segs[0])|);
    }
  }

  lemma PlainFits(segs: seq<Segment>, n: int, size: nat)
    requires Recoverable(segs) && (segs == [] || Incomplete(segs, n)) && size <= ReadLimit(segs) && Plain(segs)
    ensures Fits(segs, n + size)
  {
  }

  /** For such streams all reads are fine that keep to the limit, whatever they cut. */
  lemma {:induction false} PlainReads(segs: seq<Segment>, n: int, chunks: seq<seq<byte>>)
    requires Recoverable(segs) && Plain(segs) && (segs == [] || Incomplete(segs, n))
    requires forall c :: c in chunks ==> |c| <= ReadLimit(segs)
    ensures ReadsWell(segs, n, chunks)
    decreases |chunks|
  {
    hide NoDrops, IsStream, Plain, Incomplete, AllIntact, CutsWell, Settle, Fits;
    if chunks != [] {
      assert chunks[0] in chunks && forall c :: c in chunks[1..] ==> c in chunks;
      var seen := n + |chunks[0]|;
      PlainFits(segs, n, |chunks[0]|);
      PlainCuts(segs, seen);
      PlainSettles(segs, seen);
      PlainReads(Settle(segs, seen).0, Settle(segs, seen).1, chunks[1..]);
    }
  }
}
