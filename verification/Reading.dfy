/** One read of the UART reader, anywhere in a stream: what it delivers, and exactly when it
    delivers what it should. */
module Reading {
  import opened Bytes
  import opened Frames
  import opened FrameDecoder
  import opened Framing

  /** The reader holds the beginning of the stream, and too little of it to act. */
  predicate Held(s: Link, segs: seq<Segment>)
  {
    s.received == []
    || (segs != [] && Incomplete(segs, |s.received|) && (segs[0].Lossy? ==> !s.frameStart))
  }

  /** Nothing is lost between two states of the reader: what the first still had to deliver is
      what the second has delivered since and still has to deliver. */
  predicate Conserves(s: Link, segs: seq<Segment>, s': Link, segs': seq<Segment>)
    requires IsStream(segs) && IsStream(segs')
  {
    && s.hits + HitsOf(segs) == s'.hits + HitsOf(segs')
    && s.resps + RespsOf(segs) == s'.resps + RespsOf(segs')
  }

  /** A response one byte short, at the very end, is still held: only what follows shows its end. */
  predicate EndIsHeld(segs: seq<Segment>, j: nat) {
    j == |segs| > 0 ==> !segs[j - 1].Short?
  }

  /** From s to s', the first j segments went to their queues, and `more` completes what is held. */
  predicate Digested(s: Link, s': Link, more: seq<byte>, segs: seq<Segment>, j: nat)
    requires IsStream(segs)
  {
    && j <= |segs| && IsStream(segs[j..]) && EndIsHeld(segs, j)
    && s'.received + more == Stream(segs[j..])
    && Held(s', segs[j..])
    && Conserves(s, segs, s', segs[j..])
  }

  /** Nothing was lost from s to s'. */
  ghost predicate KeepsAll(s: Link, s': Link, more: seq<byte>, segs: seq<Segment>)
    requires IsStream(segs)
  {
    exists j :: Digested(s, s', more, segs, j)
  }

  /** A read of `data` in state s, with `more` still to come, over the stream of segs. */
  predicate ReadOf(s: Link, data: seq<byte>, more: seq<byte>, segs: seq<Segment>)
    requires IsStream(segs)
  {
    Held(s, segs) && data != [] && segs != [] && s.received + data + more == Stream(segs)
  }

  /** With n bytes of the stream seen, every segment that is touched is cut where it ends. */
  predicate CutsWell(segs: seq<Segment>, n: int)
    requires IsStream(segs)
  {
    segs == [] || Incomplete(segs, n) || (!Spoilt(segs, n) && CutsWell(segs[1..], n - |Wire(segs[0])|))
  }

  /** What follows the first segment fits the read buffer. */
  predicate Fits(segs: seq<Segment>, n: int)
    requires IsStream(segs)
  {
    segs == [] || n <= |Wire(segs[0])| + BUF_LEN
  }

  /** What is left of a stream once n bytes of it were seen, and how many of these are held. */
  function Settle(segs: seq<Segment>, n: int): (r: (seq<Segment>, int))
    requires IsStream(segs)
    ensures IsStream(r.0)
    decreases |segs|
  {
    if segs == [] || Incomplete(segs, n) then (segs, n) else Settle(segs[1..], n - |Wire(segs[0])|)
  }

  // Delivering in order

  lemma HandedParts(s: Link, f: seq<byte>)
    requires |f| >= 8
    ensures Handed(s, f).hits == s.hits + HitPart(f) && Handed(s, f).resps == s.resps + RespPart(f)
  {
  }

  lemma HandedConserves(s: Link, segs: seq<Segment>)
    requires IsStream(segs) && segs != []
    ensures Conserves(s, segs, Handed(s, Due(segs[0])), segs[1..])
  {
    var f := Due(segs[0]);
    HandedParts(s, f);
    Regroup(s.hits, HitPart(f), HitsOf(segs[1..]));
    Regroup(s.resps, RespPart(f), RespsOf(segs[1..]));
  }

  lemma DigestedNext(s: Link, s1: Link, s': Link, more: seq<byte>, segs: seq<Segment>, k: nat)
    requires IsStream(segs) && segs != []
    requires Conserves(s, segs, s1, segs[1..])
    requires Digested(s1, s', more, segs[1..], k) && (|segs| == 1 ==> !segs[0].Short?)
    ensures Digested(s, s', more, segs, k + 1)
  {
  }

  lemma SettleNext(segs: seq<Segment>, n: int, k: nat)
    requires IsStream(segs) && segs != [] && !Incomplete(segs, n) && k <= |segs[1..]|
    ensures Settle(segs, n) == Settle(segs[1..], n - |Wire(segs[0])|) && segs[1..][k..] == segs[k + 1..]
  {
  }

  lemma NothingHeld(s: Link, more: seq<byte>, segs: seq<Segment>)
    requires IsStream(segs) && s.received == [] && more == Stream(segs)
    ensures Digested(s, s, more, segs, 0) && Settle(segs, 0) == (segs[0..], 0)
  {
    assert segs[0..] == segs;
    if segs != [] {
      EnoughSeen(segs);
    }
  }

  lemma EnoughSeen(segs: seq<Segment>)
    requires IsStream(segs) && segs != []
    ensures Incomplete(segs, 0)
  {
    if segs[0].Lossy? {
      FirstMagicLossy(segs);
    }
  }

  /** A read that does not complete the first segment leaves it in the buffer. */
  lemma KeepFront(s: Link, data: seq<byte>, more: seq<byte>, segs: seq<Segment>)
    requires IsStream(segs) && ReadOf(s, data, more, segs)
    requires Incomplete(segs, |s.received + data|)
    ensures Digested(s, Process(s, data), more, segs, 0)
    ensures Settle(segs, |s.received + data|) == (segs[0..], |Process(s, data).received|)
  {
    hide OnePass, Stream, IsStream, Incomplete, HitsOf, RespsOf;
    var t := s.received + data;
    assert segs[0..] == segs;
    if segs[0].Lossy? {
      LossyOutcome(s, data, t, more, segs);
    } else {
      OpenOutcome(s, data, t, more, segs);
    }
  }

  /** A read that completes it hands it over and goes on with what follows. */
  lemma HandFront(s: Link, data: seq<byte>, more: seq<byte>, segs: seq<Segment>) returns (rest: seq<byte>)
    requires IsStream(segs) && ReadOf(s, data, more, segs)
    requires !Incomplete(segs, |s.received + data|) && !Spoilt(segs, |s.received + data|)
    ensures |s.received| + |data| == |Wire(segs[0])| + |rest| && rest + more == Stream(segs[1..])
    ensures OnePass(s, data) == Pass(Handed(s, Due(segs[0])), Clip(rest))
    ensures |segs| == 1 ==> !segs[0].Short?
  {
    hide OnePass, Spoilt, Handed, Clip;
    var t, w := s.received + data, Wire(segs[0]);
    SeenWhole(segs, |t|);
    SplitConcat(t, more, w, Stream(segs[1..]));
    rest := t[|w|..];
    if segs[0].Lossy? {
      LossyOutcome(s, data, t, more, segs);
    } else {
      OpenOutcome(s, data, t, more, segs);
    }
  }

  lemma SeenWhole(segs: seq<Segment>, n: nat)
    requires IsStream(segs) && segs != [] && !Incomplete(segs, n)
    ensures n >= |Wire(segs[0])|
  {
    if segs[0].Lossy? {
      FirstMagicLossy(segs);
    }
  }

  lemma NextRead(s1: Link, rest: seq<byte>, more: seq<byte>, segs: seq<Segment>)
    requires IsStream(segs) && s1.received == [] && rest != [] && rest + more == Stream(segs)
    ensures ReadOf(s1, rest, more, segs) && s1.received + rest == rest
  {
    StreamFront(segs, rest, more);
    assert s1.received + rest == rest;
  }

  lemma ClipFits(b: seq<byte>)
    requires |b| <= BUF_LEN
    ensures Clip(b) == b
  {
  }

  /** One read: whatever it completes is delivered, in order, and the rest is kept. */
  lemma {:induction false} Digest(s: Link, data: seq<byte>, more: seq<byte>, segs: seq<Segment>) returns (j: nat)
    requires IsStream(segs) && ReadOf(s, data, more, segs)
    requires Fits(segs, |s.received + data|) && CutsWell(segs, |s.received + data|)
    ensures Digested(s, Process(s, data), more, segs, j)
    ensures Settle(segs, |s.received + data|) == (segs[j..], |Process(s, data).received|)
    decreases |segs|
  {
    hide OnePass, Incomplete, Spoilt, Stream, Digested, Conserves, Settle, Handed, Clip, Held;
    j := 0;
    if Incomplete(segs, |s.received + data|) {
      KeepFront(s, data, more, segs);
    } else {
      var rest := HandFront(s, data, more, segs);
      var s1 := Handed(s, Due(segs[0]));
      HandedEmpty(s, Due(segs[0]));
      ClipFits(rest);
      if rest == [] {
        assert rest + more == more;
        NothingHeld(s1, more, segs[1..]);
      } else {
        NextRead(s1, rest, more, segs[1..]);
        FitsSmall(segs[1..], |rest|);
        j := Digest(s1, rest, more, segs[1..]);
      }
      HandedConserves(s, segs);
      DigestedBound(s1, Process(s, data), more, segs[1..], j);
      DigestedNext(s, s1, Process(s, data), more, segs, j);
      SettleNext(segs, |s.received + data|, j);
      j := j + 1;
    }
  }

  lemma HandedEmpty(s: Link, f: seq<byte>)
    requires |f| >= 8
    ensures Handed(s, f).received == []
  {
  }

  lemma FitsSmall(segs: seq<Segment>, n: int)
    requires IsStream(segs) && n <= BUF_LEN
    ensures Fits(segs, n)
  {
  }

  lemma DigestedBound(s: Link, s': Link, more: seq<byte>, segs: seq<Segment>, j: nat)
    requires IsStream(segs) && Digested(s, s', more, segs, j)
    ensures j <= |segs|
  {
  }

  // What is left of a stream

  /** Every list of segments is longer than its rest, by 92 bytes unless a response is gone. */
  lemma {:induction false} RestIsShorter(segs: seq<Segment>, k: nat)
    requires IsStream(segs) && k <= |segs|
    ensures IsStream(segs[k..])
    ensures |Stream(segs[k..])| <= |Stream(segs)| && |RespsOf(segs[k..])| <= |RespsOf(segs)|
    ensures k > 0 ==> |RespsOf(segs[k..])| < |RespsOf(segs)| || |Stream(segs[k..])| + RSP_LEN_HIT <= |Stream(segs)|
    ensures k > 0 ==> |Stream(segs[k..])| < |Stream(segs)|
    decreases k
  {
    if k == 0 {
      assert segs[0..] == segs;
    } else {
      assert segs[1..][k - 1..] == segs[k..];
      RestIsShorter(segs[1..], k - 1);
    }
  }
}
