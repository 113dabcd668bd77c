/** What one read of the UART reader can lose, and exactly when it loses nothing. */
module ReadLosses {
  import opened Bytes
  import opened Frames
  import opened FrameDecoder
  import opened Framing
  import opened Reading

  // A response that was not due

  /** Some response on the queue is not the one that was due in its place. */
  predicate Misdelivers(s: Link, s': Link, segs: seq<Segment>)
    requires IsStream(segs)
  {
    exists p: nat :: p < |s'.resps| && p < |s.resps + RespsOf(segs)| && s'.resps[p] != (s.resps + RespsOf(segs))[p]
  }

  lemma {:induction false} ProcessAppends(s: Link, data: seq<byte>)
    ensures s.resps <= Process(s, data).resps
    decreases |s.received| + |data|
  {
    hide OnePass;
    PassAppends(s, data);
    var p := OnePass(s, data);
    if p.leftover != [] {
      ProcessAppends(p.link, p.leftover);
    }
  }

  lemma PassAppends(s: Link, data: seq<byte>)
    ensures s.resps <= OnePass(s, data).link.resps
  {
    hide CutLength, Sync;
    SyncKeepsQueues(Append(s, data));
  }

  lemma SyncKeepsQueues(s: Link)
    ensures Sync(s).resps == s.resps
  {
    hide Index, DamagedHeader, LossSuspected;
  }

  lemma WrongResponse(s: Link, s': Link, segs: seq<Segment>, wrong: seq<byte>)
    requires IsStream(segs) && segs != [] && RespPart(Due(segs[0])) == [Due(segs[0])]
    requires s.resps + [wrong] <= s'.resps && wrong != Due(segs[0])
    ensures Misdelivers(s, s', segs)
  {
    var p := |s.resps|;
    assert s'.resps[p] == (s.resps + [wrong])[p];
    assert (s.resps + RespsOf(segs))[p] == Due(segs[0]);
  }

  lemma HandedWrong(s: Link, wrong: seq<byte>)
    requires |wrong| >= 8 && !IsHitCommand(wrong[5])
    ensures Handed(s, wrong).resps == s.resps + [wrong]
  {
  }

  /** A segment whose magic shows can be cut in the wrong place only if it is a response. */
  lemma SpoiltResponse(segs: seq<Segment>, t: seq<byte>, more: seq<byte>)
    requires IsStream(segs) && segs != [] && !segs[0].Lossy? && t + more == Stream(segs)
    requires !Incomplete(segs, |t|) && Spoilt(segs, |t|)
    ensures RespPart(Due(segs[0])) == [Due(segs[0])]
    ensures var n := if segs[0].Intact? then RSP_LEN_CFG - 1 else RSP_LEN_CFG;
            |t| >= n && !IsHitCommand(t[5]) && |Due(segs[0])| != n
  {
    StreamFront(segs, t, more);
  }

  lemma SpoiltFront(s: Link, data: seq<byte>, more: seq<byte>, segs: seq<Segment>)
    requires IsStream(segs) && ReadOf(s, data, more, segs) && !segs[0].Lossy?
    requires !Incomplete(segs, |s.received + data|) && Spoilt(segs, |s.received + data|)
    ensures Misdelivers(s, Process(s, data), segs)
  {
    hide OnePass, Incomplete, Spoilt, Stream, Handed, Clip, HitsOf, RespsOf, Due;
    var t := s.received + data;
    SpoiltResponse(segs, t, more);
    OpenOutcome(s, data, t, more, segs);
    var n := if segs[0].Intact? then RSP_LEN_CFG - 1 else RSP_LEN_CFG;
    var s1 := Handed(s, t[..n]);
    HandedWrong(s, t[..n]);
    ProcessAppends(s1, Clip(t[n..]));
    WrongResponse(s, Process(s, data), segs, t[..n]);
  }

  lemma MisdeliversLater(s: Link, s1: Link, s': Link, segs: seq<Segment>)
    requires IsStream(segs) && segs != [] && Conserves(s, segs, s1, segs[1..])
    requires Misdelivers(s1, s', segs[1..])
    ensures Misdelivers(s, s', segs)
  {
    hide RespsOf, HitsOf;
  }

  lemma NothingSeen(segs: seq<Segment>)
    requires IsStream(segs)
    ensures CutsWell(segs, 0)
  {
    if segs != [] {
      EnoughSeen(segs);
    }
  }

  lemma NotDigested(s: Link, s': Link, more: seq<byte>, segs: seq<Segment>, j: nat)
    requires IsStream(segs) && Misdelivers(s, s', segs)
    ensures !Digested(s, s', more, segs, j)
  {
    hide RespsOf, HitsOf, Stream;
  }

  // Responses against bytes

  /** The bytes and the responses of a stream from its k-th segment on. */
  function BytesFrom(segs: seq<Segment>, k: nat): (n: nat)
    requires IsStream(segs) && k <= |segs|
  {
    if k == 0 then |Stream(segs)| else BytesFrom(segs[1..], k - 1)
  }

  function RespsFrom(segs: seq<Segment>, k: nat): (n: nat)
    requires IsStream(segs) && k <= |segs|
  {
    if k == 0 then |RespsOf(segs)| else RespsFrom(segs[1..], k - 1)
  }

  /** However much of the stream counts as seen when `left` bytes are not, its segments have at
      least n responses. */
  ghost predicate Accounts(segs: seq<Segment>, n: int, left: nat)
    requires IsStream(segs)
  {
    forall k: nat :: k <= |segs| && BytesFrom(segs, k) <= left ==> n + RespsFrom(segs, k) <= |RespsOf(segs)|
  }

  /** From s to s' at most the responses were delivered that the bytes seen account for, or even d
      fewer, when `more` is still to come. */
  ghost predicate Within(s: Link, s': Link, more: seq<byte>, segs: seq<Segment>, d: nat)
    requires IsStream(segs)
  {
    Accounts(segs, |s'.resps| - |s.resps| + d, |s'.received| + |more|)
  }

  lemma {:induction false} SuffixCounts(segs: seq<Segment>, k: nat)
    requires IsStream(segs) && k <= |segs|
    ensures IsStream(segs[k..])
    ensures BytesFrom(segs, k) == |Stream(segs[k..])| && RespsFrom(segs, k) == |RespsOf(segs[k..])|
    decreases k
  {
    hide Stream, RespsOf;
    if k == 0 {
      assert segs[0..] == segs;
    } else {
      assert segs[1..][k - 1..] == segs[k..];
      SuffixCounts(segs[1..], k - 1);
    }
  }

  lemma {:induction false} FewerFrom(segs: seq<Segment>, k: nat)
    requires IsStream(segs) && k <= |segs|
    ensures RespsFrom(segs, k) <= |RespsOf(segs)|
    decreases k
  {
    if k > 0 {
      FewerFrom(segs[1..], k - 1);
    }
  }

  lemma NothingAccounts(segs: seq<Segment>, left: nat)
    requires IsStream(segs)
    ensures Accounts(segs, 0, left)
  {
    forall k: nat | k <= |segs| ensures RespsFrom(segs, k) <= |RespsOf(segs)| {
      FewerFrom(segs, k);
    }
  }

  /** One segment more, once all of it was seen. */
  lemma AccountsNext(segs: seq<Segment>, n: int, left: nat)
    requires IsStream(segs) && segs != [] && Accounts(segs[1..], n, left) && left < |Stream(segs)|
    ensures Accounts(segs, n + |RespPart(Due(segs[0]))|, left)
  {
    forall k: nat | k <= |segs| && BytesFrom(segs, k) <= left
      ensures n + |RespPart(Due(segs[0]))| + RespsFrom(segs, k) <= |RespsOf(segs)|
    {
      assert BytesFrom(segs, k) == BytesFrom(segs[1..], k - 1);
    }
  }

  lemma LessAccounts(segs: seq<Segment>, n: int, m: int, left: nat)
    requires IsStream(segs) && Accounts(segs, n, left) && m <= n
    ensures Accounts(segs, m, left)
  {
  }

  /** A state within its account by a margin has lost a response. */
  lemma FewerIsLost(s: Link, s': Link, more: seq<byte>, left: seq<byte>, segs: seq<Segment>, k: nat)
    requires IsStream(segs) && Within(s, s', more, segs, 1) && |left| <= |more|
    ensures !Digested(s, s', left, segs, k)
  {
    hide Stream, RespsOf, HitsOf, Held, Digested;
    if Digested(s, s', left, segs, k) {
      DigestedCounts(s, s', left, segs, k);
    }
  }

  lemma DigestedCounts(s: Link, s': Link, more: seq<byte>, segs: seq<Segment>, k: nat)
    requires IsStream(segs) && Digested(s, s', more, segs, k)
    ensures k <= |segs| && BytesFrom(segs, k) == |s'.received| + |more|
    ensures |s.resps| + |RespsOf(segs)| == |s'.resps| + RespsFrom(segs, k)
  {
    hide Stream, RespsOf, HitsOf, Held;
    SuffixCounts(segs, k);
    assert |s'.received + more| == BytesFrom(segs, k);
    assert |s.resps + RespsOf(segs)| == |s'.resps + RespsOf(segs[k..])|;
  }

  lemma CutTakes(s: Link, n: nat)
    requires n == CutLength(s.received) > 0
    ensures n >= RSP_LEN_CFG - 1 && |Deliver(s, s.received[..n]).resps| <= |s.resps| + 1
  {
  }

  lemma SyncGrows(s: Link)
    ensures |Sync(s).received| <= |s.received| + 1 && Sync(s).resps == s.resps
    ensures |Sync(s).received| > |s.received| ==> Sync(s).frameStart && CutLength(Sync(s).received) > 0
  {
    hide Index, CutLength;
    if |s.received| > 4 && LossSuspected(Index(s.received), |s.received|) && DamagedHeader(s.received) {
      RepairedIsCut(MAGIC + s.received[3..]);
    }
  }

  lemma RepairedIsCut(r: seq<byte>)
    requires |r| >= RSP_LEN_CFG && !IsHitCommand(r[5])
    ensures CutLength(r) >= RSP_LEN_CFG - 1
  {
  }

  /** A pass that delivers a response uses up at least fourteen bytes. */
  lemma PassUses(s: Link, data: seq<byte>)
    ensures var p := OnePass(s, data);
            && |s.resps| <= |p.link.resps| <= |s.resps| + 1
            && |p.link.received| + |p.leftover| + 14 * (|p.link.resps| - |s.resps|) <= |s.received| + |data|
  {
    hide Sync, CutLength, Deliver;
    var s1 := Sync(Append(s, data));
    SyncGrows(Append(s, data));
    PassAppends(s, data);
    if s1.frameStart && CutLength(s1.received) > 0 {
      CutTakes(s1, CutLength(s1.received));
    }
  }

  lemma {:induction false} ReadUses(s: Link, data: seq<byte>)
    ensures var s' := Process(s, data);
            && |s'.resps| >= |s.resps|
            && |s'.received| + 14 * (|s'.resps| - |s.resps|) <= |s.received| + |data|
    decreases |s.received| + |data|
  {
    hide OnePass;
    PassUses(s, data);
    var p := OnePass(s, data);
    if p.leftover != [] {
      ReadUses(p.link, p.leftover);
    }
  }

  // Where the reader lands

  /** The stream as the reader sees it behind a fusing pair: the second segment has its byte. */
  function Mended(segs: seq<Segment>): (r: seq<Segment>)
    requires IsStream(segs) && Fuses(segs)
    ensures IsStream(r) && r != [] && r[0] == Intact(segs[1].frame)
  {
    assert IsStream(segs[1..]) && segs[1..][0] == segs[1] && segs[1..][1..] == segs[2..];
    var r := [Intact(segs[1].frame)] + segs[2..];
    assert r[1..] == segs[2..];
    r
  }

  lemma MendedStream(segs: seq<Segment>)
    requires IsStream(segs) && Fuses(segs)
    ensures Stream(Mended(segs)) == [MAGIC[0]] + Stream(segs[1..])
    ensures |RespsOf(Mended(segs))| == |RespsOf(segs[1..])|
  {
    var f := segs[1].frame;
    assert segs[1..][1..] == segs[2..] && Mended(segs)[1..] == segs[2..];
    MendedFrame(f);
    Regroup([MAGIC[0]], Without(f, 0), Stream(segs[2..]));
  }

  lemma MendedFrame(f: seq<byte>)
    requires IsFrame(f)
    ensures [MAGIC[0]] + Without(f, 0) == f
  {
    assert f[0] == f[..4][0];
  }

  /** What the reader has before it once it dropped everything in front of the first magic. */
  function Landing(segs: seq<Segment>): (r: seq<Segment>)
    requires IsStream(segs)
    ensures IsStream(r) && (r == [] || !r[0].Lossy?)
  {
    if segs == [] || !segs[0].Lossy? then segs
    else if Fuses(segs) then Mended(segs)
    else Landing(segs[1..])
  }

  lemma {:induction false} LandingStream(segs: seq<Segment>)
    requires IsStream(segs)
    ensures FirstMagic(segs) <= |Stream(segs)| && Stream(segs)[FirstMagic(segs)..] == Stream(Landing(segs))
  {
    hide IsSegment, Fuses;
    if segs != [] && segs[0].Lossy? {
      var w, tail := Wire(segs[0]), Stream(segs[1..]);
      if Fuses(segs) {
        FusedTail(segs);
      } else {
        LandingStream(segs[1..]);
        assert (w + tail)[|w| + FirstMagic(segs[1..])..] == tail[FirstMagic(segs[1..])..];
      }
    }
  }

  lemma FusedTail(segs: seq<Segment>)
    requires IsStream(segs) && Fuses(segs) && segs[0].Lossy?
    ensures FirstMagic(segs) == RSP_LEN_CFG - 2 <= |Stream(segs)|
    ensures Stream(segs)[RSP_LEN_CFG - 2..] == Stream(Mended(segs))
  {
    hide Stream;
    MendedStream(segs);
    var w, tail := Wire(segs[0]), Stream(segs[1..]);
    assert Stream(segs) == w + tail by { StreamParts(segs); }
    assert w[RSP_LEN_CFG - 2] == MAGIC[0];
    assert (w + tail)[RSP_LEN_CFG - 2..] == [MAGIC[0]] + tail;
  }

  lemma StreamParts(segs: seq<Segment>)
    requires IsStream(segs) && segs != []
    ensures Stream(segs) == Wire(segs[0]) + Stream(segs[1..])
  {
  }

  lemma MendedCounts(segs: seq<Segment>, k: nat)
    requires IsStream(segs) && Fuses(segs) && k <= |segs[1..]|
    ensures k <= |Mended(segs)|
    ensures k > 0 ==> BytesFrom(Mended(segs), k) == BytesFrom(segs[1..], k)
                      && RespsFrom(Mended(segs), k) == RespsFrom(segs[1..], k)
  {
    assert segs[1..][1..] == segs[2..] && Mended(segs)[1..] == segs[2..];
  }

  /** Accounts of the mended stream are accounts of the segments it came from, unless a response was
      counted for fewer than fourteen bytes. */
  lemma MendedAccounts(segs: seq<Segment>, c: nat, left: nat)
    requires IsStream(segs) && Fuses(segs) && Accounts(Mended(segs), c, left)
    requires left + 14 * c <= |Stream(Mended(segs))|
    ensures Accounts(segs[1..], c, left) && left <= |Stream(segs[1..])| + 1
  {
    hide Stream, RespsOf, Mended;
    MendedStream(segs);
    assert |Stream(Mended(segs))| == 1 + |Stream(segs[1..])|;
    forall k: nat | k <= |segs[1..]| && BytesFrom(segs[1..], k) <= left
      ensures c + RespsFrom(segs[1..], k) <= |RespsOf(segs[1..])|
    {
      MendedCounts(segs, k);
    }
  }

  /** What was dropped on landing is missing from the account. */
  lemma {:induction false} LandingAccounts(segs: seq<Segment>, c: nat, left: nat)
    requires IsStream(segs) && segs != [] && segs[0].Lossy? && Accounts(Landing(segs), c, left)
    requires left + 14 * c <= |Stream(Landing(segs))|
    ensures Accounts(segs, c + 1, left)
  {
    hide RespsOf, Accounts, Stream, Due, RespPart, Fuses;
    LossyParts(segs);
    if Fuses(segs) {
      MendedAccounts(segs, c, left);
    } else if segs[1..] != [] && segs[1].Lossy? {
      LandingAccounts(segs[1..], c, left);
      LessAccounts(segs[1..], c + 1, c, left);
      LandingShorter(segs[1..]);
    }
    AccountsNext(segs, c, left);
  }

  lemma LossyParts(segs: seq<Segment>)
    requires IsStream(segs) && segs != [] && segs[0].Lossy?
    ensures |RespPart(Due(segs[0]))| == 1 && |Stream(segs)| == RSP_LEN_CFG - 1 + |Stream(segs[1..])|
  {
  }

  lemma {:induction false} LandingShorter(segs: seq<Segment>)
    requires IsStream(segs)
    ensures |Stream(Landing(segs))| <= |Stream(segs)|
  {
    LandingStream(segs);
  }

  /** Going on with bytes that begin with the magic is reading them afresh. */
  lemma TakenAtMagic(s: Link, x: seq<byte>)
    requires |x| > 4 && x[..4] == MAGIC
    ensures TakeFirst(s.(received := x, frameStart := true)) == OnePass(s.(received := []), x)
  {
    hide CutLength;
    SyncAtMagic(s.(received := x, frameStart := false));
  }

  // No read delivers more than its bytes account for

  /** A read that leaves no more behind the first segment than the buffer holds; what is read may
      include what the reader held in front of the first magic. */
  predicate Roomy(s: Link, data: seq<byte>, segs: seq<Segment>)
    requires IsStream(segs)
  {
    && Fits(segs, |s.received + data|)
    && (|data| <= BUF_LEN || (s.received == [] && |data| <= RSP_LEN_CFG - 1 + BUF_LEN))
  }

  lemma SameResponses(s: Link, s': Link, more: seq<byte>, segs: seq<Segment>)
    requires IsStream(segs) && |s'.resps| == |s.resps|
    ensures Within(s, s', more, segs, 0)
  {
    NothingAccounts(segs, |s'.received| + |more|);
  }

  lemma KeptWithin(s: Link, data: seq<byte>, more: seq<byte>, segs: seq<Segment>)
    requires IsStream(segs) && ReadOf(s, data, more, segs) && Incomplete(segs, |s.received + data|)
    ensures Within(s, Process(s, data), more, segs, 0)
  {
    hide Digested, Within, Process, Incomplete;
    KeepFront(s, data, more, segs);
    DigestedCounts(s, Process(s, data), more, segs, 0);
    SameResponses(s, Process(s, data), more, segs);
  }

  /** One segment delivered in front of a read that is within its account. */
  lemma WithinNext(s: Link, s1: Link, s': Link, more: seq<byte>, segs: seq<Segment>, d: nat)
    requires IsStream(segs) && segs != [] && Within(s1, s', more, segs[1..], d)
    requires |s1.resps| == |s.resps| + |RespPart(Due(segs[0]))|
    requires |s'.received| + |more| < |Stream(segs)|
    ensures Within(s, s', more, segs, d)
  {
    hide Stream, RespsOf;
    AccountsNext(segs, |s'.resps| - |s1.resps| + d, |s'.received| + |more|);
  }

  lemma HandedCounts(s: Link, f: seq<byte>)
    requires |f| >= 8
    ensures |Handed(s, f).resps| == |s.resps| + |RespPart(f)|
  {
  }

  lemma RestShorter(segs: seq<Segment>, s': Link, rest: seq<byte>, more: seq<byte>)
    requires IsStream(segs) && segs != [] && rest + more == Stream(segs[1..]) && |s'.received| <= |rest|
    ensures |s'.received| + |more| < |Stream(segs)|
  {
    assert |rest + more| == |Stream(segs[1..])|;
  }

  lemma {:induction false} HandedWithin(s: Link, data: seq<byte>, more: seq<byte>, segs: seq<Segment>)
    requires IsStream(segs) && ReadOf(s, data, more, segs) && Roomy(s, data, segs)
    requires !Incomplete(segs, |s.received + data|) && !Spoilt(segs, |s.received + data|)
    ensures Within(s, Process(s, data), more, segs, 0)
    decreases |s.received| + |data|, 0
  {
    hide OnePass, Incomplete, Spoilt, Stream, Handed, Clip, Held, FirstMagic, Due, RespsOf, Within, IsSegment;
    var rest := HandFront(s, data, more, segs);
    var s1 := Handed(s, Due(segs[0]));
    HandedEmpty(s, Due(segs[0]));
    HandedCounts(s, Due(segs[0]));
    ClipFits(rest);
    if rest == [] {
      SameResponses(s1, s1, more, segs[1..]);
    } else {
      NextRead(s1, rest, more, segs[1..]);
      FitsSmall(segs[1..], |rest|);
      NeverAhead(s1, rest, more, segs[1..]);
      ReadUses(s1, rest);
    }
    RestShorter(segs, Process(s, data), rest, more);
    WithinNext(s, s1, Process(s, data), more, segs, 0);
  }

  /** What is left of a stream when the reader goes on behind a stolen byte. */
  lemma StolenRest(segs: seq<Segment>, t: seq<byte>, more: seq<byte>)
    requires IsStream(segs) && Fuses(segs) && segs[0].Intact? && t + more == Stream(segs) && |t| > RSP_LEN_CFG
    ensures t[RSP_LEN_CFG - 1..] + more == Stream(Mended(segs))
    ensures |RespPart(Due(segs[0]))| == 1 && !IsHitCommand(t[5])
    ensures |Stream(segs)| == RSP_LEN_CFG + |Stream(segs[1..])|
  {
    hide Mended, Stream, RespsOf;
    MendedStream(segs);
    StreamParts(segs);
    StreamFront(segs, t, more);
    LastByte(segs[0].frame, Stream(segs[1..]), t, more);
  }

  lemma LastByte(f: seq<byte>, tail: seq<byte>, t: seq<byte>, more: seq<byte>)
    requires |f| == RSP_LEN_CFG && f[RSP_LEN_CFG - 1] == MAGIC[0] && t + more == f + tail && |t| > RSP_LEN_CFG
    ensures t[RSP_LEN_CFG - 1..] + more == [MAGIC[0]] + tail
  {
    assert (t + more)[RSP_LEN_CFG - 1..] == t[RSP_LEN_CFG - 1..] + more;
    assert (f + tail)[RSP_LEN_CFG - 1..] == [MAGIC[0]] + tail;
  }

  lemma {:induction false} StolenWithin(s: Link, data: seq<byte>, more: seq<byte>, segs: seq<Segment>)
    requires IsStream(segs) && ReadOf(s, data, more, segs) && Roomy(s, data, segs)
    requires Spoilt(segs, |s.received + data|) && segs[0].Intact?
    ensures Within(s, Process(s, data), more, segs, 0)
    decreases |s.received| + |data|, 0
  {
    hide OnePass, Stream, Handed, Clip, FirstMagic, RespsOf, Mended, Due;
    var t := s.received + data;
    OpenOutcome(s, data, t, more, segs);
    StolenRest(segs, t, more);
    var head, rest := t[..RSP_LEN_CFG - 1], t[RSP_LEN_CFG - 1..];
    var s1, s' := Handed(s, head), Process(s, data);
    HandedEmpty(s, head);
    HandedWrong(s, head);
    StolenRoom(s, data, segs);
    ClipFits(rest);
    NextRead(s1, rest, more, Mended(segs));
    FitsSmall(Mended(segs), |rest|);
    NeverAhead(s1, rest, more, Mended(segs));
    ReadUses(s1, rest);
    assert |rest + more| == |Stream(Mended(segs))|;
    MendedAccounts(segs, |s'.resps| - |s1.resps|, |s'.received| + |more|);
    WithinNext(s, s1, s', more, segs, 0);
  }

  lemma StolenRoom(s: Link, data: seq<byte>, segs: seq<Segment>)
    requires IsStream(segs) && segs != [] && Held(s, segs) && Roomy(s, data, segs)
    requires segs[0].Intact? && Fuses(segs)
    ensures |s.received + data| <= RSP_LEN_CFG - 1 + BUF_LEN
  {
  }

  /** A short response that takes one byte of the next segment, at the end of what was read. */
  lemma OverlongWithin(s: Link, data: seq<byte>, more: seq<byte>, segs: seq<Segment>)
    requires IsStream(segs) && ReadOf(s, data, more, segs) && segs[0].Short? && |s.received + data| == RSP_LEN_CFG
    ensures Within(s, Process(s, data), more, segs, 0)
  {
    hide OnePass, Stream, Handed, FirstMagic, RespsOf, Within;
    var t := s.received + data;
    OpenOutcome(s, data, t, more, segs);
    assert t[..RSP_LEN_CFG] == t && t[RSP_LEN_CFG..] == [];
    StreamFront(segs, t, more);
    HandedWrong(s, t);
    HandedEmpty(s, t);
    ClipFits([]);
    SameResponses(Handed(s, t), Handed(s, t), more, segs[1..]);
    StreamParts(segs);
    assert |t + more| == |Stream(segs)|;
    WithinNext(s, Handed(s, t), Process(s, data), more, segs, 0);
  }

  lemma IndexTail(y: seq<byte>)
    requires y != [] && !MagicAt(y, 0)
    ensures Index(y[1..]) == if Index(y) < 0 then -1 else Index(y) - 1
  {
    assert y == [y[0]] + y[1..];
    IndexShift([y[0]], y[1..]);
  }

  /** A damaged response without even its first byte is never repaired: the reader looks for the
      magic behind it. */
  lemma SyncBlurred(s: Link, y: seq<byte>, more: seq<byte>, segs: seq<Segment>)
    requires IsStream(segs) && segs != [] && segs[0].Lossy? && segs[0].lost < 2
    requires y + more == Stream(segs) && |y| >= 2 && s.received == y[1..] && !s.frameStart
    ensures Sync(s) == if |y| >= FirstMagic(segs) + 4
                       then s.(received := y[FirstMagic(segs)..], frameStart := true) else s
  {
    hide Index, MagicAt, Stream;
    StreamIndex(segs, y, more);
    FirstMagicLossy(segs);
    assert !MagicAt(y, 0) by { NoMagicFirst(y); }
    IndexTail(y);
    StreamFront(segs, y, more);
    WireFront(segs[0]);
    assert !DamagedHeader(y[1..]);
    if |y| >= FirstMagic(segs) + 4 {
      assert y[1..][FirstMagic(segs) - 1..] == y[FirstMagic(segs)..];
    }
  }

  lemma NoMagicFirst(y: seq<byte>)
    requires Index(y) != 0
    ensures !MagicAt(y, 0)
  {
  }

  /** What the reader makes of the bytes from the first magic on. */
  function Landed(s: Link, x: seq<byte>): Link {
    if |x| == 4 then s.(received := x, frameStart := true) else Process(s.(received := []), x)
  }

  lemma LandedPass(s: Link, data: seq<byte>, x: seq<byte>)
    requires |x| >= 4 && x[..4] == MAGIC
    requires OnePass(s, data) == TakeFirst(s.(received := x, frameStart := true))
    ensures Process(s, data) == Landed(s, x)
  {
    hide Index, MagicAt, OnePass;
    if |x| > 4 {
      TakenAtMagic(s, x);
    } else {
      NoCutYet(x);
    }
  }

  lemma LandingRest(segs: seq<Segment>, t: seq<byte>, more: seq<byte>)
    requires IsStream(segs) && segs != [] && t + more == Stream(segs) && |t| >= FirstMagic(segs) + 4
    ensures var x := t[FirstMagic(segs)..];
            x + more == Stream(Landing(segs)) && x[..4] == MAGIC && Landing(segs) != []
  {
    hide FirstMagic, Landing, IsStream, IsSegment;
    LandingStream(segs);
    var m := FirstMagic(segs);
    assert (t + more)[m..] == t[m..] + more;
    StreamNotEmpty(Landing(segs), t[m..], more);
    OpenFront(Landing(segs), t[m..], more);
  }

  lemma StreamNotEmpty(segs: seq<Segment>, t: seq<byte>, more: seq<byte>)
    requires IsStream(segs) && t + more == Stream(segs) && t != []
    ensures segs != []
  {
  }

  /** Going on behind dropped segments, the reader is within the account of all of them, by one. */
  lemma {:induction false} LandedWithin(s: Link, x: seq<byte>, more: seq<byte>, segs: seq<Segment>)
    requires IsStream(segs) && segs != [] && segs[0].Lossy? && |x| >= 4
    requires x + more == Stream(Landing(segs)) && |x| <= RSP_LEN_CFG - 1 + BUF_LEN
    ensures Within(s, Landed(s, x), more, segs, 1)
    decreases |x|, 2
  {
    hide Stream, Landing, RespsOf, Process;
    var idle, s' := s.(received := []), Landed(s, x);
    assert |x + more| == |Stream(Landing(segs))|;
    if |x| == 4 {
      SameResponses(s, s', more, Landing(segs));
    } else {
      NextRead(idle, x, more, Landing(segs));
      FitsLanding(Landing(segs), |x|);
      NeverAhead(idle, x, more, Landing(segs));
      ReadUses(idle, x);
    }
    LandingAccounts(segs, |s'.resps| - |s.resps|, |s'.received| + |more|);
  }

  lemma FitsLanding(segs: seq<Segment>, n: int)
    requires IsStream(segs) && n <= RSP_LEN_CFG - 1 + BUF_LEN
    ensures Fits(segs, n)
  {
  }

  /** A stream without its first byte, that of a damaged response, is read within its account. */
  lemma {:induction false} BlurredWithin(s: Link, y: seq<byte>, more: seq<byte>, segs: seq<Segment>)
    requires IsStream(segs) && segs != [] && segs[0].Lossy? && segs[0].lost < 2 && s.received == []
    requires y + more == Stream(segs) && 2 <= |y| <= BUF_LEN
    ensures Within(s, Process(s, y[1..]), more, segs, 0)
    decreases |y|, 2
  {
    hide Stream, Landing, Sync, TakeFirst, FirstMagic, Within, RespsOf, Process;
    var x := y[1..];
    var s0 := s.(received := x, frameStart := false);
    assert Append(s, x) == s0;
    SyncBlurred(s0, y, more, segs);
    FirstMagicLossy(segs);
    if |y| >= FirstMagic(segs) + 4 {
      LandingRest(segs, y, more);
      LandedPass(s, x, y[FirstMagic(segs)..]);
      LandedWithin(s, y[FirstMagic(segs)..], more, segs);
      WithinLess(s, Landed(s, y[FirstMagic(segs)..]), more, segs);
    } else {
      KeptProcess(s, x, s0);
      SameResponses(s, s0, more, segs);
    }
  }

  lemma KeptProcess(s: Link, x: seq<byte>, s0: Link)
    requires OnePass(s, x) == Pass(s0, [])
    ensures Process(s, x) == s0
  {
  }

  lemma WithinLess(s: Link, s': Link, more: seq<byte>, segs: seq<Segment>)
    requires IsStream(segs) && Within(s, s', more, segs, 1)
    ensures Within(s, s', more, segs, 0)
  {
  }

  /** A short response that takes one byte of a damaged one. */
  lemma {:induction false} BlurringWithin(s: Link, data: seq<byte>, more: seq<byte>, segs: seq<Segment>)
    requires IsStream(segs) && ReadOf(s, data, more, segs) && Roomy(s, data, segs)
    requires segs[0].Short? && Blurred(segs) && |s.received + data| > RSP_LEN_CFG
    ensures Within(s, Process(s, data), more, segs, 0)
    decreases |s.received| + |data|, 0
  {
    hide OnePass, Stream, Handed, FirstMagic, RespsOf, Within, Due, RespPart;
    var t := s.received + data;
    OpenOutcome(s, data, t, more, segs);
    var head, y := t[..RSP_LEN_CFG], t[RSP_LEN_CFG - 1..];
    var s1 := Handed(s, head);
    assert t[RSP_LEN_CFG..] == y[1..];
    StreamParts(segs);
    SplitConcat(t, more, Wire(segs[0]), Stream(segs[1..]));
    ShortParts(segs, t, more);
    HandedEmpty(s, head);
    HandedWrong(s, head);
    BlurredRoom(s, data, segs);
    ClipFits(y[1..]);
    BlurredWithin(s1, y, more, segs[1..]);
    ReadUses(s1, y[1..]);
    assert |y + more| == |Stream(segs[1..])|;
    WithinNext(s, s1, Process(s, data), more, segs, 0);
  }

  lemma ShortParts(segs: seq<Segment>, t: seq<byte>, more: seq<byte>)
    requires IsStream(segs) && segs != [] && segs[0].Short? && t + more == Stream(segs) && |t| >= RSP_LEN_CFG
    ensures !IsHitCommand(t[5]) && |RespPart(Due(segs[0]))| == 1
  {
    StreamFront(segs, t, more);
  }

  lemma BlurredRoom(s: Link, data: seq<byte>, segs: seq<Segment>)
    requires IsStream(segs) && segs != [] && Held(s, segs) && Roomy(s, data, segs) && segs[0].Short?
    ensures |s.received + data| <= RSP_LEN_CFG - 1 + BUF_LEN
  {
  }

  lemma DropRoom(s: Link, data: seq<byte>, segs: seq<Segment>)
    requires segs != [] && Held(s, segs) && segs[0].Lossy?
    requires |data| <= BUF_LEN || (s.received == [] && |data| <= RSP_LEN_CFG - 1 + BUF_LEN)
    ensures |s.received + data| - FirstMagic(segs) <= RSP_LEN_CFG - 1 + BUF_LEN
  {
    FirstMagicLossy(segs);
  }

  /** Damaged responses that are dropped. */
  lemma {:induction false} DroppedWithin(s: Link, data: seq<byte>, more: seq<byte>, segs: seq<Segment>)
    requires IsStream(segs) && ReadOf(s, data, more, segs) && segs[0].Lossy? && Spoilt(segs, |s.received + data|)
    requires |data| <= BUF_LEN || (s.received == [] && |data| <= RSP_LEN_CFG - 1 + BUF_LEN)
    ensures Within(s, Process(s, data), more, segs, 1)
    decreases |s.received| + |data|, 0
  {
    hide OnePass, Stream, FirstMagic, RespsOf, TakeFirst, Within, Landing;
    var t := s.received + data;
    LossyOutcome(s, data, t, more, segs);
    FirstMagicLossy(segs);
    if |t| >= FirstMagic(segs) + 4 {
      var x := t[FirstMagic(segs)..];
      LandingRest(segs, t, more);
      LandedPass(s, data, x);
      DropRoom(s, data, segs);
      LandedWithin(s, x, more, segs);
    } else {
      TrimmedWithin(s, Process(s, data), t, more, segs);
    }
  }

  lemma TrimmedWithin(s: Link, s': Link, t: seq<byte>, more: seq<byte>, segs: seq<Segment>)
    requires IsStream(segs) && segs != [] && segs[0].Lossy? && t + more == Stream(segs) && |t| > BUF_LEN
    requires |s'.received| == 3 && s'.resps == s.resps
    ensures Within(s, s', more, segs, 1)
  {
    hide RespsOf, Due, RespPart;
    LossyParts(segs);
    assert |t + more| == |Stream(segs)|;
    NothingAccounts(segs[1..], 3 + |more|);
    AccountsNext(segs, 0, 3 + |more|);
  }

  /** No read delivers more responses than the bytes it has seen account for, whatever it drops and
      wherever it cuts. */
  lemma {:induction false} NeverAhead(s: Link, data: seq<byte>, more: seq<byte>, segs: seq<Segment>)
    requires IsStream(segs) && ReadOf(s, data, more, segs) && Roomy(s, data, segs)
    ensures Within(s, Process(s, data), more, segs, 0)
    decreases |s.received| + |data|, 1
  {
    hide Process, Within, FirstMagic, Stream, IsSegment;
    var n := |s.received + data|;
    if Incomplete(segs, n) {
      KeptWithin(s, data, more, segs);
    } else if !Spoilt(segs, n) {
      HandedWithin(s, data, more, segs);
    } else if segs[0].Intact? {
      StolenWithin(s, data, more, segs);
    } else if segs[0].Lossy? {
      DroppedWithin(s, data, more, segs);
      WithinLess(s, Process(s, data), more, segs);
    } else if n == RSP_LEN_CFG {
      OverlongWithin(s, data, more, segs);
    } else {
      BlurringWithin(s, data, more, segs);
    }
  }

  // Exactly when a read loses nothing

  /** What happens when a read cuts badly: a wrong response is delivered, or a response is missing. */
  ghost predicate Fails(s: Link, s': Link, more: seq<byte>, segs: seq<Segment>)
    requires IsStream(segs)
  {
    Misdelivers(s, s', segs) || Within(s, s', more, segs, 1)
  }

  lemma FailsNotDigested(s: Link, s': Link, more: seq<byte>, left: seq<byte>, segs: seq<Segment>, k: nat)
    requires IsStream(segs) && Fails(s, s', more, segs) && |left| <= |more|
    ensures !Digested(s, s', left, segs, k)
  {
    hide Misdelivers, Within;
    if Misdelivers(s, s', segs) {
      NotDigested(s, s', left, segs, k);
    } else {
      FewerIsLost(s, s', more, left, segs, k);
    }
  }

  lemma FailsLater(s: Link, s1: Link, s': Link, more: seq<byte>, segs: seq<Segment>)
    requires IsStream(segs) && segs != [] && Conserves(s, segs, s1, segs[1..])
    requires Fails(s1, s', more, segs[1..]) && |s'.received| + |more| < |Stream(segs)|
    requires |s1.resps| == |s.resps| + |RespPart(Due(segs[0]))|
    ensures Fails(s, s', more, segs)
  {
    hide Misdelivers, Within, Conserves;
    if Misdelivers(s1, s', segs[1..]) {
      MisdeliversLater(s, s1, s', segs);
    } else {
      WithinNext(s, s1, s', more, segs, 1);
    }
  }

  /** A read that cuts some segment in the wrong place puts a response on the queue that was not
      due, or loses one. */
  lemma {:induction false} CutsBadly(s: Link, data: seq<byte>, more: seq<byte>, segs: seq<Segment>)
    requires IsStream(segs) && ReadOf(s, data, more, segs) && |data| <= BUF_LEN
    requires Fits(segs, |s.received + data|) && !CutsWell(segs, |s.received + data|)
    ensures Fails(s, Process(s, data), more, segs)
    decreases |segs|
  {
    hide OnePass, Incomplete, Spoilt, Stream, Conserves, Handed, Clip, Held, Misdelivers, FirstMagic, Within, Process;
    if Spoilt(segs, |s.received + data|) {
      if segs[0].Lossy? {
        DroppedWithin(s, data, more, segs);
      } else {
        SpoiltFront(s, data, more, segs);
      }
    } else {
      var rest := HandFront(s, data, more, segs);
      if rest == [] {
        NothingSeen(segs[1..]);
      }
      ClipFits(rest);
      var s1 := Handed(s, Due(segs[0]));
      HandedEmpty(s, Due(segs[0]));
      ProcessFront(s, data, s1, rest);
      NextRead(s1, rest, more, segs[1..]);
      FitsSmall(segs[1..], |rest|);
      CutsBadly(s1, rest, more, segs[1..]);
      FrontFails(s, s1, rest, more, segs);
    }
  }

  lemma ProcessFront(s: Link, data: seq<byte>, s1: Link, rest: seq<byte>)
    requires OnePass(s, data) == Pass(s1, rest)
    ensures Process(s, data) == if rest == [] then s1 else Process(s1, rest)
  {
  }

  lemma FrontFails(s: Link, s1: Link, seen: seq<byte>, more: seq<byte>, segs: seq<Segment>)
    requires IsStream(segs) && segs != [] && s1 == Handed(s, Due(segs[0])) && s1.received == []
    requires seen + more == Stream(segs[1..]) && Fails(s1, Process(s1, seen), more, segs[1..])
    ensures Fails(s, Process(s1, seen), more, segs)
  {
    hide Stream, Conserves, Handed, Process, Fails;
    HandedConserves(s, segs);
    HandedCounts(s, Due(segs[0]));
    ReadUses(s1, seen);
    RestShorter(segs, Process(s1, seen), seen, more);
    FailsLater(s, s1, Process(s1, seen), more, segs);
  }

  // More than a buffer behind a repaired response

  /** Two states in which the same queues are full and different bytes are still to come. */
  lemma SameQueuesSameRest(segs: seq<Segment>, a: nat, b: nat, extra: nat)
    requires IsStream(segs) && a <= |segs| && b <= |segs| && IsStream(segs[a..]) && IsStream(segs[b..])
    requires |RespsOf(segs[a..])| == |RespsOf(segs[b..])|
    requires |Stream(segs[a..])| == |Stream(segs[b..])| + extra && extra < RSP_LEN_HIT
    ensures extra == 0
  {
    hide Stream, RespsOf, IsStream;
    if a <= b {
      assert segs[a..][b - a..] == segs[b..];
      RestIsShorter(segs[a..], b - a);
    } else {
      assert segs[b..][a - b..] == segs[a..];
      RestIsShorter(segs[b..], a - b);
    }
  }

  /** If more bytes had to come for what was delivered than are left, some were dropped. */
  lemma BytesDropped(s: Link, s': Link, more: seq<byte>, gone: seq<byte>, segs: seq<Segment>, j: nat, k: nat)
    requires IsStream(segs) && Digested(s, s', gone + more, segs, j) && 0 < |gone| < RSP_LEN_HIT
    ensures !Digested(s, s', more, segs, k)
  {
    hide Stream, RespsOf, HitsOf, Held;
    if Digested(s, s', more, segs, k) {
      SameRest(s.resps + RespsOf(segs), s'.resps, RespsOf(segs[j..]), RespsOf(segs[k..]));
      assert |s'.received + (gone + more)| == |s'.received + more| + |gone|;
      SameQueuesSameRest(segs, j, k, |gone|);
    }
  }

  lemma SameRest<T>(whole: seq<T>, front: seq<T>, a: seq<T>, b: seq<T>)
    requires whole == front + a && whole == front + b
    ensures |a| == |b|
  {
    assert |front + a| == |front + b|;
  }

  lemma OversizedFront(s: Link, data: seq<byte>, segs: seq<Segment>)
    requires IsStream(segs) && segs != [] && Held(s, segs) && |data| <= BUF_LEN
    requires !Fits(segs, |s.received + data|)
    ensures segs[0].Lossy? && !Incomplete(segs, |s.received + data|)
    ensures !Spoilt(segs, |s.received + data|) ==> |s.received| < (RSP_LEN_CFG - 1) * 2 + 4
  {
  }

  lemma ClippedRest(s: Link, seen: seq<byte>, more: seq<byte>, segs: seq<Segment>) returns (j: nat)
    requires IsStream(segs) && s.received == [] && 0 < |seen| <= BUF_LEN && seen + more == Stream(segs)
    ensures Fails(s, Process(s, seen), more, segs) || Digested(s, Process(s, seen), more, segs, j)
  {
    hide Process, Stream, Digested, Fails, Held, Spoilt, Incomplete, FirstMagic, Wire;
    NextRead(s, seen, more, segs);
    FitsSmall(segs, |seen|);
    j := 0;
    if CutsWell(segs, |seen|) {
      j := Digest(s, seen, more, segs);
    } else {
      CutsBadly(s, seen, more, segs);
    }
  }

  lemma SplitRest(rest: seq<byte>, more: seq<byte>)
    requires |rest| >= BUF_LEN
    ensures rest[..BUF_LEN] + (rest[BUF_LEN..] + more) == rest + more
  {
  }

  /** The bytes that are clipped are missing whatever was delivered before them. */
  lemma ClippedLoses(s: Link, rest: seq<byte>, more: seq<byte>, segs: seq<Segment>, k: nat)
    requires IsStream(segs) && segs != [] && (|segs| == 1 ==> !segs[0].Short?)
    requires rest + more == Stream(segs[1..]) && BUF_LEN < |rest| < BUF_LEN + RSP_LEN_HIT
    ensures !Digested(s, Process(Handed(s, Due(segs[0])), rest[..BUF_LEN]), more, segs, k)
  {
    hide Process, Stream, Digested, Fails, Handed, Due, Conserves;
    var s1, seen, gone := Handed(s, Due(segs[0])), rest[..BUF_LEN], rest[BUF_LEN..];
    HandedEmpty(s, Due(segs[0]));
    SplitRest(rest, more);
    var s' := Process(s1, seen);
    var j := ClippedRest(s1, seen, gone + more, segs[1..]);
    if Fails(s1, s', gone + more, segs[1..]) {
      FrontFails(s, s1, seen, gone + more, segs);
      FailsNotDigested(s, s', gone + more, more, segs, k);
    } else {
      HandedConserves(s, segs);
      DigestedNext(s, s1, s', gone + more, segs, j);
      BytesDropped(s, s', more, gone, segs, j + 1, k);
    }
  }

  /** A read that leaves more than the buffer holds behind the first segment loses bytes. */
  lemma Overflows(s: Link, data: seq<byte>, more: seq<byte>, segs: seq<Segment>, k: nat)
    requires IsStream(segs) && ReadOf(s, data, more, segs) && |data| <= BUF_LEN
    requires !Fits(segs, |s.received + data|)
    ensures !Digested(s, Process(s, data), more, segs, k)
  {
    hide OnePass, Incomplete, Spoilt, Stream, Handed, FirstMagic, Digested, Misdelivers, Due, Within;
    OversizedFront(s, data, segs);
    hide Held;
    if Spoilt(segs, |s.received + data|) {
      DroppedWithin(s, data, more, segs);
      FailsNotDigested(s, Process(s, data), more, more, segs, k);
    } else {
      var rest := HandFront(s, data, more, segs);
      ProcessFront(s, data, Handed(s, Due(segs[0])), rest[..BUF_LEN]);
      ClippedLoses(s, rest, more, segs, k);
    }
  }

  /** For every stream: a read delivers what it completes and keeps the rest, for some number of
      segments, if and only if it cuts none of them in the wrong place and what follows the first
      fits the buffer. */
  lemma ReadExactly(s: Link, data: seq<byte>, more: seq<byte>, segs: seq<Segment>)
    requires IsStream(segs) && ReadOf(s, data, more, segs) && |data| <= BUF_LEN
    ensures KeepsAll(s, Process(s, data), more, segs)
            <==> Fits(segs, |s.received| + |data|) && CutsWell(segs, |s.received| + |data|)
  {
    hide Fits, CutsWell, Digested, Fails, Process, ReadOf, IsStream;
    assert |s.received + data| == |s.received| + |data|;
    if !Fits(segs, |s.received + data|) {
      forall k ensures !Digested(s, Process(s, data), more, segs, k) {
        Overflows(s, data, more, segs, k);
      }
    } else if CutsWell(segs, |s.received + data|) {
      var j := Digest(s, data, more, segs);
    } else {
      CutsBadly(s, data, more, segs);
      forall k ensures !Digested(s, Process(s, data), more, segs, k) {
        FailsNotDigested(s, Process(s, data), more, more, segs, k);
      }
    }
  }
}
