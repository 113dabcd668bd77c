/** What one pass of the UART reader does to the front of a stream, however much of it is seen. */
module Framing {
  import opened Bytes
  import opened Frames
  import opened FrameDecoder

  /** What arrives for one frame: all of it, a response without one of its four magic bytes, or a
      response without one of the twelve bytes behind them. */
  datatype Segment =
    | Intact(frame: seq<byte>)
    | Lossy(frame: seq<byte>, lost: nat)
    | Short(frame: seq<byte>, lost: nat)

  predicate IsFrame(f: seq<byte>) {
    && |f| >= 8 && f[..4] == MAGIC
    && |f| == if IsHitCommand(f[5]) then RSP_LEN_HIT else RSP_LEN_CFG
  }

  function Without(f: seq<byte>, lost: nat): (d: seq<byte>)
    requires lost < |f|
    ensures |d| == |f| - 1
  {
    f[..lost] + f[lost + 1..]
  }

  /** A read response whose loss of a magic byte shows, and shows at the right place. */
  predicate IsRepairable(f: seq<byte>, lost: nat) {
    && IsFrame(f) && |f| == RSP_LEN_CFG && lost < 4
    && (f[5] == CMD_READ || f[5] == CMD_READWRITE) && f[6] == 0
    && Index(Without(f, lost) + MAGIC) == RSP_LEN_CFG - 1
  }

  /** A response that without the lost byte does not look like a hit. */
  predicate IsShort(f: seq<byte>, lost: nat) {
    IsFrame(f) && |f| == RSP_LEN_CFG && 4 <= lost < RSP_LEN_CFG && !IsHitCommand(Without(f, lost)[5])
  }

  predicate IsSegment(g: Segment) {
    match g
    case Intact(f) => IsFrame(f)
    case Lossy(f, k) => IsRepairable(f, k)
    case Short(f, k) => IsShort(f, k)
  }

  predicate IsStream(segs: seq<Segment>) {
    segs == [] || (IsSegment(segs[0]) && IsStream(segs[1..]))
  }

  /** The bytes of a segment on the wire. */
  function Wire(g: Segment): (w: seq<byte>)
    requires IsSegment(g)
    ensures |w| == if g.Intact? then |g.frame| else RSP_LEN_CFG - 1
  {
    if g.Intact? then g.frame else Without(g.frame, g.lost)
  }

  /** What should be delivered for it: only a magic byte can be put back by the reader. */
  function Due(g: Segment): (f: seq<byte>)
    requires IsSegment(g)
    ensures |f| >= 8
  {
    if g.Short? then Without(g.frame, g.lost) else g.frame
  }

  function Stream(segs: seq<Segment>): seq<byte>
    requires IsStream(segs)
  {
    if segs == [] then [] else Wire(segs[0]) + Stream(segs[1..])
  }

  /** What a frame adds to the hit queue and to the response queue. */
  function HitPart(f: seq<byte>): seq<seq<byte>>
    requires |f| >= 8
  {
    if IsHitCommand(f[5]) && f[7] != 0 then [f] else []
  }

  function RespPart(f: seq<byte>): seq<seq<byte>>
    requires |f| >= 8
  {
    if IsHitCommand(f[5]) then [] else [f]
  }

  /** The hits a list of segments should put on the hit queue. */
  function HitsOf(segs: seq<Segment>): seq<seq<byte>>
    requires IsStream(segs)
  {
    if segs == [] then [] else HitPart(Due(segs[0])) + HitsOf(segs[1..])
  }

  function RespsOf(segs: seq<Segment>): seq<seq<byte>>
    requires IsStream(segs)
  {
    if segs == [] then [] else RespPart(Due(segs[0])) + RespsOf(segs[1..])
  }

  // How the number of bytes seen decides what happens to the first segment

  /** A response that ends in the first magic byte, before one that lost its own: the two make
      up a magic that starts one byte too early. */
  predicate Fuses(segs: seq<Segment>) {
    && |segs| > 1 && |segs[0].frame| == RSP_LEN_CFG && segs[0].frame[RSP_LEN_CFG - 1] == MAGIC[0]
    && segs[1].Lossy? && segs[1].lost == 0
  }

  /** A segment whose first two bytes do not show where the one before it ends. */
  predicate Blurred(segs: seq<Segment>) {
    |segs| > 1 && segs[1].Lossy? && segs[1].lost < 2
  }

  /** Where the first magic of a stream begins, or would. */
  function FirstMagic(segs: seq<Segment>): nat {
    if segs == [] || !segs[0].Lossy? then 0
    else if Fuses(segs) then RSP_LEN_CFG - 2
    else RSP_LEN_CFG - 1 + FirstMagic(segs[1..])
  }

  /** With n bytes seen, the reader waits for more before it touches the first segment. */
  predicate Incomplete(segs: seq<Segment>, n: int)
    requires segs != []
  {
    match segs[0]
    case Intact(f) => n < |f|
    case Short(_, _) => n <= RSP_LEN_CFG - 1
    case Lossy(_, _) =>
      && n != RSP_LEN_CFG - 1 && n != (RSP_LEN_CFG - 1) * 2
      && n < FirstMagic(segs) + 4 && n <= BUF_LEN
  }

  /** With n bytes seen, the reader cuts in the wrong place. */
  predicate Spoilt(segs: seq<Segment>, n: int)
    requires segs != []
  {
    match segs[0]
    case Intact(_) => Fuses(segs) && n > RSP_LEN_CFG
    case Short(_, _) => n == RSP_LEN_CFG || (n > RSP_LEN_CFG && Blurred(segs))
    case Lossy(_, _) =>
      && FirstMagic(segs) != RSP_LEN_CFG - 1 && FirstMagic(segs) != (RSP_LEN_CFG - 1) * 2
      && (n >= FirstMagic(segs) + 4 || n > BUF_LEN)
  }

  // The bytes of a stream

  /** Two ways of cutting the same bytes in two. */
  lemma SplitConcat<T>(total: seq<T>, more: seq<T>, w: seq<T>, tail: seq<T>)
    requires total + more == w + tail
    ensures |total| <= |w| ==> total <= w
    ensures |total| >= |w| ==> total == w + total[|w|..] && total[|w|..] + more == tail
  {
    if |total| <= |w| {
      assert total == (total + more)[..|total|] == (w + tail)[..|total|] == w[..|total|];
    } else {
      assert w == (w + tail)[..|w|] == (total + more)[..|w|] == total[..|w|];
      assert tail == (w + tail)[|w|..] == (total + more)[|w|..] == total[|w|..] + more;
    }
  }

  lemma Regroup<T>(a: seq<T>, b: seq<T>, c: seq<T>)
    ensures a + b + c == a + (b + c)
  {
  }

  /** A list of bytes begins with the magic, as far as it goes. */
  predicate Opens(t: seq<byte>) {
    if |t| < 4 then t <= MAGIC else t[..4] == MAGIC
  }

  lemma WireFront(g: Segment)
    requires IsSegment(g)
    ensures !g.Lossy? ==> Wire(g)[..4] == MAGIC
    ensures Wire(g)[0] == if g.Lossy? && g.lost == 0 then MAGIC[1] else MAGIC[0]
    ensures Wire(g)[1] == if g.Lossy? && g.lost < 2 then MAGIC[2] else MAGIC[1]
    ensures g.Lossy? && g.lost == 0 ==> Wire(g)[..3] == MAGIC[1..]
  {
  }

  /** The first bytes of a stream are those of its first segment. */
  lemma StreamFront(segs: seq<Segment>, t: seq<byte>, more: seq<byte>)
    requires IsStream(segs) && t + more == Stream(segs) && t != []
    ensures segs != [] && forall i :: 0 <= i < |t| && i < |Wire(segs[0])| ==> t[i] == Wire(segs[0])[i]
  {
    var w := Wire(segs[0]);
    forall i | 0 <= i < |t| && i < |w|
      ensures t[i] == w[i]
    {
      assert t[i] == (t + more)[i] == (w + Stream(segs[1..]))[i];
    }
  }

  lemma OpenFront(segs: seq<Segment>, t: seq<byte>, more: seq<byte>)
    requires IsStream(segs) && t + more == Stream(segs) && segs != [] && !segs[0].Lossy?
    ensures Opens(t)
  {
    if t != [] {
      StreamFront(segs, t, more);
      WireFront(segs[0]);
      var w := Wire(segs[0]);
      assert forall i :: 0 <= i < 4 ==> w[i] == w[..4][i];
    }
  }

  // Where the magic is found

  lemma IndexAt(b: seq<byte>, i: nat)
    requires MagicAt(b, i) && forall j :: 0 <= j < i ==> !MagicAt(b, j)
    ensures Index(b) == i
  {
  }

  lemma NoIndex(b: seq<byte>)
    requires forall j :: 0 <= j < |b| ==> !MagicAt(b, j)
    ensures Index(b) == -1
  {
  }

  lemma OpenIndex(t: seq<byte>)
    requires Opens(t)
    ensures Index(t) == if |t| < 4 then -1 else 0
  {
    if |t| < 4 {
      NoIndex(t);
    } else {
      assert forall k :: 0 <= k < 4 ==> t[k] == t[..4][k];
      IndexAt(t, 0);
    }
  }

  lemma MagicShifts(b: seq<byte>, x: seq<byte>, i: int)
    requires i >= |b|
    ensures MagicAt(b + x, i) == MagicAt(x, i - |b|)
  {
  }

  lemma IndexShift(b: seq<byte>, x: seq<byte>)
    requires forall i :: 0 <= i < |b| ==> !MagicAt(b + x, i)
    ensures Index(b + x) == if Index(x) < 0 then -1 else |b| + Index(x)
  {
    forall i | |b| <= i
      ensures MagicAt(b + x, i) == MagicAt(x, i - |b|)
    {
      MagicShifts(b, x, i);
    }
    if Index(x) < 0 {
      NoIndex(b + x);
    } else {
      IndexAt(b + x, |b| + Index(x));
    }
  }

  lemma ClearBody(f: seq<byte>, lost: nat, x: seq<byte>, i: nat)
    requires IsRepairable(f, lost) && MagicAt(Without(f, lost) + x, i)
    ensures i + 4 > RSP_LEN_CFG - 1
  {
    var d := Without(f, lost);
    if i + 4 <= RSP_LEN_CFG - 1 {
      assert forall k :: i <= k < i + 4 ==> (d + x)[k] == d[k] && (d + MAGIC)[k] == d[k];
      assert MagicAt(d + MAGIC, i);
      assert false;
    }
  }

  /** No magic starts inside a damaged response, unless its last byte begins one. */
  lemma ClearLossy(f: seq<byte>, lost: nat, x: seq<byte>, i: nat)
    requires IsRepairable(f, lost) && i < RSP_LEN_CFG - 1 && MagicAt(Without(f, lost) + x, i)
    requires x != [] ==> x[0] == MAGIC[0] || x[0] == MAGIC[1]
    ensures i == RSP_LEN_CFG - 2 && f[RSP_LEN_CFG - 1] == MAGIC[0] && x != [] && x[0] == MAGIC[1]
  {
    ClearBody(f, lost, x, i);
  }

  lemma FusedMagic(d: seq<byte>, x: seq<byte>)
    requires |d| == RSP_LEN_CFG - 1 && d[RSP_LEN_CFG - 2] == MAGIC[0]
    requires forall i :: 0 <= i < |x| && i < 3 ==> x[i] == MAGIC[i + 1]
    ensures MagicAt(d + x, RSP_LEN_CFG - 2) == (|x| >= 3)
  {
  }

  /** Where the reader finds the first magic, however much of the stream it has seen. */
  lemma {:induction false} StreamIndex(segs: seq<Segment>, t: seq<byte>, more: seq<byte>)
    requires IsStream(segs) && t + more == Stream(segs)
    ensures Index(t) == if |t| >= FirstMagic(segs) + 4 then FirstMagic(segs) else -1
    decreases |segs|
  {
    hide Index, MagicAt, IsRepairable;
    if segs == [] || !segs[0].Lossy? {
      if segs != [] {
        OpenFront(segs, t, more);
      }
      OpenIndex(t);
    } else {
      LossyIndex(segs, t, more);
    }
  }

  lemma {:induction false} LossyIndex(segs: seq<Segment>, t: seq<byte>, more: seq<byte>)
    requires IsStream(segs) && t + more == Stream(segs) && segs != [] && segs[0].Lossy?
    ensures Index(t) == if |t| >= FirstMagic(segs) + 4 then FirstMagic(segs) else -1
    decreases |segs|, 0
  {
    hide Index, MagicAt, IsRepairable;
    var d, tail := Wire(segs[0]), Stream(segs[1..]);
    SplitConcat(t, more, d, tail);
    if |t| <= |d| {
      ShortIndex(segs[0], t);
    } else {
      var x := t[|d|..];
      StreamFront(segs[1..], x, more);
      WireFront(segs[1]);
      if Fuses(segs) {
        FusedIndex(segs, x);
      } else {
        NoneInside(segs, x);
        IndexShift(d, x);
        StreamIndex(segs[1..], x, more);
      }
    }
  }

  lemma ShortIndex(g: Segment, t: seq<byte>)
    requires IsSegment(g) && g.Lossy? && t <= Wire(g)
    ensures Index(t) == -1
  {
    var d := Wire(g);
    forall i | 0 <= i < |t|
      ensures !MagicAt(t, i)
    {
      if MagicAt(t, i) {
        assert MagicAt(d + [], i);
        ClearLossy(g.frame, g.lost, [], i);
      }
    }
    NoIndex(t);
  }

  lemma NoneInside(segs: seq<Segment>, x: seq<byte>)
    requires |segs| > 1 && IsSegment(segs[0]) && segs[0].Lossy? && IsSegment(segs[1]) && !Fuses(segs)
    requires x != [] && x[0] == Wire(segs[1])[0]
    ensures forall i :: 0 <= i < RSP_LEN_CFG - 1 ==> !MagicAt(Wire(segs[0]) + x, i)
  {
    WireFront(segs[1]);
    forall i | 0 <= i < RSP_LEN_CFG - 1
      ensures !MagicAt(Wire(segs[0]) + x, i)
    {
      if MagicAt(Wire(segs[0]) + x, i) {
        ClearLossy(segs[0].frame, segs[0].lost, x, i);
      }
    }
  }

  lemma FusedIndex(segs: seq<Segment>, x: seq<byte>)
    requires Fuses(segs) && IsSegment(segs[0]) && segs[0].Lossy? && IsSegment(segs[1])
    requires x != [] && forall i :: 0 <= i < |x| && i < |Wire(segs[1])| ==> x[i] == Wire(segs[1])[i]
    ensures Index(Wire(segs[0]) + x) == if |x| >= 3 then RSP_LEN_CFG - 2 else -1
  {
    var d := Wire(segs[0]);
    WireFront(segs[1]);
    assert forall i :: 0 <= i < 3 ==> Wire(segs[1])[i] == Wire(segs[1])[..3][i];
    FusedMagic(d, x);
    forall i | 0 <= i < RSP_LEN_CFG - 2
      ensures !MagicAt(d + x, i)
    {
      if MagicAt(d + x, i) {
        ClearLossy(segs[0].frame, segs[0].lost, x, i);
      }
    }
    if |x| >= 3 {
      IndexAt(d + x, RSP_LEN_CFG - 2);
    } else {
      NoIndex(d + x);
    }
  }

  // One pass

  /** What one pass leaves after it handed on the frame f. */
  function Handed(s: Link, f: seq<byte>): Link
    requires |f| >= 8
  {
    Deliver(s, f).(received := [], frameStart := true)
  }

  lemma SyncAtMagic(s: Link)
    requires |s.received| > 4 && s.received[..4] == MAGIC
    ensures Sync(s) == s.(frameStart := true)
  {
    OpenIndex(s.received);
  }

  /** Taking a frame off the front depends on the queues of the link alone. */
  lemma TakeFront(s: Link, s1: Link, t: seq<byte>)
    requires s1.received == t && s1.frameStart && s1.hits == s.hits && s1.resps == s.resps
    ensures var n := CutLength(t);
            TakeFirst(s1) == if n == 0 then Pass(s1, []) else Pass(Handed(s, t[..n]), Clip(t[n..]))
  {
  }

  /** Bytes that begin with the magic are cut or kept as their length and sixth byte say. */
  lemma PassOpen(s: Link, data: seq<byte>, t: seq<byte>)
    requires t == s.received + data && data != [] && Opens(t)
    ensures var n := CutLength(t);
            if n == 0 then
              OnePass(s, data) == Pass(s.(received := t, frameStart := OnePass(s, data).link.frameStart), [])
            else OnePass(s, data) == Pass(Handed(s, t[..n]), Clip(t[n..]))
  {
    hide Index, MagicAt, CutLength, Deliver;
    var s0 := Append(s, data);
    assert s0.received == t;
    NoCutYet(t);
    if |t| > 4 {
      SyncAtMagic(s0);
      TakeFront(s, s0.(frameStart := true), t);
    }
  }

  lemma NoCutYet(t: seq<byte>)
    ensures |t| < 6 ==> CutLength(t) == 0
  {
  }

  lemma CutOpen(f: seq<byte>, t: seq<byte>)
    requires |f| >= 6 && forall i :: 0 <= i < |t| && i < |f| ==> t[i] == f[i]
    requires |f| == (if IsHitCommand(f[5]) then RSP_LEN_HIT else RSP_LEN_CFG)
    ensures |t| < |f| ==> CutLength(t) == 0
    ensures |t| >= |f| ==>
              CutLength(t) == if && |t| > |f| == RSP_LEN_CFG && f[RSP_LEN_CFG - 1] == MAGIC[0]
                                 && t[RSP_LEN_CFG] == MAGIC[1] then RSP_LEN_CFG - 1 else |f|
  {
  }

  lemma CutShort(d: seq<byte>, t: seq<byte>)
    requires |d| == RSP_LEN_CFG - 1 && !IsHitCommand(d[5])
    requires forall i :: 0 <= i < |t| && i < |d| ==> t[i] == d[i]
    ensures |t| <= |d| ==> CutLength(t) == 0
    ensures |t| > |d| ==>
              CutLength(t) == if |t| > RSP_LEN_CFG && t[RSP_LEN_CFG - 1] == MAGIC[0] && t[RSP_LEN_CFG] == MAGIC[1]
                              then RSP_LEN_CFG - 1 else RSP_LEN_CFG
  {
  }

  /** The first two bytes behind a segment are those of the next one. */
  lemma Behind(segs: seq<Segment>, t: seq<byte>, more: seq<byte>)
    requires IsStream(segs) && t + more == Stream(segs) && segs != [] && |t| > |Wire(segs[0])|
    ensures |segs| > 1 && IsSegment(segs[1])
    ensures var w, next := Wire(segs[0]), Wire(segs[1]);
            t[|w|] == next[0] && (|t| > |w| + 1 ==> t[|w| + 1] == next[1])
  {
    var w := Wire(segs[0]);
    SplitConcat(t, more, w, Stream(segs[1..]));
    var x := t[|w|..];
    StreamFront(segs[1..], x, more);
    assert t[|w|] == x[0] && (|x| > 1 ==> t[|w| + 1] == x[1]);
  }

  /** How many bytes are taken off the front of a stream that begins with its magic. */
  lemma OpenCut(segs: seq<Segment>, t: seq<byte>, more: seq<byte>)
    requires IsStream(segs) && t + more == Stream(segs) && segs != [] && !segs[0].Lossy?
    ensures CutLength(t) == if Incomplete(segs, |t|) then 0
                            else if !Spoilt(segs, |t|) then |Wire(segs[0])|
                            else if segs[0].Intact? then RSP_LEN_CFG - 1 else RSP_LEN_CFG
  {
    hide CutLength, Stream;
    var w := Wire(segs[0]);
    if t != [] {
      StreamFront(segs, t, more);
    }
    if |t| > |w| {
      Behind(segs, t, more);
      WireFront(segs[1]);
    }
    if segs[0].Intact? {
      CutOpen(w, t);
    } else {
      CutShort(w, t);
    }
  }

  /** A stream that begins with its magic: the first segment is handed over as it is once enough
      is seen; behind a fusing pair it comes one byte short, and a short response whose end does
      not show comes one byte too long. */
  lemma OpenOutcome(s: Link, data: seq<byte>, t: seq<byte>, more: seq<byte>, segs: seq<Segment>)
    requires IsStream(segs) && segs != [] && !segs[0].Lossy? && data != []
    requires s.received + data == t && t + more == Stream(segs)
    ensures Incomplete(segs, |t|) ==>
              OnePass(s, data) == Pass(s.(received := t, frameStart := OnePass(s, data).link.frameStart), [])
    ensures !Incomplete(segs, |t|) && !Spoilt(segs, |t|) ==>
              OnePass(s, data) == Pass(Handed(s, Due(segs[0])), Clip(t[|Wire(segs[0])|..]))
    ensures !Incomplete(segs, |t|) && Spoilt(segs, |t|) ==>
              var n := if segs[0].Intact? then RSP_LEN_CFG - 1 else RSP_LEN_CFG;
              |t| >= n && OnePass(s, data) == Pass(Handed(s, t[..n]), Clip(t[n..]))
  {
    hide CutLength, OnePass, Opens;
    OpenFront(segs, t, more);
    PassOpen(s, data, t);
    OpenCut(segs, t, more);
    SplitConcat(t, more, Wire(segs[0]), Stream(segs[1..]));
  }

  // Damaged headers

  /** The header test recognises the loss, and putting the magic back restores the frame. */
  lemma LossyHeader(f: seq<byte>, lost: nat, rest: seq<byte>)
    requires IsRepairable(f, lost)
    ensures DamagedHeader(Without(f, lost) + rest)
    ensures MAGIC + (Without(f, lost) + rest)[3..] == f + rest
  {
  }

  /** What the search for a frame start makes of a stream that begins with a damaged response. */
  lemma SyncLossy(s: Link, t: seq<byte>, more: seq<byte>, segs: seq<Segment>)
    requires IsStream(segs) && segs != [] && segs[0].Lossy? && t + more == Stream(segs)
    requires s.received == t && !s.frameStart
    ensures var m, n := FirstMagic(segs), RSP_LEN_CFG - 1;
            Sync(s) == if |t| == n || (|t| == n * 2 && |t| < m + 4) || (|t| >= m + 4 && (m == n || m == n * 2))
                       then s.(received := segs[0].frame + t[n..], frameStart := true)
                       else if |t| >= m + 4 then s.(received := t[m..], frameStart := true) else s
  {
    hide Index, MagicAt, DamagedHeader;
    StreamIndex(segs, t, more);
    SplitConcat(t, more, Wire(segs[0]), Stream(segs[1..]));
    if |t| >= RSP_LEN_CFG - 1 {
      LossyHeader(segs[0].frame, segs[0].lost, t[RSP_LEN_CFG - 1..]);
    }
  }

  /** A frame that was put together again is taken off whole. */
  lemma CutRepaired(segs: seq<Segment>, x: seq<byte>)
    requires segs != [] && IsSegment(segs[0]) && segs[0].Lossy?
    requires x != [] ==> !Fuses(segs) && |segs| > 1 && IsSegment(segs[1]) && x[0] == Wire(segs[1])[0]
    ensures CutLength(segs[0].frame + x) == RSP_LEN_CFG
  {
    hide CutLength;
    if x != [] {
      WireFront(segs[1]);
    }
    CutOpen(segs[0].frame, segs[0].frame + x);
  }

  lemma Repaired(s: Link, s1: Link, t: seq<byte>, more: seq<byte>, segs: seq<Segment>)
    requires IsStream(segs) && segs != [] && segs[0].Lossy? && t + more == Stream(segs)
    requires |t| >= RSP_LEN_CFG - 1 && (Fuses(segs) ==> |t| == RSP_LEN_CFG - 1)
    requires s1 == s.(received := segs[0].frame + t[RSP_LEN_CFG - 1..], frameStart := true)
    ensures TakeFirst(s1) == Pass(Handed(s, segs[0].frame), Clip(t[RSP_LEN_CFG - 1..]))
  {
    hide CutLength, Deliver;
    var f, x := segs[0].frame, t[RSP_LEN_CFG - 1..];
    SplitConcat(t, more, Wire(segs[0]), Stream(segs[1..]));
    if x != [] {
      StreamFront(segs[1..], x, more);
    }
    CutRepaired(segs, x);
    TakeFront(s, s1, f + x);
  }

  lemma FirstMagicLossy(segs: seq<Segment>)
    requires segs != [] && segs[0].Lossy?
    ensures FirstMagic(segs) >= RSP_LEN_CFG - 2
    ensures Fuses(segs) <==> FirstMagic(segs) == RSP_LEN_CFG - 2
  {
  }

  /** A stream that begins with a damaged response: it is handed over repaired when what is seen
      ends with it or with the damaged response behind it, or when the first magic shows behind
      one or two of them. If the magic shows anywhere else, all bytes before it are dropped. */
  lemma LossyOutcome(s: Link, data: seq<byte>, t: seq<byte>, more: seq<byte>, segs: seq<Segment>)
    requires IsStream(segs) && segs != [] && segs[0].Lossy? && data != []
    requires s.received + data == t && t + more == Stream(segs) && (s.received == [] || !s.frameStart)
    ensures Incomplete(segs, |t|) ==> OnePass(s, data) == Pass(s.(received := t, frameStart := false), [])
    ensures !Incomplete(segs, |t|) && !Spoilt(segs, |t|) ==>
              |t| >= RSP_LEN_CFG - 1
              && OnePass(s, data) == Pass(Handed(s, segs[0].frame), Clip(t[RSP_LEN_CFG - 1..]))
    ensures Spoilt(segs, |t|) && |t| >= FirstMagic(segs) + 4 ==>
              OnePass(s, data) == TakeFirst(s.(received := t[FirstMagic(segs)..], frameStart := true))
    ensures Spoilt(segs, |t|) && |t| < FirstMagic(segs) + 4 ==>
              OnePass(s, data) == Pass(s.(received := t[|t| - 3..], frameStart := false), [])
  {
    hide Sync, Fuses, FirstMagic, TakeFirst, Handed, Clip, Stream, IsStream;
    var s0 := Append(s, data);
    assert s0 == s.(received := t, frameStart := false);
    SyncLossy(s0, t, more, segs);
    FirstMagicLossy(segs);
    if !Incomplete(segs, |t|) && !Spoilt(segs, |t|) {
      Repaired(s, Sync(s0), t, more, segs);
    }
  }
}
