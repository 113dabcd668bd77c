/** Where the UART reader loses or changes frames, and exactly when. */
module Misframing {
  import opened Bytes
  import opened Frames
  import opened FrameDecoder
  import opened Framing
  import opened Reading
  import opened ReadLosses
  import opened LinkRuns

  // More than a buffer behind a repaired response

  /** A read response of chip 0, all zero behind its spare byte. */
  const SAMPLE: seq<byte> := [0x54, 0x76, 0xc0, 0xda, 0, CMD_READ, 0, 0, 0, 0, 0, 0, 0, 0, 0, 0]

  function Copies(n: nat): (segs: seq<Segment>)
    ensures |segs| == n
  {
    if n == 0 then [] else [Intact(SAMPLE)] + Copies(n - 1)
  }

  /** The response without its first byte, then seventy whole ones. */
  function Damaged(): seq<Segment> {
    [Lossy(SAMPLE, 0)] + Copies(70)
  }

  lemma SampleIsRepairable()
    ensures IsFrame(SAMPLE) && IsRepairable(SAMPLE, 0)
  {
    var d := Without(SAMPLE, 0) + MAGIC;
    assert forall i :: 3 <= i < RSP_LEN_CFG - 1 ==> d[i] == SAMPLE[i + 1];
    assert d[RSP_LEN_CFG - 1..] == MAGIC;
    assert forall k :: 0 <= k < 4 ==> d[RSP_LEN_CFG - 1 + k] == MAGIC[k];
    IndexAt(d, RSP_LEN_CFG - 1);
  }

  lemma {:induction false} CopiesAreFine(n: nat)
    ensures Recoverable(Copies(n)) && Plain(Copies(n)) && |Stream(Copies(n))| == RSP_LEN_CFG * n
    ensures n > 0 ==> Copies(n)[0] == Intact(SAMPLE)
  {
    SampleIsRepairable();
    if n > 0 {
      CopiesAreFine(n - 1);
      assert Copies(n)[1..] == Copies(n - 1);
    }
  }

  lemma DamagedIsFine()
    ensures Recoverable(Damaged()) && Plain(Damaged()) && |Stream(Damaged())| == 1135
    ensures Damaged()[0] == Lossy(SAMPLE, 0) && FirstMagic(Damaged()) == RSP_LEN_CFG - 1
  {
    hide IsRepairable, Copies;
    SampleIsRepairable();
    CopiesAreFine(70);
    assert Damaged()[1..] == Copies(70);
  }

  /** With 18 bytes held, as after a first read of 18 bytes, a read of 1022 to 1024 bytes loses
      some of them, and a shorter one does not. */
  lemma OverflowReached(n: nat)
    requires 1 <= n <= BUF_LEN
    ensures Recoverable(Damaged()) && |Stream(Damaged())| >= 18 + n
    ensures var w := Stream(Damaged());
            var s := Receive(IDLE, w[..18]);
            && s.received == w[..18] && !s.frameStart
            && (KeepsAll(s, Process(s, w[18..18 + n]), w[18 + n..], Damaged()) <==> n <= 1021)
  {
    hide Stream, Damaged, Process, IsStream, NoDrops, Plain, IsSegment, HitsOf, RespsOf;
    DamagedIsFine();
    var segs := Damaged();
    var w := Stream(segs);
    var s := Receive(IDLE, w[..18]);
    assert [] + w[..18] == w[..18] && w[..18] + w[18..] == w;
    KeepFront(IDLE, w[..18], w[18..], segs);
    assert segs[0..] == segs && s.received + w[18..] == w;
    assert s.received == (s.received + w[18..])[..18];
    assert w[..18] + w[18..18 + n] + w[18 + n..] == w;
    ReadExactly(s, w[18..18 + n], w[18 + n..], segs);
    PlainCuts(segs, 18 + n);
  }

  // A byte of the frame in front

  lemma TakesMagic(f: seq<byte>, tail: seq<byte>)
    requires |f| == RSP_LEN_CFG && f[RSP_LEN_CFG - 1] == MAGIC[0]
    ensures (f + tail)[..RSP_LEN_CFG - 1] == f[..RSP_LEN_CFG - 1]
    ensures (f + tail)[RSP_LEN_CFG - 1..] == [MAGIC[0]] + tail
  {
  }

  lemma OpensWhole(f: seq<byte>, tail: seq<byte>)
    requires IsFrame(f)
    ensures Opens(f + tail)
  {
  }

  /** A response with anything of a frame behind it that lost its first byte: it is delivered as it
      is if and only if it does not end in 0x54 or the bytes seen end with it. Otherwise it comes
      one byte short, and the frame behind it gets that byte for its own. */
  lemma StolenExactly(s: Link, data: seq<byte>, f: seq<byte>, tail: seq<byte>)
    requires IsFrame(f) && |f| == RSP_LEN_CFG && s.received + data == f + tail && data != []
    requires tail != [] ==> tail[0] == MAGIC[1]
    ensures OnePass(s, data).link == Handed(s, f) <==> tail == [] || f[RSP_LEN_CFG - 1] != MAGIC[0]
    ensures tail != [] && f[RSP_LEN_CFG - 1] == MAGIC[0] ==>
              OnePass(s, data) == Pass(Handed(s, f[..RSP_LEN_CFG - 1]), Clip([MAGIC[0]] + tail))
  {
    hide OnePass, CutLength, Opens, Clip;
    OpensWhole(f, tail);
    PassOpen(s, data, f + tail);
    CutOpen(f, f + tail);
    assert (f + tail)[..RSP_LEN_CFG] == f;
    if tail != [] && f[RSP_LEN_CFG - 1] == MAGIC[0] {
      TakesMagic(f, tail);
      HandedWrong(s, f[..RSP_LEN_CFG - 1]);
      HandedWrong(s, f);
      assert (s.resps + [f])[|s.resps|] == f;
      assert (s.resps + [f[..RSP_LEN_CFG - 1]])[|s.resps|] == f[..RSP_LEN_CFG - 1];
    }
  }

  /** A response that lost one byte behind its magic, with the first bytes of an intact frame: it
      waits, is delivered one byte too long, or is delivered as it came, for none, one, or at
      least two of them. */
  lemma ShortExactly(s: Link, data: seq<byte>, f: seq<byte>, lost: nat, next: seq<byte>, tail: seq<byte>)
    requires IsShort(f, lost) && s.received + data == Without(f, lost) + tail && data != []
    requires IsFrame(next) && forall i :: 0 <= i < |tail| && i < |next| ==> tail[i] == next[i]
    ensures OnePass(s, data).link ==
            if |tail| == 0 then s.(received := Without(f, lost), frameStart := OnePass(s, data).link.frameStart)
            else if |tail| == 1 then Handed(s, Without(f, lost) + tail)
            else Handed(s, Without(f, lost))
    ensures OnePass(s, data).leftover == if |tail| <= 1 then [] else Clip(tail)
  {
    hide OnePass, CutLength, Clip, Opens;
    var d := Without(f, lost);
    ShortOpens(f, lost, tail);
    PassOpen(s, data, d + tail);
    CutShort(d, d + tail);
    FrameFront(next);
    if |tail| == 1 {
      assert (d + tail)[..RSP_LEN_CFG] == d + tail && (d + tail)[RSP_LEN_CFG..] == [];
      ClipFits([]);
    } else if |tail| > 1 {
      assert (d + tail)[..RSP_LEN_CFG - 1] == d && (d + tail)[RSP_LEN_CFG - 1..] == tail;
      assert tail[0] == next[0] && tail[1] == next[1];
    } else {
      assert d + tail == d;
    }
  }

  /** The responses that without a byte behind their magic look like a hit: they lost their id or their
      command, and their spare byte is one of the four hit codes. */
  lemma LooksLikeHit(f: seq<byte>, lost: nat)
    requires IsFrame(f) && |f| == RSP_LEN_CFG && 4 <= lost < RSP_LEN_CFG
    ensures IsHitCommand(Without(f, lost)[5]) <==> lost <= 5 && 0x44 <= f[6] <= 0x47
    ensures IsShort(f, lost) <==> !(lost <= 5 && 0x44 <= f[6] <= 0x47)
  {
  }

  /** Such a response is taken for a hit: the reader waits for 92 bytes and delivers them as one,
      with the 77 bytes that belong to the frames behind it. */
  lemma TakenForHit(s: Link, data: seq<byte>, f: seq<byte>, lost: nat, tail: seq<byte>)
    requires IsFrame(f) && |f| == RSP_LEN_CFG && 4 <= lost <= 5 && 0x44 <= f[6] <= 0x47
    requires s.received + data == Without(f, lost) + tail && data != []
    ensures var t := Without(f, lost) + tail;
            if |t| < RSP_LEN_HIT then
              OnePass(s, data) == Pass(s.(received := t, frameStart := OnePass(s, data).link.frameStart), [])
            else OnePass(s, data) == Pass(Handed(s, Without(f, lost) + tail[..RSP_LEN_HIT - (RSP_LEN_CFG - 1)]),
                                          Clip(tail[RSP_LEN_HIT - (RSP_LEN_CFG - 1)..]))
  {
    hide OnePass, CutLength, Clip, Opens, Deliver;
    var d := Without(f, lost);
    var t := d + tail;
    LooksLikeHit(f, lost);
    MagicOpens(d, tail);
    PassOpen(s, data, t);
    CutHit(t);
    if |t| >= RSP_LEN_HIT {
      assert t[..RSP_LEN_HIT] == d + tail[..RSP_LEN_HIT - |d|] && t[RSP_LEN_HIT..] == tail[RSP_LEN_HIT - |d|..];
    }
  }

  lemma CutHit(t: seq<byte>)
    requires |t| >= 6 && IsHitCommand(t[5])
    ensures CutLength(t) == if |t| < RSP_LEN_HIT then 0 else RSP_LEN_HIT
  {
  }

  lemma MagicOpens(d: seq<byte>, tail: seq<byte>)
    requires |d| >= 4 && d[..4] == MAGIC
    ensures Opens(d + tail)
  {
  }

  lemma ShortOpens(f: seq<byte>, lost: nat, tail: seq<byte>)
    requires IsShort(f, lost)
    ensures Opens(Without(f, lost) + tail)
  {
  }

  lemma FrameFront(f: seq<byte>)
    requires IsFrame(f)
    ensures f[0] == MAGIC[0] && f[1] == MAGIC[1]
  {
    assert f[0] == f[..4][0] && f[1] == f[..4][1];
  }

  // Damaged responses in a row

  /** The damaged responses a stream begins with. */
  function Row(segs: seq<Segment>): nat {
    if segs == [] || !segs[0].Lossy? then 0 else 1 + Row(segs[1..])
  }

  lemma {:induction false} RowMagic(segs: seq<Segment>)
    requires Plain(segs)
    ensures FirstMagic(segs) == (RSP_LEN_CFG - 1) * Row(segs)
  {
    if segs != [] && segs[0].Lossy? {
      RowMagic(segs[1..]);
    }
  }

  /** Damaged responses, of which none fuses with the next, when what is seen reaches past the magic
      behind them: the first is repaired if there are one or two. From three on all of them are
      dropped, and the reader goes on with the frame behind them. */
  lemma RowExactly(s: Link, data: seq<byte>, t: seq<byte>, more: seq<byte>, segs: seq<Segment>)
    requires IsStream(segs) && Plain(segs) && segs != [] && segs[0].Lossy? && data != []
    requires s.received + data == t && t + more == Stream(segs) && (s.received == [] || !s.frameStart)
    requires |t| > (RSP_LEN_CFG - 1) * Row(segs) + 4
    ensures Row(segs) <= 2 ==> OnePass(s, data) == Pass(Handed(s, segs[0].frame), Clip(t[RSP_LEN_CFG - 1..]))
    ensures Row(segs) > 2 ==> OnePass(s, data) == OnePass(s.(received := []), t[(RSP_LEN_CFG - 1) * Row(segs)..])
  {
    hide OnePass, Stream, FirstMagic, Clip, Handed, IsStream, TakeFirst, Row;
    RowMagic(segs);
    RowStarts(segs);
    LossyOutcome(s, data, t, more, segs);
    if Row(segs) > 2 {
      RestOpens(segs, t, more);
      TakenAtMagic(s, t[FirstMagic(segs)..]);
    }
  }

  lemma RowStarts(segs: seq<Segment>)
    requires segs != [] && segs[0].Lossy?
    ensures Row(segs) > 0
  {
  }

  lemma RestOpens(segs: seq<Segment>, t: seq<byte>, more: seq<byte>)
    requires IsStream(segs) && t + more == Stream(segs) && |t| >= FirstMagic(segs) + 4
    ensures t[FirstMagic(segs)..][..4] == MAGIC
  {
    hide Stream, IsStream, FirstMagic;
    StreamIndex(segs, t, more);
    var i := FirstMagic(segs);
    assert MagicAt(t, i);
    assert t[i..][..4] == [t[i], t[i + 1], t[i + 2], t[i + 3]];
  }

  // One magic byte lost

  lemma IndexOfLonger(b: seq<byte>, more: seq<byte>)
    requires Index(b) >= 0
    ensures Index(b + more) == Index(b)
  {
    var i := Index(b);
    forall j | 0 <= j <= i
      ensures MagicAt(b + more, j) == MagicAt(b, j)
    {
      assert forall k :: j <= k < j + 4 && k < |b| ==> (b + more)[k] == b[k];
    }
    IndexAt(b + more, i);
  }

  /** The header test, on a response without one of its magic bytes, looks at its command and its
      spare byte only. */
  lemma HeaderExactly(f: seq<byte>, lost: nat, rest: seq<byte>)
    requires IsFrame(f) && |f| == RSP_LEN_CFG && lost < 4
    ensures DamagedHeader(Without(f, lost) + rest) <==> (f[5] == CMD_READ || f[5] == CMD_READWRITE) && f[6] == 0
  {
    assert forall i :: 0 <= i < 4 ==> f[i] == f[..4][i];
  }

  lemma SyncLostMagic(s: Link, f: seq<byte>, lost: nat, rest: seq<byte>)
    requires IsFrame(f) && |f| == RSP_LEN_CFG && lost < 4 && Index(Without(f, lost) + MAGIC) == RSP_LEN_CFG - 1
    requires s.received == Without(f, lost) + rest && !s.frameStart && |rest| >= 4 && rest[..4] == MAGIC
    ensures Sync(s) == s.(received := if DamagedHeader(s.received) then MAGIC + s.received[3..] else rest,
                          frameStart := true)
  {
    hide DamagedHeader, Index;
    var d := Without(f, lost);
    IndexOfLonger(d + MAGIC, rest[4..]);
    assert d + rest == d + MAGIC + rest[4..];
  }

  /** A register response without one of its four magic bytes, when it shows where it ends, and the
      frame behind it: it is repaired if and only if it is a READ or READWRITE with spare 0. Any
      other one is dropped, and the reader goes on with the frame behind it. */
  lemma MagicLossExactly(s: Link, data: seq<byte>, f: seq<byte>, lost: nat, rest: seq<byte>)
    requires IsFrame(f) && |f| == RSP_LEN_CFG && lost < 4 && Index(Without(f, lost) + MAGIC) == RSP_LEN_CFG - 1
    requires s.received + data == Without(f, lost) + rest && (s.received == [] || !s.frameStart)
    requires |rest| > 4 && rest[..4] == MAGIC
    ensures OnePass(s, data) ==
            if (f[5] == CMD_READ || f[5] == CMD_READWRITE) && f[6] == 0 then Pass(Handed(s, f), Clip(rest))
            else OnePass(s.(received := []), rest)
  {
    hide DamagedHeader, Index, Sync, TakeFirst, CutLength;
    var s0 := Append(s, data);
    assert s0 == s.(received := Without(f, lost) + rest, frameStart := false);
    HeaderExactly(f, lost, rest);
    SyncLostMagic(s0, f, lost, rest);
    if (f[5] == CMD_READ || f[5] == CMD_READWRITE) && f[6] == 0 {
      LossyHeader(f, lost, rest);
      assert rest[0] == rest[..4][0];
      CutOpen(f, f + rest);
      assert (f + rest)[..RSP_LEN_CFG] == f && (f + rest)[RSP_LEN_CFG..] == rest;
      TakeFront(s, Sync(s0), f + rest);
    } else {
      TakenAtMagic(s, rest);
    }
  }
}
