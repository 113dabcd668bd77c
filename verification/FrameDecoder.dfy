/** The UART reader: cuts the byte stream of the ASICs into frames. */
module FrameDecoder {
  import opened Bytes
  import opened Frames

  const BUF_LEN := 1024

  /** What the reader keeps between reads, and everything it has delivered so far.
      An empty `received` is the nil pointer: the reader never keeps an empty slice. */
  datatype Link = Link(received: seq<byte>, frameStart: bool, hits: seq<seq<byte>>, resps: seq<seq<byte>>)

  predicate MagicAt(b: seq<byte>, i: int) {
    && 0 <= i && i + 4 <= |b|
    && b[i] == MAGIC[0] && b[i + 1] == MAGIC[1] && b[i + 2] == MAGIC[2] && b[i + 3] == MAGIC[3]
  }

  /** The first occurrence of the magic, or -1. */
  function Index(b: seq<byte>): (idx: int)
    ensures idx >= 0 ==> MagicAt(b, idx)
    ensures forall i :: 0 <= i < (if idx < 0 then |b| else idx) ==> !MagicAt(b, i)
    ensures -1 <= idx
  {
    IndexFrom(b, 0)
  }

  function IndexFrom(b: seq<byte>, from: nat): (idx: int)
    requires from <= |b|
    ensures idx >= 0 ==> idx >= from && MagicAt(b, idx)
    ensures forall i :: from <= i < (if idx < 0 then |b| else idx) ==> !MagicAt(b, i)
    ensures -1 <= idx
    decreases |b| - from
  {
    if from == |b| then -1 else if MagicAt(b, from) then from else IndexFrom(b, from + 1)
  }

  /** A register response whose four magic bytes arrived as three. */
  predicate DamagedHeader(b: seq<byte>) {
    && |b| >= 6
    && (|| (b[1] == MAGIC[2] && b[2] == MAGIC[3] && (b[0] == MAGIC[0] || b[0] == MAGIC[1]))
        || (b[0] == MAGIC[0] && b[1] == MAGIC[1] && (b[2] == MAGIC[2] || b[2] == MAGIC[3])))
    && (b[4] == CMD_READ || b[4] == CMD_READWRITE) && b[5] == 0
  }

  /** The places where the reader suspects that one magic byte was lost. */
  predicate LossSuspected(idx: int, acc: nat) {
    idx == RSP_LEN_CFG - 1 || idx == (RSP_LEN_CFG - 1) * 2
    || (idx < 0 && (acc == RSP_LEN_CFG - 1 || acc == (RSP_LEN_CFG - 1) * 2))
  }

  predicate IsHitCommand(c: byte) {
    CMD_LOAD0 + CMD_RETURNHIT <= c <= CMD_LOAD3 + CMD_RETURNHIT
  }

  function Append(s: Link, data: seq<byte>): Link {
    if s.received == [] then s.(received := data, frameStart := false)
    else s.(received := s.received + data)
  }

  /** Looks for the start of a frame, unless one is already at the front. */
  function Sync(s: Link): Link {
    if s.frameStart || |s.received| <= 4 then s
    else
      var idx := Index(s.received);
      if LossSuspected(idx, |s.received|) && DamagedHeader(s.received) then
        s.(received := MAGIC + s.received[3..], frameStart := true)
      else if idx >= 0 then
        s.(received := s.received[idx..], frameStart := true)
      else s
  }

  /** Without a frame start, only the last three bytes of a full buffer are kept. */
  function Trim(s: Link): Link {
    if |s.received| > BUF_LEN then s.(received := s.received[|s.received| - 3..]) else s
  }

  /** Bytes to take off the front: 0 while the frame is incomplete. */
  function CutLength(r: seq<byte>): (n: nat)
    ensures n <= |r|
    ensures n > 0 ==> n == RSP_LEN_HIT || n == RSP_LEN_CFG || n == RSP_LEN_CFG - 1
  {
    if |r| < 6 then 0
    else if IsHitCommand(r[5]) then (if |r| < RSP_LEN_HIT then 0 else RSP_LEN_HIT)
    else if |r| < RSP_LEN_CFG then 0
    else if |r| > RSP_LEN_CFG && r[RSP_LEN_CFG - 1] == MAGIC[0] && r[RSP_LEN_CFG] == MAGIC[1] then RSP_LEN_CFG - 1
    else RSP_LEN_CFG
  }

  /** Hands a frame to its queue; hits of sequence 0 belong to no job. */
  function Deliver(s: Link, frame: seq<byte>): Link
    requires |frame| >= 8
  {
    if IsHitCommand(frame[5]) then
      if frame[7] == 0 then s else s.(hits := s.hits + [frame])
    else s.(resps := s.resps + [frame])
  }

  /** The leftover is copied into a buffer of 1024 bytes and clipped to it. */
  function Clip(b: seq<byte>): (c: seq<byte>)
    ensures |c| <= BUF_LEN && c <= b
  {
    if |b| > BUF_LEN then b[..BUF_LEN] else b
  }

  /** What one pass over the received bytes leaves: the link, and the bytes for the next pass. */
  datatype Pass = Pass(link: Link, leftover: seq<byte>)

  function TakeFirst(s: Link): (p: Pass)
    ensures p.leftover != [] ==> p.link.received == [] && |p.leftover| <= |s.received| - (RSP_LEN_CFG - 1)
  {
    var n := CutLength(s.received);
    if n == 0 then Pass(s, [])
    else Pass(Deliver(s, s.received[..n]).(received := []), Clip(s.received[n..]))
  }

  function OnePass(s: Link, data: seq<byte>): (p: Pass)
    ensures p.leftover != [] ==> p.link.received == [] && |p.leftover| < |s.received| + |data|
  {
    var s1 := Sync(Append(s, data));
    if s1.frameStart then TakeFirst(s1) else Pass(Trim(s1), [])
  }

  /** One read of a positive number of bytes: passes until nothing is left over. */
  function Process(s: Link, data: seq<byte>): Link
    decreases |s.received| + |data|
  {
    var p := OnePass(s, data);
    if p.leftover == [] then p.link else Process(p.link, p.leftover)
  }

  /** One read; a read of no bytes changes nothing. */
  function Receive(s: Link, chunk: seq<byte>): Link {
    if chunk == [] then s else Process(s, chunk)
  }

  /** A run over any list of reads. */
  function Run(s: Link, chunks: seq<seq<byte>>): Link
    decreases |chunks|
  {
    if chunks == [] then s else Run(Receive(s, chunks[0]), chunks[1..])
  }

  /** The first n bytes of the read buffer, which holds no more than its length. */
  ghost function Filled(buf: array<byte>, n: nat): seq<byte>
    requires buf.Length == BUF_LEN
    reads buf
  {
    if n > BUF_LEN then buf[..] else buf[..n]
  }

  class AsicReader {
    const singleThread: bool
    var received: seq<byte>
    var qHit: seq<seq<byte>>
    var qResp: seq<seq<byte>>
    var chResp: seq<seq<byte>>

    constructor (singleThread: bool)
      ensures this.singleThread == singleThread
      ensures View(false) == Link([], false, [], [])
    {
      this.singleThread := singleThread;
      received, qHit, qResp, chResp := [], [], [], [];
    }

    ghost function View(frameStart: bool): Link
      reads this
    {
      Link(received, frameStart, qHit, if singleThread then qResp else chResp)
    }

    method PutCfgRawResult(frame: seq<byte>)
      modifies this
      ensures received == old(received) && qHit == old(qHit)
      ensures qResp == old(qResp) + (if singleThread then [frame] else [])
      ensures chResp == old(chResp) + (if singleThread then [] else [frame])
    {
      if singleThread {
        qResp := qResp + [frame];
      } else {
        chResp := chResp + [frame];
      }
    }

    method PutHitRawResult(frame: seq<byte>)
      requires |frame| >= 8
      modifies this`qHit
      ensures qHit == old(qHit) + (if frame[7] == 0 then [] else [frame])
    {
      if frame[7] != 0 {
        qHit := qHit + [frame];
      }
    }

    /** The body of the read loop for the n bytes just placed in buf. */
    method HandleRead(buf: array<byte>, n: nat, frameStart: bool) returns (started: bool)
      requires buf.Length == BUF_LEN && n <= BUF_LEN
      modifies this, buf
      ensures View(started) == Receive(old(View(frameStart)), old(buf[..n]))
    {
      started := frameStart;
      var left: nat := n;
      ghost var goal := Receive(View(started), buf[..n]);
      while left > 0
        invariant left > BUF_LEN ==> received == []
        invariant left == 0 ==> View(started) == goal
        invariant left > 0 ==> Process(View(started), Filled(buf, left)) == goal
        decreases if left > 0 then |received| + left else 0
      {
        left, started := HandlePass(buf, left, started);
      }
    }

    /** One pass from the label `leftover` to the jump back to it. */
    method HandlePass(buf: array<byte>, n: nat, frameStart: bool) returns (left: nat, started: bool)
      requires buf.Length == BUF_LEN && n > 0 && (n > BUF_LEN ==> received == [])
      modifies this, buf
      ensures var p := OnePass(old(View(frameStart)), old(Filled(buf, n)));
              View(started) == p.link && Filled(buf, left) == p.leftover
      ensures left > 0 ==> received == [] && left < old(|received|) + n
    {
      started, left := frameStart, n;
      ghost var s0, data := View(frameStart), Filled(buf, n);
      if received == [] {
        started := false;
        if left > buf.Length {
          left := buf.Length;
        }
        received := buf[..left];
      } else {
        received := received + buf[..left];
      }
      assert View(started) == Append(s0, data);
      started := FindFrameStart(started);
      ghost var s1 := View(started);
      assert s1 == Sync(Append(s0, data));
      if started {
        left := TakeFrame(buf);
      } else {
        if |received| > BUF_LEN {
          received := received[|received| - 3..];
        }
        left := 0;
      }
    }

    /** Looks for the magic, repairing a header that lost one byte. */
    method FindFrameStart(frameStart: bool) returns (started: bool)
      modifies this`received
      ensures View(started) == Sync(old(View(frameStart)))
    {
      started := frameStart;
      var acc := |received|;
      if !started && acc > 4 {
        var idx := Index(received);
        if idx == RSP_LEN_CFG - 1 || idx == (RSP_LEN_CFG - 1) * 2
           || (idx < 0 && (acc == RSP_LEN_CFG - 1 || acc == (RSP_LEN_CFG - 1) * 2)) {
          var b0, b1, b2 := received[0], received[1], received[2];
          if ((b1 == MAGIC[2] && b2 == MAGIC[3] && (b0 == MAGIC[0] || b0 == MAGIC[1]))
              || (b0 == MAGIC[0] && b1 == MAGIC[1] && (b2 == MAGIC[2] || b2 == MAGIC[3])))
             && (received[4] == CMD_READ || received[4] == CMD_READWRITE) && received[5] == 0 {
            received := MAGIC + received[3..];
            idx := 0;
          }
        }
        if idx > 0 {
          received := received[idx..];
          started := true;
        } else if idx == 0 {
          started := true;
        }
      }
    }

    /** Delivers the frame at the front, if it is complete, and copies what follows it into buf. */
    method TakeFrame(buf: array<byte>) returns (left: nat)
      requires buf.Length == BUF_LEN
      modifies this, buf
      ensures var p := TakeFirst(old(View(true)));
              View(true) == p.link && Filled(buf, left) == p.leftover
      ensures left > 0 ==> received == [] && left <= old(|received|) - (RSP_LEN_CFG - 1)
    {
      var r := received;
      left := 0;
      if |r| >= 6 {
        if CMD_LOAD0 + CMD_RETURNHIT <= r[5] <= CMD_LOAD3 + CMD_RETURNHIT {
          if |r| >= RSP_LEN_HIT {
            left := SplitOff(buf, RSP_LEN_HIT);
          }
        } else if |r| == RSP_LEN_CFG {
          left := SplitOff(buf, RSP_LEN_CFG);
        } else if |r| > RSP_LEN_CFG {
          var cpylen := RSP_LEN_CFG;
          if r[RSP_LEN_CFG - 1] == 0x54 && r[RSP_LEN_CFG] == 0x76 {
            cpylen := cpylen - 1;
          }
          left := SplitOff(buf, cpylen);
        }
      }
    }

    /** Sends the first `cut` bytes to their queue and moves the others into buf. */
    method SplitOff(buf: array<byte>, cut: nat) returns (left: nat)
      requires buf.Length == BUF_LEN && 8 <= cut <= |received|
      modifies this, buf
      ensures left == |old(received)| - cut
      ensures View(true) == Deliver(old(View(true)), old(received)[..cut]).(received := [])
      ensures Filled(buf, left) == Clip(old(received)[cut..])
    {
      var r := received;
      CopyInto(buf, r[cut..]);
      left := |r| - cut;
      var frame := r[..cut];
      if CMD_LOAD0 + CMD_RETURNHIT <= frame[5] <= CMD_LOAD3 + CMD_RETURNHIT {
        PutHitRawResult(frame);
      } else {
        PutCfgRawResult(frame);
      }
      received := [];
    }

    /** The reads of one call, in order. A call starts without a frame start. */
    method AsicRead(chunks: seq<seq<byte>>) returns (ghost started: bool)
      requires forall c :: c in chunks ==> |c| <= BUF_LEN
      modifies this
      ensures View(started) == Run(old(View(false)), chunks)
    {
      var buf := new byte[BUF_LEN](_ => 0);
      var frameStart := false;
      for i := 0 to |chunks|
        invariant fresh(buf)
        invariant Run(View(frameStart), chunks[i..]) == Run(old(View(false)), chunks)
      {
        assert chunks[i..][1..] == chunks[i + 1..];
        CopyInto(buf, chunks[i]);
        frameStart := HandleRead(buf, |chunks[i]|, frameStart);
      }
      assert chunks[|chunks|..] == [];
      started := frameStart;
    }
  }

  /** Go's copy: as many bytes as fit. */
  method CopyInto(buf: array<byte>, src: seq<byte>)
    modifies buf
    ensures forall i :: 0 <= i < buf.Length ==> buf[i] == if i < |src| then src[i] else old(buf[i])
    ensures |src| <= buf.Length ==> buf[..|src|] == src
    ensures |src| > buf.Length ==> buf[..] == src[..buf.Length]
  {
    forall i | 0 <= i < buf.Length && i < |src| {
      buf[i] := src[i];
    }
  }
}
