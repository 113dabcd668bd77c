/** Checking, rebuilding and decoding the frames that the reader delivers. */
module Responses {
  import opened Basics
  import opened Bytes
  import opened StructPack
  import opened Frames
  import opened FrameDecoder
  import opened Framing
  import opened Reading
  import opened LinkRuns
  import opened Resync

  /** A response one byte short is rebuilt when the loss can only be its command or spare byte. */
  function Rebuilt(v: seq<byte>): Option<seq<byte>> {
    if |v| != RSP_LEN_CFG - 1 then Some(v)
    else if v[4] != CMD_READ && v[5] == 0 then Some(v[..5] + [CMD_READ] + v[5..])
    else if v[5] == CMD_READ && v[6] != 0 then Some(v[..6] + [0] + v[6..])
    else None
  }

  function CheckedCfg(crc: Crc32, v: seq<byte>): Option<ResponseCfg> {
    match Rebuilt(v)
    case None => None
    case Some(w) =>
      match DecodeCfg(w)
      case None => None
      case Some(r) => if r.crc == Checksum(crc, w[..RSP_LEN_CFG - 4]) then Some(r) else None
  }

  /** A hit comes back even when its checksum is wrong, but marked so. */
  datatype HitCheck = Unreadable | BadChecksum(hit: ResponseHit) | GoodHit(hit: ResponseHit)

  function CheckedHit(crc: Crc32, v: seq<byte>): HitCheck {
    match DecodeHit(v)
    case None => Unreadable
    case Some(r) =>
      if r.crc == Checksum(crc, v[..RSP_LEN_HIT - 4]) then GoodHit(r) else BadChecksum(r)
  }

  /** Rewrites a response that is one byte short. */
  method RebuildLoss(v: seq<byte>) returns (w: Option<seq<byte>>)
    ensures w == Rebuilt(v)
  {
    w := Some(v);
    if |v| == RSP_LEN_CFG - 1 {
      if v[4] != CMD_READ && v[5] == 0 {
        var a := v[..6] + v[5..];
        a := a[5 := CMD_READ];
        assert a == v[..5] + [CMD_READ] + v[5..];
        w := Some(a);
      } else if v[5] == CMD_READ && v[6] != 0 {
        var a := v[..7] + v[6..];
        a := a[6 := 0];
        assert a == v[..6] + [0] + v[6..];
        w := Some(a);
      } else {
        w := None;
      }
    }
  }

  method CheckCfgRespRaw(crc: Crc32, v: seq<byte>) returns (resp: Option<ResponseCfg>)
    ensures resp == CheckedCfg(crc, v)
  {
    var rebuilt := RebuildLoss(v);
    if rebuilt.None? {
      return None;
    }
    hide Rebuilt, Unpacked;
    var w := rebuilt.value;
    var u, n := Unpack(CFG_SHAPE, w);
    DecodeCfgIsUnpack(w, if |w| < RSP_LEN_CFG then ResponseCfg(0, 0, 0, 0, 0, 0, 0) else DecodeCfg(w).value);
    ShapeSizes();
    if u.Short? {
      return None;
    }
    var f := u.fields;
    var r := ResponseCfg(f[0].w, f[1].b, f[2].b, f[3].b, f[4].b, f[5].w, f[6].w);
    if r.crc != Checksum(crc, w[..RSP_LEN_CFG - 4]) {
      return None;
    }
    resp := Some(r);
  }

  method CheckHitResult(crc: Crc32, v: seq<byte>) returns (result: HitCheck)
    ensures result == CheckedHit(crc, v)
  {
    var u, n := Unpack(HIT_SHAPE, v);
    DecodeHitIsUnpack(v, if |v| < RSP_LEN_HIT then ResponseHit(0, 0, 0, 0, 0, seq(80, _ => 0), 0)
                         else DecodeHit(v).value);
    ShapeSizes();
    if u.Short? {
      return Unreadable;
    }
    var f := u.fields;
    var r := ResponseHit(f[0].w, f[1].b, f[2].b, f[3].b, f[4].b, f[5].bytes, f[6].w);
    result := if r.crc == Checksum(crc, v[..RSP_LEN_HIT - 4]) then GoodHit(r) else BadChecksum(r);
  }

  // What a chip sends

  predicate ValidCfg(crc: Crc32, r: ResponseCfg) {
    && r.unique == RSP_UNIQUE && !IsHitCommand(r.command)
    && r.crc == Checksum(crc, EncodeCfg(r)[..RSP_LEN_CFG - 4])
  }

  predicate ValidHit(crc: Crc32, h: ResponseHit) {
    && h.unique == RSP_UNIQUE && IsHitCommand(h.command) && |h.result| == 80
    && h.crc == Checksum(crc, EncodeHit(h)[..RSP_LEN_HIT - 4])
  }

  lemma MagicIsUnique()
    ensures PutUint32(RSP_UNIQUE) == MAGIC
  {
  }

  lemma ValidCfgFrame(crc: Crc32, r: ResponseCfg)
    requires ValidCfg(crc, r)
    ensures IsFrame(EncodeCfg(r)) && CheckedCfg(crc, EncodeCfg(r)) == Some(r)
  {
    MagicIsUnique();
    CfgLayout(r);
    CfgInverse(r, EncodeCfg(r));
  }

  lemma ValidHitFrame(crc: Crc32, h: ResponseHit)
    requires ValidHit(crc, h)
    ensures IsFrame(EncodeHit(h)) && CheckedHit(crc, EncodeHit(h)) == GoodHit(h)
    ensures EncodeHit(h)[7] == h.sequence
  {
    MagicIsUnique();
    HitLayout(h);
    HitInverse(h, EncodeHit(h));
  }

  /** A response of 16 bytes or more is accepted, as what its first 16 bytes say, if and only if its
      checksum is right; a hit of 92 or more is read in any case, and marked by the same test. */
  lemma ChecksumDecides(crc: Crc32, r: ResponseCfg, h: ResponseHit, rest: seq<byte>)
    requires |h.result| == 80
    ensures CheckedCfg(crc, EncodeCfg(r) + rest)
            == if r.crc == 0xFFFF_FFFF - crc(EncodeCfg(r)[..12]) then Some(r) else None
    ensures CheckedHit(crc, EncodeHit(h) + rest)
            == if h.crc == 0xFFFF_FFFF - crc(EncodeHit(h)[..88]) then GoodHit(h) else BadChecksum(h)
  {
    hide EncodeCfg, EncodeHit, DecodeCfg, DecodeHit;
    var v, w := EncodeCfg(r) + rest, EncodeHit(h) + rest;
    assert v[..RSP_LEN_CFG] == EncodeCfg(r) && w[..RSP_LEN_HIT] == EncodeHit(h);
    assert v[..12] == EncodeCfg(r)[..12] && w[..88] == EncodeHit(h)[..88];
    DecodePrefix(v);
    DecodePrefix(w);
    CfgInverse(r, EncodeCfg(r));
    HitInverse(h, EncodeHit(h));
  }

  /** Anything shorter is refused, unless it can be a response that lost its command or spare byte. */
  lemma TooShort(crc: Crc32, v: seq<byte>)
    ensures |v| < RSP_LEN_CFG - 1 ==> CheckedCfg(crc, v) == None
    ensures |v| < RSP_LEN_HIT ==> CheckedHit(crc, v) == Unreadable
  {
  }

  /** What is accepted is a frame with a right checksum: the bytes received, or those bytes with
      the one missing command or spare byte put back. */
  lemma NothingForged(crc: Crc32, v: seq<byte>)
    ensures CheckedCfg(crc, v).Some? ==>
              var r := CheckedCfg(crc, v).value;
              && r.crc == Checksum(crc, EncodeCfg(r)[..RSP_LEN_CFG - 4])
              && (|| EncodeCfg(r) <= v
                  || (r.command == CMD_READ && v == Without(EncodeCfg(r), 5))
                  || (r.spare == 0 && v == Without(EncodeCfg(r), 6)))
  {
    var c := CheckedCfg(crc, v);
    if c.Some? {
      var w := Rebuilt(v).value;
      var e := EncodeCfg(c.value);
      DecodePrefix(w);
      CfgInverse(c.value, w[..RSP_LEN_CFG]);
      assert w[..RSP_LEN_CFG] == e;
      assert w[..RSP_LEN_CFG][..RSP_LEN_CFG - 4] == w[..RSP_LEN_CFG - 4];
      CfgLayout(c.value);
      if |v| == RSP_LEN_CFG - 1 {
        assert w == e;
        assert Without(w, 5) == v || Without(w, 6) == v;
      }
    }
  }

  /** For a READ response with spare 0 that loses any one byte behind its magic: it is rebuilt,
      to exactly what was sent, if the lost byte is its command and its id is not 2, or its spare
      byte and its address is not 0; every other loss is refused. */
  lemma LostByteOutcome(crc: Crc32, r: ResponseCfg, lost: nat)
    requires ValidCfg(crc, r) && r.command == CMD_READ && r.spare == 0 && 4 <= lost < RSP_LEN_CFG
    ensures CheckedCfg(crc, Without(EncodeCfg(r), lost)) ==
            if (lost == 5 && r.id != CMD_READ) || (lost == 6 && r.address != 0) then Some(r) else None
  {
    hide EncodeCfg, DecodeCfg;
    var e := EncodeCfg(r);
    var v := Without(e, lost);
    CfgLayout(r);
    ValidCfgFrame(crc, r);
    if lost == 5 {
      assert v[..5] == e[..5] && v[5..] == e[6..];
      assert v[..5] + [CMD_READ] + v[5..] == e;
    } else if lost == 6 {
      assert v[..6] == e[..6] && v[6..] == e[7..];
      assert v[..6] + [0] + v[6..] == e;
    }
    assert lost > 6 ==> v[4] == e[4] && v[5] == e[5] && v[6] == e[6];
  }

  // From the chips to the host

  /** A message a chip sends; a register response may lose one of its bytes on the way. */
  datatype Message = Register(resp: ResponseCfg, lost: Option<nat>) | Hit(hit: ResponseHit)

  predicate ValidMessage(crc: Crc32, m: Message) {
    match m
    case Register(r, lost) => ValidCfg(crc, r) && IsSegment(OnWire(m))
    case Hit(h) => ValidHit(crc, h)
  }

  predicate ValidMessages(crc: Crc32, ms: seq<Message>) {
    forall m :: m in ms ==> ValidMessage(crc, m)
  }

  function OnWire(m: Message): Segment {
    match m
    case Register(r, None) => Intact(EncodeCfg(r))
    case Register(r, Some(k)) => if k < 4 then Lossy(EncodeCfg(r), k) else Segment.Short(EncodeCfg(r), k)
    case Hit(h) => Intact(EncodeHit(h))
  }

  function Sent(ms: seq<Message>): (segs: seq<Segment>)
    ensures |segs| == |ms|
  {
    if ms == [] then [] else [OnWire(ms[0])] + Sent(ms[1..])
  }

  /** What the host should read back for a register response: what was sent, unless a byte behind
      the magic was lost. A read response with spare 0 comes back without its command or spare byte,
      if the bytes around it tell, and is refused without any other. */
  function Readback(crc: Crc32, m: Message): Option<ResponseCfg>
    requires m.Register? && ValidMessage(crc, m)
  {
    var r := m.resp;
    if m.lost.None? || m.lost.value < 4 then Some(r)
    else if r.command != CMD_READ || r.spare != 0 then CheckedCfg(crc, Without(EncodeCfg(r), m.lost.value))
    else if (m.lost.value == 5 && r.id != CMD_READ) || (m.lost.value == 6 && r.address != 0) then Some(r)
    else None
  }

  /** What the host should find on checking its response queue and its hit queue. */
  function RegistersIn(crc: Crc32, ms: seq<Message>): seq<Option<ResponseCfg>>
    requires ValidMessages(crc, ms)
  {
    if ms == [] then []
    else
      assert ms[0] in ms && ValidMessages(crc, ms[1..]);
      (if ms[0].Register? then [Readback(crc, ms[0])] else []) + RegistersIn(crc, ms[1..])
  }

  function HitsIn(ms: seq<Message>): seq<HitCheck> {
    if ms == [] then []
    else (if ms[0].Hit? && ms[0].hit.sequence != 0 then [GoodHit(ms[0].hit)] else []) + HitsIn(ms[1..])
  }

  function CheckedCfgs(crc: Crc32, frames: seq<seq<byte>>): seq<Option<ResponseCfg>> {
    if frames == [] then [] else [CheckedCfg(crc, frames[0])] + CheckedCfgs(crc, frames[1..])
  }

  function CheckedHits(crc: Crc32, frames: seq<seq<byte>>): seq<HitCheck> {
    if frames == [] then [] else [CheckedHit(crc, frames[0])] + CheckedHits(crc, frames[1..])
  }

  lemma CheckedFront(crc: Crc32, part: seq<seq<byte>>, rest: seq<seq<byte>>)
    requires |part| <= 1
    ensures CheckedCfgs(crc, part + rest) ==
            (if part == [] then [] else [CheckedCfg(crc, part[0])]) + CheckedCfgs(crc, rest)
    ensures CheckedHits(crc, part + rest) ==
            (if part == [] then [] else [CheckedHit(crc, part[0])]) + CheckedHits(crc, rest)
  {
    if part == [] {
      assert part + rest == rest;
    } else {
      assert (part + rest)[1..] == rest;
    }
  }

  /** What one message puts on the queues. */
  lemma MessageParts(crc: Crc32, m: Message)
    requires ValidMessage(crc, m)
    ensures IsSegment(OnWire(m))
    ensures m.Register? ==>
              var f := Due(OnWire(m));
              RespPart(f) == [f] && HitPart(f) == [] && CheckedCfg(crc, f) == Readback(crc, m)
    ensures m.Hit? ==>
              var f := Due(OnWire(m));
              RespPart(f) == [] && HitPart(f) == (if m.hit.sequence == 0 then [] else [f])
              && CheckedHit(crc, f) == GoodHit(m.hit)
  {
    hide EncodeCfg, EncodeHit, CheckedCfg, CheckedHit;
    match m
    case Register(r, lost) =>
      ValidCfgFrame(crc, r);
      CfgLayout(r);
      if lost.Some? && lost.value >= 4 && r.command == CMD_READ && r.spare == 0 {
        LostByteOutcome(crc, r, lost.value);
      }
    case Hit(h) =>
      ValidHitFrame(crc, h);
      HitLayout(h);
  }

  /** The queues that the frames of the messages should fill, checked, are the messages. */
  lemma {:induction false} QueuesCheck(crc: Crc32, ms: seq<Message>)
    requires ValidMessages(crc, ms)
    ensures IsStream(Sent(ms))
    ensures CheckedCfgs(crc, RespsOf(Sent(ms))) == RegistersIn(crc, ms)
    ensures CheckedHits(crc, HitsOf(Sent(ms))) == HitsIn(ms)
  {
    hide CheckedCfg, CheckedHit, EncodeCfg, EncodeHit, ValidMessage, OnWire, HitPart, RespPart, Due, Readback;
    hide IsSegment;
    if ms != [] {
      assert ms[0] in ms;
      assert Sent(ms)[0] == OnWire(ms[0]) && Sent(ms)[1..] == Sent(ms[1..]);
      MessageParts(crc, ms[0]);
      var f := Due(OnWire(ms[0]));
      QueuesCheck(crc, ms[1..]);
      CheckedFront(crc, RespPart(f), RespsOf(Sent(ms[1..])));
      CheckedFront(crc, HitPart(f), HitsOf(Sent(ms[1..])));
    }
  }

  lemma {:induction false} SentFront(ms: seq<Message>, j: nat)
    requires j <= |ms|
    ensures Sent(ms)[..j] == Sent(ms[..j])
  {
    hide OnWire;
    if j > 0 {
      SentFront(ms[1..], j - 1);
      assert ms[..j][1..] == ms[1..][..j - 1];
    }
  }

  /** Checked, the queues are the messages that were delivered. */
  lemma DeliveredCheck(crc: Crc32, s: Link, ms: seq<Message>, j: nat)
    requires ValidMessages(crc, ms) && IsStream(Sent(ms)) && Delivered(s, Sent(ms), j)
    ensures j <= |ms| && ValidMessages(crc, ms[..j])
    ensures CheckedCfgs(crc, s.resps) == RegistersIn(crc, ms[..j])
    ensures CheckedHits(crc, s.hits) == HitsIn(ms[..j])
  {
    hide ValidMessage, CheckedCfgs, CheckedHits, RegistersIn, HitsIn, RespsOf, HitsOf, Stream, IsStream;
    assert forall m :: m in ms[..j] ==> m in ms;
    SentFront(ms, j);
    QueuesCheck(crc, ms[..j]);
  }

  /** End to end: any messages, encoded, possibly short of a byte here and there and possibly behind
      garbage, in any calls whose reads cut them well: checking the queues returns exactly the
      messages, but for the few that may wait at the end. */
  lemma LinkRoundTrip(crc: Crc32, ms: seq<Message>, garbage: seq<byte>, calls: seq<seq<seq<byte>>>)
    requires ValidMessages(crc, ms) && IsStream(Sent(ms)) && ReadsWell(Sent(ms), -|garbage|, Flatten(calls))
    requires garbage != [] ==> ms != [] && !Sent(ms)[0].Lossy? && Quiet(garbage, Stream(Sent(ms)))
    requires Flatten(Flatten(calls)) == garbage + Stream(Sent(ms))
    ensures var j := Arrived(Sent(ms), -|garbage|, Flatten(calls));
            && 0 <= j <= |ms| && ValidMessages(crc, ms[..j]) && Waiting(Sent(ms)[j..]) && EndIsHeld(Sent(ms), j)
            && CheckedCfgs(crc, Calls(IDLE, calls).resps) == RegistersIn(crc, ms[..j])
            && CheckedHits(crc, Calls(IDLE, calls).hits) == HitsIn(ms[..j])
  {
    hide Stream, IsStream, ReadsWell, ValidMessages, Calls, Flatten, Quiet, Delivered, Waiting, After, EndIsHeld, Sent;
    if garbage == [] {
      assert garbage + Stream(Sent(ms)) == Stream(Sent(ms));
      CompleteDelivery(calls, Sent(ms));
    } else {
      CompleteResync(calls, garbage, Sent(ms));
    }
    DeliveredCheck(crc, Calls(IDLE, calls), ms, Arrived(Sent(ms), -|garbage|, Flatten(calls)));
  }

  /** If nothing is dropped and the last message is not short of a byte behind its magic, all of
      them come back. */
  lemma AllComeBack(ms: seq<Message>, j: nat)
    requires NoDrops(Sent(ms)) && j <= |ms| && Waiting(Sent(ms)[j..]) && EndIsHeld(Sent(ms), j)
    requires ms != [] ==> !Sent(ms)[|ms| - 1].Short?
    ensures ms[..j] == ms
  {
    hide *;
    AllArrive(Sent(ms), j);
  }
}
