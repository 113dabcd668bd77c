/** Finding the first frame behind garbage. */
module Resync {
  import opened Bytes
  import opened Frames
  import opened FrameDecoder
  import opened Framing
  import opened Reading
  import opened LinkRuns

  // Finding the first frame

  /** Bytes in front of a stream in which the reader sees neither a magic nor a damaged header. */
  predicate Quiet(g: seq<byte>, tail: seq<byte>) {
    forall i :: 0 <= i < |g| ==> !MagicAt(g + tail, i) && !DamagedHeader((g + tail)[i..])
  }

  /** The reader has not seen the whole of the first magic: it holds the end of the garbage g
      and at most three bytes of the first frame. */
  predicate Searching(s: Link, g: seq<byte>, rest: seq<byte>, segs: seq<Segment>)
    requires IsStream(segs)
  {
    && segs != [] && !segs[0].Lossy? && Quiet(g, Stream(segs))
    && s.received + rest == g + Stream(segs)
    && |s.received| < |g| + 4 && (s.received == [] || !s.frameStart)
  }

  /** How many bytes of the frames the reader has seen; less than none while it is in garbage. */
  function Ahead(s: Link, g: seq<byte>): int {
    |s.received| - |g|
  }

  lemma QuietSuffix(g: seq<byte>, tail: seq<byte>, n: nat)
    requires Quiet(g, tail) && n <= |g|
    ensures Quiet(g[n..], tail)
  {
    var b, b' := g + tail, g[n..] + tail;
    assert b' == b[n..];
    forall i | 0 <= i < |g[n..]|
      ensures !MagicAt(b', i) && !DamagedHeader(b'[i..])
    {
      assert b'[i..] == b[n + i..];
      assert !MagicAt(b, n + i);
      assert MagicAt(b', i) ==> MagicAt(b, n + i);
    }
  }

  /** What the search finds in the first n bytes of quiet garbage and a stream. */
  lemma QuietIndex(g: seq<byte>, tail: seq<byte>, t: seq<byte>)
    requires Quiet(g, tail) && t <= g + tail && |tail| >= 4 && tail[..4] == MAGIC
    ensures Index(t) == if |t| < |g| + 4 then -1 else |g|
  {
    var b := g + tail;
    assert forall i :: 0 <= i < |t| && MagicAt(t, i) ==> MagicAt(b, i);
    if |t| < |g| + 4 {
      NoIndex(t);
    } else {
      assert t[|g|..][..4] == tail[..4];
      assert MagicAt(t, |g|) by {
        assert forall k :: 0 <= k < 4 ==> t[|g| + k] == tail[..4][k];
      }
      IndexAt(t, |g|);
    }
  }

  lemma QuietHeader(g: seq<byte>, tail: seq<byte>, t: seq<byte>)
    requires Quiet(g, tail) && t <= g + tail && g != []
    ensures !DamagedHeader(t)
  {
    var b := g + tail;
    assert b[0..] == b;
    assert !MagicAt(b, 0);
    assert forall i :: 0 <= i < |t| ==> t[i] == b[i];
  }

  lemma StreamMagic(segs: seq<Segment>)
    requires IsStream(segs) && segs != [] && !segs[0].Lossy?
    ensures |Stream(segs)| >= 4 && Stream(segs)[..4] == MAGIC
  {
  }

  /** While the first magic is not complete, nothing is delivered and none of it is thrown away. */
  lemma PassQuiet(s: Link, data: seq<byte>, rest: seq<byte>, g: seq<byte>, segs: seq<Segment>) returns (n: nat)
    requires IsStream(segs) && Searching(s, g, data + rest, segs) && data != []
    requires |s.received + data| < |g| + 4
    ensures n <= |g| && n <= |s.received + data|
    ensures OnePass(s, data) == Pass(s.(received := (s.received + data)[n..], frameStart := false), [])
  {
    var t := s.received + data;
    Regroup(s.received, data, rest);
    StreamMagic(segs);
    assert t == (g + Stream(segs))[..|t|];
    QuietIndex(g, Stream(segs), t);
    if g != [] {
      QuietHeader(g, Stream(segs), t);
    }
    n := if |t| > BUF_LEN then |t| - 3 else 0;
    assert t[0..] == t;
    assert Append(s, data) == s.(received := t, frameStart := false);
  }

  lemma StillSearching(s: Link, s': Link, t: seq<byte>, rest: seq<byte>, g: seq<byte>, segs: seq<Segment>, n: nat)
    requires IsStream(segs) && segs != [] && !segs[0].Lossy? && Quiet(g, Stream(segs)) && n <= |g|
    requires t + rest == g + Stream(segs) && |t| < |g| + 4 && n <= |t|
    requires s'.received == t[n..] && !s'.frameStart
    ensures Searching(s', g[n..], rest, segs)
  {
    hide Stream, IsStream, Quiet;
    QuietSuffix(g, Stream(segs), n);
    assert t[n..] + rest == (t + rest)[n..] == g[n..] + Stream(segs);
  }

  /** Once the first magic is complete, the garbage is dropped and reading goes on as if the
      stream had begun there. */
  lemma PassFound(s: Link, data: seq<byte>, rest: seq<byte>, g: seq<byte>, segs: seq<Segment>, x: seq<byte>)
    requires IsStream(segs) && Searching(s, g, data + rest, segs) && data != [] && g != []
    requires s.received + data == g + x && |x| >= 4
    ensures OnePass(s, data) == if |x| == 4 then Pass(s.(received := x, frameStart := true), [])
                                else OnePass(s.(received := []), x)
  {
    hide Stream, IsStream, Quiet, CutLength;
    var t, tail := s.received + data, Stream(segs);
    Regroup(s.received, data, rest);
    StreamMagic(segs);
    SplitConcat(t, rest, g, tail);
    assert t[|g|..] == x && t <= g + tail;
    QuietIndex(g, tail, t);
    QuietHeader(g, tail, t);
    assert Append(s, data) == s.(received := t, frameStart := false);
    assert Sync(Append(s, data)) == s.(received := x, frameStart := true);
    if |x| > 4 {
      assert x[..4] == tail[..4];
      SyncAtMagic(s.(received := x, frameStart := false));
      assert Append(s.(received := []), x) == s.(received := x, frameStart := false);
    } else {
      assert CutLength(x) == 0;
    }
  }

  lemma ConservesFrom(s: Link, s': Link, more: seq<byte>, segs: seq<Segment>, j: nat)
    requires IsStream(segs) && Digested(s.(received := []), s', more, segs, j)
    ensures Digested(s, s', more, segs, j)
  {
  }

  /** The read that completes the first magic. */
  lemma FoundChunk(s: Link, data: seq<byte>, rest: seq<byte>, g: seq<byte>, segs: seq<Segment>) returns (j: nat)
    requires IsStream(segs) && Searching(s, g, data + rest, segs) && data != [] && |data| <= BUF_LEN
    requires g != [] && |s.received + data| >= |g| + 4
    requires Fits(segs, Ahead(s, g) + |data|) && CutsWell(segs, Ahead(s, g) + |data|)
    ensures Digested(s, Process(s, data), rest, segs, j)
    ensures Settle(segs, Ahead(s, g) + |data|) == (segs[j..], |Process(s, data).received|)
  {
    hide Stream, IsStream, Quiet, OnePass, Digested, Fits, CutsWell, Settle;
    var t, idle := s.received + data, s.(received := []);
    Regroup(s.received, data, rest);
    SplitConcat(t, rest, g, Stream(segs));
    var x := t[|g|..];
    PassFound(s, data, rest, g, segs, x);
    if |x| == 4 {
      j := 0;
      HeldFour(s, x, rest, segs);
    } else {
      assert idle.received + x == x;
      j := Digest(idle, x, rest, segs);
      ConservesFrom(s, Process(idle, x), rest, segs, j);
    }
  }

  lemma HeldFour(s: Link, x: seq<byte>, rest: seq<byte>, segs: seq<Segment>)
    requires IsStream(segs) && segs != [] && !segs[0].Lossy? && |x| == 4
    requires x + rest == Stream(segs)
    ensures Digested(s, s.(received := x, frameStart := true), rest, segs, 0)
    ensures Settle(segs, 4) == (segs[0..], 4)
  {
    assert segs[0..] == segs;
    SplitConcat(x, rest, Wire(segs[0]), Stream(segs[1..]));
  }

  /** One read while the reader is still looking for the first frame. */
  lemma SearchChunk(s: Link, chunk: seq<byte>, rest: seq<byte>, g: seq<byte>, segs: seq<Segment>)
    returns (found: bool, n: nat, j: nat)
    requires IsStream(segs) && Searching(s, g, chunk + rest, segs) && |chunk| <= BUF_LEN && g != []
    requires Fits(segs, Ahead(s, g) + |chunk|) && CutsWell(segs, Ahead(s, g) + |chunk|)
    ensures found ==> Digested(s, Receive(s, chunk), rest, segs, j)
    ensures found ==> Settle(segs, Ahead(s, g) + |chunk|) == (segs[j..], |Receive(s, chunk).received|)
    ensures !found ==> n <= |g| && Settle(segs, Ahead(s, g) + |chunk|) == (segs, Ahead(Receive(s, chunk), g[n..]))
    ensures !found ==> n <= |g| && Searching(Receive(s, chunk), g[n..], rest, segs)
                       && Receive(s, chunk).hits == s.hits && Receive(s, chunk).resps == s.resps
  {
    found, n, j := false, 0, 0;
    if |s.received + chunk| < |g| + 4 {
      StillIncomplete(segs, Ahead(s, g) + |chunk|);
    }
    if chunk == [] {
      assert g[0..] == g && chunk + rest == rest;
    } else if |s.received + chunk| < |g| + 4 {
      hide Stream, IsStream, Quiet, OnePass, Settle, CutsWell, Fits;
      n := PassQuiet(s, chunk, rest, g, segs);
      Regroup(s.received, chunk, rest);
      StillSearching(s, Receive(s, chunk), s.received + chunk, rest, g, segs, n);
    } else {
      hide *;
      found := true;
      j := FoundChunk(s, chunk, rest, g, segs);
    }
  }

  lemma StillIncomplete(segs: seq<Segment>, n: int)
    requires IsStream(segs) && segs != [] && !segs[0].Lossy? && n < 4
    ensures Settle(segs, n) == (segs, n)
  {
  }

  /** A reader that searches with no garbage left holds the start of the first frame. */
  lemma SearchOver(s: Link, rest: seq<byte>, segs: seq<Segment>)
    requires IsStream(segs) && Searching(s, [], rest, segs)
    ensures Held(s, segs) && s.received + rest == Stream(segs)
  {
    assert [] + Stream(segs) == Stream(segs);
    SplitConcat(s.received, rest, Wire(segs[0]), Stream(segs[1..]));
  }

  /** Any run over garbage followed by frames: until the first magic is complete nothing is
      delivered; from then on every frame is, wherever the reads cut garbage and frames. */
  lemma {:induction false} Resynchronise(s: Link, chunks: seq<seq<byte>>, more: seq<byte>,
                                         g: seq<byte>, segs: seq<Segment>)
    returns (found: bool, n: nat, j: nat)
    requires IsStream(segs) && Searching(s, g, Flatten(chunks) + more, segs)
    requires ReadsWell(segs, Ahead(s, g), chunks)
    ensures found ==> Digested(s, Run(s, chunks), more, segs, j)
    ensures found ==> After(segs, Ahead(s, g), chunks) == (segs[j..], |Run(s, chunks).received|)
    ensures !found ==> n <= |g| && Searching(Run(s, chunks), g[n..], more, segs)
                       && Run(s, chunks).hits == s.hits && Run(s, chunks).resps == s.resps
    ensures !found ==> n <= |g| && After(segs, Ahead(s, g), chunks) == (segs, Ahead(Run(s, chunks), g[n..]))
    decreases |chunks|
  {
    hide Stream, Receive, Searching, Digested, Fits, CutsWell, Settle, Ahead, After, ReadsWell, IsStream;
    found, n, j := false, 0, 0;
    AfterFirst(segs, Ahead(s, g), chunks);
    if chunks == [] {
      assert g[0..] == g && [] + more == more;
    } else if g == [] {
      found := true;
      j := NoGarbage(s, chunks, more, segs);
    } else {
      var rest := Flatten(chunks[1..]) + more;
      Regroup(chunks[0], Flatten(chunks[1..]), more);
      WellFirst(segs, Ahead(s, g), chunks);
      found, n, j := SearchChunk(s, chunks[0], rest, g, segs);
      var s1 := Receive(s, chunks[0]);
      if found {
        DigestedFacts(s, s1, rest, segs, j);
        j := AfterFound(s, s1, chunks, more, segs, j);
      } else {
        var m: nat;
        found, m, j := Resynchronise(s1, chunks[1..], more, g[n..], segs);
        if found {
          SameQueues(s, s1, Run(s, chunks), more, segs, j);
        } else {
          assert g[n..][m..] == g[n + m..];
        }
        n := n + m;
      }
    }
  }

  lemma NoGarbage(s: Link, chunks: seq<seq<byte>>, more: seq<byte>, segs: seq<Segment>) returns (j: nat)
    requires IsStream(segs) && Searching(s, [], Flatten(chunks) + more, segs)
    requires ReadsWell(segs, Ahead(s, []), chunks)
    ensures Digested(s, Run(s, chunks), more, segs, j)
    ensures After(segs, Ahead(s, []), chunks) == (segs[j..], |Run(s, chunks).received|)
  {
    SearchOver(s, Flatten(chunks) + more, segs);
    Regroup(s.received, Flatten(chunks), more);
    assert Ahead(s, []) == |s.received|;
    hide *;
    j := Delivery(s, chunks, more, segs);
  }

  /** The reads after the one that completed the first magic. */
  lemma AfterFound(s: Link, s1: Link, chunks: seq<seq<byte>>, more: seq<byte>, segs: seq<Segment>, j: nat)
    returns (i: nat)
    requires IsStream(segs) && chunks != [] && Digested(s, s1, Flatten(chunks[1..]) + more, segs, j)
    requires j <= |segs| && IsStream(segs[j..]) && ReadsWell(segs[j..], |s1.received|, chunks[1..])
    ensures Digested(s, Run(s1, chunks[1..]), more, segs, i)
    ensures After(segs[j..], |s1.received|, chunks[1..]) == (segs[i..], |Run(s1, chunks[1..]).received|)
  {
    hide *;
    DigestedSum(s, s1, chunks[1..], more, segs, j);
    var k := Delivery(s1, chunks[1..], more, segs[j..]);
    DigestedTwice(s, s1, Run(s1, chunks[1..]), Flatten(chunks[1..]) + more, more, segs, j, k);
    DigestedFacts(s1, Run(s1, chunks[1..]), more, segs[j..], k);
    assert segs[j..][k..] == segs[j + k..];
    i := j + k;
  }

  lemma DigestedSum(s: Link, s1: Link, chunks: seq<seq<byte>>, more: seq<byte>, segs: seq<Segment>, j: nat)
    requires IsStream(segs) && Digested(s, s1, Flatten(chunks) + more, segs, j)
    ensures j <= |segs| && IsStream(segs[j..]) && Held(s1, segs[j..])
    ensures s1.received + Flatten(chunks) + more == Stream(segs[j..])
  {
    Regroup(s1.received, Flatten(chunks), more);
  }

  lemma SameQueues(s: Link, s1: Link, s': Link, more: seq<byte>, segs: seq<Segment>, j: nat)
    requires IsStream(segs) && Digested(s1, s', more, segs, j) && s.hits == s1.hits && s.resps == s1.resps
    ensures Digested(s, s', more, segs, j)
  {
  }

  lemma SearchStarts(all: seq<byte>, g: seq<byte>, segs: seq<Segment>)
    requires IsStream(segs) && segs != [] && !segs[0].Lossy? && Quiet(g, Stream(segs)) && all == g + Stream(segs)
    ensures Searching(IDLE, g, all + [], segs) && Ahead(IDLE, g) == -|g|
  {
    hide Quiet, Stream, IsStream;
    assert all + [] == all && [] + all == all;
  }

  lemma SearchGoesOn(s: Link, g: seq<byte>, rest: seq<byte>, segs: seq<Segment>)
    requires IsStream(segs) && Searching(s, g, rest, segs)
    ensures rest != []
  {
    StreamMagic(segs);
    assert |s.received + rest| >= |g| + 4;
  }

  // One call after another

  lemma SearchingAnew(s: Link, g: seq<byte>, rest: seq<byte>, segs: seq<Segment>)
    requires IsStream(segs) && Searching(s, g, rest, segs)
    ensures Searching(s.(frameStart := false), g, rest, segs) && Ahead(s.(frameStart := false), g) == Ahead(s, g)
  {
  }

  /** The same over any list of calls. */
  lemma {:induction false} CallsResynchronise(s: Link, calls: seq<seq<seq<byte>>>, more: seq<byte>,
                                              g: seq<byte>, segs: seq<Segment>)
    returns (found: bool, n: nat, j: nat)
    requires IsStream(segs) && Searching(s, g, Flatten(Flatten(calls)) + more, segs)
    requires ReadsWell(segs, Ahead(s, g), Flatten(calls))
    ensures found ==> Digested(s, Calls(s, calls), more, segs, j)
    ensures found ==> After(segs, Ahead(s, g), Flatten(calls)) == (segs[j..], |Calls(s, calls).received|)
    ensures !found ==> n <= |g| && Searching(Calls(s, calls), g[n..], more, segs)
                       && Calls(s, calls).hits == s.hits && Calls(s, calls).resps == s.resps
    decreases |calls|
  {
    hide Stream, Run, Calls, Searching, Digested, After, ReadsWell, IsStream, Ahead, Flatten;
    found, n, j := false, 0, 0;
    if calls == [] {
      NoCalls(s, more, segs);
      assert g[0..] == g && [] + more == more;
    } else {
      CallsFirst(s, calls);
      var s0, rest := s.(frameStart := false), Flatten(calls[1..]);
      SearchingAnew(s, g, Flatten(Flatten(calls)) + more, segs);
      Regroup(Flatten(calls[0]), Flatten(rest), more);
      WellSplit(segs, Ahead(s, g), calls[0], rest);
      found, n, j := Resynchronise(s0, calls[0], Flatten(rest) + more, g, segs);
      var s1 := Run(s0, calls[0]);
      if found {
        DigestedFacts(s0, s1, Flatten(rest) + more, segs, j);
        j := CallsAfterFound(s, s1, calls[1..], more, segs, j);
      } else {
        var m: nat;
        found, m, j := CallsResynchronise(s1, calls[1..], more, g[n..], segs);
        if found {
          SameQueues(s, s1, Calls(s, calls), more, segs, j);
        } else {
          assert g[n..][m..] == g[n + m..];
        }
        n := n + m;
      }
    }
  }

  lemma CallsAfterFound(s: Link, s1: Link, calls: seq<seq<seq<byte>>>, more: seq<byte>, segs: seq<Segment>, j: nat)
    returns (i: nat)
    requires IsStream(segs) && Digested(s.(frameStart := false), s1, Flatten(Flatten(calls)) + more, segs, j)
    requires j <= |segs| && IsStream(segs[j..]) && ReadsWell(segs[j..], |s1.received|, Flatten(calls))
    ensures Digested(s, Calls(s1, calls), more, segs, i)
    ensures After(segs[j..], |s1.received|, Flatten(calls)) == (segs[i..], |Calls(s1, calls).received|)
  {
    hide *;
    DigestedAnew(s, s1, Flatten(Flatten(calls)) + more, segs, j);
    DigestedSum(s, s1, Flatten(calls), more, segs, j);
    var k := CallsDelivery(s1, calls, more, segs[j..]);
    DigestedTwice(s, s1, Calls(s1, calls), Flatten(Flatten(calls)) + more, more, segs, j, k);
    DigestedFacts(s1, Calls(s1, calls), more, segs[j..], k);
    assert segs[j..][k..] == segs[j + k..];
    i := j + k;
  }

  /** A complete stream behind any amount of quiet garbage: every segment is delivered but for the
      few that may wait at the end. */
  lemma CompleteResync(calls: seq<seq<seq<byte>>>, g: seq<byte>, segs: seq<Segment>)
    requires IsStream(segs) && segs != [] && !segs[0].Lossy? && Quiet(g, Stream(segs))
    requires ReadsWell(segs, -|g|, Flatten(calls)) && Flatten(Flatten(calls)) == g + Stream(segs)
    ensures var j := Arrived(segs, -|g|, Flatten(calls));
            && 0 <= j && Delivered(Calls(IDLE, calls), segs, j) && Waiting(segs[j..]) && EndIsHeld(segs, j)
  {
    hide Calls, ReadsWell, Delivered, Digested, After, Stream, Waiting, Flatten, EndIsHeld, Quiet, Searching, Ahead;
    hide IsStream;
    var s := Calls(IDLE, calls);
    SearchStarts(Flatten(Flatten(calls)), g, segs);
    var found, n, j := CallsResynchronise(IDLE, calls, [], g, segs);
    if found {
      DigestedFacts(IDLE, s, [], segs, j);
      DigestedAll(IDLE, s, segs, j);
    } else {
      SearchGoesOn(s, g[n..], [], segs);
      assert false;
    }
  }
}
