/** Reading registers of many chips at once: who is asked, and how the answers are put in place. */
module PipelinedRead {
  import opened Bytes
  import opened Basics
  import opened FaultTracker

  /** Which targets are asked (by position), whether a faulty one was left out, and the health
      records after giving second chances. */
  datatype Selection = Selection(health: Health, picked: seq<nat>, leftOut: bool)

  /** The first n targets gone through in order, each at a time of its own; `detected` is given when
      all chips are read. */
  function Select(h: Health, targets: seq<byte>, n: nat, detected: Option<set<byte>>, clock: nat -> nat)
    : (s: Selection)
    requires n <= |targets|
    ensures forall p :: 0 <= p < |s.picked| ==> s.picked[p] < n
    ensures forall p, q :: 0 <= p < q < |s.picked| ==> s.picked[p] < s.picked[q]
  {
    if n == 0 then Selection(h, [], false)
    else
      var s := Select(h, targets, n - 1, detected, clock);
      var id := targets[n - 1];
      var faulty := IsFaulty(s.health, id);
      var cleared := if faulty then Clear(s.health, id, clock(n - 1)) else s.health;
      if faulty && !MayClear(s.health, id, clock(n - 1)) then Selection(cleared, s.picked, true)
      else if detected.Some? && id !in detected.value then Selection(cleared, s.picked, s.leftOut)
      else Selection(cleared, s.picked + [n - 1], s.leftOut)
  }

  function Asked(targets: seq<byte>, picked: seq<nat>): (a: seq<byte>)
    requires forall p :: 0 <= p < |picked| ==> picked[p] < |targets|
    ensures |a| == |picked|
  {
    seq(|picked|, p requires 0 <= p < |picked| => targets[picked[p]])
  }

  /** The slot of register r of target i, n targets in all. */
  function At(i: nat, r: nat, n: nat, regs: nat): (k: nat)
    requires i < n && r < regs
    ensures k == regs * i + r < n * regs
  {
    assert (i + 1) * regs <= n * regs;
    i * regs + r
  }

  /** Different slots are different places. */
  lemma AtUnique(i: nat, r: nat, j: nat, q: nat, regs: nat)
    requires r < regs && q < regs
    ensures i * regs + r == j * regs + q <==> i == j && r == q
  {
    if i < j {
      assert (i + 1) * regs <= j * regs;
    } else if j < i {
      assert (j + 1) * regs <= i * regs;
    }
  }

  /** The result holds, in the slots of each asked target, that target's part of the answer, and
      -1 in the slots of the others. */
  ghost predicate InPlace(res: seq<int>, n: nat, regs: nat, picked: seq<nat>, data: seq<int>) {
    && |res| == n * regs && |data| == |picked| * regs
    && forall i: nat, r: nat :: i < n && r < regs ==> Placed(res, n, regs, picked, data, i, r)
  }

  ghost predicate Placed(res: seq<int>, n: nat, regs: nat, picked: seq<nat>, data: seq<int>, i: nat, r: nat)
    requires |res| == n * regs && |data| == |picked| * regs && i < n && r < regs
  {
    && (i !in picked ==> res[At(i, r, n, regs)] == -1)
    && forall p :: 0 <= p < |picked| && picked[p] == i ==> res[At(i, r, n, regs)] == data[At(p, r, |picked|, regs)]
  }

  /** There is only one such result. */
  lemma InPlaceUnique(a: seq<int>, b: seq<int>, n: nat, regs: nat, picked: seq<nat>, data: seq<int>)
    requires InPlace(a, n, regs, picked, data) && InPlace(b, n, regs, picked, data)
    ensures a == b
  {
    forall k | 0 <= k < n * regs ensures a[k] == b[k] {
      var i, r := SlotOwner(k, n, regs);
      assert Placed(a, n, regs, picked, data, i, r) && Placed(b, n, regs, picked, data, i, r);
      if i in picked {
        var p: nat :| p < |picked| && picked[p] == i;
      }
    }
  }

  lemma SlotOwner(k: nat, n: nat, regs: nat) returns (i: nat, r: nat)
    requires k < n * regs
    ensures i < n && r < regs && At(i, r, n, regs) == k
  {
    i, r := k / regs, k % regs;
    assert i >= n ==> i * regs >= n * regs;
  }

  function Indices(n: nat): (s: seq<nat>)
    ensures |s| == n && forall i :: 0 <= i < n ==> s[i] == i
  {
    seq(n, i requires 0 <= i => i)
  }

  /** When nobody is left out the answer is already in place, so the fast return is the same. */
  lemma FastReturn(n: nat, regs: nat, data: seq<int>)
    requires |data| == n * regs
    ensures InPlace(data, n, regs, Indices(n), data)
  {
    forall i: nat, r: nat | i < n && r < regs ensures Placed(data, n, regs, Indices(n), data, i, r) {
      assert Indices(n)[i] == i;
    }
  }

  lemma {:induction false} AllAsked(h: Health, targets: seq<byte>, n: nat, clock: nat -> nat)
    requires n <= |targets|
    ensures var s := Select(h, targets, n, None, clock);
            (s.leftOut ==> |s.picked| < n) && (!s.leftOut ==> s.picked == Indices(n))
  {
    if n > 0 {
      AllAsked(h, targets, n - 1, clock);
    }
  }

  /** A chip can be read: it is not marked, or gets a second chance. */
  predicate Free(h: Health, id: byte, time: nat) {
    !IsFaulty(h, id) || MayClear(h, id, time)
  }

  /** Which of the first n targets are asked: those that can be read and, when all chips are, were
      detected. */
  ghost predicate AsksFree(h: Health, targets: seq<byte>, n: nat, detected: Option<set<byte>>, clock: nat -> nat,
                           s: Selection)
    requires n <= |targets|
  {
    && (forall i :: i in s.picked ==> i < n)
    && (forall i :: 0 <= i < n ==>
          (i in s.picked <==> Free(h, targets[i], clock(i)) && (detected.Some? ==> targets[i] in detected.value)))
    && (s.leftOut <==> exists i :: 0 <= i < n && !Free(h, targets[i], clock(i)))
  }

  /** A marked chip that gets a second chance has a new track. */
  function Anew(h: Health, id: byte, time: nat): Option<Track> {
    if IsFaulty(h, id) && MayClear(h, id, time) then Some(Track(time, 1, false, h.tracks[id].falseBadCheck + 1))
    else TrackOf(h, id)
  }

  /** No other track changes. */
  ghost predicate ClearsThese(h: Health, targets: seq<byte>, n: nat, clock: nat -> nat, h': Health)
    requires n <= |targets|
  {
    && h'.lastMarking == h.lastMarking
    && (forall i :: 0 <= i < n ==> TrackOf(h', targets[i]) == Anew(h, targets[i], clock(i)))
    && forall c :: c !in targets[..n] ==> TrackOf(h', c) == TrackOf(h, c)
  }

  /** For distinct targets: who is asked, whether a marked one is left out, and what becomes of the
      records, by the records and times before the call. */
  lemma {:induction false} SelectExactly(h: Health, targets: seq<byte>, n: nat, detected: Option<set<byte>>,
                                         clock: nat -> nat)
    requires n <= |targets| && NoDuplicates(targets)
    ensures var s := Select(h, targets, n, detected, clock);
            AsksFree(h, targets, n, detected, clock, s) && ClearsThese(h, targets, n, clock, s.health)
  {
    hide AsksFree, ClearsThese, Free, Anew, IsFaulty, MayClear;
    if n == 0 {
      SelectNone(h, targets, detected, clock);
    } else {
      SelectExactly(h, targets, n - 1, detected, clock);
      var before, after := Select(h, targets, n - 1, detected, clock), Select(h, targets, n, detected, clock);
      LastIsFresh(targets, n);
      StillAsBefore(h, targets, n, clock, before.health);
      SelectStep(h, targets, n, detected, clock);
      AsksNext(h, targets, n, detected, clock, before, after);
      ClearsNext(h, targets, n, clock, before.health, after.health);
    }
  }

  lemma SelectNone(h: Health, targets: seq<byte>, detected: Option<set<byte>>, clock: nat -> nat)
    ensures AsksFree(h, targets, 0, detected, clock, Selection(h, [], false)) && ClearsThese(h, targets, 0, clock, h)
  {
  }

  lemma LastIsFresh(targets: seq<byte>, n: nat)
    requires 0 < n <= |targets| && NoDuplicates(targets)
    ensures targets[n - 1] !in targets[..n - 1] && targets[..n] == targets[..n - 1] + [targets[n - 1]]
    ensures forall i :: 0 <= i < n - 1 ==> targets[i] != targets[n - 1]
  {
  }

  lemma StillAsBefore(h: Health, targets: seq<byte>, n: nat, clock: nat -> nat, h': Health)
    requires 0 < n <= |targets| && targets[n - 1] !in targets[..n - 1] && ClearsThese(h, targets, n - 1, clock, h')
    ensures h'.lastMarking == h.lastMarking && TrackOf(h', targets[n - 1]) == TrackOf(h, targets[n - 1])
  {
  }

  /** What choosing the next target adds, if its own record is as it was. */
  lemma SelectStep(h: Health, targets: seq<byte>, n: nat, detected: Option<set<byte>>, clock: nat -> nat)
    requires 0 < n <= |targets|
    requires var h' := Select(h, targets, n - 1, detected, clock).health;
             h'.lastMarking == h.lastMarking && TrackOf(h', targets[n - 1]) == TrackOf(h, targets[n - 1])
    ensures var before, after := Select(h, targets, n - 1, detected, clock), Select(h, targets, n, detected, clock);
            var id, time := targets[n - 1], clock(n - 1);
            && after.picked == before.picked + (if Free(h, id, time) && (detected.Some? ==> id in detected.value)
                                                then [n - 1] else [])
            && after.leftOut == (before.leftOut || !Free(h, id, time))
            && after.health.lastMarking == before.health.lastMarking && TrackOf(after.health, id) == Anew(h, id, time)
            && forall c :: c != id ==> TrackOf(after.health, c) == TrackOf(before.health, c)
  {
    var h' := Select(h, targets, n - 1, detected, clock).health;
    SameRecord(h, h', targets[n - 1], clock(n - 1));
    hide MayClear, IsFaulty;
    assert forall picked: seq<nat> :: picked + [] == picked;
  }

  lemma SameRecord(h: Health, h': Health, id: byte, time: nat)
    requires TrackOf(h', id) == TrackOf(h, id) && h'.lastMarking == h.lastMarking
    ensures IsFaulty(h', id) == IsFaulty(h, id) && MayClear(h', id, time) == MayClear(h, id, time)
    ensures id in h.tracks ==> id in h'.tracks && h'.tracks[id] == h.tracks[id]
  {
  }

  lemma AsksNext(h: Health, targets: seq<byte>, n: nat, detected: Option<set<byte>>, clock: nat -> nat,
                 before: Selection, after: Selection)
    requires 0 < n <= |targets| && AsksFree(h, targets, n - 1, detected, clock, before)
    requires var free := Free(h, targets[n - 1], clock(n - 1));
             && after.picked == before.picked + (if free && (detected.Some? ==> targets[n - 1] in detected.value)
                                                 then [n - 1] else [])
             && after.leftOut == (before.leftOut || !free)
    ensures AsksFree(h, targets, n, detected, clock, after)
  {
    hide Free;
  }

  lemma ClearsNext(h: Health, targets: seq<byte>, n: nat, clock: nat -> nat, before: Health, after: Health)
    requires 0 < n <= |targets| && ClearsThese(h, targets, n - 1, clock, before)
    requires targets[..n] == targets[..n - 1] + [targets[n - 1]]
    requires forall i :: 0 <= i < n - 1 ==> targets[i] != targets[n - 1]
    requires after.lastMarking == before.lastMarking
    requires TrackOf(after, targets[n - 1]) == Anew(h, targets[n - 1], clock(n - 1))
    requires forall c :: c != targets[n - 1] ==> TrackOf(after, c) == TrackOf(before, c)
    ensures ClearsThese(h, targets, n, clock, after)
  {
    hide Anew, TrackOf;
  }

  /** The part of the answer for the p-th asked target has a hole. */
  predicate Missing(data: seq<int>, p: nat, regs: nat) {
    (p + 1) * regs <= |data| && -1 in data[p * regs..(p + 1) * regs]
  }

  /** One more failure, at a time of its own, for each of the first n asked targets with a hole. */
  function BlameSilent(h: Health, asked: seq<byte>, data: seq<int>, regs: nat, n: nat, clock: nat -> nat): Health
    requires n <= |asked|
  {
    if n == 0 then h
    else
      var before := BlameSilent(h, asked, data, regs, n - 1, clock);
      if Missing(data, n - 1, regs) then Blame(before, asked[n - 1], clock(n - 1)) else before
  }

  lemma {:induction false} BlamedUpTo(h: Health, asked: seq<byte>, data: seq<int>, regs: nat, n: nat,
                                      clock: nat -> nat, c: byte)
    requires n <= |asked| && NoDuplicates(asked)
    ensures var after := BlameSilent(h, asked, data, regs, n, clock);
            && (c !in asked[..n] ==> TrackOf(after, c) == TrackOf(h, c))
            && forall p :: 0 <= p < n && asked[p] == c ==>
                 TrackOf(after, c)
                 == if Missing(data, p, regs) then Some(Blamed(TrackOf(h, c), clock(p))) else TrackOf(h, c)
  {
    if n > 0 {
      BlamedUpTo(h, asked, data, regs, n - 1, clock, c);
      assert asked[..n] == asked[..n - 1] + [asked[n - 1]];
    }
  }

  /** Each asked chip is blamed once if a register of its is missing, and no other chip is. */
  lemma BlamedExactly(h: Health, asked: seq<byte>, data: seq<int>, regs: nat, clock: nat -> nat, c: byte)
    requires NoDuplicates(asked)
    ensures var after := BlameSilent(h, asked, data, regs, |asked|, clock);
            && (c !in asked ==> TrackOf(after, c) == TrackOf(h, c))
            && forall p :: 0 <= p < |asked| && asked[p] == c ==>
                 TrackOf(after, c)
                 == if Missing(data, p, regs) then Some(Blamed(TrackOf(h, c), clock(p))) else TrackOf(h, c)
  {
    BlamedUpTo(h, asked, data, regs, |asked|, clock, c);
    assert asked[..|asked|] == asked;
  }

  lemma AskedOnce(targets: seq<byte>, picked: seq<nat>)
    requires forall p :: 0 <= p < |picked| ==> picked[p] < |targets|
    requires forall p, q :: 0 <= p < q < |picked| ==> picked[p] < picked[q]
    requires NoDuplicates(targets)
    ensures NoDuplicates(Asked(targets, picked))
  {
  }
}
