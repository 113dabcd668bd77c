/** The table of mining pools: a list in order of priority, and which pool is to be used. */
module PoolTable {
  import opened Basics

  const MAX_POOL_NUMBER := 3
  const MAX_POOL_SEQREJECT := 10

  /** A pool as the table sees it; `seqNo` never changes and tells the pools apart. */
  datatype Pool = Pool(seqNo: nat, enabled: bool, running: bool, unreachable: bool, seqRejected: nat)
  {
    predicate Healthy() { seqRejected <= MAX_POOL_SEQREJECT && !unreachable }

    /** Put to work, with its record wiped clean. */
    function Started(): Pool { Pool(seqNo, true, true, false, 0) }
  }

  function RemoveAt<T>(s: seq<T>, i: nat): seq<T>
    requires i < |s|
  {
    s[..i] + s[i + 1..]
  }

  function MoveToFront<T>(s: seq<T>, i: nat): (r: seq<T>)
    requires i < |s|
    ensures |r| == |s|
  {
    [s[i]] + RemoveAt(s, i)
  }

  datatype Op = Add(valid: bool) | Remove(id: nat) | Switch(id: nat) | Enable(id: nat) | Disable(id: nat)
              | Report(id: nat, running: bool, unreachable: bool, seqRejected: nat) | Serve

  datatype Reply = Done | TooMany | BadDetail | LastPool | BadId | ActivePool | AlreadyEnabled | AlreadyDisabled

  /** The pools, the pool the miner works for, and the index it had when it was last changed. */
  datatype State = State(pools: seq<Pool>, nextSeqNo: nat, inUse: Option<nat>, currentIndex: nat)

  predicate Usable(p: Pool) { p.enabled && p.Healthy() }

  predicate Enabled(p: Pool) { p.enabled }

  function First(pools: seq<Pool>, test: Pool -> bool): (r: Option<nat>)
    ensures r.None? <==> forall i :: 0 <= i < |pools| ==> !test(pools[i])
    ensures r.Some? ==> r.value < |pools| && test(pools[r.value]) && forall i :: 0 <= i < r.value ==> !test(pools[i])
  {
    if pools == [] then None
    else if test(pools[0]) then Some(0)
    else
      match First(pools[1..], test)
      case None => assert forall i :: 1 <= i < |pools| ==> pools[i] == pools[1..][i - 1]; None
      case Some(i) => assert forall j :: 1 <= j <= i ==> pools[j] == pools[1..][j - 1]; Some(i + 1)
  }

  /** The first usable pool, or else the first enabled one. */
  function Scheduled(pools: seq<Pool>): (r: Option<nat>)
    ensures r.Some? ==> r.value < |pools| && pools[r.value].enabled
  {
    match First(pools, Usable)
    case Some(i) => Some(i)
    case None => First(pools, Enabled)
  }

  /** The scheduled pool is the usable one that comes first, or the first enabled one if none is. */
  lemma ScheduledIs(pools: seq<Pool>, i: nat)
    requires i < |pools| && pools[i].enabled
    requires if Usable(pools[i]) then forall j :: 0 <= j < i ==> !Usable(pools[j])
             else (forall j :: 0 <= j < i ==> !pools[j].enabled) && forall j :: 0 <= j < |pools| ==> !Usable(pools[j])
    ensures Scheduled(pools) == Some(i)
  {
  }

  /** Neither unreachable nor with more than ten rejects in a row. */
  predicate InOrder(p: Pool) {
    p.enabled && !p.unreachable && p.seqRejected <= 10
  }

  /** Which pool is scheduled: the first that is enabled and in order; without one, the first that is
      enabled; and none if none is. */
  lemma ScheduledExactly(pools: seq<Pool>, i: nat)
    requires i < |pools|
    ensures Scheduled(pools) == Some(i) <==>
            if exists j :: 0 <= j < |pools| && InOrder(pools[j])
            then InOrder(pools[i]) && forall j :: 0 <= j < i ==> !InOrder(pools[j])
            else pools[i].enabled && forall j :: 0 <= j < i ==> !pools[j].enabled
    ensures Scheduled(pools) == None <==> forall j :: 0 <= j < |pools| ==> !pools[j].enabled
  {
    assert forall p: Pool :: Usable(p) <==> InOrder(p);
  }

  lemma NoneScheduled(pools: seq<Pool>)
    requires forall j :: 0 <= j < |pools| ==> !pools[j].enabled
    ensures Scheduled(pools) == None
  {
  }

  function AddPool(s: State, valid: bool): (State, Reply) {
    if |s.pools| >= MAX_POOL_NUMBER then (s, TooMany)
    else if !valid then (s, BadDetail)
    else (s.(pools := s.pools + [Pool(s.nextSeqNo, true, false, false, 0)], nextSeqNo := s.nextSeqNo + 1), Done)
  }

  function RemovePool(s: State, id: nat): (State, Reply) {
    if |s.pools| <= 1 then (s, LastPool)
    else if id >= |s.pools| then (s, BadId)
    else if id == s.currentIndex then (s, ActivePool)
    else (s.(pools := RemoveAt(s.pools, id)), Done)
  }

  function SwitchPool(s: State, id: nat): (State, Reply) {
    if id >= |s.pools| then (s, BadId)
    else (s.(pools := MoveToFront(s.pools[id := s.pools[id].(enabled := true)], id)), Done)
  }

  function SetEnabled(s: State, id: nat, on: bool): (State, Reply) {
    if id >= |s.pools| then (s, BadId)
    else if s.pools[id].enabled == on then (s, if on then AlreadyEnabled else AlreadyDisabled)
    else (s.(pools := s.pools[id := s.pools[id].(enabled := on)]), Done)
  }

  /** Puts the scheduled pool to use. */
  function ServeNext(s: State): State {
    match Scheduled(s.pools)
    case None => s
    case Some(i) =>
      State(if s.pools[i].running then s.pools else s.pools[i := s.pools[i].Started()], s.nextSeqNo,
            Some(s.pools[i].seqNo), if s.inUse == Some(s.pools[i].seqNo) then s.currentIndex else i)
  }

  function Apply(s: State, op: Op): (State, Reply) {
    match op
    case Add(valid) => AddPool(s, valid)
    case Remove(id) => RemovePool(s, id)
    case Switch(id) => SwitchPool(s, id)
    case Enable(id) => SetEnabled(s, id, true)
    case Disable(id) => SetEnabled(s, id, false)
    case Report(id, running, unreachable, seqRejected) =>
      if id >= |s.pools| then (s, BadId)
      else
        var p := s.pools[id].(running := running, unreachable := unreachable, seqRejected := seqRejected);
        (s.(pools := s.pools[id := p]), Done)
    case Serve => (ServeNext(s), Done)
  }

  lemma IsMoved<T>(s: seq<T>, r: seq<T>, id: nat)
    requires id < |s| == |r| && r[0] == s[id]
    requires forall k :: 1 <= k < |r| ==> r[k] == s[if k <= id then k - 1 else k]
    ensures r == MoveToFront(s, id)
  {
  }

  function Run(s: State, ops: seq<Op>): State
    decreases |ops|
  {
    if ops == [] then s else Run(Apply(s, ops[0]).0, ops[1..])
  }

  /** At most three pools, all different, numbered below the next number. */
  predicate Inv(s: State) {
    |s.pools| <= MAX_POOL_NUMBER && Distinct(s.pools, s.nextSeqNo)
  }

  predicate Distinct(pools: seq<Pool>, next: nat) {
    && (forall i :: 0 <= i < |pools| ==> pools[i].seqNo < next)
    && forall i, j :: 0 <= i < j < |pools| ==> pools[i].seqNo != pools[j].seqNo
  }

  lemma RemoveKeeps(pools: seq<Pool>, next: nat, id: nat)
    requires Distinct(pools, next) && id < |pools|
    ensures Distinct(RemoveAt(pools, id), next)
  {
  }

  lemma MoveKeeps(pools: seq<Pool>, next: nat, id: nat)
    requires Distinct(pools, next) && id < |pools|
    ensures Distinct(MoveToFront(pools, id), next)
  {
  }

  lemma UpdateKeeps(pools: seq<Pool>, next: nat, id: nat, p: Pool)
    requires Distinct(pools, next) && id < |pools| && p.seqNo == pools[id].seqNo
    ensures Distinct(pools[id := p], next)
  {
  }

  lemma AddKeeps(pools: seq<Pool>, next: nat, p: Pool)
    requires Distinct(pools, next) && p.seqNo == next
    ensures Distinct(pools + [p], next + 1)
  {
  }

  lemma ApplyKeeps(s: State, op: Op)
    requires Inv(s)
    ensures Inv(Apply(s, op).0)
    ensures s.pools != [] ==> Apply(s, op).0.pools != []
  {
    hide Distinct, MoveToFront;
    match op
    case Add(valid) => AddKeeps(s.pools, s.nextSeqNo, Pool(s.nextSeqNo, true, false, false, 0));
    case Remove(id) => if id < |s.pools| { RemoveKeeps(s.pools, s.nextSeqNo, id); }
    case Switch(id) =>
      if id < |s.pools| {
        UpdateKeeps(s.pools, s.nextSeqNo, id, s.pools[id].(enabled := true));
        MoveKeeps(s.pools[id := s.pools[id].(enabled := true)], s.nextSeqNo, id);
      }
    case Enable(id) => if id < |s.pools| { UpdateKeeps(s.pools, s.nextSeqNo, id, s.pools[id].(enabled := true)); }
    case Disable(id) => if id < |s.pools| { UpdateKeeps(s.pools, s.nextSeqNo, id, s.pools[id].(enabled := false)); }
    case Report(id, running, unreachable, seqRejected) =>
      if id < |s.pools| {
        UpdateKeeps(s.pools, s.nextSeqNo, id,
                    s.pools[id].(running := running, unreachable := unreachable, seqRejected := seqRejected));
      }
    case Serve =>
      if Scheduled(s.pools).Some? {
        var i := Scheduled(s.pools).value;
        UpdateKeeps(s.pools, s.nextSeqNo, i, s.pools[i].Started());
      }
  }

  /** Whatever is asked of the table, the pools stay distinct and at most three, and once there is a
      pool there always is one. */
  lemma {:induction false} RunKeeps(s: State, ops: seq<Op>)
    requires Inv(s)
    ensures Inv(Run(s, ops))
    ensures s.pools != [] ==> Run(s, ops).pools != []
    decreases |ops|
  {
    hide Inv, Apply;
    if ops != [] {
      ApplyKeeps(s, ops[0]);
      RunKeeps(Apply(s, ops[0]).0, ops[1..]);
    }
  }

  /** Switching keeps the order of the others and loses no pool. */
  lemma SwitchKeepsOthers<T>(s: seq<T>, i: nat)
    requires i < |s|
    ensures RemoveAt(MoveToFront(s, i), 0) == RemoveAt(s, i) && MoveToFront(s, i)[0] == s[i]
    ensures multiset(MoveToFront(s, i)) == multiset(s)
  {
    assert s == s[..i] + ([s[i]] + s[i + 1..]);
  }

  /** The pool switched to is the one that will be used, exactly if it is healthy or no enabled
      pool is. */
  lemma SwitchedIsUsed(s: State, id: nat)
    requires id < |s.pools|
    ensures var after := Apply(s, Switch(id)).0.pools;
            Scheduled(after) == Some(0) <==>
            s.pools[id].Healthy() || forall j :: 0 <= j < |s.pools| ==> !Usable(s.pools[j])
  {
    var after := Apply(s, Switch(id)).0.pools;
    assert after[0] == s.pools[id].(enabled := true);
    assert forall j :: 0 <= j < id ==> after[j + 1] == s.pools[j];
    assert forall j :: id < j < |s.pools| ==> after[j] == s.pools[j];
    if !s.pools[id].Healthy() {
      if j :| 0 <= j < |s.pools| && Usable(s.pools[j]) {
        assert j != id;
        assert Usable(after[if j < id then j + 1 else j]);
      }
    }
  }

  // The index of the pool in use

  /** The remembered index is that of the pool in use. */
  predicate Right(s: State) {
    s.currentIndex < |s.pools| && s.inUse == Some(s.pools[s.currentIndex].seqNo)
  }

  /** The pool in use cannot be removed if and only if the remembered index is right. */
  lemma Protected(s: State, p: nat)
    requires Inv(s) && |s.pools| > 1 && p < |s.pools| && s.inUse == Some(s.pools[p].seqNo)
    ensures Apply(s, Remove(p)).1 == ActivePool <==> Right(s)
    ensures !Right(s) ==> Apply(s, Remove(p)).0.pools == RemoveAt(s.pools, p)
  {
  }

  /** Serving brings the remembered index up to date exactly when another pool takes over, or when
      it was right already. */
  lemma IndexUpToDate(s: State)
    requires Inv(s) && Scheduled(s.pools).Some?
    ensures var i, s' := Scheduled(s.pools).value, Apply(s, Serve).0;
            && s'.inUse == Some(s'.pools[i].seqNo)
            && (s'.currentIndex == i <==> s.inUse != Some(s.pools[i].seqNo) || s.currentIndex == i)
            && (s'.currentIndex == i && |s'.pools| > 1 ==> Apply(s', Remove(i)).1 == ActivePool)
  {
  }

  /** A pool other than the one in use is scheduled. */
  predicate TakesOver(s: State) {
    Scheduled(s.pools).Some? && s.inUse != Some(s.pools[Scheduled(s.pools).value].seqNo)
  }

  lemma ServeRight(s: State)
    requires Inv(s)
    ensures Right(Apply(s, Serve).0) <==> Right(s) || TakesOver(s)
  {
    if Scheduled(s.pools).Some? {
      IndexUpToDate(s);
    }
  }

  /** Where the pool at place p stands after an operation, if it is still there. */
  function Place(s: State, op: Op, p: nat): Option<nat> {
    match op
    case Switch(id) => Some(if id < |s.pools| then InFront(id, p) else p)
    case Remove(id) => if Apply(s, op).1 == Done then Closed(id, p) else Some(p)
    case _ => Some(p)
  }

  /** The place p after the element at id was moved to the front, and after it was removed. */
  function InFront(id: nat, p: nat): nat {
    if p == id then 0 else if p < id then p + 1 else p
  }

  function Closed(id: nat, p: nat): Option<nat> {
    if p == id then None else Some(if id < p then p - 1 else p)
  }

  lemma PlaceInFront(pools: seq<Pool>, id: nat, p: nat)
    requires id < |pools| && p < |pools|
    ensures InFront(id, p) < |pools| && MoveToFront(pools, id)[InFront(id, p)] == pools[p]
  {
  }

  lemma PlaceClosed(pools: seq<Pool>, next: nat, id: nat, p: nat)
    requires Distinct(pools, next) && id < |pools| && p < |pools|
    ensures var left, place := RemoveAt(pools, id), Closed(id, p);
            && (place.Some? ==> place.value < |left| && left[place.value] == pools[p])
            && (place.None? ==> forall j :: 0 <= j < |left| ==> left[j].seqNo != pools[p].seqNo)
  {
    var left := RemoveAt(pools, id);
    assert forall j :: 0 <= j < |left| ==> left[j] == pools[if j < id then j else j + 1];
  }

  /** The place of every pool after an operation. */
  lemma PlaceAfter(s: State, op: Op, p: nat)
    requires Inv(s) && p < |s.pools|
    ensures var pools, place := Apply(s, op).0.pools, Place(s, op, p);
            && (place.Some? ==> place.value < |pools| && pools[place.value].seqNo == s.pools[p].seqNo)
            && (place.None? ==> forall j :: 0 <= j < |pools| ==> pools[j].seqNo != s.pools[p].seqNo)
  {
    hide MoveToFront, RemoveAt, InFront, Closed, Distinct, Scheduled;
    if op.Switch? && op.id < |s.pools| {
      PlaceInFront(s.pools[op.id := s.pools[op.id].(enabled := true)], op.id, p);
    } else if op.Remove? && op.id < |s.pools| {
      PlaceClosed(s.pools, s.nextSeqNo, op.id, p);
    }
  }

  /** What an operation between turns makes of a pool. */
  function Altered(op: Op, p: nat, pool: Pool): Pool {
    match op
    case Switch(id) => if id == p then pool.(enabled := true) else pool
    case Enable(id) => if id == p then pool.(enabled := true) else pool
    case Disable(id) => if id == p then pool.(enabled := false) else pool
    case Report(id, running, unreachable, seqRejected) =>
      if id == p then pool.(running := running, unreachable := unreachable, seqRejected := seqRejected) else pool
    case _ => pool
  }

  /** Between turns every pool that stays is the pool it was, but for the one flag or report that the
      operation is about; only a new pool comes in, enabled and untried, at the end. */
  lemma PoolsAfter(s: State, op: Op, p: nat)
    requires Inv(s) && p < |s.pools| && !op.Serve?
    ensures var (s', reply), place := Apply(s, op), Place(s, op, p);
            && (place.Some? ==> place.value < |s'.pools| && s'.pools[place.value] == Altered(op, p, s.pools[p]))
            && |s'.pools| == |s.pools| + (if reply == Done && op.Add? then 1 else 0)
                             - (if reply == Done && op.Remove? then 1 else 0)
            && (reply == Done && op.Add? ==> s'.pools[|s.pools|] == Pool(s.nextSeqNo, true, false, false, 0))
  {
    hide MoveToFront, RemoveAt, InFront, Closed, Distinct, Scheduled;
    if op.Switch? && op.id < |s.pools| {
      PlaceInFront(s.pools[op.id := s.pools[op.id].(enabled := true)], op.id, p);
    } else if op.Remove? && op.id < |s.pools| {
      PlaceClosed(s.pools, s.nextSeqNo, op.id, p);
      OneFewer(s.pools, op.id);
    }
  }

  lemma OneFewer<T>(s: seq<T>, i: nat)
    requires i < |s|
    ensures |RemoveAt(s, i)| == |s| - 1
  {
  }

  /** Which operations are carried out: a fourth pool, one that is not valid, the removal of the only
      pool or of the one at the index, a place that is none, and a flag that is set already are not. */
  lemma DoneExactly(s: State, op: Op)
    requires Inv(s)
    ensures Apply(s, op).1 == Done <==>
            match op
            case Add(valid) => |s.pools| < 3 && valid
            case Remove(id) => 1 < |s.pools| && id < |s.pools| && id != s.currentIndex
            case Switch(id) => id < |s.pools|
            case Enable(id) => id < |s.pools| && !s.pools[id].enabled
            case Disable(id) => id < |s.pools| && s.pools[id].enabled
            case Report(id, _, _, _) => id < |s.pools|
            case Serve => true
    ensures Apply(s, op).1 != Done ==> Apply(s, op).0 == s
  {
  }

  /** A turn leaves every pool as it was but the scheduled one: that one runs, and if it was not running
      its record is wiped clean. */
  lemma ServedPools(s: State, p: nat)
    requires Inv(s) && p < |s.pools|
    ensures var s' := Apply(s, Serve).0;
            && |s'.pools| == |s.pools| && s'.nextSeqNo == s.nextSeqNo
            && s'.pools[p] == (if Scheduled(s.pools) == Some(p) && !s.pools[p].running
                               then Pool(s.pools[p].seqNo, true, true, false, 0) else s.pools[p])
            && (Scheduled(s.pools) == None ==> s' == s)
  {
  }

  /** Between turns, the index is right after an operation if and only if that moves the pool in use
      to where the index points. */
  lemma RightAfter(s: State, op: Op, p: nat)
    requires Inv(s) && p < |s.pools| && s.inUse == Some(s.pools[p].seqNo) && !op.Serve?
    ensures Right(Apply(s, op).0) <==> Place(s, op, p) == Some(s.currentIndex)
  {
    hide Place, Inv;
    ApplyKeeps(s, op);
    PlaceAfter(s, op, p);
    SameIndex(s, op);
    InvDistinct(Apply(s, op).0);
  }

  lemma InvDistinct(s: State)
    requires Inv(s)
    ensures Distinct(s.pools, s.nextSeqNo)
  {
  }

  lemma SameIndex(s: State, op: Op)
    requires !op.Serve?
    ensures Apply(s, op).0.currentIndex == s.currentIndex && Apply(s, op).0.inUse == s.inUse
  {
  }

  /** The operations that move the pool in use away from its index: a switch of it, unless it is the
      first, or of one behind it, and the removal of one in front of it. */
  predicate Displaces(s: State, op: Op) {
    || (op.Switch? && 0 < op.id && s.currentIndex <= op.id < |s.pools|)
    || (op.Remove? && op.id < s.currentIndex && 1 < |s.pools|)
  }

  /** A right index stays right exactly as long as no operation displaces the pool in use. */
  lemma StaysRight(s: State, op: Op)
    requires Inv(s) && Right(s)
    ensures Right(Apply(s, op).0) <==> !Displaces(s, op)
  {
    if op.Serve? {
      ServeRight(s);
    } else {
      RightAfter(s, op, s.currentIndex);
    }
  }

  /** After an operation that displaces it the pool in use can be removed, and the pool that now stands
      at the index, if one does, is refused in its place. */
  lemma DisplacedIsRemovable(s: State, op: Op)
    requires Inv(s) && Right(s) && Displaces(s, op)
    ensures var s', place := Apply(s, op).0, Place(s, op, s.currentIndex);
            && place.Some? && place.value < |s'.pools| && s'.inUse == Some(s'.pools[place.value].seqNo)
            && (|s'.pools| > 1 ==>
                  && Apply(s', Remove(place.value)).1 == Done
                  && (s.currentIndex < |s'.pools| ==> Apply(s', Remove(s.currentIndex)).1 == ActivePool))
  {
    DisplacedStays(s, op);
    hide Apply, Place, Displaces;
    StaysRight(s, op);
    ApplyKeeps(s, op);
    PlaceAfter(s, op, s.currentIndex);
    SameIndex(s, op);
    hide Inv, Right;
    if |Apply(s, op).0.pools| > 1 {
      WrongIsRemovable(Apply(s, op).0, Place(s, op, s.currentIndex).value);
    }
  }

  /** It stays in the table, in use. */
  lemma DisplacedStays(s: State, op: Op)
    requires Inv(s) && Right(s) && Displaces(s, op)
    ensures !op.Serve? && Place(s, op, s.currentIndex).Some? && s.currentIndex < |s.pools|
    ensures s.inUse == Some(s.pools[s.currentIndex].seqNo)
  {
  }

  lemma WrongIsRemovable(s: State, p: nat)
    requires Inv(s) && |s.pools| > 1 && p < |s.pools| && s.inUse == Some(s.pools[p].seqNo) && !Right(s)
    ensures Apply(s, Remove(p)).1 == Done
    ensures s.currentIndex < |s.pools| ==> Apply(s, Remove(s.currentIndex)).1 == ActivePool
  {
    Protected(s, p);
  }

  predicate NoneDisplaces(s: State, ops: seq<Op>)
    decreases |ops|
  {
    ops == [] || (!Displaces(s, ops[0]) && NoneDisplaces(Apply(s, ops[0]).0, ops[1..]))
  }

  ghost predicate AlwaysRight(s: State, ops: seq<Op>) {
    forall k :: 0 <= k <= |ops| ==> Right(Run(s, ops[..k]))
  }

  /** Over every run from a right index: it is right at all times if and only if no operation of the
      run displaces the pool in use. */
  lemma {:induction false} RunStaysRight(s: State, ops: seq<Op>)
    requires Inv(s) && Right(s)
    ensures AlwaysRight(s, ops) <==> NoneDisplaces(s, ops)
    decreases |ops|
  {
    hide Apply, Inv, Right, Displaces;
    if ops == [] {
      assert ops[..0] == ops;
    } else {
      StaysRight(s, ops[0]);
      ApplyKeeps(s, ops[0]);
      AlwaysRightFirst(s, ops);
      if Right(Apply(s, ops[0]).0) {
        RunStaysRight(Apply(s, ops[0]).0, ops[1..]);
      }
    }
  }

  lemma AlwaysRightFirst(s: State, ops: seq<Op>)
    requires ops != []
    ensures AlwaysRight(s, ops) <==> Right(s) && AlwaysRight(Apply(s, ops[0]).0, ops[1..])
    ensures AlwaysRight(s, ops) ==> Right(Apply(s, ops[0]).0)
  {
    hide Apply, Right;
    var s', rest := Apply(s, ops[0]).0, ops[1..];
    assert Run(s, ops[..0]) == s && Run(s', rest[..0]) == s';
    assert forall k :: 0 <= k <= |rest| ==> ops[..k + 1][1..] == rest[..k];
    assert forall k :: 0 <= k <= |rest| ==> Run(s, ops[..k + 1]) == Run(s', rest[..k]);
    if Right(s) && AlwaysRight(s', rest) {
      forall k | 0 <= k <= |ops| ensures Right(Run(s, ops[..k])) {
        if k > 0 {
          assert Run(s, ops[..k - 1 + 1]) == Run(s', rest[..k - 1]);
        }
      }
    }
    if AlwaysRight(s, ops) {
      forall k | 0 <= k <= |rest| ensures Right(Run(s', rest[..k])) {
        assert Right(Run(s, ops[..k + 1]));
      }
    }
  }

  /** The active pool is protected by the index it had when it was started. One of the operations
      that displace it: another pool is moved in front of it and cannot be used, so that no turn
      brings the index up to date. The pool in use can be removed, and the unusable one cannot. */
  lemma ActivePoolRemoved()
    ensures var ops := [Add(true), Add(true), Serve, Report(1, false, true, 0), Switch(1), Serve];
            var s := Run(State([], 1, None, MAX_POOL_NUMBER + 1000), ops);
            && s.inUse == Some(1) && |s.pools| == 2 && s.pools[1].seqNo == 1
            && Apply(s, Remove(1)).1 == Done && Apply(s, Remove(1)).0.pools == [s.pools[0]]
            && Apply(s, Remove(0)).1 == ActivePool
  {
    hide Apply;
    var p1, p2, bad := Pool(1, true, true, false, 0), Pool(2, true, false, false, 0), Pool(2, true, false, true, 0);
    var s2 := TwoPools();
    ServeFirst(s2, [Report(1, false, true, 0), Switch(1), Serve]);
    var s3 := State([p1, p2], 3, Some(1), 0);
    Failing(s3, [Switch(1), Serve]);
    Fronted(State([p1, bad], 3, Some(1), 0), [Serve]);
    var s5 := State([bad, p1], 3, Some(1), 0);
    ServeSecond(s5);
    Removable(s5);
    var ops := [Serve, Report(1, false, true, 0), Switch(1), Serve];
    RunCons(State([], 1, None, 1003), Add(true), [Add(true)] + ops);
    RunCons(State([Pool(1, true, false, false, 0)], 2, None, 1003), Add(true), ops);
    assert [Add(true)] + ([Add(true)] + ops)
        == [Add(true), Add(true), Serve, Report(1, false, true, 0), Switch(1), Serve];
    assert [Serve] + [Report(1, false, true, 0), Switch(1), Serve] == ops;
  }

  lemma TwoPools() returns (s: State)
    ensures s == State([Pool(1, true, false, false, 0), Pool(2, true, false, false, 0)], 3, None, 1003)
    ensures Apply(State([], 1, None, 1003), Add(true)).0 == State([Pool(1, true, false, false, 0)], 2, None, 1003)
    ensures Apply(State([Pool(1, true, false, false, 0)], 2, None, 1003), Add(true)).0 == s
  {
    s := State([Pool(1, true, false, false, 0), Pool(2, true, false, false, 0)], 3, None, 1003);
  }

  lemma ServeFirst(s: State, rest: seq<Op>)
    requires s == State([Pool(1, true, false, false, 0), Pool(2, true, false, false, 0)], 3, None, 1003)
    ensures Run(s, [Serve] + rest)
            == Run(State([Pool(1, true, true, false, 0), Pool(2, true, false, false, 0)], 3, Some(1), 0), rest)
  {
    RunCons(s, Serve, rest);
    assert Usable(s.pools[0]) && Scheduled(s.pools) == Some(0);
    assert s.pools[0 := s.pools[0].Started()] == [Pool(1, true, true, false, 0), Pool(2, true, false, false, 0)];
  }

  lemma Failing(s: State, rest: seq<Op>)
    requires s == State([Pool(1, true, true, false, 0), Pool(2, true, false, false, 0)], 3, Some(1), 0)
    ensures Run(s, [Report(1, false, true, 0)] + rest)
            == Run(State([Pool(1, true, true, false, 0), Pool(2, true, false, true, 0)], 3, Some(1), 0), rest)
  {
    RunCons(s, Report(1, false, true, 0), rest);
    assert Apply(s, Report(1, false, true, 0)).0.pools
        == [Pool(1, true, true, false, 0), Pool(2, true, false, true, 0)];
  }

  lemma Fronted(s: State, rest: seq<Op>)
    requires s == State([Pool(1, true, true, false, 0), Pool(2, true, false, true, 0)], 3, Some(1), 0)
    ensures Run(s, [Switch(1)] + rest)
            == Run(State([Pool(2, true, false, true, 0), Pool(1, true, true, false, 0)], 3, Some(1), 0), rest)
  {
    RunCons(s, Switch(1), rest);
    assert Apply(s, Switch(1)).0.pools == [Pool(2, true, false, true, 0), Pool(1, true, true, false, 0)];
  }

  lemma ServeSecond(s: State)
    requires s == State([Pool(2, true, false, true, 0), Pool(1, true, true, false, 0)], 3, Some(1), 0)
    ensures Run(s, [Serve]) == s
  {
  }

  lemma Removable(s: State)
    requires s == State([Pool(2, true, false, true, 0), Pool(1, true, true, false, 0)], 3, Some(1), 0)
    ensures Apply(s, Remove(1)).1 == Done && Apply(s, Remove(1)).0.pools == [s.pools[0]]
    ensures Apply(s, Remove(0)).1 == ActivePool
  {
  }

  lemma RunCons(s: State, op: Op, rest: seq<Op>)
    ensures Run(s, [op] + rest) == Run(Apply(s, op).0, rest)
  {
  }
}
