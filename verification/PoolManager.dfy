/** The pool table as the program keeps it: shared pool objects, renumbered in place. */
module PoolManager {
  import opened Basics
  import opened PoolTable

  class PoolRuntime {
    var ID: nat
    var priority: int
    const seqNo: nat
    var enabled: bool
    var running: bool
    var unreachable: bool
    var seqRejected: nat
    var bExit: bool

    constructor (id: nat, priority: int, seqNo: nat)
      ensures ID == id && this.priority == priority && this.seqNo == seqNo && !bExit
      ensures View() == Pool(seqNo, true, false, false, 0)
    {
      ID, this.priority, this.seqNo := id, priority, seqNo;
      enabled, running, unreachable, seqRejected, bExit := true, false, false, 0, false;
    }

    function View(): Pool
      reads `enabled, `running, `unreachable, `seqRejected
    {
      Pool(seqNo, enabled, running, unreachable, seqRejected)
    }

    method Stop()
      modifies this`bExit
      ensures bExit
    {
      bExit := true;
    }

    /** Puts the pool to work; its routine sets `running` when it begins. */
    method Start()
      modifies this`enabled, this`running, this`unreachable, this`seqRejected, this`bExit
      ensures View() == old(View()).Started() && !bExit
    {
      enabled := true;
      running := false;
      unreachable := false;
      seqRejected := 0;
      bExit := false;
      running := true;
    }
  }

  /** The list shows the pools as they are. */
  ghost predicate Mirrors(views: seq<Pool>, pools: seq<PoolRuntime>)
    reads pools`enabled, pools`running, pools`unreachable, pools`seqRejected
  {
    |views| == |pools| && forall i :: 0 <= i < |pools| ==> views[i] == pools[i].View()
  }

  ghost predicate Numbered(pools: seq<PoolRuntime>)
    reads pools`ID, pools`priority
  {
    forall i :: 0 <= i < |pools| ==> pools[i].ID == pools[i].priority == i
  }

  /** The numbers have a gap where pool `id` was taken out. */
  ghost predicate Gapped(pools: seq<PoolRuntime>, id: nat)
    reads pools`ID, pools`priority
  {
    forall j :: 0 <= j < |pools| ==> pools[j].ID == pools[j].priority == if j < id then j else j + 1
  }

  /** No other pool has the sequence number of p. */
  predicate Knows(pools: seq<PoolRuntime>, p: PoolRuntime?) {
    p != null ==> forall i :: 0 <= i < |pools| && pools[i].seqNo == p.seqNo ==> pools[i] == p
  }

  lemma PoolsDiffer(views: seq<Pool>, pools: seq<PoolRuntime>, next: nat)
    requires Mirrors(views, pools) && Distinct(views, next)
    ensures NoDuplicates(pools) && |views| == |pools|
  {
  }

  lemma Removal(views: seq<Pool>, pools: seq<PoolRuntime>, id: nat, p: PoolRuntime?)
    requires Mirrors(views, pools) && Numbered(pools) && NoDuplicates(pools) && Knows(pools, p) && id < |pools|
    ensures |views| == |pools| && |RemoveAt(pools, id)| == |pools| - 1
    ensures Mirrors(RemoveAt(views, id), RemoveAt(pools, id)) && Knows(RemoveAt(pools, id), p)
    ensures NoDuplicates(RemoveAt(pools, id)) && Gapped(RemoveAt(pools, id), id) && pools[id].priority == id
    ensures forall x :: x in RemoveAt(pools, id) ==> x in pools
  {
  }

  lemma Move(views: seq<Pool>, pools: seq<PoolRuntime>, id: nat, p: PoolRuntime?)
    requires Mirrors(views, pools) && Knows(pools, p) && id < |pools|
    ensures |views| == |pools| && Mirrors(MoveToFront(views, id), MoveToFront(pools, id))
    ensures Knows(MoveToFront(pools, id), p)
    ensures forall x :: x in MoveToFront(pools, id) ==> x in pools
  {
  }

  lemma Append(views: seq<Pool>, pools: seq<PoolRuntime>, pool: PoolRuntime, p: PoolRuntime?)
    requires Mirrors(views, pools) && Numbered(pools) && Knows(pools, p)
    requires pool.ID == pool.priority == |pools| && (p != null ==> p.seqNo != pool.seqNo)
    ensures Mirrors(views + [pool.View()], pools + [pool]) && Numbered(pools + [pool]) && Knows(pools + [pool], p)
  {
  }

  lemma FrontStays(pools: seq<PoolRuntime>, views: seq<Pool>, id: nat)
    requires id < |pools| == |views|
    ensures MoveToFront(pools, id)[0] == pools[id]
    ensures MoveToFront(pools, 0) == pools && MoveToFront(views, 0) == views
  {
  }

  lemma EnabledInFront(views: seq<Pool>, id: nat)
    requires id < |views|
    ensures var p := views[id].(enabled := true);
            MoveToFront(views[id := p], id) == MoveToFront(views, id)[0 := p] && MoveToFront(views, id)[0] == views[id]
  {
  }

  class PoolManager {
    var currentPoolIndex: nat
    var pools: seq<PoolRuntime>
    var seqNo: nat
    var currentPool: PoolRuntime?
    ghost var views: seq<Pool>

    /** Every pool's id and priority is its index, `views` shows the pools, and they are all different,
        the one in use included. */
    ghost predicate Valid()
      reads this, pools
    {
      && Numbered(pools) && Mirrors(views, pools) && Inv(View()) && Knows(pools, currentPool)
      && (currentPool != null ==> currentPool.seqNo < seqNo)
    }

    ghost function View(): State
      reads this
    {
      State(views, seqNo, if currentPool == null then None else Some(currentPool.seqNo), currentPoolIndex)
    }

    constructor ()
      ensures Valid() && View() == State([], 1, None, MAX_POOL_NUMBER + 1000)
    {
      pools, views, seqNo, currentPool, currentPoolIndex := [], [], 1, null, MAX_POOL_NUMBER + 1000;
    }

    /** The same object never stands in the table twice. */
    lemma AllDifferent()
      requires Valid()
      ensures NoDuplicates(pools) && |views| == |pools| <= MAX_POOL_NUMBER
    {
    }

    method AddPool(valid: bool) returns (id: nat, reply: Reply)
      requires Valid()
      modifies this`pools, this`views, this`seqNo
      ensures Valid() && (View(), reply) == PoolTable.AddPool(old(View()), valid)
      ensures reply == Done ==> id < |pools| && pools[..id] == old(pools) && fresh(pools[id]) && pools[id].ID == id
    {
      hide Numbered, Mirrors, Inv, Knows, NoDuplicates;
      AllDifferent();
      var total := |pools|;
      if total >= MAX_POOL_NUMBER {
        return 0, TooMany;
      }
      if !valid {
        return 0, BadDetail;
      }
      ApplyKeeps(View(), Add(true));
      var pool := new PoolRuntime(total, total, seqNo);
      Append(views, pools, pool, currentPool);
      seqNo := seqNo + 1;
      pools := pools + [pool];
      views := views + [pool.View()];
      return total, Done;
    }

    method RemovePool(id: nat) returns (reply: Reply)
      requires Valid()
      modifies this`pools, this`views, pools`ID, pools`priority, pools`bExit
      ensures Valid() && (View(), reply) == PoolTable.RemovePool(old(View()), id)
      ensures reply == Done ==> pools == RemoveAt(old(pools), id) && old(pools)[id].bExit
    {
      hide Numbered, Mirrors, Inv, Knows, NoDuplicates, Gapped;
      AllDifferent();
      var total := |pools|;
      if total <= 1 {
        return LastPool;
      }
      if id >= total {
        return BadId;
      }
      if id == currentPoolIndex {
        return ActivePool;
      }
      ApplyKeeps(View(), Remove(id));
      IsNumbered(pools, id);
      pools[id].Stop();
      TakeOut(id);
      return Done;
    }

    /** Takes a pool out of the table. */
    method TakeOut(id: nat)
      requires Valid() && id < |pools| == |views| && Inv(View().(pools := RemoveAt(views, id)))
      modifies this`pools, this`views, pools`ID, pools`priority
      ensures Valid() && pools == RemoveAt(old(pools), id) && views == RemoveAt(old(views), id)
    {
      hide Numbered, Mirrors, Inv, Knows, NoDuplicates, Gapped;
      AllDifferent();
      Removal(views, pools, id, currentPool);
      var pool := pools[id];
      pools := pools[..id] + pools[id + 1..];
      views := RemoveAt(views, id);
      RenumberAfter(id, pool.priority);
    }

    /** Closes the gap left in the numbers by a removed pool. */
    method RenumberAfter(id: nat, priority: int)
      requires NoDuplicates(pools) && priority == id && Gapped(pools, id)
      modifies pools`ID, pools`priority
      ensures Numbered(pools)
    {
      for k := 0 to |pools|
        invariant forall j :: 0 <= j < |pools| ==>
          pools[j].ID == pools[j].priority == if j < k || j < id then j else j + 1
      {
        if pools[k].priority > priority {
          pools[k].priority := pools[k].priority - 1;
        }
        if pools[k].ID > id {
          pools[k].ID := pools[k].ID - 1;
        }
      }
    }

    method EnablePool(id: nat) returns (reply: Reply)
      requires Valid()
      modifies this`views, pools`enabled
      ensures Valid() && pools == old(pools) && (View(), reply) == SetEnabled(old(View()), id, true)
    {
      hide Inv, Numbered, Knows;
      AllDifferent();
      if id >= |pools| {
        return BadId;
      }
      var pool := pools[id];
      if pool.enabled {
        return AlreadyEnabled;
      } else {
        ApplyKeeps(View(), Enable(id));
        pool.enabled := true;
        views := views[id := views[id].(enabled := true)];
      }
      return Done;
    }

    method DisablePool(id: nat) returns (reply: Reply)
      requires Valid()
      modifies this`views, pools`enabled
      ensures Valid() && pools == old(pools) && (View(), reply) == SetEnabled(old(View()), id, false)
    {
      hide Inv, Numbered, Knows;
      AllDifferent();
      if id >= |pools| {
        return BadId;
      }
      var pool := pools[id];
      if pool.enabled {
        ApplyKeeps(View(), Disable(id));
        pool.enabled := false;
        views := views[id := views[id].(enabled := false)];
      } else {
        return AlreadyDisabled;
      }
      return Done;
    }

    /** Moves a pool to the front, numbers the pools anew and enables it. */
    method SwitchPool(id: nat) returns (reply: Reply)
      requires Valid()
      modifies this`pools, this`views, pools`ID, pools`priority, pools`enabled
      ensures Valid() && (View(), reply) == PoolTable.SwitchPool(old(View()), id)
      ensures reply == Done ==> pools == MoveToFront(old(pools), id)
    {
      hide Numbered, Mirrors, Inv, Knows, NoDuplicates, MoveToFront;
      AllDifferent();
      if id >= |pools| {
        return BadId;
      }
      FrontStays(pools, views, id);
      EnabledInFront(views, id);
      var pool := pools[id];
      IsNumbered(pools, id);
      if pool.ID != 0 {
        MoveFirst(id);
      }
      EnableFirst(pool);
      return Done;
    }

    /** Moves a pool to the front and numbers the pools anew. */
    method MoveFirst(id: nat)
      requires Valid() && id < |pools|
      modifies this`pools, this`views, pools`ID, pools`priority
      ensures Valid() && pools == MoveToFront(old(pools), id) && views == MoveToFront(old(views), id)
    {
      hide Numbered, Mirrors, Inv, Knows, NoDuplicates;
      AllDifferent();
      MoveKeepsInv(View(), id);
      Move(views, pools, id, currentPool);
      Renumber(id);
      views := MoveToFront(views, id);
    }

    method Renumber(id: nat)
      requires id < |pools| && NoDuplicates(pools) && Numbered(pools)
      modifies this`pools, pools`ID, pools`priority
      ensures pools == MoveToFront(old(pools), id) && Numbered(pools)
    {
      var pool := pools[id];
      ShiftDown(id);
      pools := pools[0 := pool];
      pool.ID := 0;
      pool.priority := 0;
      IsMoved(old(pools), pools, id);
    }

    method EnableFirst(pool: PoolRuntime)
      requires Valid() && pools != [] && pool == pools[0]
      modifies this`views, pool`enabled
      ensures Valid() && views == old(views)[0 := old(views)[0].(enabled := true)]
    {
      hide Inv, Numbered, Knows;
      AllDifferent();
      EnableKeepsInv(View(), 0);
      pool.enabled := true;
      views := views[0 := views[0].(enabled := true)];
    }

    /** Moves the pools before number id one place down. */
    method ShiftDown(id: nat)
      requires id < |pools| && NoDuplicates(pools) && Numbered(pools)
      modifies this`pools, pools`ID, pools`priority
      ensures |pools| == |old(pools)|
      ensures forall j :: 0 <= j < |pools| ==> pools[j] == old(pools)[if 1 <= j <= id then j - 1 else j]
      ensures forall j :: 0 <= j < |pools| ==>
                old(pools)[j].ID == old(pools)[j].priority == if j < id then j + 1 else j
    {
      ghost var was := pools;
      var k := id;
      while k > 0
        invariant 0 <= k <= id && |pools| == |was|
        invariant forall j :: 0 <= j < |was| ==> pools[j] == was[if k < j <= id then j - 1 else j]
        invariant forall j :: 0 <= j < |was| ==> was[j].ID == was[j].priority == if k <= j < id then j + 1 else j
      {
        pools := pools[k := pools[k - 1]];
        pools[k].priority := pools[k].priority + 1;
        pools[k].ID := pools[k].ID + 1;
        k := k - 1;
      }
    }

    method FindPoolWithPriority(prio: int) returns (pool: PoolRuntime?)
      requires Valid()
      ensures 0 <= prio < |pools| ==> pool == pools[prio]
      ensures !(0 <= prio < |pools|) ==> pool == null
    {
      AllDifferent();
      if prio < 0 || prio >= |pools| || prio >= MAX_POOL_NUMBER {
        return null;
      }
      for i := 0 to |pools|
        invariant i <= prio
      {
        if pools[i].priority == prio {
          return pools[i];
        }
      }
      return null;
    }

    /** The enabled and healthy pool of the highest priority, or else the enabled one. */
    method SchedulePool() returns (pool: PoolRuntime?)
      requires Valid()
      ensures match Scheduled(views)
              case None => pool == null
              case Some(i) => pool == pools[i]
    {
      hide Inv, Knows, Numbered, First, Scheduled;
      AllDifferent();
      var pool1: PoolRuntime? := null;
      var pool2: PoolRuntime? := null;
      ghost var i1, i2 := 0, 0;
      for prio := 0 to MAX_POOL_NUMBER
        invariant pool1 == null ==> forall j :: 0 <= j < prio && j < |pools| ==> !Usable(views[j])
        invariant pool1 != null ==> 0 <= i1 < |pools| && pool1 == pools[i1] && Usable(views[i1])
                                    && forall j :: 0 <= j < i1 ==> !Usable(views[j])
        invariant pool2 == null ==> forall j :: 0 <= j < prio && j < |pools| && views[j].enabled ==> Usable(views[j])
        invariant pool2 != null ==> 0 <= i2 < |pools| && pool2 == pools[i2] && views[i2].enabled
                                    && forall j :: 0 <= j < i2 && views[j].enabled ==> Usable(views[j])
      {
        var p := FindPoolWithPriority(prio);
        if p == null {
          continue;
        }
        assert views[prio] == p.View();
        if p.enabled {
          if p.seqRejected > MAX_POOL_SEQREJECT || p.unreachable {
            if pool2 == null {
              pool2 := p;
              i2 := prio;
            }
          } else {
            if pool1 == null {
              pool1 := p;
              i1 := prio;
            }
          }
        }
      }
      if pool1 != null {
        ScheduledIs(views, i1);
        return pool1;
      }
      if pool2 != null { ScheduledIs(views, i2); } else { NoneScheduled(views); }
      return pool2;
    }

    /** One turn of the manager's loop. */
    method ServeOnce()
      requires Valid()
      modifies this`currentPool, this`currentPoolIndex, this`views, pools, currentPool
      ensures Valid() && View() == ServeNext(old(View()))
    {
      hide Scheduled, Inv, Knows, Numbered;
      AllDifferent();
      var pool := SchedulePool();
      if pool == null {
        return;
      }
      ghost var i := Scheduled(views).value;
      if !pool.running {
        StartKeepsInv(View(), i);
        pool.Start();
        views := views[i := views[i].Started()];
      }
      TakeInUse(pool, i);
    }

    /** Stops the pool in use so far, if it is another one. */
    method TakeInUse(pool: PoolRuntime, ghost i: nat)
      requires Valid() && i < |pools| && pool == pools[i]
      modifies this`currentPool, this`currentPoolIndex, (if currentPool == null then {} else {currentPool})`bExit
      ensures Valid() && pools == old(pools) && views == old(views) && seqNo == old(seqNo)
      ensures var inUse := Some(pool.seqNo);
              View() == old(View()).(inUse := inUse,
                                     currentIndex := if old(View()).inUse == inUse then old(currentPoolIndex) else i)
    {
      PoolsDiffer(views, pools, seqNo);
      if currentPool != pool {
        if currentPool != null {
          currentPool.Stop();
        }
        currentPool := pool;
        currentPoolIndex := currentPool.ID;
      }
    }
  }

  lemma IsNumbered(pools: seq<PoolRuntime>, id: nat)
    requires id < |pools| && Numbered(pools)
    ensures pools[id].ID == id
  {
  }

  lemma MoveKeepsInv(s: State, id: nat)
    requires Inv(s) && id < |s.pools|
    ensures Inv(s.(pools := MoveToFront(s.pools, id)))
  {
  }

  lemma EnableKeepsInv(s: State, id: nat)
    requires Inv(s) && id < |s.pools|
    ensures Inv(s.(pools := s.pools[id := s.pools[id].(enabled := true)]))
  {
  }

  lemma StartKeepsInv(s: State, id: nat)
    requires Inv(s) && id < |s.pools|
    ensures Inv(s.(pools := s.pools[id := s.pools[id].Started()]))
  {
  }
}
