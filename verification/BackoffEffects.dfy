/** What a back-off and a monitoring cycle do to the target, said of fields and measurements. */
module BackoffEffects {
  import opened Basics
  import opened Backoff

  /** The fields the controller never changes. */
  predicate SameRest(s: Control, s': Control) {
    && s'.orgTarget == s.orgTarget && s'.curTarget == s.curTarget
    && s'.curPower == s.curPower && s'.powerHigh == s.powerHigh
  }

  /** The step shrinks from one n-th to one n-plus-first of what it began with. */
  predicate StepShrinks(s: Control, s': Control, n: nat) {
    s'.backOffPct * ((n + 1) as real) == s.backOffPct * (n as real) && s'.nBouncingBack == n + 1
  }

  /** Backing off: the first time with a step of its own, on a turn downwards with a smaller one, and
      otherwise with the same; the target is the tuned rate less the step, at least the minimum. */
  predicate BacksOff(s: Control, s': Control, p: Plant, bigStep: bool)
    requires p.Valid()
  {
    && SameRest(s, s') && s'.targetReducing
    && (if s.nBouncingBack == 0 then s'.backOffPct == (if bigStep then 0.10 else 0.06) && s'.nBouncingBack == 1
        else if !s.targetReducing && s.backOffPct > 0.015 then StepShrinks(s, s', s.nBouncingBack)
        else s'.backOffPct == s.backOffPct && s'.nBouncingBack == s.nBouncingBack)
    && s'.target >= p.RealMin() && s'.target >= s.curTarget - s.curTarget * s'.backOffPct
    && (s'.target == p.RealMin() || s'.target == s.curTarget - s.curTarget * s'.backOffPct)
  }

  lemma ReduceBacksOff(s: Control, p: Plant, bigStep: bool)
    requires p.Valid()
    ensures BacksOff(s, Reduce(s, p, bigStep), p, bigStep)
  {
    if s.nBouncingBack > 0 {
      ShrunkTelescopes(s.backOffPct, s.nBouncingBack);
    }
    hide Shrunk;
  }

  /** Hash rate and power below a share of what they may be, and a margin below the hottest chip. */
  predicate Below(s: Control, p: Plant, r: Reading, share: real, margin: real) {
    && r.avgHashRate.Some? && r.avgHashRate.value < share * s.orgTarget
    && s.curPower < share * p.powerHighWater && r.maxTemp < p.tempHighWater - margin
  }

  /** The target is short of the original one, and nothing speaks against raising it. */
  predicate MayRaise(s: Control, p: Plant, r: Reading) {
    s.target < 0.99 * s.orgTarget && Below(s, p, r, 0.95, 10.0) && r.voltage < p.maxVoltage - 0.03
  }

  predicate Stopped(s: Control) {
    s.nBouncingBack >= 5 || s.backOffPct <= 0.015
  }

  /** The step, the bounces and the direction of a controller that goes on upwards. */
  predicate TurnsUp(s: Control, s': Control) {
    var n := if s.nBouncingBack == 0 then 1 else s.nBouncingBack;
    && !s'.targetReducing
    && (if s.targetReducing then StepShrinks(s, s', n) else s'.backOffPct == s.backOffPct && s'.nBouncingBack == n)
  }

  /** The target becomes w, if that is at least one percent more. */
  predicate TakesTarget(s: Control, s': Control, changed: bool, w: real) {
    (changed <==> w >= 1.01 * s.target) && s'.target == if changed then w else s.target
  }

  /** A target one step up. */
  function Stepped(target: real, step: real): real {
    target + target * step
  }

  /** The larger of the shares of hash rate and power that are used. */
  function Used(s: Control, p: Plant, r: Reading): real
    requires p.Valid() && s.orgTarget > 0.0 && r.avgHashRate.Some?
  {
    MaxReal(r.avgHashRate.value / s.orgTarget, s.curPower / p.powerHighWater)
  }

  /** The target at which the larger of them would be 96.5 percent. */
  function RoomFor(s: Control, p: Plant, r: Reading): real
    requires p.Valid() && s.orgTarget > 0.0 && r.avgHashRate.Some?
    requires Used(s, p, r) > 0.0
  {
    s.target * 0.965 / Used(s, p, r)
  }

  /** One monitoring cycle. After half an hour, with much room, the controller starts over from the
      original target or takes a step of ten or six percent; otherwise it goes up by the step, at most
      as far as hash rate or power would let it, unless it has stopped. */
  predicate CycleOutcome(s: Control, s': Control, changed: bool, p: Plant, r: Reading)
    requires p.Valid() && r.Valid() && s.orgTarget > 0.0
  {
    if !MayRaise(s, p, r) then s' == s && !changed
    else if r.overHalfHour && Below(s, p, r, 0.75, 25.0) then
      changed && s' == s.(target := s.orgTarget, nBouncingBack := 0)
    else if r.overHalfHour && Below(s, p, r, 0.90, 15.0) then
      var step := if Below(s, p, r, 0.80, 20.0) then 0.10 else 0.06;
      && SameRest(s, s') && s'.backOffPct == step && s'.nBouncingBack == 1 && !s'.targetReducing
      && TakesTarget(s, s', changed, MinReal(Stepped(s.target, step), s.orgTarget))
    else if Stopped(s) then s' == s && !changed
    else
      && SameRest(s, s') && TurnsUp(s, s')
      && Used(s, p, r) > 0.0
      && TakesTarget(s, s', changed, MinReal(s.orgTarget, MinReal(Stepped(s.target, s'.backOffPct),
                                                                  RoomFor(s, p, r))))
  }

  lemma Share(x: real, y: real, c: real)
    requires y > 0.0
    ensures x / y < c <==> x < c * y
  {
    assert x == (x / y) * y;
  }

  lemma AtLeastOnePercent(a: real, b: real)
    requires b > 0.0
    ensures a / b < 1.01 <==> a < 1.01 * b
  {
    Share(a, b, 1.01);
  }

  lemma BelowIs(s: Control, p: Plant, r: Reading, share: real, margin: real)
    requires p.Valid() && s.orgTarget > 0.0 && r.avgHashRate.Some?
    ensures Below(s, p, r, share, margin) <==>
            r.avgHashRate.value / s.orgTarget < share && s.curPower / p.powerHighWater < share
            && r.maxTemp < p.tempHighWater - margin
  {
    Share(r.avgHashRate.value, s.orgTarget, share);
    Share(s.curPower, p.powerHighWater, share);
  }

  lemma HasRoomIs(s: Control, p: Plant, r: Reading)
    requires p.Valid() && s.orgTarget > 0.0
    ensures MayRaise(s, p, r) <==> s.target < s.orgTarget * 0.99 && HasRoom(s, p, r)
  {
    if r.avgHashRate.Some? {
      BelowIs(s, p, r, 0.95, 10.0);
    }
  }

  lemma SuggestIs(s: Control, p: Plant, r: Reading)
    requires p.Valid() && s.orgTarget > 0.0 && HasRoom(s, p, r)
    ensures Suggest(s, p, r) ==
            if !r.overHalfHour then SameStep
            else if Below(s, p, r, 0.75, 25.0) then Reset
            else if Below(s, p, r, 0.80, 20.0) then NewStep(0.10)
            else if Below(s, p, r, 0.90, 15.0) then NewStep(0.06) else SameStep
    ensures Below(s, p, r, 0.80, 20.0) ==> Below(s, p, r, 0.90, 15.0)
  {
    BelowIs(s, p, r, 0.75, 25.0);
    BelowIs(s, p, r, 0.80, 20.0);
    BelowIs(s, p, r, 0.90, 15.0);
    hide Below;
  }

  lemma RaiseTakes(s: Control, s': Control, changed: bool, w: real)
    requires s.target > 0.0 && (s', changed) == Raise(s, w)
    ensures TakesTarget(s, s', changed, w) && s' == s.(target := s'.target)
  {
    AtLeastOnePercent(w, s.target);
  }

  lemma TurnUpTurns(s: Control)
    ensures TurnsUp(s, TurnUp(s)) && TurnUp(s).target == s.target && SameRest(s, TurnUp(s))
  {
    ShrunkTelescopes(s.backOffPct, if s.nBouncingBack == 0 then 1 else s.nBouncingBack);
    hide Shrunk;
  }

  /** The least of three, however it is taken. */
  lemma LeastOfThree(t: real, a: real, b: real, c: real)
    requires t > 0.0
    ensures MinReal(t * MinReal(a, 1.0 + b), c) == MinReal(c, MinReal(Stepped(t, b), t * a))
  {
    Scaled(t, a, 1.0 + b);
    assert t * (1.0 + b) == t + t * b;
  }

  lemma Scaled(t: real, a: real, b: real)
    requires t > 0.0
    ensures t * MinReal(a, b) == MinReal(t * a, t * b)
  {
    if a < b {
      assert t * (b - a) > 0.0;
    } else {
      assert t * (a - b) >= 0.0;
    }
  }

  /** A cycle does what it should, for all measurements. */
  lemma MonitorDoes(s: Control, p: Plant, r: Reading)
    requires p.Valid() && r.Valid() && s.orgTarget > 0.0 && s.target > 0.0
    ensures CycleOutcome(s, Monitor(s, p, r).0, Monitor(s, p, r).1, p, r)
  {
    hide Raise, TurnUp, RaisedTarget, Suggest, HasRoom, Below, MayRaise, RoomRatio, TakesTarget, TurnsUp;
    HasRoomIs(s, p, r);
    if MayRaise(s, p, r) {
      SuggestIs(s, p, r);
      if r.overHalfHour && Below(s, p, r, 0.75, 25.0) {
      } else if r.overHalfHour && Below(s, p, r, 0.90, 15.0) {
        var step := if Below(s, p, r, 0.80, 20.0) then 0.10 else 0.06;
        NewStepDoes(s, step);
      } else if !Stopped(s) {
        SameStepDoes(s, p, r);
      }
    }
  }

  lemma NewStepDoes(s: Control, step: real)
    requires s.target > 0.0
    ensures var s1 := s.(nBouncingBack := 1, backOffPct := step, targetReducing := false);
            var (s', changed) := Raise(s1, NewStepTarget(s, step));
            && s' == s1.(target := s'.target)
            && TakesTarget(s, s', changed, MinReal(Stepped(s.target, step), s.orgTarget))
  {
    var s1 := s.(nBouncingBack := 1, backOffPct := step, targetReducing := false);
    var w := NewStepTarget(s, step);
    RaiseTakes(s1, Raise(s1, w).0, Raise(s1, w).1, w);
    hide Raise;
    assert s.target * (1.0 + step) == Stepped(s.target, step);
  }

  lemma RoomIs(s: Control, p: Plant, r: Reading)
    requires p.Valid() && r.Valid() && s.orgTarget > 0.0 && HasRoom(s, p, r) && s.target > 0.0
    ensures r.avgHashRate.Some? && Used(s, p, r) > 0.0
    ensures s.target * RoomRatio(s, p, r) == RoomFor(s, p, r)
  {
    RatioAboveOne(r.avgHashRate.value / s.orgTarget, s.curPower / p.powerHighWater, r.avgHashRate.value, s.orgTarget);
  }

  lemma RaisedTargetIs(s: Control, room: real, pct: real, limit: real)
    requires s.target > 0.0 && s.target * room == limit
    ensures RaisedTarget(s, room, pct) == MinReal(s.orgTarget, MinReal(Stepped(s.target, pct), limit))
  {
    LeastOfThree(s.target, room, pct, s.orgTarget);
  }

  lemma SameStepDoes(s: Control, p: Plant, r: Reading)
    requires p.Valid() && r.Valid() && s.orgTarget > 0.0 && s.target > 0.0 && HasRoom(s, p, r)
    ensures r.avgHashRate.Some? && Used(s, p, r) > 0.0
    ensures TurnUp(s).target > 0.0
    ensures var s1 := TurnUp(s);
            var (s', changed) := Raise(s1, RaisedTarget(s, RoomRatio(s, p, r), s1.backOffPct));
            && SameRest(s, s') && TurnsUp(s, s')
            && TakesTarget(s, s', changed, MinReal(s.orgTarget, MinReal(Stepped(s.target, s'.backOffPct),
                                                                        RoomFor(s, p, r))))
  {
    hide *;
    TurnUpTurns(s);
    RoomIs(s, p, r);
    var s1, ratio := TurnUp(s), RoomRatio(s, p, r);
    var w := RaisedTarget(s, ratio, s1.backOffPct);
    RaisedTargetIs(s, ratio, s1.backOffPct, RoomFor(s, p, r));
    RaiseFrom(s, s1, w);
  }

  /** Raising the target of a controller that has just turned. */
  lemma RaiseFrom(s: Control, s1: Control, w: real)
    requires s.target == s1.target > 0.0 && SameRest(s, s1) && TurnsUp(s, s1)
    ensures var (s', changed) := Raise(s1, w);
            SameRest(s, s') && TurnsUp(s, s') && TakesTarget(s, s', changed, w) && s'.backOffPct == s1.backOffPct
  {
    RaiseTakes(s1, Raise(s1, w).0, Raise(s1, w).1, w);
    hide Raise;
  }

  // When the target is raised

  lemma StepLarge(s: Control, s': Control, p: Plant)
    requires p.Valid() && Inv(s, p) && s.target < s.orgTarget && !Stopped(s) && TurnsUp(s, s')
    ensures s'.backOffPct >= 0.015
  {
    if s.targetReducing {
      StepAfterTurn(s.backOffPct, s'.backOffPct, s.nBouncingBack);
    }
  }

  lemma StepAfterTurn(a: real, b: real, n: nat)
    requires 1 <= n <= 4 && a > 0.015 && b * ((n + 1) as real) == a * (n as real)
    requires a * (n as real) == 0.10 || a * (n as real) == 0.06
    ensures b >= 0.015
  {
    if a * (n as real) == 0.06 {
      assert n <= 3;
    }
  }

  lemma RoomLarge(s: Control, p: Plant, r: Reading)
    requires p.Valid() && r.Valid() && s.orgTarget > 0.0 && s.target > 0.0 && MayRaise(s, p, r)
    ensures Used(s, p, r) > 0.0 && RoomFor(s, p, r) >= 1.01 * s.target
  {
    HasRoomIs(s, p, r);
    var used := Used(s, p, r);
    RatioAboveOne(r.avgHashRate.value / s.orgTarget, s.curPower / p.powerHighWater, r.avgHashRate.value, s.orgTarget);
    Quotient(s.target, used);
  }

  lemma Quotient(t: real, used: real)
    requires t > 0.0 && 0.0 < used < 0.95
    ensures t * 0.965 / used >= 1.01 * t
  {
    assert t * used <= t * 0.95;
    assert 1.01 * t * used <= 0.965 * t;
    Share(t * 0.965, used, 1.01 * t);
  }

  /** In every state of a run a cycle changes the target exactly if there is room and either half an
      hour of calm with more of it, or the controller has not stopped. */
  lemma ChangesExactly(s: Control, p: Plant, r: Reading)
    requires p.Valid() && r.Valid() && Inv(s, p)
    ensures s.orgTarget > 0.0 && s.target > 0.0
    ensures Monitor(s, p, r).1 <==>
            MayRaise(s, p, r) && ((r.overHalfHour && Below(s, p, r, 0.90, 15.0)) || !Stopped(s))
    ensures Monitor(s, p, r).1 ==> Monitor(s, p, r).0.target >= 1.01 * s.target
  {
    RealMinBounds(p);
    MonitorDoes(s, p, r);
    if MayRaise(s, p, r) {
      RoomLarge(s, p, r);
      if !Stopped(s) {
        StillLarge(s, Monitor(s, p, r).0, p);
      }
    }
    hide Monitor, Inv, RoomFor, Used;
  }

  lemma StillLarge(s: Control, s': Control, p: Plant)
    requires p.Valid() && Inv(s, p) && s.target < s.orgTarget && !Stopped(s)
    ensures TurnsUp(s, s') ==> Stepped(s.target, s'.backOffPct) >= 1.01 * s.target
  {
    RealMinBounds(p);
    if TurnsUp(s, s') {
      StepLarge(s, s', p);
      assert s.target * s'.backOffPct >= s.target * 0.015;
    }
  }

  /** n times one percent more. */
  function Grown(target: real, n: nat): real {
    if n == 0 then target else 1.01 * Grown(target, n - 1)
  }

  lemma {:induction false} GrownMore(a: real, b: real, n: nat)
    requires a <= b
    ensures Grown(a, n) <= Grown(b, n)
  {
    if n > 0 {
      GrownMore(a, b, n - 1);
    }
  }

  lemma {:induction false} GrownAtLeast(a: real, n: nat)
    requires a >= 0.0
    ensures Grown(a, n) >= a
  {
    if n > 0 {
      GrownAtLeast(a, n - 1);
    }
  }

  lemma {:induction false} GrownFirst(a: real, n: nat)
    ensures Grown(1.01 * a, n) == Grown(a, n + 1)
  {
    if n > 0 {
      GrownFirst(a, n - 1);
    }
  }

  function Cycles(rs: seq<Reading>): (es: seq<Event>)
    ensures |es| == |rs| && forall i :: 0 <= i < |rs| ==> es[i] == Cycle(rs[i])
  {
    seq(|rs|, i requires 0 <= i < |rs| => Cycle(rs[i]))
  }

  /** Whatever the target, nothing speaks against raising it. */
  predicate Roomy(s: Control, p: Plant, r: Reading) {
    r.Valid() && Below(s, p, r, 0.95, 10.0) && r.voltage < p.maxVoltage - 0.03
  }

  /** One cycle of a controller that goes upwards: it keeps on, at least one percent higher, or has
      come back to the original target. */
  lemma OneClimb(s: Control, p: Plant, r: Reading)
    requires p.Valid() && Inv(s, p) && Roomy(s, p, r) && !s.targetReducing && !Stopped(s)
    ensures s.orgTarget > 0.0 && s.target > 0.0
    ensures var s' := Monitor(s, p, r).0;
            && s'.orgTarget == s.orgTarget && s'.curPower == s.curPower
            && (s.target >= 0.99 * s.orgTarget ==> s' == s)
            && (s.target < 0.99 * s.orgTarget ==>
                  s'.target >= 0.99 * s.orgTarget
                  || (s'.target >= 1.01 * s.target && !s'.targetReducing && !Stopped(s')))
  {
    RealMinBounds(p);
    MonitorDoes(s, p, r);
    ChangesExactly(s, p, r);
    hide Monitor, Inv, RoomFor, Used, StepShrinks, TakesTarget;
  }

  /** With room at every cycle and no slow-down, a controller that goes upwards and has not stopped
      gains at least one percent in each cycle until it is back at 99 percent of the original target. */
  lemma {:induction false} Recovers(s: Control, p: Plant, rs: seq<Reading>)
    requires p.Valid() && Inv(s, p) && (forall r :: r in rs ==> Roomy(s, p, r))
    requires s.target >= 0.99 * s.orgTarget || (!s.targetReducing && !Stopped(s))
    ensures forall e :: e in Cycles(rs) ==> ValidEvent(e)
    ensures var s' := Run(s, p, Cycles(rs));
            s'.target >= 0.99 * s.orgTarget || s'.target >= Grown(s.target, |rs|)
    decreases |rs|
  {
    assert forall e :: e in Cycles(rs) ==> exists i :: 0 <= i < |rs| && e == Cycle(rs[i]);
    if rs != [] {
      assert Cycles(rs)[1..] == Cycles(rs[1..]) && rs[0] in rs && forall r :: r in rs[1..] ==> r in rs;
      CycleKeeps(s, p, rs[0]);
      var s1 := Step(s, p, Cycle(rs[0]));
      Recovers(s1, p, rs[1..]);
      RunFirst(s, p, Cycles(rs));
      hide Step, Run, Grown, Stopped, Inv, Below;
      GrownFirst(s.target, |rs| - 1);
      GrownAtLeast(s1.target, |rs| - 1);
      if s1.target >= 1.01 * s.target {
        GrownMore(1.01 * s.target, s1.target, |rs| - 1);
      }
    }
  }

  lemma RunFirst(s: Control, p: Plant, es: seq<Event>)
    requires p.Valid() && Inv(s, p) && (forall e :: e in es ==> ValidEvent(e)) && es != []
    ensures ValidEvent(es[0]) && forall e :: e in es[1..] ==> ValidEvent(e)
    ensures Run(s, p, es) == Run(Step(s, p, es[0]), p, es[1..])
  {
    assert es[0] in es;
  }

  lemma CycleKeeps(s: Control, p: Plant, r: Reading)
    requires p.Valid() && Inv(s, p) && Roomy(s, p, r)
    requires s.target >= 0.99 * s.orgTarget || (!s.targetReducing && !Stopped(s))
    ensures ValidEvent(Cycle(r))
    ensures var s1 := Step(s, p, Cycle(r));
            && s1.orgTarget == s.orgTarget && s1.curPower == s.curPower && s1.target >= 0.0
            && (s1.target >= 0.99 * s.orgTarget
                || (s1.target >= 1.01 * s.target && !s1.targetReducing && !Stopped(s1)))
  {
    RealMinBounds(p);
    if s.target < 0.99 * s.orgTarget {
      OneClimb(s, p, r);
    } else {
      MonitorDoes(s, p, r);
    }
    hide Monitor, Inv, RoomFor, Used, StepShrinks, TakesTarget;
  }
}
