/** The hash-rate controller: backing off when power is too high, raising when there is room. */
module Backoff {
  import opened Basics

  const BIG_STEP: real := 0.10
  const SMALL_STEP: real := 0.06
  const MIN_STEP: real := 0.015
  const THS_MIN: real := 30.0

  /** Limits that do not change while the controller runs. */
  datatype Plant = Plant(boards: nat, chains: nat, powerHighWater: real, powerLowWater: real,
                         maxVoltage: real, tempHighWater: real)
  {
    predicate Valid() { 1 <= boards <= chains && powerHighWater > 0.0 }

    /** The least target for the boards that are present. */
    function RealMin(): real
      requires Valid()
    {
      THS_MIN * (boards as real) / (chains as real)
    }
  }

  /** The package variables of the controller. */
  datatype Control = Control(orgTarget: real, target: real, curTarget: real, backOffPct: real,
                             nBouncingBack: nat, targetReducing: bool, curPower: real, powerHigh: bool)

  function Start(org: real, pct: real): Control {
    Control(org, org, org, pct, 0, false, 0.0, false)
  }

  function Shrunk(pct: real, n: nat): real {
    pct * ((n as real) / ((n + 1) as real))
  }

  /** Lowers the target below the rate that is being tuned for. */
  function Reduce(s: Control, p: Plant, bigStep: bool): Control
    requires p.Valid()
  {
    var first := s.nBouncingBack == 0;
    var smaller := !first && !s.targetReducing && s.backOffPct > MIN_STEP;
    var pct := if first then (if bigStep then BIG_STEP else SMALL_STEP)
               else if smaller then Shrunk(s.backOffPct, s.nBouncingBack)
               else s.backOffPct;
    s.(backOffPct := pct,
       nBouncingBack := if first || smaller then s.nBouncingBack + 1 else s.nBouncingBack,
       targetReducing := true,
       target := MaxReal(s.curTarget * (1.0 - pct), p.RealMin()))
  }

  /** One power reading; readings of 20 kW and more are ignored. */
  function ReadPower(s: Control, p: Plant, reading: real): Control {
    var power := if reading < 20000.0 then reading else s.curPower;
    s.(curPower := power,
       powerHigh := if power > p.powerHighWater then true
                    else if s.powerHigh && power < p.powerLowWater then false
                    else s.powerHigh)
  }

  predicate MustSlowDown(s: Control, p: Plant) {
    s.curPower > p.powerHighWater && s.curTarget > THS_MIN
  }

  /** The power part of the check made about every second. */
  function CheckPower(s: Control, p: Plant, reading: real, hitrate: real): Control
    requires p.Valid()
  {
    var s1 := ReadPower(s, p, reading);
    if MustSlowDown(s1, p) then Reduce(s1, p, hitrate < 0.95) else s1
  }

  /** What a monitoring cycle measures. The average hash rate is missing while no rate above 0 has
      been recorded (a division by zero in the program, which makes every comparison false). */
  datatype Reading = Reading(avgHashRate: Option<real>, overHalfHour: bool, voltage: real, maxTemp: real)
  {
    predicate Valid() { avgHashRate.Some? ==> avgHashRate.value > 0.0 }
  }

  predicate HasRoom(s: Control, p: Plant, r: Reading)
    requires p.Valid() && s.orgTarget > 0.0
  {
    && r.avgHashRate.Some?
    && r.avgHashRate.value / s.orgTarget < 0.95 && s.curPower / p.powerHighWater < 0.95
    && r.voltage < p.maxVoltage - 0.03 && r.maxTemp < p.tempHighWater - 10.0
  }

  datatype Suggestion = Reset | NewStep(pct: real) | SameStep

  /** After half an hour of calm the controller starts over, or takes a larger step. */
  function Suggest(s: Control, p: Plant, r: Reading): Suggestion
    requires p.Valid() && s.orgTarget > 0.0 && HasRoom(s, p, r)
  {
    var hashpct, pwrpct := r.avgHashRate.value / s.orgTarget, s.curPower / p.powerHighWater;
    if !r.overHalfHour then SameStep
    else if hashpct < 0.75 && pwrpct < 0.75 && r.maxTemp < p.tempHighWater - 25.0 then Reset
    else if hashpct < 0.8 && pwrpct < 0.8 && r.maxTemp < p.tempHighWater - 20.0 then NewStep(BIG_STEP)
    else if hashpct < 0.90 && pwrpct < 0.90 && r.maxTemp < p.tempHighWater - 15.0 then NewStep(SMALL_STEP)
    else SameStep
  }

  /** How far the measurements would let the target rise. */
  function RoomRatio(s: Control, p: Plant, r: Reading): (ratio: real)
    requires p.Valid() && r.Valid() && s.orgTarget > 0.0 && HasRoom(s, p, r)
    ensures ratio > 1.0
  {
    var hashpct, pwrpct := r.avgHashRate.value / s.orgTarget, s.curPower / p.powerHighWater;
    RatioAboveOne(hashpct, pwrpct, r.avgHashRate.value, s.orgTarget);
    if hashpct < pwrpct then 0.965 / pwrpct else 0.965 / hashpct
  }

  lemma RatioAboveOne(hashpct: real, pwrpct: real, h: real, org: real)
    requires h > 0.0 && org > 0.0 && hashpct == h / org && hashpct < 0.95 && pwrpct < 0.95
    ensures hashpct > 0.0
    ensures (if hashpct < pwrpct then 0.965 / pwrpct else 0.965 / hashpct) > 1.0
  {
  }

  /** Raises the target to newTarget, but not for less than one percent. */
  function Raise(s: Control, newTarget: real): (Control, bool)
    requires s.target > 0.0
  {
    if newTarget / s.target < 1.01 then (s, false) else (s.(target := newTarget), true)
  }

  /** The step for going up: smaller than the last one if that went down. */
  function TurnUp(s: Control): Control {
    var n := if s.nBouncingBack == 0 then 1 else s.nBouncingBack;
    if s.targetReducing
    then s.(backOffPct := Shrunk(s.backOffPct, n), nBouncingBack := n + 1, targetReducing := false)
    else s.(nBouncingBack := n)
  }

  /** The target grows by the room there is or by the step, and never beyond the user's setting. */
  function RaisedTarget(s: Control, room: real, pct: real): real {
    MinReal(s.target * MinReal(room, 1.0 + pct), s.orgTarget)
  }

  function NewStepTarget(s: Control, pct: real): real {
    MinReal(s.target * (1.0 + pct), s.orgTarget)
  }

  /** A monitoring cycle: true when the target changed. */
  function Monitor(s: Control, p: Plant, r: Reading): (Control, bool)
    requires p.Valid() && r.Valid() && s.orgTarget > 0.0 && s.target > 0.0
  {
    if s.target >= s.orgTarget * 0.99 || !HasRoom(s, p, r) then (s, false)
    else
      match Suggest(s, p, r)
      case Reset => (s.(target := s.orgTarget, nBouncingBack := 0), true)
      case NewStep(pct) =>
        var s1 := s.(nBouncingBack := 1, backOffPct := pct, targetReducing := false);
        Raise(s1, NewStepTarget(s, pct))
      case SameStep =>
        if s.nBouncingBack >= 5 || s.backOffPct <= MIN_STEP then (s, false)
        else
          Raise(TurnUp(s), RaisedTarget(s, RoomRatio(s, p, r), TurnUp(s).backOffPct))
  }

  // What every step keeps

  /** The back-off step times the number of bounces is always the first step. */
  predicate Telescopes(s: Control) {
    s.nBouncingBack >= 1 ==>
      var product := s.backOffPct * (s.nBouncingBack as real);
      product == BIG_STEP || (product == SMALL_STEP && s.nBouncingBack <= 4)
  }

  predicate Inv(s: Control, p: Plant)
    requires p.Valid()
  {
    && s.orgTarget >= p.RealMin() && s.curTarget == s.orgTarget
    && p.RealMin() <= s.target <= s.orgTarget
    && (s.nBouncingBack == 0 ==> s.target == s.orgTarget)
    && Telescopes(s)
    && s.nBouncingBack <= 6 && (!s.targetReducing ==> s.nBouncingBack <= 5)
  }

  lemma RealMinBounds(p: Plant)
    requires p.Valid()
    ensures 0.0 < p.RealMin() <= THS_MIN && p.RealMin() * (p.chains as real) == 30.0 * (p.boards as real)
  {
  }

  lemma ShrunkTelescopes(pct: real, n: nat)
    requires n >= 1
    ensures Shrunk(pct, n) * ((n + 1) as real) == pct * (n as real)
  {
  }

  lemma StepInRange(s: Control)
    requires Telescopes(s) && s.nBouncingBack >= 1
    ensures 0.0 < s.backOffPct <= BIG_STEP
  {
  }

  lemma ReduceKeeps(s: Control, p: Plant, bigStep: bool)
    requires p.Valid() && Inv(s, p)
    ensures Inv(Reduce(s, p, bigStep), p)
  {
  }

  lemma CheckPowerKeeps(s: Control, p: Plant, reading: real, hitrate: real)
    requires p.Valid() && Inv(s, p)
    ensures Inv(CheckPower(s, p, reading, hitrate), p)
  {
  }

  lemma GrowthInRange(t: real, ratio: real, org: real)
    requires 0.0 < t <= org && ratio >= 1.0
    ensures t <= MinReal(t * ratio, org) <= org
  {
  }

  lemma MonitorKeeps(s: Control, p: Plant, r: Reading)
    requires p.Valid() && r.Valid() && Inv(s, p)
    ensures s.orgTarget > 0.0 && s.target > 0.0
    ensures Inv(Monitor(s, p, r).0, p)
    ensures Monitor(s, p, r).1 <==> Monitor(s, p, r).0.target != s.target
  {
    RealMinBounds(p);
    if s.target < s.orgTarget * 0.99 && HasRoom(s, p, r) {
      assert s.nBouncingBack >= 1;
      match Suggest(s, p, r)
      case Reset =>
      case NewStep(pct) =>
        GrowthInRange(s.target, 1.0 + pct, s.orgTarget);
        RaiseKeeps(s.(nBouncingBack := 1, backOffPct := pct, targetReducing := false), p,
                   NewStepTarget(s, pct));
      case SameStep =>
        StepInRange(s);
        ShrunkTelescopes(s.backOffPct, s.nBouncingBack);
        SameStepKeeps(s, p, r);
    }
  }

  lemma RaiseKeeps(s: Control, p: Plant, newTarget: real)
    requires p.Valid() && Inv(s, p) && s.target > 0.0 && s.nBouncingBack >= 1
    requires s.target <= newTarget <= s.orgTarget
    ensures Inv(Raise(s, newTarget).0, p)
    ensures Raise(s, newTarget).1 <==> Raise(s, newTarget).0.target != s.target
  {
    SelfQuotient(s.target);
  }

  lemma SelfQuotient(x: real)
    requires x > 0.0
    ensures x / x == 1.0
  {
  }

  lemma SameStepKeeps(s: Control, p: Plant, r: Reading)
    requires p.Valid() && r.Valid() && Inv(s, p) && s.orgTarget > 0.0 && s.target > 0.0 && s.nBouncingBack >= 1
    requires s.target < s.orgTarget * 0.99 && HasRoom(s, p, r) && Suggest(s, p, r) == SameStep
    ensures Inv(Monitor(s, p, r).0, p)
    ensures Monitor(s, p, r).1 <==> Monitor(s, p, r).0.target != s.target
  {
    if s.nBouncingBack < 5 && s.backOffPct > MIN_STEP {
      hide Shrunk, HasRoom, Suggest, TurnUp, RaisedTarget, Raise, MinReal, Inv;
      var s1, room := TurnUp(s), RoomRatio(s, p, r);
      TurnUpKeeps(s, p);
      RaisedInRange(s, s1, p, room);
      RaiseKeeps(s1, p, RaisedTarget(s, room, s1.backOffPct));
    }
  }

  lemma RaisedInRange(s: Control, s1: Control, p: Plant, room: real)
    requires p.Valid() && Inv(s1, p) && s1.nBouncingBack >= 1 && room > 1.0
    requires s1.target == s.target && s1.orgTarget == s.orgTarget && 0.0 < s.target
    ensures s.target <= RaisedTarget(s, room, s1.backOffPct) <= s.orgTarget
  {
    StepInRange(s1);
    hide Telescopes;
    GrowthInRange(s.target, MinReal(room, 1.0 + s1.backOffPct), s.orgTarget);
  }

  lemma TurnUpKeeps(s: Control, p: Plant)
    requires p.Valid() && Inv(s, p) && 1 <= s.nBouncingBack < 5 && s.backOffPct > MIN_STEP
    ensures Inv(TurnUp(s), p) && TurnUp(s).nBouncingBack >= 1
    ensures TurnUp(s).target == s.target && TurnUp(s).orgTarget == s.orgTarget
  {
  }

  // Whole runs

  datatype Event = PowerCheck(power: real, hitrate: real) | Cycle(r: Reading)

  predicate ValidEvent(e: Event) {
    e.Cycle? ==> e.r.Valid()
  }

  function Step(s: Control, p: Plant, e: Event): (s': Control)
    requires p.Valid() && Inv(s, p) && ValidEvent(e)
    ensures Inv(s', p)
  {
    match e
    case PowerCheck(power, hitrate) =>
      CheckPowerKeeps(s, p, power, hitrate);
      CheckPower(s, p, power, hitrate)
    case Cycle(r) =>
      MonitorKeeps(s, p, r);
      Monitor(s, p, r).0
  }

  function Run(s: Control, p: Plant, es: seq<Event>): (s': Control)
    requires p.Valid() && Inv(s, p) && forall e :: e in es ==> ValidEvent(e)
    ensures Inv(s', p)
    decreases |es|
  {
    if es == [] then s else Run(Step(s, p, es[0]), p, es[1..])
  }

  lemma StartInv(org: real, pct: real, p: Plant)
    requires p.Valid() && org >= p.RealMin()
    ensures Inv(Start(org, pct), p)
  {
  }

  lemma StepSame(s: Control, p: Plant, e: Event)
    requires p.Valid() && Inv(s, p) && ValidEvent(e)
    ensures Step(s, p, e).orgTarget == s.orgTarget
  {
  }

  /** Over every run from the start: the target stays between the plant's minimum and the original
      target, it is the original target as long as nothing was backed off, and the step times the
      number of bounces stays 0.10 or 0.06. The rate that frequencies are tuned for never moves at
      all: it is set once, before the loop, so it is the target only as long as, or whenever again,
      that is the original one. */
  lemma {:induction false} EveryRun(org: real, pct: real, p: Plant, es: seq<Event>)
    requires p.Valid() && org >= p.RealMin() && forall e :: e in es ==> ValidEvent(e)
    ensures Inv(Start(org, pct), p)
    ensures var s := Run(Start(org, pct), p, es);
            && p.RealMin() <= s.target <= org
            && s.curTarget == org && (s.curTarget == s.target <==> s.target == org)
            && (s.nBouncingBack == 0 ==> s.target == org)
            && (s.nBouncingBack >= 1 ==>
                  var product := s.backOffPct * (s.nBouncingBack as real);
                  product == BIG_STEP || product == SMALL_STEP)
  {
    hide Run, Step;
    StartInv(org, pct, p);
    RunSame(Start(org, pct), p, es);
  }

  /** The first power reading already parts the two, exactly if it is believed and too high and the
      rate is not at the minimum: the target is backed off, and the rate tuned for is not. */
  lemma FirstBackOff(org: real, pct: real, p: Plant, power: real, hitrate: real)
    requires p.Valid() && org >= p.RealMin()
    ensures Inv(Start(org, pct), p)
    ensures var s := Run(Start(org, pct), p, [PowerCheck(power, hitrate)]);
            var down := p.powerHighWater < power < 20000.0 && org > THS_MIN;
            && s.curTarget == org && (s.target != s.curTarget <==> down)
            && (down ==> s.target == MaxReal(org * (1.0 - (if hitrate < 0.95 then BIG_STEP else SMALL_STEP)),
                                             p.RealMin()) < org)
  {
    StartInv(org, pct, p);
    RealMinBounds(p);
    var e := PowerCheck(power, hitrate);
    assert [e][1..] == [];
    assert Run(Start(org, pct), p, [e]) == Step(Start(org, pct), p, e);
  }

  lemma {:induction false} RunSame(s: Control, p: Plant, es: seq<Event>)
    requires p.Valid() && Inv(s, p) && forall e :: e in es ==> ValidEvent(e)
    ensures Run(s, p, es).orgTarget == s.orgTarget
    decreases |es|
  {
    if es != [] {
      assert es[0] in es;
      StepSame(s, p, es[0]);
      RunSame(Step(s, p, es[0]), p, es[1..]);
    }
  }

  /** The branch the program marks as impossible is: whenever the step would be taken up again,
      something has been backed off. */
  lemma BouncedBefore(s: Control, p: Plant)
    requires p.Valid() && Inv(s, p) && s.target < s.orgTarget * 0.99
    ensures s.nBouncingBack >= 1
  {
  }

  // Changes of direction

  /** An event that starts the sequence of steps over. */
  predicate Restarts(s: Control, p: Plant, e: Event)
    requires p.Valid() && Inv(s, p) && ValidEvent(e)
  {
    match e
    case PowerCheck(power, _) => MustSlowDown(ReadPower(s, p, power), p) && s.nBouncingBack == 0
    case Cycle(r) =>
      RealMinBounds(p);
      s.target < s.orgTarget * 0.99 && HasRoom(s, p, r) && Suggest(s, p, r) != SameStep
  }

  /** Changes of direction since the last restart. */
  function Flips(s: Control, p: Plant, es: seq<Event>, before: nat): nat
    requires p.Valid() && Inv(s, p) && forall e :: e in es ==> ValidEvent(e)
    decreases |es|
  {
    if es == [] then before
    else
      assert es[0] in es;
      var s' := Step(s, p, es[0]);
      Flips(s', p, es[1..],
            if Restarts(s, p, es[0]) then 0
            else if s.targetReducing != s'.targetReducing then before + 1 else before)
  }

  /** The changes of direction the number of bounces accounts for. */
  function Allowed(s: Control): nat {
    if s.nBouncingBack == 0 then 0
    else s.nBouncingBack - 1 + (if s.targetReducing && s.backOffPct <= MIN_STEP then 1 else 0)
  }

  lemma AllowedFive(s: Control, p: Plant)
    requires p.Valid() && Inv(s, p)
    ensures Allowed(s) <= 5
  {
  }

  lemma StepFlips(s: Control, p: Plant, e: Event, f: nat)
    requires p.Valid() && Inv(s, p) && ValidEvent(e) && f <= Allowed(s)
    ensures var s' := Step(s, p, e);
            (if Restarts(s, p, e) then 0 else if s.targetReducing != s'.targetReducing then f + 1 else f) <= Allowed(s')
  {
  }

  /** Between two restarts the controller changes direction at most five times. */
  lemma {:induction false} FewFlips(s: Control, p: Plant, es: seq<Event>, f: nat)
    requires p.Valid() && Inv(s, p) && (forall e :: e in es ==> ValidEvent(e)) && f <= Allowed(s)
    ensures Flips(s, p, es, f) <= 5
    decreases |es|
  {
    if es == [] {
      AllowedFive(s, p);
    } else {
      assert es[0] in es;
      StepFlips(s, p, es[0], f);
      var s' := Step(s, p, es[0]);
      FewFlips(s', p, es[1..],
               if Restarts(s, p, es[0]) then 0 else if s.targetReducing != s'.targetReducing then f + 1 else f);
    }
  }
}
