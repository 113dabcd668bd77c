/** The voltage tuning state machine. */
module Tuning {
  import opened Basics

  datatype TuneState = Init | SetFreq | SteppingUp | FineTune

  const OPTIMIZE_TRIGGER_RATE: real := 0.70
  const LOW_RATE: real := 0.97
  const START_RATE: real := 0.95
  const VOLTAGE_STEP: real := 0.005

  /** The supply's minimum and the board's own minimum are read from different places. */
  datatype Supply = Supply(voutMin: real, minVoltage: real, maxVoltage: real)

  datatype Tuner = Tuner(state: TuneState, voltage: real)

  /** The voltage that is set when v is asked for. */
  function Clamped(u: Supply, v: real): real {
    if v < u.minVoltage then u.minVoltage else v
  }

  function Raised(u: Supply, v: real, steps: real): real {
    Clamped(u, MinReal(v + VOLTAGE_STEP * steps, u.maxVoltage))
  }

  /** Steps of a coarse increase, by the fraction of chips above half their hit rate. */
  function CoarseSteps(pct: real): real {
    if pct < 0.1 then 20.0 else if pct < 0.3 then 10.0 else 4.0
  }

  function FineSteps(hitrate: real): real {
    var steps := ((LOW_RATE - hitrate) * 100.0).Floor as real;
    if steps < 1.0 then 1.0 else steps
  }

  function FineTick(t: Tuner, u: Supply, hitrate: real): (Tuner, bool) {
    if hitrate <= START_RATE && t.voltage >= u.maxVoltage then (t, true)
    else if hitrate < LOW_RATE then (t.(voltage := Raised(u, t.voltage, FineSteps(hitrate))), false)
    else (t, true)
  }

  /** One tick: the next state, and whether tuning is done. Entering fine tuning happens within the
      tick that finds enough chips running. */
  function Tick(t: Tuner, u: Supply, hitrate: real, pct: real): (Tuner, bool) {
    match t.state
    case Init =>
      var v := if t.voltage > u.voutMin then Clamped(u, t.voltage - 0.5) else t.voltage;
      (Tuner(if v <= u.voutMin then SetFreq else Init, v), false)
    case SetFreq => (t.(state := SteppingUp), false)
    case SteppingUp =>
      if t.voltage >= u.maxVoltage then (t, true)
      else if pct < OPTIMIZE_TRIGGER_RATE then (t.(voltage := Raised(u, t.voltage, CoarseSteps(pct))), false)
      else FineTick(t.(state := FineTune), u, hitrate)
    case FineTune => FineTick(t, u, hitrate)
  }

  predicate InRange(t: Tuner, u: Supply) {
    u.minVoltage <= t.voltage <= u.maxVoltage
  }

  // What a tick does, said of voltages and measurements

  /** Whether a tick looks at the hit rate, as it does in the last state and on entering it. */
  predicate LooksAtRate(t: Tuner, pct: real) {
    t.state == FineTune || (t.state == SteppingUp && pct >= 0.70)
  }

  /** Tuning ends when coarse stepping finds the voltage at its maximum, or fine tuning a hit rate of
      97 percent, or one of at most 95 percent that no voltage is left for. */
  predicate Finishes(t: Tuner, u: Supply, hitrate: real, pct: real) {
    || (t.state == SteppingUp && t.voltage >= u.maxVoltage)
    || (LooksAtRate(t, pct) && (hitrate >= 0.97 || (hitrate <= 0.95 && t.voltage >= u.maxVoltage)))
  }

  /** w is v raised by a number of volts, or the maximum. */
  predicate RaisedBy(v: real, w: real, volts: real, maxVoltage: real) {
    w <= maxVoltage && w <= v + volts && (w == maxVoltage || w == v + volts)
  }

  /** The whole hundredths a hit rate is short of 97 percent, at least one. */
  predicate Missing(n: int, hitrate: real) {
    n >= 1 && 0.97 - hitrate < 0.01 * ((n + 1) as real) && (n == 1 || 0.01 * (n as real) <= 0.97 - hitrate)
  }

  /** One tick: half a volt down in the first state, then a coarse raise by the fraction of chips
      running, or a fine one of 5 millivolts for each hundredth the hit rate is short. */
  ghost predicate TickOutcome(t: Tuner, t': Tuner, done: bool, u: Supply, hitrate: real, pct: real) {
    && (done <==> Finishes(t, u, hitrate, pct))
    && (t.state == Init ==>
          && (t.voltage <= u.voutMin ==> t'.voltage == t.voltage)
          && (t.voltage > u.voutMin ==> t'.voltage >= u.minVoltage && t'.voltage >= t.voltage - 0.5
                                        && (t'.voltage == u.minVoltage || t'.voltage == t.voltage - 0.5))
          && t'.state == (if t'.voltage <= u.voutMin then SetFreq else Init))
    && (t.state == SetFreq ==> t' == Tuner(SteppingUp, t.voltage))
    && (t.state == SteppingUp || t.state == FineTune ==>
          && t'.state == (if done && t.voltage >= u.maxVoltage then t.state
                          else if LooksAtRate(t, pct) then FineTune else SteppingUp)
          && (done ==> t'.voltage == t.voltage)
          && (!done && !LooksAtRate(t, pct) ==>
                RaisedBy(t.voltage, t'.voltage, if pct < 0.1 then 0.1 else if pct < 0.3 then 0.05 else 0.02,
                         u.maxVoltage))
          && (!done && LooksAtRate(t, pct) ==>
                exists n :: Missing(n, hitrate) && RaisedBy(t.voltage, t'.voltage, 0.005 * (n as real), u.maxVoltage)))
  }

  lemma FineStepsMissing(hitrate: real) returns (n: int)
    requires hitrate < 0.97
    ensures Missing(n, hitrate) && FineSteps(hitrate) == n as real
  {
    var f := ((LOW_RATE - hitrate) * 100.0).Floor;
    n := if f < 1 then 1 else f;
  }

  /** A tick does what it should. */
  lemma TickDoes(t: Tuner, u: Supply, hitrate: real, pct: real)
    requires InRange(t, u)
    ensures TickOutcome(t, Tick(t, u, hitrate, pct).0, Tick(t, u, hitrate, pct).1, u, hitrate, pct)
  {
    if LooksAtRate(t, pct) && !Finishes(t, u, hitrate, pct) {
      var n := FineStepsMissing(hitrate);
      hide FineSteps, Missing;
      assert RaisedBy(t.voltage, Tick(t, u, hitrate, pct).0.voltage, 0.005 * (n as real), u.maxVoltage);
    }
  }

  lemma TickInRange(t: Tuner, u: Supply, hitrate: real, pct: real)
    requires InRange(t, u)
    ensures InRange(Tick(t, u, hitrate, pct).0, u)
    ensures t.state != Init ==> Tick(t, u, hitrate, pct).0.voltage >= t.voltage
  {
  }

  /** At the top of the supply, fine tuning can only wait for the hit rate to leave the window. */
  predicate AtTop(t: Tuner, u: Supply) {
    t.state == FineTune && t.voltage == u.maxVoltage
  }

  /** Half-volt ticks from v down to the minimum. */
  function DownTicks(v: real, low: real): nat
    requires v >= low
  {
    ((v - low) * 2.0).Floor
  }

  /** Smallest steps from v up to the maximum. */
  function UpTicks(v: real, high: real): nat
    requires v <= high
  {
    if v == high then 0 else ((high - v) * 200.0).Floor + 1
  }

  /** Ticks that tuning can still take. */
  function Rank(t: Tuner, u: Supply): nat
    requires InRange(t, u) && u.minVoltage <= u.voutMin
  {
    match t.state
    case Init => DownTicks(t.voltage, u.minVoltage) + UpTicks(u.minVoltage, u.maxVoltage) + 3
    case SetFreq => UpTicks(t.voltage, u.maxVoltage) + 2
    case SteppingUp => UpTicks(t.voltage, u.maxVoltage) + 1
    case FineTune => UpTicks(t.voltage, u.maxVoltage)
  }

  lemma UpTicksFewer(v: real, w: real, high: real)
    requires v < high && (v + VOLTAGE_STEP <= w <= high || w == high)
    ensures UpTicks(w, high) < UpTicks(v, high)
  {
  }

  lemma UpTicksMonotonic(v: real, w: real, high: real)
    requires v <= w <= high
    ensures UpTicks(w, high) <= UpTicks(v, high)
  {
  }

  lemma RaisedHigher(u: Supply, v: real, steps: real)
    requires u.minVoltage <= v <= u.maxVoltage && steps >= 1.0
    ensures Raised(u, v, steps) == u.maxVoltage || v + VOLTAGE_STEP <= Raised(u, v, steps) <= u.maxVoltage
  {
  }

  lemma DownTicksFewer(v: real, low: real)
    requires v > low
    ensures var w := if v - 0.5 < low then low else v - 0.5;
            w == low || DownTicks(w, low) < DownTicks(v, low)
  {
  }

  /** A tick that neither finishes tuning nor waits at the top takes away from the ticks left. */
  lemma TickDecreases(t: Tuner, u: Supply, hitrate: real, pct: real)
    requires InRange(t, u) && u.minVoltage <= u.voutMin
    ensures var (t', done) := Tick(t, u, hitrate, pct);
            InRange(t', u) && (done || (AtTop(t, u) && t' == t && START_RATE < hitrate < LOW_RATE)
                               || Rank(t', u) < Rank(t, u))
  {
    var t' := Tick(t, u, hitrate, pct).0;
    match t.state
    case Init =>
      if t.voltage > u.minVoltage {
        DownTicksFewer(t.voltage, u.minVoltage);
      }
      UpTicksMonotonic(u.minVoltage, t'.voltage, u.maxVoltage);
    case SetFreq =>
    case SteppingUp =>
      if !Tick(t, u, hitrate, pct).1 {
        RaisedHigher(u, t.voltage, CoarseSteps(pct));
        RaisedHigher(u, t.voltage, FineSteps(hitrate));
        hide Raised, FineSteps, CoarseSteps;
        UpTicksFewer(t.voltage, t'.voltage, u.maxVoltage);
      }
    case FineTune =>
      RaisedHigher(u, t.voltage, FineSteps(hitrate));
      hide FineSteps;
      if t.voltage < u.maxVoltage {
        hide Raised;
        if hitrate < LOW_RATE {
          UpTicksFewer(t.voltage, t'.voltage, u.maxVoltage);
        }
      }
  }

  datatype Measurement = Measurement(hitrate: real, pct: real)

  /** Ticks until tuning is done or the measurements are used up. */
  function Tune(t: Tuner, u: Supply, ms: seq<Measurement>): (Tuner, bool)
    decreases |ms|
  {
    if ms == [] then (t, false)
    else
      var (t', done) := Tick(t, u, ms[0].hitrate, ms[0].pct);
      if done then (t', true) else Tune(t', u, ms[1..])
  }

  /** Whatever is measured, within Rank ticks tuning is done, or fine tuning has reached the maximum
      voltage and every later hit rate lies strictly between 0.95 and 0.97. The voltage stays in range. */
  lemma {:induction false} TuningEnds(t: Tuner, u: Supply, ms: seq<Measurement>)
    requires InRange(t, u) && u.minVoltage <= u.voutMin
    ensures var (t', done) := Tune(t, u, ms);
            && InRange(t', u)
            && (!done && |ms| >= Rank(t, u) ==>
                  AtTop(t', u) && forall i :: Rank(t, u) <= i < |ms| ==> START_RATE < ms[i].hitrate < LOW_RATE)
    decreases |ms|
  {
    NothingLeft(t, u);
    if ms != [] {
      hide Tick, Rank, InRange, AtTop;
      var (t', done) := Tick(t, u, ms[0].hitrate, ms[0].pct);
      TickDecreases(t, u, ms[0].hitrate, ms[0].pct);
      if !done {
        TuningEnds(t', u, ms[1..]);
        if |ms| >= Rank(t, u) && !Tune(t', u, ms[1..]).1 {
          TopRank(t, u);
          assert forall i :: 0 < i < |ms| ==> ms[i] == ms[1..][i - 1];
        }
      }
    }
  }

  lemma FinishesExactly(t: Tuner, u: Supply, hitrate: real, pct: real)
    ensures Tick(t, u, hitrate, pct).1 <==> Finishes(t, u, hitrate, pct)
  {
  }

  /** The measurement that ends tuning. */
  predicate EndsAt(t: Tuner, u: Supply, ms: seq<Measurement>, i: nat)
    requires i < |ms|
  {
    var (t', done) := Tune(t, u, ms[..i]);
    !done && Finishes(t', u, ms[i].hitrate, ms[i].pct)
  }

  /** Tuning is done exactly when some measurement ends it: a hit rate of 97 percent, or a voltage at
      its maximum. */
  lemma {:induction false} DoneExactly(t: Tuner, u: Supply, ms: seq<Measurement>)
    ensures Tune(t, u, ms).1 <==> exists i :: 0 <= i < |ms| && EndsAt(t, u, ms, i)
    decreases |ms|
  {
    if ms != [] {
      var (t', done) := Tick(t, u, ms[0].hitrate, ms[0].pct);
      FinishesExactly(t, u, ms[0].hitrate, ms[0].pct);
      assert ms[..0] == [];
      if done {
        assert EndsAt(t, u, ms, 0);
      } else {
        DoneExactly(t', u, ms[1..]);
        forall i | 0 <= i < |ms| - 1 ensures EndsAt(t', u, ms[1..], i) <==> EndsAt(t, u, ms, i + 1) {
          EndsLater(t, u, ms, i);
        }
        hide Tick, Finishes;
        if i: nat :| i < |ms| && EndsAt(t, u, ms, i) {
          assert i > 0;
          assert EndsAt(t', u, ms[1..], i - 1);
        }
      }
    }
  }

  lemma EndsLater(t: Tuner, u: Supply, ms: seq<Measurement>, i: nat)
    requires i + 1 < |ms| && !Tick(t, u, ms[0].hitrate, ms[0].pct).1
    ensures EndsAt(Tick(t, u, ms[0].hitrate, ms[0].pct).0, u, ms[1..], i) <==> EndsAt(t, u, ms, i + 1)
  {
    hide Tick, Finishes;
    assert ms[..i + 1][1..] == ms[1..][..i] && ms[..i + 1][0] == ms[0];
  }

  lemma TopRank(t: Tuner, u: Supply)
    requires InRange(t, u) && u.minVoltage <= u.voutMin
    ensures AtTop(t, u) ==> Rank(t, u) == 0
  {
  }

  lemma NothingLeft(t: Tuner, u: Supply)
    requires InRange(t, u) && u.minVoltage <= u.voutMin
    ensures Rank(t, u) == 0 ==> AtTop(t, u)
  {
  }

  /** When the board's minimum lies above the supply's, tuning never leaves its first state. */
  lemma {:induction false} TuningStuck(t: Tuner, u: Supply, ms: seq<Measurement>)
    requires InRange(t, u) && u.minVoltage > u.voutMin && t.state == Init
    ensures var (t', done) := Tune(t, u, ms); !done && t'.state == Init && InRange(t', u)
    decreases |ms|
  {
    if ms != [] {
      TuningStuck(Tick(t, u, ms[0].hitrate, ms[0].pct).0, u, ms[1..]);
    }
  }

  /** So the first state is left, within a bounded number of ticks, exactly when the board's minimum
      is not above the supply's. */
  lemma {:induction false} LeavesInit(t: Tuner, u: Supply, ms: seq<Measurement>)
    requires InRange(t, u) && t.state == Init && |ms| > DownTicks(t.voltage, u.minVoltage)
    ensures Tune(t, u, ms).1 || Tune(t, u, ms).0.state != Init <==> u.minVoltage <= u.voutMin
    decreases |ms|
  {
    if u.minVoltage > u.voutMin {
      TuningStuck(t, u, ms);
    } else {
      var t' := Tick(t, u, ms[0].hitrate, ms[0].pct).0;
      if t'.state == Init {
        DownTicksFewer(t.voltage, u.minVoltage);
        LeavesInit(t', u, ms[1..]);
      } else {
        NoReturn(t', u, ms[1..]);
      }
    }
  }

  lemma {:induction false} NoReturn(t: Tuner, u: Supply, ms: seq<Measurement>)
    requires t.state != Init
    ensures Tune(t, u, ms).0.state != Init
    decreases |ms|
  {
    if ms != [] && !Tick(t, u, ms[0].hitrate, ms[0].pct).1 {
      NoReturn(Tick(t, u, ms[0].hitrate, ms[0].pct).0, u, ms[1..]);
    }
  }

  /** For a supply from 11 to 15 volts, tuning from any voltage takes at most 812 ticks. */
  lemma DefaultSupplyBound(t: Tuner)
    requires var u := Supply(11.0, 11.0, 15.0); InRange(t, u)
    ensures Rank(t, Supply(11.0, 11.0, 15.0)) <= 812
  {
  }
}
