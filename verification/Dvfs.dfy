/** The voltage and frequency controller as the program runs it: package variables updated per tick. */
module Dvfs {
  import opened Basics
  import opened Backoff
  import opened BackoffEffects
  import Tuning

  datatype DvfsState = InTuning | Normal | Standby

  class DvfsType {
    const plant: Plant
    const supply: Tuning.Supply

    var orgTargetTHS: real
    var targetTHS: real
    var curTargetTHS: real
    var backOffPct: real
    var nBouncingBack: nat
    var targetReducing: bool
    var curPower: real
    var powerHigh: bool
    var dvfsState: DvfsState
    var tuneState: Tuning.TuneState
    var voltage: real

    constructor (plant: Plant, supply: Tuning.Supply, org: real, voltage: real)
      ensures this.plant == plant && this.supply == supply
      ensures View() == Start(org, BIG_STEP) && TunerView() == Tuning.Tuner(Tuning.Init, voltage)
    {
      this.plant, this.supply, this.voltage := plant, supply, voltage;
      orgTargetTHS, targetTHS, curTargetTHS := org, org, org;
      backOffPct, nBouncingBack, targetReducing, curPower, powerHigh := BIG_STEP, 0, false, 0.0, false;
      dvfsState, tuneState := InTuning, Tuning.Init;
    }

    ghost function View(): Control
      reads this
    {
      Control(orgTargetTHS, targetTHS, curTargetTHS, backOffPct, nBouncingBack, targetReducing, curPower, powerHigh)
    }

    ghost function TunerView(): Tuning.Tuner
      reads this
    {
      Tuning.Tuner(tuneState, voltage)
    }

    method ReduceTargetTHS(bigStep: bool)
      requires plant.Valid()
      modifies this`backOffPct, this`nBouncingBack, this`targetReducing, this`targetTHS
      ensures View() == Reduce(old(View()), plant, bigStep) && BacksOff(old(View()), View(), plant, bigStep)
    {
      ReduceBacksOff(View(), plant, bigStep);
      if nBouncingBack == 0 {
        if bigStep {
          backOffPct := BIG_STEP;
        } else {
          backOffPct := SMALL_STEP;
        }
        nBouncingBack := nBouncingBack + 1;
      } else if !targetReducing && backOffPct > MIN_STEP {
        backOffPct := backOffPct * ((nBouncingBack as real) / ((nBouncingBack + 1) as real));
        nBouncingBack := nBouncingBack + 1;
      }
      targetReducing := true;
      targetTHS := curTargetTHS * (1.0 - backOffPct);
      var realMin := plant.RealMin();
      if targetTHS < realMin {
        targetTHS := realMin;
      }
    }

    /** One power reading; true when the controller must slow down. */
    method CheckPowerReading(reading: real) returns (slowdown: bool)
      modifies this`curPower, this`powerHigh
      ensures View() == ReadPower(old(View()), plant, reading) && slowdown == MustSlowDown(View(), plant)
      ensures curPower == if reading < 20000.0 then reading else old(curPower)
      ensures slowdown <==> curPower > plant.powerHighWater && curTargetTHS > 30.0
      ensures powerHigh <==> curPower > plant.powerHighWater || (old(powerHigh) && curPower >= plant.powerLowWater)
    {
      slowdown := false;
      if reading < 20000.0 {
        curPower := reading;
      }
      if curPower > plant.powerHighWater {
        if curTargetTHS > THS_MIN {
          slowdown := true;
        }
        powerHigh := true;
      } else if powerHigh && curPower < plant.powerLowWater {
        powerHigh := false;
      }
    }

    /** The check made about every second; true breaks the sleep. Slowing down sends the state machine
        back to its first tuning state; an alarm about a voltage breaks the sleep and no more. */
    method PerSecondCheck(reading: real, hitrate: real, tempAlarm: bool, voltAlarm: bool)
      returns (breakSleep: bool)
      requires plant.Valid()
      modifies this
      ensures tempAlarm ==> breakSleep && View() == old(View()) && dvfsState == Standby && tuneState == old(tuneState)
      ensures !tempAlarm ==> View() == CheckPower(old(View()), plant, reading, hitrate)
      ensures var slow := MustSlowDown(ReadPower(old(View()), plant, reading), plant);
              !tempAlarm ==> breakSleep == (slow || voltAlarm)
                             && dvfsState == (if slow then InTuning else old(dvfsState))
                             && tuneState == (if slow then Tuning.Init else old(tuneState))
      ensures var s := ReadPower(old(View()), plant, reading);
              !tempAlarm && MustSlowDown(s, plant) ==> BacksOff(s, View(), plant, hitrate < 0.95)
      ensures voltage == old(voltage)
    {
      if tempAlarm {
        dvfsState := Standby;
        return true;
      }
      var slowdown := CheckPowerReading(reading);
      if slowdown {
        ReduceTargetTHS(hitrate < 0.95);
        dvfsState := InTuning;
        tuneState := Tuning.Init;
        return true;
      }
      breakSleep := voltAlarm;
    }

    /** After half an hour: start over, or the larger step there is room for; 0 for neither. */
    method SuggestStep(hashpct: real, pwrpct: real, r: Reading) returns (reset: bool, step: real)
      requires plant.Valid() && r.Valid() && View().orgTarget > 0.0 && HasRoom(View(), plant, r)
      requires hashpct == r.avgHashRate.value / orgTargetTHS && pwrpct == curPower / plant.powerHighWater
      ensures Suggest(View(), plant, r) == if reset then Reset else if step >= MIN_STEP then NewStep(step) else SameStep
    {
      reset, step := false, 0.0;
      if r.overHalfHour {
        if hashpct < 0.75 && pwrpct < 0.75 && r.maxTemp < plant.tempHighWater - 25.0 {
          reset := true;
        } else if hashpct < 0.8 && pwrpct < 0.8 && r.maxTemp < plant.tempHighWater - 20.0 {
          step := BIG_STEP;
        } else if hashpct < 0.90 && pwrpct < 0.90 && r.maxTemp < plant.tempHighWater - 15.0 {
          step := SMALL_STEP;
        }
      }
    }

    /** Makes the step smaller if the last move was downwards. */
    method TurnStepUp()
      modifies this`nBouncingBack, this`backOffPct, this`targetReducing
      ensures View() == TurnUp(old(View()))
    {
      if nBouncingBack == 0 {
        nBouncingBack := 1;
      }
      if targetReducing {
        backOffPct := backOffPct * ((nBouncingBack as real) / ((nBouncingBack + 1) as real));
        nBouncingBack := nBouncingBack + 1;
        targetReducing := false;
      }
    }

    /** A monitoring cycle in normal operation; true when the target changed. */
    method MonitorPowerTarget(r: Reading) returns (changed: bool)
      requires plant.Valid() && r.Valid() && orgTargetTHS > 0.0 && targetTHS > 0.0
      modifies this`targetTHS, this`nBouncingBack, this`backOffPct, this`targetReducing
      ensures (View(), changed) == Monitor(old(View()), plant, r)
      ensures CycleOutcome(old(View()), View(), changed, plant, r)
    {
      MonitorDoes(View(), plant, r);
      hide CycleOutcome;
      hide Suggest, Shrunk, TurnUp, Raise, RaisedTarget;
      if targetTHS >= orgTargetTHS * 0.99 || r.avgHashRate.None? {
        return false;
      }
      var hashpct := r.avgHashRate.value / orgTargetTHS;
      var pwrpct := curPower / plant.powerHighWater;
      if !(hashpct < 0.95 && pwrpct < 0.95 && r.voltage < plant.maxVoltage - 0.03
           && r.maxTemp < plant.tempHighWater - 10.0) {
        return false;
      }
      var reset, suggestedStep := SuggestStep(hashpct, pwrpct, r);
      if reset {
        targetTHS := orgTargetTHS;
        nBouncingBack := 0;
        return true;
      }
      if suggestedStep >= MIN_STEP {
        changed := TakeNewStep(suggestedStep);
        return;
      }
      if nBouncingBack >= 5 || backOffPct <= MIN_STEP {
        return false;
      }
      RatioAboveOne(hashpct, pwrpct, r.avgHashRate.value, orgTargetTHS);
      changed := RaiseStep(if hashpct < pwrpct then 0.965 / pwrpct else 0.965 / hashpct);
    }

    method TakeNewStep(step: real) returns (changed: bool)
      requires targetTHS > 0.0
      modifies this`targetTHS, this`nBouncingBack, this`backOffPct, this`targetReducing
      ensures var s := old(View());
              (View(), changed) == Raise(s.(nBouncingBack := 1, backOffPct := step, targetReducing := false),
                                         NewStepTarget(s, step))
    {
      hide Raise, MinReal;
      ghost var s := View();
      nBouncingBack, backOffPct, targetReducing := 1, step, false;
      var wanted := targetTHS * (1.0 + backOffPct);
      ghost var s1 := s.(nBouncingBack := 1, backOffPct := step, targetReducing := false);
      assert View() == s1 && MinReal(wanted, orgTargetTHS) == NewStepTarget(s, step);
      hide NewStepTarget;
      changed := ApplyTarget(wanted);
    }

    /** Raises the target by the room there is, but no more than the step. */
    method RaiseStep(room: real) returns (changed: bool)
      requires targetTHS > 0.0
      modifies this`targetTHS, this`nBouncingBack, this`backOffPct, this`targetReducing
      ensures var s := old(View());
              (View(), changed) == Raise(TurnUp(s), RaisedTarget(s, room, TurnUp(s).backOffPct))
    {
      ghost var s := View();
      TurnStepUp();
      assert targetTHS == s.target && orgTargetTHS == s.orgTarget;
      hide TurnUp, Raise;
      var ratio := room;
      if ratio > 1.0 + backOffPct {
        ratio := 1.0 + backOffPct;
      }
      var wanted := targetTHS * ratio;
      assert ratio == MinReal(room, 1.0 + TurnUp(s).backOffPct);
      assert MinReal(wanted, orgTargetTHS) == RaisedTarget(s, room, TurnUp(s).backOffPct);
      changed := ApplyTarget(wanted);
    }

    /** Caps the new target, and takes it if it is at least one percent more. */
    method ApplyTarget(wanted: real) returns (changed: bool)
      requires targetTHS > 0.0
      modifies this`targetTHS
      ensures (View(), changed) == Raise(old(View()), MinReal(wanted, orgTargetTHS))
    {
      var newTarget := wanted;
      if newTarget >= orgTargetTHS {
        newTarget := orgTargetTHS;
      }
      if newTarget / targetTHS < 1.01 {
        return false;
      }
      targetTHS := newTarget;
      changed := true;
    }

    method SetVoltage(v: real)
      modifies this`voltage
      ensures voltage == Tuning.Clamped(supply, v)
      ensures voltage >= supply.minVoltage && voltage >= v && (voltage == supply.minVoltage || voltage == v)
    {
      voltage := if v < supply.minVoltage then supply.minVoltage else v;
    }

    method StepUp(steps: real)
      modifies this`voltage
      ensures voltage == Tuning.Raised(supply, old(voltage), steps)
    {
      var wanted := voltage + Tuning.VOLTAGE_STEP * steps;
      SetVoltage(if wanted < supply.maxVoltage then wanted else supply.maxVoltage);
    }

    /** One tick of tuning; true when it is done. Only the move to fine tuning is looked at again. */
    method TuneHashRate(hitrate: real, pctOver50: real) returns (done: bool)
      modifies this`voltage, this`tuneState
      ensures (TunerView(), done) == Tuning.Tick(old(TunerView()), supply, hitrate, pctOver50)
      ensures Tuning.InRange(old(TunerView()), supply) ==>
                Tuning.TickOutcome(old(TunerView()), TunerView(), done, supply, hitrate, pctOver50)
    {
      if Tuning.InRange(TunerView(), supply) {
        Tuning.TickDoes(TunerView(), supply, hitrate, pctOver50);
      }
      hide Tuning.TickOutcome, Tuning.InRange;
      done := false;
      var recheck := true;
      ghost var t0 := TunerView();
      while recheck
        invariant recheck ==> !done && Tuning.Tick(TunerView(), supply, hitrate, pctOver50)
                                       == Tuning.Tick(t0, supply, hitrate, pctOver50)
        invariant !recheck ==> (TunerView(), done) == Tuning.Tick(t0, supply, hitrate, pctOver50)
        decreases recheck, tuneState != Tuning.FineTune
      {
        recheck := false;
        match tuneState {
          case Init =>
            if voltage > supply.voutMin {
              SetVoltage(voltage - 0.5);
            }
            if voltage <= supply.voutMin {
              tuneState := Tuning.SetFreq;
            }
          case SetFreq =>
            tuneState := Tuning.SteppingUp;
          case SteppingUp =>
            if voltage >= supply.maxVoltage {
              done := true;
            } else if pctOver50 < Tuning.OPTIMIZE_TRIGGER_RATE {
              StepUp(if pctOver50 < 0.1 then 20.0 else if pctOver50 < 0.3 then 10.0 else 4.0);
            } else {
              tuneState := Tuning.FineTune;
              recheck := true;
            }
          case FineTune =>
            var reachedMax := voltage >= supply.maxVoltage;
            if hitrate <= Tuning.START_RATE && reachedMax {
              done := true;
            } else if hitrate < Tuning.LOW_RATE {
              var steps := ((Tuning.LOW_RATE - hitrate) * 100.0).Floor as real;
              if steps < 1.0 {
                steps := 1.0;
              }
              StepUp(steps);
            } else {
              done := true;
            }
        }
      }
    }
  }
}
