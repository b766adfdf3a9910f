/** The discrete-time thermal model of one heating element (temp.py).
    Temperatures and the per-second coefficient alpha are exact reals here;
    the source computes with IEEE doubles. */
module Thermal {

  /** The temperature the element moves towards: the steady-state maximum
      while the heater is on, the ambient temperature while it is off. */
  function Target(isOn: bool, tAmbient: real, tMax: real): real
  {
    if isOn then tMax else tAmbient
  }

  /** One simulated second: close the fraction alpha of the gap between the
      previous temperature and the target. The contract is the gap form of
      the recurrence: the new gap is the old gap scaled by 1 - alpha. */
  function UpdateTemperature(tPrev: real, isOn: bool, tAmbient: real, tMax: real, alpha: real): (t: real)
    ensures t - Target(isOn, tAmbient, tMax) == (1.0 - alpha) * (tPrev - Target(isOn, tAmbient, tMax))
  {
    tPrev + alpha * (Target(isOn, tAmbient, tMax) - tPrev)
  }

  function Abs(x: real): real
  {
    if x < 0.0 then -x else x
  }

  /** x lies in the closed interval spanned by a and b, in either order. */
  predicate Between(x: real, a: real, b: real)
  {
    (a <= x <= b) || (b <= x <= a)
  }

  lemma TargetIsSelected(isOn: bool, tAmbient: real, tMax: real)
    ensures isOn ==> Target(isOn, tAmbient, tMax) == tMax
    ensures !isOn ==> Target(isOn, tAmbient, tMax) == tAmbient
  {
  }

  /** The target is a fixed point of the update, whatever alpha is. */
  lemma FixedPoint(tPrev: real, isOn: bool, tAmbient: real, tMax: real, alpha: real)
    requires tPrev == Target(isOn, tAmbient, tMax)
    ensures UpdateTemperature(tPrev, isOn, tAmbient, tMax, alpha) == tPrev
  {
  }

  /** alpha = 0: the temperature does not move, whatever the target. */
  lemma ZeroAlphaKeeps(tPrev: real, isOn: bool, tAmbient: real, tMax: real)
    ensures UpdateTemperature(tPrev, isOn, tAmbient, tMax, 0.0) == tPrev
  {
  }

  /** alpha = 1: the target is reached in one step. */
  lemma UnitAlphaReaches(tPrev: real, isOn: bool, tAmbient: real, tMax: real)
    ensures UpdateTemperature(tPrev, isOn, tAmbient, tMax, 1.0) == Target(isOn, tAmbient, tMax)
  {
  }

  /** For 0 <= alpha <= 1 the new temperature lies between the old one and
      the target, and it is no farther from the target than the old one. */
  lemma StepBetween(tPrev: real, isOn: bool, tAmbient: real, tMax: real, alpha: real)
    requires 0.0 <= alpha <= 1.0
    ensures Between(UpdateTemperature(tPrev, isOn, tAmbient, tMax, alpha), tPrev, Target(isOn, tAmbient, tMax))
    ensures Abs(UpdateTemperature(tPrev, isOn, tAmbient, tMax, alpha) - Target(isOn, tAmbient, tMax))
            <= Abs(tPrev - Target(isOn, tAmbient, tMax))
  {
    var g := Target(isOn, tAmbient, tMax);
    var d := g - tPrev;
    assert UpdateTemperature(tPrev, isOn, tAmbient, tMax, alpha) == tPrev + alpha * d;
    if d >= 0.0 {
      ScaledBetween(alpha, d);
    } else {
      ScaledBetween(alpha, -d);
      assert alpha * d == -(alpha * -d);
    }
  }

  /** A fraction alpha in [0, 1] of a non-negative amount d is within [0, d]. */
  lemma ScaledBetween(alpha: real, d: real)
    requires 0.0 <= alpha <= 1.0 && 0.0 <= d
    ensures 0.0 <= alpha * d <= d
  {
  }

  /** The temperatures of a run over a schedule of on/off flags, one update
      per second, starting from t0: entry i is the temperature after i
      seconds. */
  function Trajectory(t0: real, flags: seq<bool>, tAmbient: real, tMax: real, alpha: real): (traj: seq<real>)
    ensures |traj| == |flags| + 1
    ensures traj[0] == t0
    decreases |flags|
  {
    if flags == [] then [t0]
    else [t0] + Trajectory(UpdateTemperature(t0, flags[0], tAmbient, tMax, alpha), flags[1..], tAmbient, tMax, alpha)
  }

  /** Each entry of a trajectory is the update of the one before it under
      that second's flag. */
  lemma {:induction false} TrajectoryStep(t0: real, flags: seq<bool>, tAmbient: real, tMax: real, alpha: real, i: nat)
    requires i < |flags|
    ensures Trajectory(t0, flags, tAmbient, tMax, alpha)[i + 1]
            == UpdateTemperature(Trajectory(t0, flags, tAmbient, tMax, alpha)[i], flags[i], tAmbient, tMax, alpha)
    decreases i
  {
    if i > 0 {
      var t1 := UpdateTemperature(t0, flags[0], tAmbient, tMax, alpha);
      TrajectoryStep(t1, flags[1..], tAmbient, tMax, alpha, i - 1);
    }
  }

  /** Running a schedule a + b is running a, then b from where a ended. */
  lemma {:induction false} TrajectoryAppend(t0: real, a: seq<bool>, b: seq<bool>, tAmbient: real, tMax: real, alpha: real)
    ensures Trajectory(t0, a + b, tAmbient, tMax, alpha)
            == Trajectory(t0, a, tAmbient, tMax, alpha)
               + Trajectory(Trajectory(t0, a, tAmbient, tMax, alpha)[|a|], b, tAmbient, tMax, alpha)[1..]
    decreases |a|
  {
    if a == [] {
      assert a + b == b;
      var tb := Trajectory(t0, b, tAmbient, tMax, alpha);
      assert tb == [tb[0]] + tb[1..];
    } else {
      var t1 := UpdateTemperature(t0, a[0], tAmbient, tMax, alpha);
      assert (a + b)[0] == a[0];
      assert (a + b)[1..] == a[1..] + b;
      TrajectoryAppend(t1, a[1..], b, tAmbient, tMax, alpha);
      assert Trajectory(t0, a, tAmbient, tMax, alpha)[|a|] == Trajectory(t1, a[1..], tAmbient, tMax, alpha)[|a| - 1];
    }
  }

  predicate AllOn(flags: seq<bool>)
  {
    forall i :: 0 <= i < |flags| ==> flags[i]
  }

  predicate AllOff(flags: seq<bool>)
  {
    forall i :: 0 <= i < |flags| ==> !flags[i]
  }

  /** Sustained heating from at most tMax: the temperature never falls and
      never exceeds tMax. */
  lemma {:induction false} HeatingMonotoneBounded(t0: real, flags: seq<bool>, tAmbient: real, tMax: real, alpha: real)
    requires AllOn(flags) && t0 <= tMax && 0.0 <= alpha <= 1.0
    ensures forall i, j :: 0 <= i <= j < |flags| + 1 ==>
              Trajectory(t0, flags, tAmbient, tMax, alpha)[i] <= Trajectory(t0, flags, tAmbient, tMax, alpha)[j] <= tMax
    decreases |flags|
  {
    var traj := Trajectory(t0, flags, tAmbient, tMax, alpha);
    if flags != [] {
      var t1 := UpdateTemperature(t0, true, tAmbient, tMax, alpha);
      StepBetween(t0, true, tAmbient, tMax, alpha);
      var rest := Trajectory(t1, flags[1..], tAmbient, tMax, alpha);
      assert traj == [t0] + rest;
      HeatingMonotoneBounded(t1, flags[1..], tAmbient, tMax, alpha);
      forall i, j | 0 <= i <= j < |flags| + 1
        ensures traj[i] <= traj[j] <= tMax
      {
        if i == 0 {
          if j > 0 { assert traj[j] == rest[j - 1] && rest[0] <= rest[j - 1]; }
        } else {
          assert traj[i] == rest[i - 1] && traj[j] == rest[j - 1];
        }
      }
    }
  }

  /** Sustained cooling from at least tAmbient: the temperature never rises
      and never falls below tAmbient. */
  lemma {:induction false} CoolingMonotoneBounded(t0: real, flags: seq<bool>, tAmbient: real, tMax: real, alpha: real)
    requires AllOff(flags) && tAmbient <= t0 && 0.0 <= alpha <= 1.0
    ensures forall i, j :: 0 <= i <= j < |flags| + 1 ==>
              tAmbient <= Trajectory(t0, flags, tAmbient, tMax, alpha)[j] <= Trajectory(t0, flags, tAmbient, tMax, alpha)[i]
    decreases |flags|
  {
    var traj := Trajectory(t0, flags, tAmbient, tMax, alpha);
    if flags != [] {
      var t1 := UpdateTemperature(t0, false, tAmbient, tMax, alpha);
      StepBetween(t0, false, tAmbient, tMax, alpha);
      var rest := Trajectory(t1, flags[1..], tAmbient, tMax, alpha);
      assert traj == [t0] + rest;
      CoolingMonotoneBounded(t1, flags[1..], tAmbient, tMax, alpha);
      forall i, j | 0 <= i <= j < |flags| + 1
        ensures tAmbient <= traj[j] <= traj[i]
      {
        if i == 0 {
          if j > 0 { assert traj[j] == rest[j - 1] && rest[j - 1] <= rest[0]; }
        } else {
          assert traj[i] == rest[i - 1] && traj[j] == rest[j - 1];
        }
      }
    }
  }

  /** With the ambient temperature at or below tMax, a run that starts
      between them stays between them whatever the schedule. */
  lemma {:induction false} StaysInRange(t0: real, flags: seq<bool>, tAmbient: real, tMax: real, alpha: real)
    requires tAmbient <= t0 <= tMax && 0.0 <= alpha <= 1.0
    ensures forall i :: 0 <= i < |flags| + 1 ==> tAmbient <= Trajectory(t0, flags, tAmbient, tMax, alpha)[i] <= tMax
    decreases |flags|
  {
    if flags != [] {
      var t1 := UpdateTemperature(t0, flags[0], tAmbient, tMax, alpha);
      StepBetween(t0, flags[0], tAmbient, tMax, alpha);
      StaysInRange(t1, flags[1..], tAmbient, tMax, alpha);
      var rest := Trajectory(t1, flags[1..], tAmbient, tMax, alpha);
      assert Trajectory(t0, flags, tAmbient, tMax, alpha) == [t0] + rest;
    }
  }

  function Power(x: real, n: nat): real
  {
    if n == 0 then 1.0 else x * Power(x, n - 1)
  }

  /** One more factor x in the power absorbs one more contraction of the
      gap by x. */
  lemma PowerStep(x: real, n: nat, g0: real, g1: real)
    requires n >= 1 && g1 == x * g0
    ensures Power(x, n) * g0 == Power(x, n - 1) * g1
  {
  }

  /** The last temperature of a run is the last temperature of the run of
      the remaining flags from the first update. */
  lemma TrajectoryLast(t0: real, flags: seq<bool>, tAmbient: real, tMax: real, alpha: real)
    requires flags != []
    ensures Trajectory(t0, flags, tAmbient, tMax, alpha)[|flags|]
            == Trajectory(UpdateTemperature(t0, flags[0], tAmbient, tMax, alpha), flags[1..], tAmbient, tMax, alpha)[|flags| - 1]
  {
  }

  /** Closed form of sustained heating: after n seconds on, the remaining
      gap to tMax is the initial gap times (1 - alpha)^n, the discrete
      counterpart of exp(-k t). */
  lemma {:induction false} HeatingClosedForm(t0: real, flags: seq<bool>, tAmbient: real, tMax: real, alpha: real)
    requires AllOn(flags)
    ensures Trajectory(t0, flags, tAmbient, tMax, alpha)[|flags|] - tMax == Power(1.0 - alpha, |flags|) * (t0 - tMax)
    decreases |flags|
  {
    if flags != [] {
      var t1 := UpdateTemperature(t0, true, tAmbient, tMax, alpha);
      TrajectoryLast(t0, flags, tAmbient, tMax, alpha);
      HeatingClosedForm(t1, flags[1..], tAmbient, tMax, alpha);
      PowerStep(1.0 - alpha, |flags|, t0 - tMax, t1 - tMax);
    }
  }

  /** Closed form of sustained cooling, towards the ambient temperature. */
  lemma {:induction false} CoolingClosedForm(t0: real, flags: seq<bool>, tAmbient: real, tMax: real, alpha: real)
    requires AllOff(flags)
    ensures Trajectory(t0, flags, tAmbient, tMax, alpha)[|flags|] - tAmbient == Power(1.0 - alpha, |flags|) * (t0 - tAmbient)
    decreases |flags|
  {
    if flags != [] {
      var t1 := UpdateTemperature(t0, false, tAmbient, tMax, alpha);
      TrajectoryLast(t0, flags, tAmbient, tMax, alpha);
      CoolingClosedForm(t1, flags[1..], tAmbient, tMax, alpha);
      PowerStep(1.0 - alpha, |flags|, t0 - tAmbient, t1 - tAmbient);
    }
  }
}
