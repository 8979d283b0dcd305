/**
 * One tick of an aircraft's convergence toward its commanded targets
 * (`Aircraft.update` in newfile.py, without the position advance), as pure
 * step functions on heading, altitude and speed. Heading is whole degrees;
 * altitude and speed are reals because the step scales with the simulation
 * speed factor, a positive real.
 */
module Kinematics {

  /** Altitude change per tick at speed factor 1, in feet. */
  const CLIMB_STEP: real := 500.0

  function Abs(r: real): real { if r < 0.0 then -r else r }
  function Max(a: real, b: real): real { if a < b then b else a }
  function Min(a: real, b: real): real { if a < b then a else b }

  predicate IsHeading(h: int) { 0 <= h < 360 }

  /** The number of degrees on the shorter arc between two headings. */
  function CircularDistance(a: int, b: int): (d: int)
    requires IsHeading(a) && IsHeading(b)
    ensures 0 <= d <= 180
    ensures d == 0 <==> a == b
  {
    Mod360(b - a);
    Mod360(a - b);
    var clockwise, anticlockwise := (b - a) % 360, (a - b) % 360;
    if clockwise <= anticlockwise then clockwise else anticlockwise
  }

  /**
   * The heading part of `update`: while heading and target differ, turn one
   * degree along the shorter arc (clockwise, +1, on a 180 degree tie), wrapping
   * modulo 360.
   */
  function HeadingStep(heading: int, target: int): (next: int)
    requires IsHeading(heading) && IsHeading(target)
    ensures IsHeading(next)
    ensures heading == target ==> next == heading
  {
    if heading != target then
      var diff := (target - heading + 360) % 360;
      if diff > 180 then (heading - 1) % 360 else (heading + 1) % 360
    else
      heading
  }

  /** Python's (and Dafny's) `x % 360` for x within one turn either side of [0, 360). */
  lemma Mod360(x: int)
    requires -360 <= x < 720
    ensures x % 360 == if x < 0 then x + 360 else if x >= 360 then x - 360 else x
  {
  }

  /**
   * A heading step turns exactly one degree, clockwise exactly when the target
   * lies at most 180 degrees clockwise, and brings the heading one degree
   * closer to the target along the shorter arc.
   */
  lemma HeadingStepTurnsOneDegree(heading: int, target: int)
    requires IsHeading(heading) && IsHeading(target) && heading != target
    ensures var next := HeadingStep(heading, target);
      && CircularDistance(next, heading) == 1
      && CircularDistance(next, target) == CircularDistance(heading, target) - 1
      && (next == (heading + 1) % 360 <==> (target - heading) % 360 <= 180)
  {
    var next := HeadingStep(heading, target);
    Mod360(target - heading);
    Mod360(heading - target);
    Mod360(target - heading + 360);
    Mod360(heading + 1);
    if (target - heading + 360) % 360 > 180 {
      Mod360(heading - 1);
      assert next == (heading - 1) % 360;
    } else {
      assert next == (heading + 1) % 360;
    }
    Mod360(next - heading);
    Mod360(heading - next);
    Mod360(target - next);
    Mod360(next - target);
  }

  /** The heading after n ticks toward a fixed target. */
  function HeadingAfter(heading: int, target: int, n: nat): (h: int)
    requires IsHeading(heading) && IsHeading(target)
    ensures IsHeading(h)
    decreases n
  {
    if n == 0 then heading else HeadingAfter(HeadingStep(heading, target), target, n - 1)
  }

  /** After n ticks the shorter-arc distance to the target has dropped by n, down to zero. */
  lemma {:induction false} HeadingConverges(heading: int, target: int, n: nat)
    requires IsHeading(heading) && IsHeading(target)
    ensures var d := CircularDistance(heading, target);
      CircularDistance(HeadingAfter(heading, target, n), target) == if n < d then d - n else 0
    decreases n
  {
    if n > 0 {
      if heading != target {
        HeadingStepTurnsOneDegree(heading, target);
      }
      HeadingConverges(HeadingStep(heading, target), target, n - 1);
    }
  }

  /** Every heading reaches any target within 180 ticks and then stays there. */
  lemma HeadingReachedWithin180(heading: int, target: int, n: nat)
    requires IsHeading(heading) && IsHeading(target)
    requires n >= CircularDistance(heading, target)
    ensures HeadingAfter(heading, target, n) == target
  {
    HeadingConverges(heading, target, n);
  }

  /**
   * The altitude part of `update`: move by 500 times the speed factor toward
   * the target, stopping at the target (Python's `min`/`max`).
   */
  function AltitudeStep(altitude: real, target: real, factor: real): (next: real)
    requires factor > 0.0
    ensures altitude <= target ==> altitude <= next <= target
    ensures target <= altitude ==> target <= next <= altitude
    ensures Abs(next - target) == Max(0.0, Abs(altitude - target) - CLIMB_STEP * factor)
  {
    if altitude != target then
      var step := CLIMB_STEP * factor;
      if altitude < target then Min(altitude + step, target) else Max(altitude - step, target)
    else
      altitude
  }

  /** The altitude after n ticks toward a fixed target at a fixed speed factor. */
  function AltitudeAfter(altitude: real, target: real, factor: real, n: nat): real
    requires factor > 0.0
    decreases n
  {
    if n == 0 then altitude else AltitudeAfter(AltitudeStep(altitude, target, factor), target, factor, n - 1)
  }

  /** After n ticks the distance to the target altitude has dropped by n steps, down to zero. */
  lemma {:induction false} AltitudeConverges(altitude: real, target: real, factor: real, n: nat)
    requires factor > 0.0
    ensures Abs(AltitudeAfter(altitude, target, factor, n) - target)
            == Max(0.0, Abs(altitude - target) - (n as real) * CLIMB_STEP * factor)
    decreases n
  {
    if n > 0 {
      var next := AltitudeStep(altitude, target, factor);
      AltitudeConverges(next, target, factor, n - 1);
      var step := CLIMB_STEP * factor;
      assert (n as real) * step == ((n - 1) as real) * step + step;
      assert (n as real) * CLIMB_STEP * factor == (n as real) * step;
      assert ((n - 1) as real) * CLIMB_STEP * factor == ((n - 1) as real) * step;
    }
  }

  /**
   * The speed part of `update`: move by exactly the speed factor toward the
   * target, with no clamp at the target.
   */
  function SpeedStep(speed: real, target: real, factor: real): (next: real)
    requires factor > 0.0
    ensures speed == target ==> next == speed
    ensures speed != target ==> Abs(next - speed) == factor && (next > speed <==> target > speed)
  {
    if speed != target then
      if speed < target then speed + factor else speed - factor
    else
      speed
  }

  /** Closer to the target than one step, the speed passes it and lands on the other side. */
  lemma SpeedOvershoots(speed: real, target: real, factor: real)
    requires factor > 0.0 && speed != target && Abs(target - speed) < factor
    ensures var next := SpeedStep(speed, target, factor);
      (speed < target ==> next > target) && (speed > target ==> next < target)
  {
  }
}
