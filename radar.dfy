/**
 * The aircraft of newfile.py as objects whose fields the simulation updates in
 * place: one tick of `Aircraft.update` toward the commanded targets, the
 * operator's command line written into the selected aircraft's targets, the
 * airport-proximity and landing tests, and the pairwise separation check of
 * `draw_conflict_alerts`. Distances are compared through their squares, which
 * agree with newfile.py's `math.hypot(...) < radius`.
 */
module Radar {
  import opened PyStr
  import opened Kinematics
  import opened Commands

  const WIDTH: real := 1000.0
  const HEIGHT: real := 700.0
  /** `HEATHROW_POS`, the centre of the screen. */
  const AIRPORT_X: real := 500.0
  const AIRPORT_Y: real := 350.0
  const APPROACH_RADIUS: real := 300.0
  const SEPARATION_RADIUS: real := 50.0

  function Sq(r: real): real { r * r }

  /** A spawn point: somewhere on one of the four edges of the radar screen. */
  predicate OnEdge(x: real, y: real) {
    (0.0 <= x <= WIDTH && (y == 0.0 || y == HEIGHT)) || ((x == 0.0 || x == WIDTH) && 0.0 <= y <= HEIGHT)
  }

  class Aircraft {
    var x: real
    var y: real
    var heading: int
    var altitude: real
    var speed: real
    var targetHeading: int
    var targetAlt: int
    var targetSpeed: int

    function Commanded(): Targets
      reads this
    {
      Targets(targetHeading, targetAlt, targetSpeed)
    }

    /**
     * Heading and targets stay in the ranges commands produce, and the
     * altitude, which only ever moves toward a target of at least 1000 ft,
     * stays within [1000, 40000].
     */
    ghost predicate Valid()
      reads this
    {
      IsHeading(heading) && InRange(Commanded())
      && MIN_ALT as real <= altitude <= MAX_ALT as real
    }

    /** A fresh aircraft: every target equals the corresponding current value. */
    constructor (x0: real, y0: real, heading0: int, altitude0: int, speed0: int)
      requires OnEdge(x0, y0)
      requires 0 <= heading0 <= 359 && 2000 <= altitude0 <= 35000 && 250 <= speed0 <= 600
      ensures Valid()
      ensures x == x0 && y == y0 && heading == heading0
      ensures altitude == altitude0 as real && speed == speed0 as real
      ensures Commanded() == Targets(heading0, altitude0, speed0)
    {
      x, y := x0, y0;
      heading, altitude, speed := heading0, altitude0 as real, speed0 as real;
      targetAlt, targetHeading, targetSpeed := altitude0, heading0, speed0;
    }

    /** One tick of `update`: heading, altitude and speed each step toward their target. */
    method Update(speedFactor: real)
      requires Valid() && speedFactor > 0.0
      modifies this
      ensures Valid()
      ensures heading == HeadingStep(old(heading), targetHeading)
      ensures altitude == AltitudeStep(old(altitude), targetAlt as real, speedFactor)
      ensures speed == SpeedStep(old(speed), targetSpeed as real, speedFactor)
      ensures Commanded() == old(Commanded()) && x == old(x) && y == old(y)
    {
      if heading != targetHeading {
        var diff := (targetHeading - heading + 360) % 360;
        if diff > 180 {
          heading := (heading - 1) % 360;
        } else {
          heading := (heading + 1) % 360;
        }
      }
      if altitude != targetAlt as real {
        var step := CLIMB_STEP * speedFactor;
        if altitude < targetAlt as real {
          altitude := Min(altitude + step, targetAlt as real);
        } else {
          altitude := Max(altitude - step, targetAlt as real);
        }
      }
      if speed != targetSpeed as real {
        if speed < targetSpeed as real {
          speed := speed + speedFactor;
        } else {
          speed := speed - speedFactor;
        }
      }
    }

    /**
     * The Enter key with this aircraft selected: each token of the line is
     * written into the targets in turn, until a number fails to parse.
     */
    method ApplyCommand(line: string)
      requires Valid()
      modifies this
      ensures Valid()
      ensures Commanded() == Command(line, old(Commanded()))
      ensures heading == old(heading) && altitude == old(altitude) && speed == old(speed)
      ensures x == old(x) && y == old(y)
    {
      var parts := Words(Upper(line));
      var i := 0;
      while i < |parts|
        invariant 0 <= i <= |parts|
        invariant Valid()
        invariant ApplyParts(parts[i..], Commanded()) == Command(line, old(Commanded()))
        invariant heading == old(heading) && altitude == old(altitude) && speed == old(speed)
        invariant x == old(x) && y == old(y)
      {
        var part := parts[i];
        assert parts[i..][1..] == parts[i + 1..];
        if HasPrefix(part, "HDG") {
          match ParseInt(part[3..]) {
            case None => return;
            case Some(n) => targetHeading := n % 360;
          }
        } else if HasPrefix(part, "ALT") {
          match ParseInt(part[3..]) {
            case None => return;
            case Some(n) => targetAlt := Clamp(MIN_ALT, MAX_ALT, n);
          }
        } else if HasPrefix(part, "SPD") {
          match ParseInt(part[3..]) {
            case None => return;
            case Some(n) => targetSpeed := Clamp(MIN_SPD, MAX_SPD, n);
          }
        }
        i := i + 1;
      }
    }

    /** `is_near_airport`: strictly within 300 units of the airport. */
    predicate IsNearAirport()
      reads this
    {
      Sq(x - AIRPORT_X) + Sq(y - AIRPORT_Y) < Sq(APPROACH_RADIUS)
    }

    /** `is_landed`: near the airport, below 1000 ft and between 60 and 200 kt. */
    predicate IsLanded()
      reads this
    {
      IsNearAirport() && altitude < 1000.0 && 60.0 <= speed <= 200.0
    }
  }

  /** For non-negative d and positive r, comparing squares is comparing the values. */
  lemma SquareBelow(d: real, r: real)
    requires d >= 0.0 && r > 0.0
    ensures Sq(d) < Sq(r) <==> d < r
  {
    assert Sq(d) == d * d && Sq(r) == r * r;
    var gap, sum := r - d, r + d;
    assert r * r - d * d == gap * sum;
    assert sum > 0.0;
    if d < r {
      assert gap * sum > 0.0;
    } else {
      assert -gap * sum >= 0.0;
    }
  }

  /**
   * The squared test agrees with newfile.py's: for d the Euclidean distance to
   * the airport (what `math.hypot` computes), near means d < 300.
   */
  lemma NearAirportIffWithinRadius(a: Aircraft, d: real)
    requires d >= 0.0 && Sq(d) == Sq(a.x - AIRPORT_X) + Sq(a.y - AIRPORT_Y)
    ensures a.IsNearAirport() <==> d < APPROACH_RADIUS
  {
    SquareBelow(d, APPROACH_RADIUS);
  }

  /**
   * Altitude starts at 2000 ft or more, targets are never set below 1000 ft and
   * the altitude step never passes its target, so a valid aircraft is never
   * below 1000 ft and `is_landed` never holds.
   */
  lemma LandingUnreachable(a: Aircraft)
    requires a.Valid()
    ensures !a.IsLanded()
  {
  }

  /** Two aircraft are in conflict when strictly less than 50 units apart. */
  predicate InConflict(a: Aircraft, b: Aircraft)
    reads a, b
  {
    Sq(a.x - b.x) + Sq(a.y - b.y) < Sq(SEPARATION_RADIUS)
  }

  /** For d the distance between the two aircraft, the conflict test is d < 50, and it is symmetric. */
  lemma ConflictIffWithinSeparation(a: Aircraft, b: Aircraft, d: real)
    requires d >= 0.0 && Sq(d) == Sq(a.x - b.x) + Sq(a.y - b.y)
    ensures InConflict(a, b) <==> d < SEPARATION_RADIUS
    ensures InConflict(a, b) <==> InConflict(b, a)
  {
    SquareBelow(d, SEPARATION_RADIUS);
    assert Sq(a.x - b.x) == Sq(b.x - a.x) && Sq(a.y - b.y) == Sq(b.y - a.y);
  }

  predicate PairBefore(p: (nat, nat), q: (nat, nat)) {
    p.0 < q.0 || (p.0 == q.0 && p.1 < q.1)
  }

  /** Every listed pair is an index pair i < j of aircraft in conflict. */
  ghost predicate Sound(fleet: seq<Aircraft>, pairs: seq<(nat, nat)>)
    reads fleet
  {
    forall k :: 0 <= k < |pairs| ==>
      pairs[k].0 < pairs[k].1 < |fleet| && InConflict(fleet[pairs[k].0], fleet[pairs[k].1])
  }

  /** The pairs are listed in strictly increasing loop order, so none twice. */
  ghost predicate Ordered(pairs: seq<(nat, nat)>) {
    forall k, l :: 0 <= k < l < |pairs| ==> PairBefore(pairs[k], pairs[l])
  }

  ghost predicate AllBefore(pairs: seq<(nat, nat)>, bound: (nat, nat)) {
    forall k :: 0 <= k < |pairs| ==> PairBefore(pairs[k], bound)
  }

  /** Every conflicting pair i < j the loop has passed before reaching bound is listed. */
  ghost predicate FoundBefore(fleet: seq<Aircraft>, pairs: seq<(nat, nat)>, bound: (nat, nat))
    reads fleet
  {
    forall p: nat, q: nat :: p < q < |fleet| && PairBefore((p, q), bound) && InConflict(fleet[p], fleet[q]) ==> (p, q) in pairs
  }

  /** (i, j) is not in conflict: everything before (i, j + 1) is already listed. */
  lemma SkipPair(fleet: seq<Aircraft>, pairs: seq<(nat, nat)>, i: nat, j: nat)
    requires i < j < |fleet| && !InConflict(fleet[i], fleet[j])
    requires AllBefore(pairs, (i, j)) && FoundBefore(fleet, pairs, (i, j))
    ensures AllBefore(pairs, (i, j + 1)) && FoundBefore(fleet, pairs, (i, j + 1))
  {
    forall p: nat, q: nat | p < q < |fleet| && PairBefore((p, q), (i, j + 1)) && InConflict(fleet[p], fleet[q])
      ensures (p, q) in pairs
    {
      assert PairBefore((p, q), (i, j));
    }
  }

  /** Appending (i, j) keeps the list sound and ordered. */
  lemma AppendPair(fleet: seq<Aircraft>, pairs: seq<(nat, nat)>, i: nat, j: nat)
    requires i < j < |fleet| && InConflict(fleet[i], fleet[j])
    requires Sound(fleet, pairs) && Ordered(pairs) && AllBefore(pairs, (i, j))
    ensures Sound(fleet, pairs + [(i, j)]) && Ordered(pairs + [(i, j)])
  {
    var next := pairs + [(i, j)];
    forall k | 0 <= k < |next|
      ensures next[k].0 < next[k].1 < |fleet| && InConflict(fleet[next[k].0], fleet[next[k].1])
    {
      if k < |pairs| { assert next[k] == pairs[k]; }
    }
    forall k, l | 0 <= k < l < |next|
      ensures PairBefore(next[k], next[l])
    {
      assert next[k] == pairs[k];
      if l < |pairs| { assert next[l] == pairs[l]; }
    }
  }

  /** Once (i, j) is appended, everything before (i, j + 1) is listed. */
  lemma AppendPairFound(fleet: seq<Aircraft>, pairs: seq<(nat, nat)>, i: nat, j: nat)
    requires i < j < |fleet|
    requires AllBefore(pairs, (i, j)) && FoundBefore(fleet, pairs, (i, j))
    ensures AllBefore(pairs + [(i, j)], (i, j + 1)) && FoundBefore(fleet, pairs + [(i, j)], (i, j + 1))
  {
    var next := pairs + [(i, j)];
    forall k | 0 <= k < |next|
      ensures PairBefore(next[k], (i, j + 1))
    {
      if k < |pairs| { assert next[k] == pairs[k]; }
    }
    forall p: nat, q: nat | p < q < |fleet| && PairBefore((p, q), (i, j + 1)) && InConflict(fleet[p], fleet[q])
      ensures (p, q) in next
    {
      if (p, q) == (i, j) {
        assert next[|pairs|] == (i, j);
      } else {
        assert PairBefore((p, q), (i, j));
        assert (p, q) in pairs;
      }
    }
  }

  /** Finishing row i: everything before (i + 1, i + 2) is listed. */
  lemma PassRow(fleet: seq<Aircraft>, pairs: seq<(nat, nat)>, i: nat)
    requires i < |fleet|
    requires AllBefore(pairs, (i, |fleet|)) && FoundBefore(fleet, pairs, (i, |fleet|))
    ensures AllBefore(pairs, (i + 1, i + 2)) && FoundBefore(fleet, pairs, (i + 1, i + 2))
  {
  }

  /**
   * The pair loop of `draw_conflict_alerts`: the index pairs (i, j), i < j, of
   * aircraft in conflict, each unordered pair examined once, in loop order.
   */
  method ConflictPairs(fleet: seq<Aircraft>) returns (pairs: seq<(nat, nat)>)
    ensures Sound(fleet, pairs)
    ensures forall i, j :: 0 <= i < j < |fleet| && InConflict(fleet[i], fleet[j]) ==> (i, j) in pairs
    ensures Ordered(pairs)
  {
    pairs := [];
    var i := 0;
    while i < |fleet|
      invariant 0 <= i <= |fleet|
      invariant Sound(fleet, pairs) && Ordered(pairs)
      invariant AllBefore(pairs, (i, i + 1)) && FoundBefore(fleet, pairs, (i, i + 1))
    {
      var j := i + 1;
      while j < |fleet|
        invariant i + 1 <= j <= |fleet|
        invariant Sound(fleet, pairs) && Ordered(pairs)
        invariant AllBefore(pairs, (i, j)) && FoundBefore(fleet, pairs, (i, j))
      {
        if InConflict(fleet[i], fleet[j]) {
          AppendPair(fleet, pairs, i, j);
          AppendPairFound(fleet, pairs, i, j);
          pairs := pairs + [(i, j)];
        } else {
          SkipPair(fleet, pairs, i, j);
        }
        j := j + 1;
      }
      PassRow(fleet, pairs, i);
      i := i + 1;
    }
  }
}
