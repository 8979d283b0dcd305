/**
 * The operator command line of newfile.py's main loop (lines 213-225): the
 * line is upper-cased and split on whitespace, and each token is applied in
 * turn to the selected aircraft's targets. `HDGn` sets the target heading to
 * n mod 360, `ALTn` the target altitude to n clamped to [1000, 40000], `SPDn`
 * the target speed to n clamped to [100, 900]; other tokens are ignored, and
 * a number that does not parse ends the line, keeping what was already set.
 */
module Commands {
  import opened PyStr

  const MIN_ALT := 1000
  const MAX_ALT := 40000
  const MIN_SPD := 100
  const MAX_SPD := 900

  datatype Axis = HeadingAxis | AltitudeAxis | SpeedAxis

  /** The commanded targets of one aircraft. */
  datatype Targets = Targets(heading: int, altitude: int, speed: int)

  /** What one token of the line means. */
  datatype Token = Assign(axis: Axis, value: int) | Unrecognised | Malformed

  predicate InAxisRange(a: Axis, v: int) {
    match a
    case HeadingAxis => 0 <= v < 360
    case AltitudeAxis => MIN_ALT <= v <= MAX_ALT
    case SpeedAxis => MIN_SPD <= v <= MAX_SPD
  }

  /** Every target within the range a command can set. */
  predicate InRange(t: Targets) {
    InAxisRange(HeadingAxis, t.heading) && InAxisRange(AltitudeAxis, t.altitude)
    && InAxisRange(SpeedAxis, t.speed)
  }

  function Get(t: Targets, a: Axis): int {
    match a
    case HeadingAxis => t.heading
    case AltitudeAxis => t.altitude
    case SpeedAxis => t.speed
  }

  function Set(t: Targets, a: Axis, v: int): (r: Targets)
    ensures Get(r, a) == v
    ensures forall b :: b != a ==> Get(r, b) == Get(t, b)
  {
    match a
    case HeadingAxis => t.(heading := v)
    case AltitudeAxis => t.(altitude := v)
    case SpeedAxis => t.(speed := v)
  }

  lemma TargetsEqual(s: Targets, t: Targets)
    requires forall a :: Get(s, a) == Get(t, a)
    ensures s == t
  {
    assert Get(s, HeadingAxis) == Get(t, HeadingAxis);
    assert Get(s, AltitudeAxis) == Get(t, AltitudeAxis);
    assert Get(s, SpeedAxis) == Get(t, SpeedAxis);
  }

  /** `max(lo, min(n, hi))`. */
  function Clamp(lo: int, hi: int, n: int): (r: int)
    requires lo <= hi
    ensures lo <= r <= hi
    ensures lo <= n <= hi ==> r == n
    ensures n < lo ==> r == lo
    ensures n > hi ==> r == hi
  {
    var capped := if n < hi then n else hi;
    if lo < capped then capped else lo
  }

  /** The meaning of one upper-cased token; its prefix is matched against HDG, ALT and SPD in that order. */
  function Classify(part: string): (tok: Token)
    ensures tok.Assign? ==> InAxisRange(tok.axis, tok.value)
  {
    if HasPrefix(part, "HDG") then
      match ParseInt(part[3..])
      case Some(n) => Assign(HeadingAxis, n % 360)
      case None => Malformed
    else if HasPrefix(part, "ALT") then
      match ParseInt(part[3..])
      case Some(n) => Assign(AltitudeAxis, Clamp(MIN_ALT, MAX_ALT, n))
      case None => Malformed
    else if HasPrefix(part, "SPD") then
      match ParseInt(part[3..])
      case Some(n) => Assign(SpeedAxis, Clamp(MIN_SPD, MAX_SPD, n))
      case None => Malformed
    else
      Unrecognised
  }

  /** `HDGn` commands the heading n mod 360, which lies in [0, 360) for negative n too. */
  lemma HeadingToken(n: int)
    ensures Classify("HDG" + IntToString(n)) == Assign(HeadingAxis, n % 360)
    ensures 0 <= n % 360 < 360
  {
    var part := "HDG" + IntToString(n);
    assert part[..3] == "HDG" && part[3..] == IntToString(n);
    ParseIntOfIntToString(n);
  }

  /** `ALTn` commands n when it lies in [1000, 40000], and the nearer bound otherwise. */
  lemma AltitudeToken(n: int)
    ensures Classify("ALT" + IntToString(n)) == Assign(AltitudeAxis, Clamp(MIN_ALT, MAX_ALT, n))
  {
    var part := "ALT" + IntToString(n);
    assert part[..3] == "ALT" && part[3..] == IntToString(n);
    assert !HasPrefix(part, "HDG") by { assert part[0] != "HDG"[0]; }
    ParseIntOfIntToString(n);
  }

  /** `SPDn` commands n when it lies in [100, 900], and the nearer bound otherwise. */
  lemma SpeedToken(n: int)
    ensures Classify("SPD" + IntToString(n)) == Assign(SpeedAxis, Clamp(MIN_SPD, MAX_SPD, n))
  {
    var part := "SPD" + IntToString(n);
    assert part[..3] == "SPD" && part[3..] == IntToString(n);
    assert !HasPrefix(part, "HDG") by { assert part[0] != "HDG"[0]; }
    assert !HasPrefix(part, "ALT") by { assert part[0] != "ALT"[0]; }
    ParseIntOfIntToString(n);
  }

  function Effect(t: Targets, tok: Token): (r: Targets)
    ensures forall a :: Get(r, a) == if tok.Assign? && tok.axis == a then tok.value else Get(t, a)
  {
    match tok
    case Assign(a, v) => Set(t, a, v)
    case _ => t
  }

  /**
   * The token loop: apply the tokens left to right; a malformed token raises
   * inside the `try`, so it and every later token are skipped while the
   * earlier assignments stay.
   */
  function ApplyParts(parts: seq<string>, t: Targets): (r: Targets)
    ensures InRange(t) ==> InRange(r)
    decreases |parts|
  {
    if parts == [] then t
    else
      var tok := Classify(parts[0]);
      if tok.Malformed? then t else ApplyParts(parts[1..], Effect(t, tok))
  }

  /** A whole command line: `command_text.strip().upper().split()` and then the token loop. */
  function Command(line: string, t: Targets): (r: Targets)
    ensures InRange(t) ==> InRange(r)
  {
    ApplyParts(Words(Upper(line)), t)
  }

  // ---------------------------------------------------------------------
  // An independent description of the outcome: the last assignment to each
  // axis among the tokens before the first malformed one.

  /** Index of the first malformed token, or the number of tokens when none is. */
  function FirstMalformed(parts: seq<string>): (k: nat)
    ensures k <= |parts|
    ensures forall i :: 0 <= i < k ==> !Classify(parts[i]).Malformed?
    ensures k < |parts| ==> Classify(parts[k]).Malformed?
  {
    if parts == [] || Classify(parts[0]).Malformed? then 0 else 1 + FirstMalformed(parts[1..])
  }

  /** The value of the last token in parts that assigns axis a, or dflt when none does. */
  function LastAssigned(parts: seq<string>, a: Axis, dflt: int): int
    decreases |parts|
  {
    if parts == [] then dflt
    else
      var tok := Classify(parts[|parts| - 1]);
      if tok.Assign? && tok.axis == a then tok.value
      else LastAssigned(parts[..|parts| - 1], a, dflt)
  }

  lemma {:induction false} LastAssignedCons(x: string, rest: seq<string>, a: Axis, dflt: int)
    ensures var tok := Classify(x);
      LastAssigned([x] + rest, a, dflt) == LastAssigned(rest, a, if tok.Assign? && tok.axis == a then tok.value else dflt)
    decreases |rest|
  {
    var s := [x] + rest;
    if rest != [] {
      assert s[|s| - 1] == rest[|rest| - 1];
      assert s[..|s| - 1] == [x] + rest[..|rest| - 1];
      LastAssignedCons(x, rest[..|rest| - 1], a, dflt);
    } else {
      assert s[..|s| - 1] == [];
    }
  }

  /** Applying a line gives, on each axis, the last assignment before the first malformed token. */
  lemma {:induction false} ApplyPartsCharacterised(parts: seq<string>, t: Targets, a: Axis)
    ensures Get(ApplyParts(parts, t), a) == LastAssigned(parts[..FirstMalformed(parts)], a, Get(t, a))
    decreases |parts|
  {
    if parts != [] && !Classify(parts[0]).Malformed? {
      var tok := Classify(parts[0]);
      var rest := parts[1..];
      ApplyPartsCharacterised(rest, Effect(t, tok), a);
      assert parts[..FirstMalformed(parts)] == [parts[0]] + rest[..FirstMalformed(rest)];
      LastAssignedCons(parts[0], rest[..FirstMalformed(rest)], a, Get(t, a));
    } else if parts != [] {
      assert parts[..0] == [];
    }
  }

  lemma {:induction false} LastAssignedIdempotent(parts: seq<string>, a: Axis, dflt: int)
    ensures LastAssigned(parts, a, LastAssigned(parts, a, dflt)) == LastAssigned(parts, a, dflt)
    decreases |parts|
  {
    if parts != [] {
      LastAssignedIdempotent(parts[..|parts| - 1], a, dflt);
    }
  }

  /** Entering the same line twice leaves the same targets as entering it once. */
  lemma CommandIdempotent(line: string, t: Targets)
    ensures Command(line, Command(line, t)) == Command(line, t)
  {
    var parts := Words(Upper(line));
    var once := ApplyParts(parts, t);
    var e := parts[..FirstMalformed(parts)];
    forall a
      ensures Get(ApplyParts(parts, once), a) == Get(once, a)
    {
      ApplyPartsCharacterised(parts, t, a);
      ApplyPartsCharacterised(parts, once, a);
      LastAssignedIdempotent(e, a, Get(t, a));
    }
    TargetsEqual(ApplyParts(parts, once), once);
  }

  lemma {:induction false} LastAssignedAt(parts: seq<string>, k: nat, a: Axis, dflt: int)
    requires k < |parts| && Classify(parts[k]).Assign? && Classify(parts[k]).axis == a
    requires forall i :: k < i < |parts| ==> !(Classify(parts[i]).Assign? && Classify(parts[i]).axis == a)
    ensures LastAssigned(parts, a, dflt) == Classify(parts[k]).value
    decreases |parts|
  {
    if k < |parts| - 1 {
      var init := parts[..|parts| - 1];
      assert init[k] == parts[k];
      LastAssignedAt(init, k, a, dflt);
    }
  }

  /**
   * A later token for an axis overwrites an earlier one: the axis ends at the
   * value of the last token that assigns it before the first malformed token.
   */
  lemma LastTokenWins(parts: seq<string>, t: Targets, k: nat)
    requires k < FirstMalformed(parts) && Classify(parts[k]).Assign?
    requires forall i :: k < i < FirstMalformed(parts) ==>
      !(Classify(parts[i]).Assign? && Classify(parts[i]).axis == Classify(parts[k]).axis)
    ensures Get(ApplyParts(parts, t), Classify(parts[k]).axis) == Classify(parts[k]).value
  {
    var a := Classify(parts[k]).axis;
    var e := parts[..FirstMalformed(parts)];
    ApplyPartsCharacterised(parts, t, a);
    assert e[k] == parts[k];
    assert forall i :: k < i < |e| ==> e[i] == parts[i];
    LastAssignedAt(e, k, a, Get(t, a));
  }

  /** An axis no token assigns before the first malformed token keeps its target. */
  lemma UnassignedAxisKept(parts: seq<string>, t: Targets, a: Axis)
    requires forall i :: 0 <= i < FirstMalformed(parts) ==>
      !(Classify(parts[i]).Assign? && Classify(parts[i]).axis == a)
    ensures Get(ApplyParts(parts, t), a) == Get(t, a)
  {
    ApplyPartsCharacterised(parts, t, a);
    LastAssignedNone(parts[..FirstMalformed(parts)], a, Get(t, a));
  }

  lemma {:induction false} LastAssignedNone(parts: seq<string>, a: Axis, dflt: int)
    requires forall i :: 0 <= i < |parts| ==> !(Classify(parts[i]).Assign? && Classify(parts[i]).axis == a)
    ensures LastAssigned(parts, a, dflt) == dflt
    decreases |parts|
  {
    if parts != [] {
      LastAssignedNone(parts[..|parts| - 1], a, dflt);
    }
  }

  /**
   * A malformed token is not all-or-nothing: what precedes it stays applied
   * and nothing after it is applied.
   */
  lemma {:induction false} MalformedEndsLine(before: seq<string>, bad: string, after: seq<string>, t: Targets)
    requires forall i :: 0 <= i < |before| ==> !Classify(before[i]).Malformed?
    requires Classify(bad).Malformed?
    ensures ApplyParts(before + [bad] + after, t) == ApplyParts(before, t)
    decreases |before|
  {
    var parts := before + [bad] + after;
    if before == [] {
      assert parts[0] == bad;
    } else {
      assert parts[0] == before[0];
      assert parts[1..] == before[1..] + [bad] + after;
      MalformedEndsLine(before[1..], bad, after, Effect(t, Classify(before[0])));
    }
  }

  /** A token that is not HDG, ALT or SPD is skipped as if absent. */
  lemma {:induction false} UnrecognisedIgnored(before: seq<string>, u: string, after: seq<string>, t: Targets)
    requires Classify(u).Unrecognised?
    ensures ApplyParts(before + [u] + after, t) == ApplyParts(before + after, t)
    decreases |before|
  {
    var parts := before + [u] + after;
    if before == [] {
      assert parts[0] == u && parts[1..] == after;
      assert before + after == after;
    } else {
      assert parts[0] == before[0];
      assert parts[1..] == before[1..] + [u] + after;
      assert (before + after)[0] == before[0] && (before + after)[1..] == before[1..] + after;
      if !Classify(before[0]).Malformed? {
        UnrecognisedIgnored(before[1..], u, after, Effect(t, Classify(before[0])));
      }
    }
  }

  /**
   * Out-of-range values are normalised: a heading of 999 becomes 279, an
   * altitude of 1 becomes 1000 and a speed of 9999 becomes 900.
   */
  lemma NormalisationExample(t: Targets)
    ensures ApplyParts(["HDG999", "ALT1", "SPD9999"], t) == Targets(279, 1000, 900)
  {
    Heading999();
    Altitude1();
    Speed9999();
    var parts := ["HDG999", "ALT1", "SPD9999"];
    assert parts[1..] == ["ALT1", "SPD9999"] && parts[1..][1..] == ["SPD9999"];
  }

  lemma Heading999()
    ensures Classify("HDG999") == Assign(HeadingAxis, 279)
  {
    HeadingToken(999);
    assert NatToString(99) == "99";
    assert IntToString(999) == "999";
  }

  lemma Altitude1()
    ensures Classify("ALT1") == Assign(AltitudeAxis, 1000)
  {
    AltitudeToken(1);
    assert IntToString(1) == "1";
  }

  lemma Speed9999()
    ensures Classify("SPD9999") == Assign(SpeedAxis, 900)
  {
    SpeedToken(9999);
    assert NatToString(99) == "99";
    assert NatToString(999) == "999";
    assert IntToString(9999) == "9999";
  }

  /** A bad number after a good heading keeps the heading and drops the speed after it. */
  lemma PartialApplicationExample(t: Targets)
    ensures ApplyParts(["HDG90", "ALTX", "SPD200"], t) == t.(heading := 90)
  {
    HeadingToken(90);
    assert IntToString(90) == "90";
    var bad := "ALTX";
    assert bad[..3] == "ALT" && bad[3..] == "X";
    assert ParseInt("X") == None;
    assert !HasPrefix(bad, "HDG") by { assert bad[0] != "HDG"[0]; }
    MalformedEndsLine(["HDG90"], bad, ["SPD200"], t);
    assert ["HDG90"] + [bad] + ["SPD200"] == ["HDG90", "ALTX", "SPD200"];
  }
}
