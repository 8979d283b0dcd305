# Heathrow ATC simulator core and string exercises, in Dafny

This project models the parts of two Python programs that hold rules you can state:

- **newfile.py**, a Heathrow air-traffic-control game. The model covers:
  - the `Aircraft` record (heading, altitude, speed and their commanded targets) and one tick of `Aircraft.update`;
  - the operator's command line (`HDGn`, `ALTn`, `SPDn`), written into the selected aircraft's targets;
  - the `is_near_airport` and `is_landed` tests;
  - the pairwise separation check of `draw_conflict_alerts`.
- **hw.py**, five string exercises: the domain of an e-mail address, the initials of a name, a DD/MM/YYYY shape check, the text between brackets, and the shortest repeating prefix.

Modules:

- `PyStr` (pystr.dfy): the Python built-ins both programs use. It covers `find` with a negative start, slicing with index normalisation, `split()`, `split(sep)`, `join`, `upper()` and `int()`.
- `Kinematics` (kinematics.dfy): the three step functions of `update`, with convergence lemmas.
- `Commands` (commands.dfy): what each command token means and what a whole line does to the targets.
- `Radar` (radar.dfy): class `Aircraft`, whose methods change its fields in place and are proved against the step functions and the command semantics. It also holds the proximity tests and the conflict pair loop.
- `Homework` (homework.dfy): the five exercises of hw.py.

The tutorial text of the repository's earlier simulator (Programming Project/Main.py:755-758) commands altitude as an `FL` flight level and landing with `CLEARED TO LAND`. The model follows newfile.py, where:
- altitude is set with `ALT`, clamped to [1000, 40000], and speed is clamped to [100, 900];
- tokens are applied one at a time, so a bad number keeps what came before it;
- there is no landing command;
- conflicts are purely horizontal, at a distance below 50.

Each `Aircraft` object keeps an invariant, `Valid()`. Its constructor establishes it, and `Update` and `ApplyCommand` preserve it. `Valid()` says:
- the heading and targets lie in the ranges commands produce;
- the altitude stays within [1000, 40000].

Altitude starts at 2000 ft or more. Its target is never below 1000 ft, and a step never passes the target. So `is_landed`, which needs an altitude below 1000 ft, can never hold (`Radar.LandingUnreachable`).

## Model

| member | source | states |
|---|---|---|
| Kinematics.HeadingStep | newfile.py:60-65 | the stepped heading stays in [0, 360), and a heading equal to its target is left unchanged |
| Kinematics.HeadingStepTurnsOneDegree | newfile.py:60-65 | when heading and target differ, the heading turns exactly one degree, and the circular distance to the target drops by exactly 1; the turn is +1 exactly when the target is at most 180 degrees clockwise, so a 180 degree tie turns +1 |
| Kinematics.HeadingConverges | newfile.py:60-65 | after n ticks the circular distance to the target is its initial value minus n, floored at 0 |
| Kinematics.HeadingReachedWithin180 | newfile.py:60-65 | once the number of ticks reaches the initial circular distance (at most 180), the heading equals the target and stays there |
| Kinematics.CircularDistance | newfile.py:61-62 | the shorter-arc distance between two headings lies in [0, 180] and is 0 exactly when they are equal |
| Kinematics.AltitudeStep | newfile.py:67-72 | the new altitude lies between the old altitude and the target, so it never passes the target; its distance to the target shrinks by 500 times the speed factor, floored at 0; it is unchanged when already at the target |
| Kinematics.AltitudeConverges | newfile.py:67-72 | after n ticks the distance to the target altitude is the initial distance minus n times 500 times the speed factor, floored at 0 |
| Kinematics.SpeedStep | newfile.py:74-78 | a speed different from its target moves by exactly the speed factor, toward the target; a speed at its target is unchanged |
| Kinematics.SpeedOvershoots | newfile.py:74-78 | a speed closer to its target than one step passes it and ends on the other side, because no clamp exists |
| Radar.Aircraft.constructor | newfile.py:37-57 | a new aircraft starts on a screen edge with its targets equal to its current heading, altitude and speed, and satisfies the invariant |
| Radar.Aircraft.Update | newfile.py:59-78 | heading, altitude and speed become exactly the three step functions of their old values and targets; targets are unchanged, and the invariant (altitude within [1000, 40000]) is kept |
| Radar.Aircraft.ApplyCommand | newfile.py:213-225 | the targets become `Command` of the line and the old targets, nothing else changes, and the invariant is kept |
| Radar.Aircraft.IsNearAirport | newfile.py:114-115 | the squared distance to (500, 350) is below 300 squared; `NearAirportIffWithinRadius` ties it to `hypot(...) < 300` |
| Radar.Aircraft.IsLanded | newfile.py:117-118 | near the airport, below 1000 ft and at a speed in [60, 200]; `LandingUnreachable` shows it never holds |
| Radar.LandingUnreachable | newfile.py:117-118 | no aircraft satisfying the invariant is ever landed, because its altitude is never below 1000 ft |
| Radar.NearAirportIffWithinRadius | newfile.py:114-115 | for d the Euclidean distance to the airport at (500, 350), the squared test holds exactly when d < 300 |
| Radar.InConflict | newfile.py:153-155 | the squared distance between two aircraft is below 50 squared; `ConflictIffWithinSeparation` ties it to `hypot(...) < 50` |
| Radar.ConflictIffWithinSeparation | newfile.py:154-155 | for d the distance between two aircraft, the conflict test holds exactly when d < 50, and it is symmetric in the two aircraft |
| Radar.ConflictPairs | newfile.py:151-155 | the result lists exactly the pairs (i, j), with i < j, of aircraft in conflict; each unordered pair appears once, in loop order |
| Commands.Clamp | newfile.py:220-222 | `max(lo, min(n, hi))` lies in [lo, hi]; it is n inside the range and the nearer bound outside it |
| Commands.Classify | newfile.py:217-222 | every value a token assigns lies in its axis's range: heading in [0, 360), altitude in [1000, 40000], speed in [100, 900] |
| Commands.HeadingToken | newfile.py:217-218 | the token `HDG` followed by n in decimal assigns heading n mod 360, which lies in [0, 360) for negative n as well |
| Commands.AltitudeToken | newfile.py:219-220 | the token `ALT` followed by n assigns altitude n clamped to [1000, 40000] |
| Commands.SpeedToken | newfile.py:221-222 | the token `SPD` followed by n assigns speed n clamped to [100, 900] |
| Commands.ApplyParts | newfile.py:214-224 | applying tokens to targets within range gives targets within range |
| Commands.Command | newfile.py:215-224 | a whole line, upper-cased and split on whitespace, keeps targets within range |
| Commands.ApplyPartsCharacterised | newfile.py:214-224 | on every axis, the result is the value of the last token assigning that axis before the first malformed token, or the old target when there is none |
| Commands.LastTokenWins | newfile.py:216-222 | a later token for an axis overwrites an earlier one: the axis ends at the value of the last such token before any malformed one |
| Commands.UnassignedAxisKept | newfile.py:216-222 | an axis that no token before the first malformed one assigns keeps its old target |
| Commands.MalformedEndsLine | newfile.py:214-224 | a token whose number fails to parse keeps every earlier assignment and skips every later token, so a line is not all-or-nothing |
| Commands.UnrecognisedIgnored | newfile.py:216-222 | a token that is not HDG, ALT or SPD has the same effect as leaving it out |
| Commands.CommandIdempotent | newfile.py:213-225 | entering the same line twice leaves the same targets as entering it once |
| Commands.NormalisationExample | newfile.py:217-222 | the tokens HDG999, ALT1 and SPD9999 give heading 279, altitude 1000 and speed 900 |
| Commands.PartialApplicationExample | newfile.py:214-224 | the tokens HDG90, ALTX and SPD200 set heading 90 and change nothing else |
| PyStr.ParseIntOfIntToString | newfile.py:218 | `int` applied to the decimal rendering of any integer gives that integer back |
| PyStr.Upper | newfile.py:215 | upper-casing keeps the length and upper-cases each character |
| PyStr.Find | hw.py:3-4 | `find` returns the first index at or after the normalised start that holds the character, or -1 when none does |
| PyStr.Slice | hw.py:5 | a slice with in-range bounds is the ordinary subsequence |
| PyStr.Words | hw.py:12 | every piece of `split()` is non-empty and free of whitespace |
| PyStr.WordsOfJoin | hw.py:12 | `split()` of words joined by single spaces gives the words back |
| PyStr.WordsOfInterleave | newfile.py:215 | `split()` of words placed among any whitespace-only gaps (leading, trailing, repeated, tabs, newlines; the gaps between words non-empty) gives exactly those words |
| PyStr.GapsOfWords | hw.py:12 | every string is the words `split()` returns with whitespace-only gaps around and between them, the inner gaps non-empty; with `WordsOfInterleave` this makes the result exactly the maximal non-whitespace runs, in order |
| PyStr.ParseInt | newfile.py:218 | `int()` on a token: an optional sign then at least one digit gives its value, anything else raises (None); its partner `ParseIntOfIntToString` gives `int(str(n)) == n` |
| PyStr.Join | hw.py:13 | `sep.join(parts)`; its round trips with `split` are `JoinSplitOn`, `SplitOnJoin` and `WordsOfJoin` |
| PyStr.SplitOn | hw.py:20 | `split('/')` gives at least one piece, and no piece contains the separator |
| PyStr.JoinSplitOn | hw.py:20 | joining the pieces of `split(sep)` with sep restores the string |
| PyStr.SplitOnJoin | hw.py:20 | splitting a join of separator-free pieces gives the pieces back |
| Homework.EmailDomain | hw.py:2-5 | the slice from after the first '@' up to the '.' found from there; it never reaches the address's last character, so a non-empty address always yields a shorter result; its three cases are the next three rows |
| Homework.EmailDomainBetween | hw.py:2-5 | with a first '@' and a '.' after it, the result is exactly the text strictly between the '@' and the first such '.', and it contains no '.' |
| Homework.EmailDomainNoDot | hw.py:2-5 | with an '@' but no '.' after it, the result is the text after the '@' minus the address's last character |
| Homework.EmailDomainNoAt | hw.py:2-5 | without an '@', the result is the whole address minus its last character, or empty for an empty address |
| Homework.Initials | hw.py:11-13 | the output is non-empty and ends in '.'; its full shape is `InitialsShape` |
| Homework.InitialsShape | hw.py:11-13 | for n words the output has 2n characters: word k's first character upper-cased at index 2k and '.' at 2k+1; a blank name gives "." |
| Homework.ValidDateFormat | hw.py:19-24 | the test `split('/')` gives three parts of lengths 2, 2 and 4; `ValidDateFormatIffShape` states which strings pass |
| Homework.ValidDateFormatIffShape | hw.py:19-24 | the check passes exactly when the input has length 10 with '/' at indices 2 and 5 and nowhere else; digits are not checked |
| Homework.Bracketed | hw.py:31-37 | a returned text is non-empty and contains no ']', and the input contains both brackets |
| Homework.BracketedBetween | hw.py:31-37 | with the first '[' and the first ']' after it, the result is the text between them, or the no-brackets outcome when they are adjacent |
| Homework.BracketedNoOpen | hw.py:32-37 | an input without '[' gives the no-brackets outcome |
| Homework.BracketedNoClose | hw.py:32-37 | an input without ']' after its first '[' gives the no-brackets outcome |
| Homework.RepeatsTo | hw.py:44 | the test `s[:i] * (len(s) // i) == s`; a passing i divides `len(s)` (`RepeatsToDivides`) |
| Homework.RepeatsToDivides | hw.py:44 | a prefix length that passes the repetition test divides the length of the string |
| Homework.ShortestRepeatingPrefix | hw.py:42-46 | for a non-empty string the result p is a prefix, `len(p)` divides `len(s)`, and p repeated `len(s)/len(p)` times is s; no shorter prefix passes that test; an empty string prints nothing |

## Left out

- Radar.Aircraft.Update: does not model the position advance of newfile.py:80-84. That advance uses cosine and sine of the heading in floating point, with a wrap-around modulo the screen size. The model keeps `x` and `y` unchanged.
- Altitude, speed and the speed factor are modelled as exact reals, not IEEE floating point. The 0.1-step changes of the speed factor (newfile.py:228-231) are left out. The factor is taken as a positive parameter, as those changes keep it at 0.1 or more.
- The random initial state of `Aircraft.__init__` becomes constructor parameters. Their ranges, taken from newfile.py:38-50, are the constructor's preconditions.
- The fields `selected`, `id`, `type` and `origin` are left out. They are only displayed.
- Selecting an aircraft with the mouse is left out, as is the rest of the event loop. `ApplyCommand` is called on the aircraft the operator selected.
- The removal and respawn of landed aircraft (newfile.py:236-241) is left out. It depends on random spawning, and `Radar.LandingUnreachable` shows it can never happen.
- All drawing, fonts, menus and the settings screen are left out.
- Commands.Command: drops the `strip()` before `split()`. `split()` without arguments already ignores leading and trailing whitespace, so the result is the same.
- `int()` is modelled as an optional sign followed by ASCII digits. Python also accepts underscores between digits, surrounding whitespace and non-ASCII digits. Tokens never contain whitespace; the other two are treated as parse failures.
- `upper()` is modelled on ASCII letters only. Python's case mapping of other characters, including those that expand to several characters, is left out.
- The `input()` prompts and `print` calls of hw.py are left out. Task 3's two messages become a boolean. Task 4's "No brackets found" becomes `None`, and Task 5's silence on empty input becomes `None`.
- flowchart.py (builds a diagram) and tester.py (sums floating-point rates over calendar dates) are not part of this model. Nor are the other scripts of the repository.
