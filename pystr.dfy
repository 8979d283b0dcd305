/**
 * The Python string built-ins that both programs rely on, as total functions
 * over `string` (a sequence of characters): `str.find` for one character,
 * slicing with Python's index normalisation, `str.split()` on whitespace,
 * `str.split(sep)`, `sep.join(parts)`, `str.upper()` on ASCII letters and
 * `int()` on a decimal literal.
 */
module PyStr {

  datatype Option<T> = None | Some(value: T)

  /** The code points Python's `str.isspace` accepts; `str.split()` breaks on them. */
  predicate IsSpace(c: char) {
    var u := c as int;
    (9 <= u <= 13) || (28 <= u <= 32) || u == 0x85 || u == 0xA0 || u == 0x1680
    || (0x2000 <= u <= 0x200A) || u == 0x2028 || u == 0x2029 || u == 0x202F
    || u == 0x205F || u == 0x3000
  }

  /** `c.upper()` for a character whose upper case is a single character of the ASCII range. */
  function UpperChar(c: char): (u: char)
    ensures 'a' <= c <= 'z' ==> 'A' <= u <= 'Z' && u as int == c as int - 32
    ensures !('a' <= c <= 'z') ==> u == c
  {
    if 'a' <= c <= 'z' then (c as int - 32) as char else c
  }

  function Upper(s: string): (r: string)
    ensures |r| == |s| && forall i :: 0 <= i < |s| ==> r[i] == UpperChar(s[i])
  {
    if s == [] then [] else [UpperChar(s[0])] + Upper(s[1..])
  }

  predicate HasPrefix(s: string, p: string) {
    |p| <= |s| && s[..|p|] == p
  }

  // ---------------------------------------------------------------------
  // Indexing, find and slicing

  /**
   * Python's normalisation of a slice bound or of `find`'s start against a
   * string of length n: a negative index counts from the end, and the result
   * is clamped to [0, n].
   */
  function ClampIndex(i: int, n: nat): (k: nat)
    ensures k <= n
    ensures 0 <= i <= n ==> k == i
    ensures i > n ==> k == n
    ensures i < 0 ==> k == if i + n < 0 then 0 else i + n
  {
    if i < 0 then (if i + n < 0 then 0 else i + n) else if i > n then n else i
  }

  function FindFrom(s: string, c: char, from: nat): (k: int)
    requires from <= |s|
    ensures k == -1 || (from <= k < |s| && s[k] == c)
    ensures forall i :: from <= i < |s| && (k == -1 || i < k) ==> s[i] != c
    decreases |s| - from
  {
    if from == |s| then -1 else if s[from] == c then from else FindFrom(s, c, from + 1)
  }

  /**
   * `s.find(c, start)`: the first index at or after the normalised start that
   * holds c, or -1 when there is none.
   */
  function Find(s: string, c: char, start: int): (k: int)
    ensures k == -1 || (ClampIndex(start, |s|) <= k < |s| && s[k] == c)
    ensures forall i :: ClampIndex(start, |s|) <= i < |s| && (k == -1 || i < k) ==> s[i] != c
  {
    FindFrom(s, c, ClampIndex(start, |s|))
  }

  /** `s[i:j]`: both bounds normalised, empty when the lower is not below the upper. */
  function Slice(s: string, i: int, j: int): (r: string)
    ensures 0 <= i <= j <= |s| ==> r == s[i..j]
    ensures |r| <= |s|
  {
    var lo, hi := ClampIndex(i, |s|), ClampIndex(j, |s|);
    if lo < hi then s[lo..hi] else []
  }

  // ---------------------------------------------------------------------
  // str.split() and its inverse

  /** Length of the longest prefix of s free of whitespace. */
  function WordLength(s: string): (n: nat)
    ensures n <= |s|
    ensures forall i :: 0 <= i < n ==> !IsSpace(s[i])
    ensures n < |s| ==> IsSpace(s[n])
  {
    if s == [] || IsSpace(s[0]) then 0 else 1 + WordLength(s[1..])
  }

  predicate IsWord(w: string) {
    w != [] && forall i :: 0 <= i < |w| ==> !IsSpace(w[i])
  }

  /** `s.split()`: the maximal runs of non-whitespace characters, in order. */
  function Words(s: string): (ws: seq<string>)
    ensures forall k :: 0 <= k < |ws| ==> IsWord(ws[k])
    decreases |s|
  {
    if s == [] then []
    else if IsSpace(s[0]) then Words(s[1..])
    else
      var n := WordLength(s);
      [s[..n]] + Words(s[n..])
  }

  /** `sep.join(parts)`. */
  function Join(sep: string, parts: seq<string>): (r: string)
  {
    if |parts| == 0 then []
    else if |parts| == 1 then parts[0]
    else parts[0] + sep + Join(sep, parts[1..])
  }

  lemma {:induction false} WordLengthOfWord(w: string, rest: string)
    requires IsWord(w)
    requires rest == [] || IsSpace(rest[0])
    ensures WordLength(w + rest) == |w|
    decreases |w|
  {
    var s := w + rest;
    if |w| > 1 {
      assert s[1..] == w[1..] + rest;
      WordLengthOfWord(w[1..], rest);
    } else {
      assert s[1..] == rest;
    }
  }

  /** Splitting words joined by single spaces gives the words back. */
  lemma {:induction false} WordsOfJoin(ws: seq<string>)
    requires forall k :: 0 <= k < |ws| ==> IsWord(ws[k])
    ensures Words(Join(" ", ws)) == ws
    decreases |ws|
  {
    if |ws| == 1 {
      var w := ws[0];
      WordLengthOfWord(w, []);
      assert w + [] == w;
      assert w[|w|..] == [];
      assert w[..|w|] == w;
      WordsOfPrefixWord(w, []);
    } else if |ws| > 1 {
      var w, rest := ws[0], Join(" ", ws[1..]);
      var s := w + " " + rest;
      assert Join(" ", ws) == s;
      WordLengthOfWord(w, " " + rest);
      assert s == w + (" " + rest);
      WordsOfPrefixWord(w, " " + rest);
      assert (" " + rest)[0] == ' ';
      assert (" " + rest)[1..] == rest;
      WordsOfJoin(ws[1..]);
    }
  }

  lemma WordsOfPrefixWord(w: string, rest: string)
    requires IsWord(w)
    requires rest == [] || IsSpace(rest[0])
    ensures Words(w + rest) == [w] + Words(rest)
  {
    var s := w + rest;
    WordLengthOfWord(w, rest);
    assert s[..|w|] == w;
    assert s[|w|..] == rest;
  }

  predicate AllSpace(g: string) {
    forall i :: 0 <= i < |g| ==> IsSpace(g[i])
  }

  /** `gaps[0] + ws[0] + gaps[1] + ... + ws[n-1] + gaps[n]`. */
  function Interleave(gaps: seq<string>, ws: seq<string>): string
    requires |gaps| == |ws| + 1
    decreases |ws|
  {
    if ws == [] then gaps[0] else gaps[0] + ws[0] + Interleave(gaps[1..], ws[1..])
  }

  /**
   * gaps can sit around ws: one more gap than words, every gap whitespace
   * only, and every gap between two words non-empty (the outer two may be empty).
   */
  predicate Separating(gaps: seq<string>, ws: seq<string>) {
    |gaps| == |ws| + 1
    && (forall k :: 0 <= k < |gaps| ==> AllSpace(gaps[k]))
    && (forall k :: 0 < k < |ws| ==> gaps[k] != [])
  }

  lemma {:induction false} WordsOfSpaces(g: string, rest: string)
    requires AllSpace(g)
    ensures Words(g + rest) == Words(rest)
    decreases |g|
  {
    if g != [] {
      assert (g + rest)[1..] == g[1..] + rest;
      WordsOfSpaces(g[1..], rest);
    } else {
      assert g + rest == rest;
    }
  }

  /**
   * Whatever whitespace surrounds and separates them (leading, trailing,
   * repeated, tabs or newlines), `split()` returns exactly the words.
   */
  lemma {:induction false} WordsOfInterleave(gaps: seq<string>, ws: seq<string>)
    requires Separating(gaps, ws)
    requires forall k :: 0 <= k < |ws| ==> IsWord(ws[k])
    ensures Words(Interleave(gaps, ws)) == ws
    decreases |ws|
  {
    if ws == [] {
      WordsOfSpaces(gaps[0], []);
      assert gaps[0] + [] == gaps[0];
    } else {
      var tail := Interleave(gaps[1..], ws[1..]);
      assert Interleave(gaps, ws) == gaps[0] + (ws[0] + tail);
      WordsOfSpaces(gaps[0], ws[0] + tail);
      AfterFirstWord(gaps, ws);
      WordsOfPrefixWord(ws[0], tail);
      SeparatingTail(gaps, ws);
      WordsOfInterleave(gaps[1..], ws[1..]);
      assert [ws[0]] + ws[1..] == ws;
    }
  }

  /** What follows the first word is empty or starts with whitespace. */
  lemma AfterFirstWord(gaps: seq<string>, ws: seq<string>)
    requires Separating(gaps, ws) && ws != []
    ensures var tail := Interleave(gaps[1..], ws[1..]); tail == [] || IsSpace(tail[0])
  {
    var tail := Interleave(gaps[1..], ws[1..]);
    assert AllSpace(gaps[1]);
    if ws[1..] != [] {
      assert gaps[1] != [];
      assert gaps[1..][1..] == gaps[2..] && ws[1..][1..] == ws[2..];
      assert tail == gaps[1] + (ws[1] + Interleave(gaps[2..], ws[2..]));
      assert tail[0] == gaps[1][0];
    } else {
      assert tail == gaps[1];
    }
  }

  lemma SeparatingTail(gaps: seq<string>, ws: seq<string>)
    requires Separating(gaps, ws) && ws != []
    ensures Separating(gaps[1..], ws[1..])
  {
    forall k | 0 < k < |ws| - 1
      ensures gaps[1..][k] != []
    {
      assert gaps[1..][k] == gaps[k + 1];
    }
    forall k | 0 <= k < |gaps| - 1
      ensures AllSpace(gaps[1..][k])
    {
      assert gaps[1..][k] == gaps[k + 1];
    }
  }

  /** The whitespace runs of s: before the first word, between words, and after the last. */
  function Gaps(s: string): (gaps: seq<string>)
    ensures |gaps| >= 1
    decreases |s|
  {
    if s == [] then [[]]
    else if IsSpace(s[0]) then
      var r := Gaps(s[1..]);
      [[s[0]] + r[0]] + r[1..]
    else
      [[]] + Gaps(s[WordLength(s)..])
  }

  /** s is its words with its whitespace runs placed around and between them. */
  predicate Decomposes(s: string) {
    Separating(Gaps(s), Words(s)) && Interleave(Gaps(s), Words(s)) == s
  }

  lemma DecomposesSpace(s: string)
    requires s != [] && IsSpace(s[0]) && Decomposes(s[1..])
    ensures Decomposes(s)
  {
    var gaps, ws, r := Gaps(s), Words(s), Gaps(s[1..]);
    assert ws == Words(s[1..]);
    assert gaps == [[s[0]] + r[0]] + r[1..];
    assert gaps[1..] == r[1..];
    if ws == [] {
      assert r[0] == s[1..];
    } else {
      assert Interleave(r, ws) == r[0] + ws[0] + Interleave(r[1..], ws[1..]);
    }
    assert s == [s[0]] + s[1..];
    forall k | 0 <= k < |gaps|
      ensures AllSpace(gaps[k])
    {
      if k > 0 { assert gaps[k] == r[k]; }
    }
  }

  /** A word in front: an empty leading gap, and the old leading gap now sits between two words. */
  lemma SeparatingConsWord(r: seq<string>, ws: seq<string>, w: string)
    requires Separating(r, ws) && (ws != [] ==> r[0] != [])
    ensures Separating([[]] + r, [w] + ws)
    ensures Interleave([[]] + r, [w] + ws) == w + Interleave(r, ws)
  {
    var gaps := [[]] + r;
    assert gaps[1..] == r && ([w] + ws)[1..] == ws;
    forall k | 0 < k < |ws| + 1
      ensures gaps[k] != []
    {
      assert gaps[k] == r[k - 1];
    }
    forall k | 0 <= k < |gaps|
      ensures AllSpace(gaps[k])
    {
      if k > 0 { assert gaps[k] == r[k - 1]; }
    }
  }

  lemma DecomposesWord(s: string)
    requires s != [] && !IsSpace(s[0]) && Decomposes(s[WordLength(s)..])
    ensures Decomposes(s)
  {
    var n := WordLength(s);
    var rest := s[n..];
    var r, ws' := Gaps(rest), Words(rest);
    assert Words(s) == [s[..n]] + ws';
    assert Gaps(s) == [[]] + r;
    if ws' != [] {
      assert rest == r[0] + ws'[0] + Interleave(r[1..], ws'[1..]);
      assert IsWord(ws'[0]) && IsSpace(rest[0]);
      assert r[0] != [];
    }
    SeparatingConsWord(r, ws', s[..n]);
    assert s == s[..n] + rest;
  }

  /**
   * Every string is its words with its whitespace runs around and between
   * them, so together with `WordsOfInterleave` this pins `split()` down: its
   * result is the maximal non-whitespace runs of s, in order, and nothing else.
   */
  lemma {:induction false} GapsOfWords(s: string)
    ensures Separating(Gaps(s), Words(s)) && Interleave(Gaps(s), Words(s)) == s
    decreases |s|
  {
    if s == [] {
    } else if IsSpace(s[0]) {
      GapsOfWords(s[1..]);
      DecomposesSpace(s);
    } else {
      GapsOfWords(s[WordLength(s)..]);
      DecomposesWord(s);
    }
  }

  // ---------------------------------------------------------------------
  // str.split(sep) for a one-character separator, and its inverse join

  /** `s.split(sep)`: all pieces between separators, empty ones included. */
  function SplitOn(s: string, sep: char): (parts: seq<string>)
    ensures |parts| >= 1
    ensures forall k :: 0 <= k < |parts| ==> sep !in parts[k]
  {
    if s == [] then [[]]
    else
      var rest := SplitOn(s[1..], sep);
      if s[0] == sep then [[]] + rest else [[s[0]] + rest[0]] + rest[1..]
  }

  /** Joining the pieces with the separator restores the string. */
  lemma {:induction false} JoinSplitOn(s: string, sep: char)
    ensures Join([sep], SplitOn(s, sep)) == s
  {
    if s != [] {
      var rest := SplitOn(s[1..], sep);
      JoinSplitOn(s[1..], sep);
      if s[0] == sep {
        assert SplitOn(s, sep) == [[]] + rest;
        assert ([[]] + rest)[1..] == rest;
        assert Join([sep], SplitOn(s, sep)) == [] + [sep] + Join([sep], rest);
        assert s == [sep] + s[1..];
      } else {
        var parts := SplitOn(s, sep);
        assert parts == [[s[0]] + rest[0]] + rest[1..];
        if |rest| == 1 {
          assert Join([sep], rest) == rest[0];
        } else {
          assert parts[1..] == rest[1..];
          assert Join([sep], rest) == rest[0] + [sep] + Join([sep], rest[1..]);
        }
        assert s == [s[0]] + s[1..];
      }
    }
  }

  /** Splitting a join of separator-free pieces gives the pieces back. */
  lemma {:induction false} SplitOnJoin(parts: seq<string>, sep: char)
    requires |parts| >= 1
    requires forall k :: 0 <= k < |parts| ==> sep !in parts[k]
    ensures SplitOn(Join([sep], parts), sep) == parts
    decreases |parts|
  {
    if |parts| == 1 {
      SplitOnFree(parts[0], [], sep);
      assert parts[0] + [] == parts[0];
      assert SplitOn(Join([sep], parts), sep) == [parts[0] + []];
    } else {
      SplitOnJoin(parts[1..], sep);
      var tail := Join([sep], parts[1..]);
      var whole := parts[0] + ([sep] + tail);
      assert Join([sep], parts) == whole;
      SplitOnFree(parts[0], [sep] + tail, sep);
      var r := SplitOn([sep] + tail, sep);
      assert ([sep] + tail)[1..] == tail;
      assert r == [[]] + parts[1..];
      assert r[0] == [] && r[1..] == parts[1..];
      assert parts[0] + r[0] == parts[0];
      assert [parts[0]] + parts[1..] == parts;
    }
  }

  /** A separator-free prefix becomes part of the first piece. */
  lemma {:induction false} SplitOnFree(a: string, b: string, sep: char)
    requires sep !in a
    ensures var r := SplitOn(b, sep); SplitOn(a + b, sep) == [a + r[0]] + r[1..]
    decreases |a|
  {
    if a != [] {
      var s := a + b;
      assert s[1..] == a[1..] + b;
      assert s[0] == a[0];
      SplitOnFree(a[1..], b, sep);
      assert [a[0]] + (a[1..] + SplitOn(b, sep)[0]) == a + SplitOn(b, sep)[0];
    } else {
      var r := SplitOn(b, sep);
      assert a + b == b;
      assert a + r[0] == r[0];
      assert [r[0]] + r[1..] == r;
    }
  }

  // ---------------------------------------------------------------------
  // int() on a decimal literal, and decimal rendering as its partner

  predicate IsDigit(c: char) {
    '0' <= c <= '9'
  }

  predicate AllDigits(s: string) {
    forall i :: 0 <= i < |s| ==> IsDigit(s[i])
  }

  /** The value of a string of decimal digits, most significant first. */
  function DigitsValue(s: string): (n: nat)
    requires AllDigits(s)
  {
    if s == [] then 0 else 10 * DigitsValue(s[..|s| - 1]) + (s[|s| - 1] as int - '0' as int)
  }

  /**
   * `int(s)` on a token that holds no whitespace: an optional sign followed by
   * at least one ASCII digit; anything else raises, modelled as None.
   */
  function ParseInt(s: string): (r: Option<int>)
  {
    if |s| >= 2 && (s[0] == '+' || s[0] == '-') && AllDigits(s[1..]) then
      var magnitude: int := DigitsValue(s[1..]);
      Some(if s[0] == '-' then -magnitude else magnitude)
    else if |s| >= 1 && AllDigits(s) then
      Some(DigitsValue(s))
    else
      None
  }

  function DigitChar(d: nat): (c: char)
    requires d < 10
    ensures IsDigit(c) && c as int - '0' as int == d
  {
    ('0' as int + d) as char
  }

  /** Decimal rendering of a natural number without leading zeros (Python's `str(n)`). */
  function NatToString(n: nat): (s: string)
    ensures |s| >= 1 && AllDigits(s)
  {
    if n < 10 then [DigitChar(n)] else NatToString(n / 10) + [DigitChar(n % 10)]
  }

  /** Decimal rendering of an integer, with a leading '-' when it is negative. */
  function IntToString(n: int): (s: string)
  {
    if n < 0 then "-" + NatToString(-n) else NatToString(n)
  }

  lemma {:induction false} DigitsValueOfNatToString(n: nat)
    ensures DigitsValue(NatToString(n)) == n
  {
    if n >= 10 {
      var s := NatToString(n);
      DigitsValueOfNatToString(n / 10);
      assert s[..|s| - 1] == NatToString(n / 10);
    }
  }

  /** `int(str(n)) == n` for every integer. */
  lemma ParseIntOfIntToString(n: int)
    ensures ParseInt(IntToString(n)) == Some(n)
  {
    var s := IntToString(n);
    if n < 0 {
      var digits := NatToString(-n);
      DigitsValueOfNatToString(-n);
      assert s == "-" + digits && s[1..] == digits;
      assert |s| >= 2 && s[0] == '-' && AllDigits(s[1..]);
      var magnitude: int := DigitsValue(digits);
      assert ParseInt(s) == Some(-magnitude);
    } else {
      DigitsValueOfNatToString(n);
      assert s == NatToString(n) && IsDigit(s[0]);
      assert ParseInt(s) == Some(DigitsValue(s));
    }
  }
}
