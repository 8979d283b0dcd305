/**
 * The five string exercises of hw.py, each as a function (or, for the loop
 * with an early exit, a method) from the string the exercise reads to what it
 * prints. The prompt and the printing are not modelled.
 */
module Homework {
  import opened PyStr

  // ---------------------------------------------------------------------
  // Task 1: the domain of an e-mail address

  /** What Task 1 prints: the slice from after the first '@' up to the first '.' found from the '@'. */
  function EmailDomain(email: string): (domain: string)
    ensures email != [] ==> |domain| < |email|
  {
    var at := Find(email, '@', 0);
    var dot := Find(email, '.', at);
    Slice(email, at + 1, dot)
  }

  /**
   * With an '@' at index at (the first one) and a '.' at index dot (the first
   * one after it), the result is exactly the text strictly between them, so it
   * holds no '.'.
   */
  lemma EmailDomainBetween(email: string, at: nat, dot: nat)
    requires at < dot < |email| && email[at] == '@' && email[dot] == '.'
    requires forall i :: 0 <= i < at ==> email[i] != '@'
    requires forall i :: at < i < dot ==> email[i] != '.'
    ensures EmailDomain(email) == email[at + 1..dot]
    ensures '.' !in EmailDomain(email)
  {
  }

  /**
   * With an '@' but no '.' after it, `find` returns -1 and the slice ends one
   * character before the end: the last character of the address is dropped.
   */
  lemma EmailDomainNoDot(email: string, at: nat)
    requires at < |email| && email[at] == '@'
    requires forall i :: 0 <= i < at ==> email[i] != '@'
    requires forall i :: at < i < |email| ==> email[i] != '.'
    ensures EmailDomain(email) == if at + 1 < |email| then email[at + 1..|email| - 1] else []
  {
  }

  /**
   * Without an '@', `find` gives -1, the search for '.' starts at the last
   * character, and either way the result is the whole address but its last character.
   */
  lemma EmailDomainNoAt(email: string)
    requires '@' !in email
    ensures EmailDomain(email) == if email == [] then [] else email[..|email| - 1]
  {
    var at := Find(email, '@', 0);
    assert at == -1;
    var dot := Find(email, '.', at);
    if email != [] {
      assert ClampIndex(-1, |email|) == |email| - 1;
      assert dot == -1 || dot == |email| - 1;
      assert ClampIndex(dot, |email|) == |email| - 1;
    }
  }

  // ---------------------------------------------------------------------
  // Task 2: initials of a full name

  /** What Task 2 prints: each word's first character upper-cased, joined by '.', then a final '.'. */
  function Initials(full: string): (r: string)
    ensures r != [] && r[|r| - 1] == '.'
  {
    var names := Words(full);
    Join(".", seq(|names|, k requires 0 <= k < |names| => [UpperChar(names[k][0])])) + "."
  }

  lemma {:induction false} JoinSingletonsThenDot(cs: seq<string>)
    requires |cs| >= 1
    requires forall k :: 0 <= k < |cs| ==> |cs[k]| == 1
    ensures var r := Join(".", cs) + ".";
      |r| == 2 * |cs| && forall k :: 0 <= k < |cs| ==> r[2 * k] == cs[k][0] && r[2 * k + 1] == '.'
    decreases |cs|
  {
    var r := Join(".", cs) + ".";
    if |cs| > 1 {
      JoinSingletonsThenDot(cs[1..]);
      var tail := Join(".", cs[1..]) + ".";
      assert r == cs[0] + "." + tail;
      forall k | 1 <= k < |cs|
        ensures r[2 * k] == cs[k][0] && r[2 * k + 1] == '.'
      {
        assert r[2 * k] == tail[2 * (k - 1)];
        assert r[2 * k + 1] == tail[2 * (k - 1) + 1];
        assert cs[1..][k - 1] == cs[k];
      }
    }
  }

  /**
   * For n words the output has 2n characters: word k's upper-cased first
   * character at index 2k and a '.' at 2k+1, so it ends in '.'; a blank name gives ".".
   */
  lemma InitialsShape(full: string)
    ensures var names, r := Words(full), Initials(full);
      && (names == [] ==> r == ".")
      && (names != [] ==> |r| == 2 * |names|)
      && (forall k :: 0 <= k < |names| ==> r[2 * k] == UpperChar(names[k][0]) && r[2 * k + 1] == '.')
      && r[|r| - 1] == '.'
  {
    var names := Words(full);
    var cs := seq(|names|, k requires 0 <= k < |names| => [UpperChar(names[k][0])]);
    if names != [] {
      JoinSingletonsThenDot(cs);
    }
  }

  // ---------------------------------------------------------------------
  // Task 3: DD/MM/YYYY shape check

  /** Task 3's test: splitting on '/' yields three parts of lengths 2, 2 and 4. */
  predicate ValidDateFormat(date: string) {
    var parts := SplitOn(date, '/');
    |parts| == 3 && |parts[0]| == 2 && |parts[1]| == 2 && |parts[2]| == 4
  }

  /** Ten characters with '/' at indices 2 and 5 and nowhere else; digits are not required. */
  predicate DateShape(date: string) {
    |date| == 10 && date[2] == '/' && date[5] == '/'
    && forall i :: 0 <= i < 10 && i != 2 && i != 5 ==> date[i] != '/'
  }

  lemma ValidDateFormatIffShape(date: string)
    ensures ValidDateFormat(date) <==> DateShape(date)
  {
    if ValidDateFormat(date) {
      var parts := SplitOn(date, '/');
      JoinSplitOn(date, '/');
      var p0, p1, p2 := parts[0], parts[1], parts[2];
      assert parts[1..] == [p1, p2] && [p1, p2][1..] == [p2];
      assert Join("/", [p1, p2]) == p1 + "/" + p2;
      assert date == p0 + "/" + (p1 + "/" + p2);
      forall i | 0 <= i < 10 && i != 2 && i != 5
        ensures date[i] != '/'
      {
        if i < 2 { assert date[i] == p0[i]; }
        else if i < 5 { assert date[i] == p1[i - 3]; }
        else { assert date[i] == p2[i - 6]; }
      }
    }
    if DateShape(date) {
      var parts := [date[..2], date[3..5], date[6..]];
      assert date == parts[0] + "/" + (parts[1] + "/" + parts[2]);
      assert parts[1..] == [parts[1], parts[2]] && [parts[1], parts[2]][1..] == [parts[2]];
      assert Join("/", [parts[1], parts[2]]) == parts[1] + "/" + parts[2];
      assert Join("/", parts) == date;
      forall k | 0 <= k < 3
        ensures '/' !in parts[k]
      {
        if k == 0 { assert forall i :: 0 <= i < 2 ==> parts[0][i] == date[i]; }
        else if k == 1 { assert forall i :: 0 <= i < 2 ==> parts[1][i] == date[i + 3]; }
        else { assert forall i :: 0 <= i < 4 ==> parts[2][i] == date[i + 6]; }
      }
      SplitOnJoin(parts, '/');
    }
  }

  // ---------------------------------------------------------------------
  // Task 4: text between square brackets

  /**
   * Task 4: the text after the first '[' up to the first ']' after it, when
   * both exist and that text is not empty; None stands for the message
   * "No brackets found".
   */
  function Bracketed(text: string): (r: Option<string>)
    ensures r.Some? ==> r.value != [] && ']' !in r.value && '[' in text && ']' in text
  {
    var start := Find(text, '[', 0) + 1;
    var end := Find(text, ']', start);
    if start > 0 && end > start then Some(Slice(text, start, end)) else None
  }

  /**
   * With the first '[' at open and the first ']' after it at close, the result
   * is the text between them, or None when they are adjacent.
   */
  lemma BracketedBetween(text: string, open: nat, close: nat)
    requires open < close < |text| && text[open] == '[' && text[close] == ']'
    requires forall i :: 0 <= i < open ==> text[i] != '['
    requires forall i :: open < i < close ==> text[i] != ']'
    ensures Bracketed(text) == if close > open + 1 then Some(text[open + 1..close]) else None
  {
  }

  /** No '[' at all gives the "No brackets found" outcome. */
  lemma BracketedNoOpen(text: string)
    requires '[' !in text
    ensures Bracketed(text) == None
  {
  }

  /** No ']' after the first '[' (at open) gives the "No brackets found" outcome. */
  lemma BracketedNoClose(text: string, open: nat)
    requires open < |text| && text[open] == '['
    requires forall i :: 0 <= i < open ==> text[i] != '['
    requires forall i :: open < i < |text| ==> text[i] != ']'
    ensures Bracketed(text) == None
  {
  }

  // ---------------------------------------------------------------------
  // Task 5: shortest repeating prefix

  /** `p * k` in Python: k copies of p. */
  function Repeat(p: string, k: nat): (r: string)
    ensures |r| == k * |p|
  {
    if k == 0 then [] else p + Repeat(p, k - 1)
  }

  /** Task 5's test for a prefix length i: `s[:i] * (len(s) // i) == s`. */
  predicate RepeatsTo(s: string, i: nat)
    requires 1 <= i <= |s|
  {
    Repeat(s[..i], |s| / i) == s
  }

  lemma RepeatsToDivides(s: string, i: nat)
    requires 1 <= i <= |s| && RepeatsTo(s, i)
    ensures |s| % i == 0
  {
  }

  /**
   * Task 5: the first prefix length i = 1, 2, ... whose prefix repeated
   * `len(s) // i` times is s; None when s is empty and nothing is printed.
   */
  method ShortestRepeatingPrefix(s: string) returns (r: Option<string>)
    ensures r == None <==> s == []
    ensures r.Some? ==> var p := r.value;
      && 1 <= |p| <= |s| && p == s[..|p|] && |s| % |p| == 0
      && Repeat(p, |s| / |p|) == s
    ensures r.Some? ==> forall j :: 1 <= j < |r.value| ==> !RepeatsTo(s, j)
  {
    var i := 1;
    while i <= |s|
      invariant 1 <= i <= |s| + 1
      invariant forall j :: 1 <= j < i ==> !RepeatsTo(s, j)
    {
      if Repeat(s[..i], |s| / i) == s {
        RepeatsToDivides(s, i);
        return Some(s[..i]);
      }
      i := i + 1;
    }
    if s != [] {
      assert s[..|s|] == s && Repeat(s, 1) == s + [];
      assert RepeatsTo(s, |s|);
      assert false;
    }
    return None;
  }
}
