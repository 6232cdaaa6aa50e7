/**
 * The JavaScript string operations the server relies on: `trim`, `startsWith`,
 * `includes`, `indexOf`, `replace` with a string pattern, `split` on one
 * character, and the `\s` class and ASCII case folding of regular expressions.
 * Strings are sequences of characters.
 */
module Text {

  /** JavaScript's WhiteSpace and LineTerminator characters: exactly what `\s`
      matches and what `trim` removes. */
  predicate IsWs(c: char) {
    || c == ' ' || c == '\t' || c == '\n' || c == '\U{B}' || c == '\U{C}' || c == '\r'
    || c == '\U{A0}' || c == '\U{1680}' || ('\U{2000}' <= c <= '\U{200A}')
    || c == '\U{2028}' || c == '\U{2029}' || c == '\U{202F}' || c == '\U{205F}'
    || c == '\U{3000}' || c == '\U{FEFF}'
  }

  predicate AllWs(s: string) {
    forall i :: 0 <= i < |s| ==> IsWs(s[i])
  }

  lemma AllWsCons(c: char, t: string)
    requires IsWs(c) && AllWs(t)
    ensures AllWs([c] + t)
  {
    assert forall i :: 1 <= i < |t| + 1 ==> ([c] + t)[i] == t[i - 1];
  }

  /** A whitespace character in front of a whitespace run lengthens it. */
  lemma WsRunCons(s: string, j: nat)
    requires j < |s| && IsWs(s[0]) && AllWs(s[1..][..j])
    ensures AllWs(s[..j + 1])
  {
    AllWsCons(s[0], s[1..][..j]);
    assert s[..j + 1] == [s[0]] + s[1..][..j];
  }

  lemma SliceOfAppend(t: string, b: string, i: nat, j: nat)
    requires i <= j <= |t|
    ensures (t + b)[i..j] == t[i..j] && (t + b)[j..] == t[j..] + b
  {
  }

  /** Length of the run of whitespace that opens `s`. */
  function LeadingWs(s: string): (n: nat)
    ensures n <= |s|
    ensures forall i :: 0 <= i < n ==> IsWs(s[i])
    ensures n < |s| ==> !IsWs(s[n])
  {
    if |s| > 0 && IsWs(s[0]) then
      var n := 1 + LeadingWs(s[1..]);
      assert forall i :: 1 <= i < n ==> s[i] == s[1..][i - 1];
      n
    else 0
  }

  /** Length of the run of whitespace that closes `s`. */
  function TrailingWs(s: string): (n: nat)
    ensures n <= |s|
    ensures forall i :: |s| - n <= i < |s| ==> IsWs(s[i])
    ensures n < |s| ==> !IsWs(s[|s| - n - 1])
  {
    if |s| > 0 && IsWs(s[|s| - 1]) then
      var t := s[..|s| - 1];
      var m := TrailingWs(t);
      assert forall i :: |t| - m <= i < |t| ==> s[i] == t[i];
      1 + m
    else 0
  }

  /** `s.trim()`: the unique infix of `s` with whitespace only around it and
      no whitespace at either of its ends. */
  function Trim(s: string): (r: string)
    ensures r == [] || (!IsWs(r[0]) && !IsWs(r[|r| - 1]))
    ensures exists i, j :: 0 <= i <= j <= |s| && r == s[i..j] && AllWs(s[..i]) && AllWs(s[j..])
  {
    var i := LeadingWs(s);
    var t := s[i..];
    var n := TrailingWs(t);
    var j := i + |t| - n;
    assert AllWs(s[..i]);
    assert AllWs(s[j..]) by {
      forall k | 0 <= k < |s| - j ensures IsWs(s[j..][k]) {
        assert s[j..][k] == t[|t| - n + k];
      }
    }
    assert t != [] ==> n < |t|;
    s[i..j]
  }

  /** A string with no whitespace at either end is its own trim. */
  lemma TrimOfTrimmed(s: string)
    requires s != [] && !IsWs(s[0]) && !IsWs(s[|s| - 1])
    ensures Trim(s) == s
  {
    var r := Trim(s);
    var i, j :| 0 <= i <= j <= |s| && r == s[i..j] && AllWs(s[..i]) && AllWs(s[j..]);
    assert i == 0;
    assert j == |s|;
  }

  /** Whatever the trimmed string starts with, the original starts with it
      too or starts with whitespace. */
  lemma TrimmedPrefix(s: string, p: string)
    requires p != [] && !IsWs(p[0]) && StartsWith(Trim(s), p)
    ensures s != [] && (s[0] == p[0] || IsWs(s[0]))
  {
    var r := Trim(s);
    var i, j :| 0 <= i <= j <= |s| && r == s[i..j] && AllWs(s[..i]) && AllWs(s[j..]);
    assert r[0] == p[0];
    if i > 0 {
      assert s[..i][0] == s[0];
    }
  }

  /** A string made only of whitespace trims to the empty string. */
  lemma TrimOfBlank(s: string)
    requires AllWs(s)
    ensures Trim(s) == []
  {
    var r := Trim(s);
    var i, j :| 0 <= i <= j <= |s| && r == s[i..j] && AllWs(s[..i]) && AllWs(s[j..]);
  }

  /** A whitespace-free prefix of `s` survives trimming. */
  lemma TrimKeepsPrefix(s: string, p: string)
    requires p != [] && StartsWith(s, p)
    requires forall k :: 0 <= k < |p| ==> !IsWs(p[k])
    ensures StartsWith(Trim(s), p)
  {
    var r := Trim(s);
    var i, j :| 0 <= i <= j <= |s| && r == s[i..j] && AllWs(s[..i]) && AllWs(s[j..]);
    assert s[0] == p[0];
    assert i == 0;
    assert s[|p| - 1] == p[|p| - 1];
    assert j >= |p|;
  }

  /** `s.startsWith(p)`. */
  predicate StartsWith(s: string, p: string) {
    |p| <= |s| && s[..|p|] == p
  }

  /** `s.includes(p)`: `p` occurs at some position of `s`. */
  predicate Contains(s: string, p: string) {
    exists i :: 0 <= i <= |s| - |p| && StartsWith(s[i..], p)
  }

  /** An occurrence stays an occurrence when text is added on either side. */
  lemma ContainsInContext(a: string, s: string, b: string, p: string)
    requires Contains(s, p)
    ensures Contains(a + s + b, p)
  {
    var i :| 0 <= i <= |s| - |p| && StartsWith(s[i..], p);
    assert (a + s + b)[|a| + i..][..|p|] == s[i..][..|p|];
  }

  /** An occurrence of a non-empty pattern needs its first character. */
  lemma ContainsFirstChar(s: string, p: string)
    requires p != [] && Contains(s, p)
    ensures p[0] in s
  {
    var i :| 0 <= i <= |s| - |p| && StartsWith(s[i..], p);
    assert s[i] == p[0];
  }

  /** `s.indexOf(p)`: the first position where `p` occurs, or -1. */
  function IndexOf(s: string, p: string): (i: int)
    ensures i == -1 <==> !Contains(s, p)
    ensures i >= 0 ==> i <= |s| - |p| && StartsWith(s[i..], p)
    ensures i >= 0 ==> forall k :: 0 <= k < i ==> !StartsWith(s[k..], p)
  {
    if StartsWith(s, p) then
      assert s[0..] == s;
      0
    else if |s| == 0 then -1
    else
      var k := IndexOf(s[1..], p);
      assert forall m :: 1 <= m <= |s| ==> s[m..] == s[1..][m - 1..];
      if k < 0 then -1 else k + 1
  }

  lemma IndexOfStep(s: string, p: string)
    requires !StartsWith(s, p) && |s| > 0
    ensures IndexOf(s, p) == if IndexOf(s[1..], p) < 0 then -1 else IndexOf(s[1..], p) + 1
  {
  }

  /** `s.replace(p, "")` with a string pattern, scanning from the left. */
  function RemoveFirst(s: string, p: string): string
  {
    if StartsWith(s, p) then s[|p|..]
    else if |s| == 0 then s
    else [s[0]] + RemoveFirst(s[1..], p)
  }

  /** Without an occurrence, `replace` returns the string unchanged. */
  lemma {:induction false} RemoveFirstWithoutOccurrence(s: string, p: string)
    requires IndexOf(s, p) < 0
    ensures RemoveFirst(s, p) == s
  {
    if |s| > 0 {
      IndexOfStep(s, p);
      RemoveFirstWithoutOccurrence(s[1..], p);
      assert s == [s[0]] + s[1..];
    }
  }

  /** Cutting at a first occurrence `i`: everything before it is kept. */
  lemma {:induction false} RemoveFirstAt(s: string, p: string, i: nat)
    requires i <= |s| - |p| && StartsWith(s[i..], p)
    requires forall k :: 0 <= k < i ==> !StartsWith(s[k..], p)
    ensures RemoveFirst(s, p) == s[..i] + s[i + |p|..]
  {
    if i == 0 {
      assert s[0..] == s;
      assert s[..0] + s[|p|..] == s[|p|..];
    } else {
      assert s[0..] == s;
      assert !StartsWith(s, p);
      var t := s[1..];
      assert forall k :: 0 <= k <= |t| ==> t[k..] == s[k + 1..];
      RemoveFirstAt(t, p, i - 1);
      assert RemoveFirst(s, p) == [s[0]] + RemoveFirst(t, p);
      CutAfterHead(s, i - 1, |p|);
    }
  }

  /** With an occurrence, exactly the first one is cut out. */
  lemma RemoveFirstAtOccurrence(s: string, p: string)
    requires IndexOf(s, p) >= 0
    ensures RemoveFirst(s, p) == s[..IndexOf(s, p)] + s[IndexOf(s, p) + |p|..]
  {
    RemoveFirstAt(s, p, IndexOf(s, p));
  }

  /** Only the first occurrence of the pattern is cut out; without an
      occurrence the string is returned unchanged. */
  lemma RemoveFirstCutsFirstOccurrence(s: string, p: string)
    ensures var i := IndexOf(s, p);
      if i < 0 then RemoveFirst(s, p) == s else RemoveFirst(s, p) == s[..i] + s[i + |p|..]
  {
    if IndexOf(s, p) < 0 {
      RemoveFirstWithoutOccurrence(s, p);
    } else {
      RemoveFirstAtOccurrence(s, p);
    }
  }

  /** Removing a substring never brings in a character that was absent. */
  lemma {:induction false} RemoveFirstKeepsAbsent(s: string, p: string, c: char)
    requires c !in s
    ensures c !in RemoveFirst(s, p)
  {
    if !StartsWith(s, p) && |s| > 0 {
      assert c !in s[1..];
      RemoveFirstKeepsAbsent(s[1..], p, c);
    } else if StartsWith(s, p) {
      assert forall k :: |p| <= k < |s| ==> s[|p|..][k - |p|] == s[k];
    }
  }

  lemma CutAfterHead(s: string, k: nat, n: nat)
    requires 0 < |s| && k + n <= |s| - 1
    ensures [s[0]] + (s[1..][..k] + s[1..][k + n..]) == s[..k + 1] + s[k + 1 + n..]
  {
    assert [s[0]] + s[1..][..k] == s[..k + 1];
    assert s[1..][k + n..] == s[k + 1 + n..];
  }

  /** `s.split(sep)` for a one-character separator: the pieces between
      separators, always at least one (an empty `s` gives `[""]`). */
  function Split(s: string, sep: char): (parts: seq<string>)
    ensures |parts| >= 1
    ensures forall k :: 0 <= k < |parts| ==> sep !in parts[k]
  {
    if s == [] then [[]]
    else
      var rest := Split(s[1..], sep);
      if s[0] == sep then [[]] + rest else [[s[0]] + rest[0]] + rest[1..]
  }

  /** `parts.join(sep)`. */
  function Join(parts: seq<string>, sep: char): string
    requires |parts| >= 1
  {
    if |parts| == 1 then parts[0] else parts[0] + [sep] + Join(parts[1..], sep)
  }

  lemma JoinConsHead(c: char, parts: seq<string>, sep: char)
    requires |parts| >= 1
    ensures Join([[c] + parts[0]] + parts[1..], sep) == [c] + Join(parts, sep)
  {
    var q := [[c] + parts[0]] + parts[1..];
    assert q[1..] == parts[1..];
  }

  /** Joining the pieces of a split gives the string back. */
  lemma {:induction false} JoinSplit(s: string, sep: char)
    ensures Join(Split(s, sep), sep) == s
  {
    if s != [] {
      var rest := Split(s[1..], sep);
      JoinSplit(s[1..], sep);
      if s[0] == sep {
        assert ([[]] + rest)[1..] == rest;
      } else {
        JoinConsHead(s[0], rest, sep);
      }
    }
  }

  lemma {:induction false} SplitNoSeparator(a: string, sep: char)
    requires sep !in a
    ensures Split(a, sep) == [a]
  {
    if a != [] {
      assert sep !in a[1..];
      SplitNoSeparator(a[1..], sep);
      assert [a[0]] + a[1..] == a;
    }
  }

  lemma {:induction false} SplitAtSeparator(a: string, b: string, sep: char)
    requires sep !in a
    ensures Split(a + [sep] + b, sep) == [a] + Split(b, sep)
  {
    var s := a + [sep] + b;
    if a == [] {
      assert s[1..] == b;
    } else {
      assert s[1..] == a[1..] + [sep] + b;
      assert sep !in a[1..];
      SplitAtSeparator(a[1..], b, sep);
      assert [a[0]] + a[1..] == a;
    }
  }

  /** Splitting the join of separator-free pieces gives the pieces back. */
  lemma {:induction false} SplitJoin(parts: seq<string>, sep: char)
    requires |parts| >= 1
    requires forall k :: 0 <= k < |parts| ==> sep !in parts[k]
    ensures Split(Join(parts, sep), sep) == parts
  {
    if |parts| == 1 {
      SplitNoSeparator(parts[0], sep);
    } else {
      SplitJoin(parts[1..], sep);
      SplitAtSeparator(parts[0], Join(parts[1..], sep), sep);
    }
  }

  /** ASCII lower-casing: the case folding a regular expression with the `i`
      flag (and no `u` flag) applies when it compares with an ASCII letter. */
  function LowerAscii(c: char): char {
    if 'A' <= c <= 'Z' then (c as int + 32) as char else c
  }

  /** `s` opens with `word` (given in lower case), ignoring ASCII case. */
  predicate StartsWithIgnoreCase(s: string, word: string) {
    |word| <= |s| && forall k :: 0 <= k < |word| ==> LowerAscii(s[k]) == word[k]
  }

  /** Text after a case-insensitive match does not disturb it. */
  lemma StartsWithIgnoreCaseAppend(t: string, u: string, word: string)
    requires StartsWithIgnoreCase(t, word)
    ensures StartsWithIgnoreCase(t + u, word)
  {
    assert forall k :: 0 <= k < |t| ==> (t + u)[k] == t[k];
  }
}
