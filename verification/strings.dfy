/** Python `str` operations the core relies on, with Python's semantics:
    `split(sep)`, `split()`, `sep.join`, `strip()`, `splitlines()`, `in` and
    `endswith`. Characters are Unicode scalar values, so `|s|` is Python's
    `len(s)`. */
module Strings {

  /** Python's `str.isspace` for one character: the separators used by
      `split()` and `strip()`. */
  predicate IsSpace(c: char) {
    || c == ' '
    || ('\t' <= c <= '\r')
    || ('\U{1C}' <= c <= '\U{1F}')
    || c == '\U{85}' || c == '\U{A0}' || c == '\U{1680}'
    || ('\U{2000}' <= c <= '\U{200A}')
    || c == '\U{2028}' || c == '\U{2029}' || c == '\U{202F}'
    || c == '\U{205F}' || c == '\U{3000}'
  }

  /** The line boundaries recognised by Python's `str.splitlines`. */
  predicate IsLineBreak(c: char) {
    || c == '\n' || c == '\r' || c == '\U{B}' || c == '\U{C}'
    || ('\U{1C}' <= c <= '\U{1E}')
    || c == '\U{85}' || c == '\U{2028}' || c == '\U{2029}'
  }

  predicate AllSpace(s: string) {
    forall k :: 0 <= k < |s| ==> IsSpace(s[k])
  }

  predicate SpaceFree(s: string) {
    forall k :: 0 <= k < |s| ==> !IsSpace(s[k])
  }

  /** `sub` occurs in `s` starting at index `i`. */
  predicate OccursAt(s: string, sub: string, i: int) {
    0 <= i && i + |sub| <= |s| && s[i..i + |sub|] == sub
  }

  /** Python's `sub in s`: substring containment (the empty string is in
      every string). */
  predicate Contains(s: string, sub: string) {
    exists i | 0 <= i <= |s| :: OccursAt(s, sub, i)
  }

  /** Python's `s.endswith(suffix)`. */
  predicate EndsWith(s: string, suffix: string) {
    |suffix| <= |s| && s[|s| - |suffix|..] == suffix
  }

  /** Python's `s.lstrip()`. */
  function TrimLeft(s: string): (r: string)
    ensures |r| <= |s| && r == s[|s| - |r|..]
    ensures AllSpace(s[..|s| - |r|])
    ensures r == [] || !IsSpace(r[0])
  {
    if s != [] && IsSpace(s[0]) then
      var r := TrimLeft(s[1..]);
      assert s[1..][..|s| - 1 - |r|] == s[1..|s| - |r|];
      assert s[1..][|s| - 1 - |r|..] == s[|s| - |r|..];
      r
    else s
  }

  /** Python's `s.rstrip()`. */
  function TrimRight(s: string): (r: string)
    ensures |r| <= |s| && r == s[..|r|]
    ensures AllSpace(s[|r|..])
    ensures r == [] || !IsSpace(r[|r| - 1])
  {
    if s != [] && IsSpace(s[|s| - 1]) then
      var t := s[..|s| - 1];
      var r := TrimRight(t);
      assert t[..|r|] == s[..|r|];
      assert s[|r|..] == t[|r|..] + [s[|s| - 1]];
      r
    else s
  }

  /** Python's `s.strip()`: the slice of `s` left after removing the
      whitespace at both ends. */
  function Strip(s: string): (r: string)
    ensures exists i, j :: 0 <= i <= j <= |s| && r == s[i..j] && AllSpace(s[..i]) && AllSpace(s[j..])
    ensures r == [] || (!IsSpace(r[0]) && !IsSpace(r[|r| - 1]))
  {
    var t := TrimLeft(s);
    var r := TrimRight(t);
    var i := |s| - |t|;
    assert r == s[i..i + |r|];
    assert s[i + |r|..] == t[|r|..];
    r
  }

  /** Length of the run of non-whitespace characters that starts `s`. */
  function WordLen(s: string): (n: nat)
    ensures n <= |s|
    ensures SpaceFree(s[..n])
    ensures n < |s| ==> IsSpace(s[n])
  {
    if s == [] || IsSpace(s[0]) then 0 else 1 + WordLen(s[1..])
  }

  /** Python's `s.split()` with no separator: the maximal runs of
      non-whitespace characters, left to right. */
  function SplitWords(s: string): (ws: seq<string>)
    ensures forall k :: 0 <= k < |ws| ==> ws[k] != [] && SpaceFree(ws[k])
    decreases |s|
  {
    if s == [] then []
    else if IsSpace(s[0]) then SplitWords(s[1..])
    else
      var n := WordLen(s);
      [s[..n]] + SplitWords(s[n..])
  }

  /** Python's `sep.join(parts)`. */
  function JoinWith(sep: string, parts: seq<string>): string {
    if parts == [] then []
    else if |parts| == 1 then parts[0]
    else parts[0] + sep + JoinWith(sep, parts[1..])
  }

  /** Python's `s.split(sep)` for a non-empty separator: the pieces between
      the occurrences of `sep` found scanning left to right without overlap. */
  function SplitOn(s: string, sep: string): (parts: seq<string>)
    requires sep != []
    ensures |parts| >= 1
    ensures |parts[0]| <= |s| && parts[0] == s[..|parts[0]|]
    ensures |sep| == 1 ==> forall k :: 0 <= k < |parts| ==> sep[0] !in parts[k]
    decreases |s|
  {
    if |s| < |sep| then [s]
    else if s[..|sep|] == sep then [[]] + SplitOn(s[|sep|..], sep)
    else
      var rest := SplitOn(s[1..], sep);
      [[s[0]] + rest[0]] + rest[1..]
  }

  /** Number of occurrences of `c` in `s`. */
  function CountChar(s: string, c: char): nat {
    if s == [] then 0 else (if s[0] == c then 1 else 0) + CountChar(s[1..], c)
  }

  /** Python's `s.splitlines()`: lines without their terminators; `\r\n`
      counts as one boundary and a final terminator opens no empty line. */
  function SplitLines(s: string): (lines: seq<string>)
    ensures |lines| <= |s|
    ensures s != [] ==> |lines| >= 1
    ensures forall k, j :: 0 <= k < |lines| && 0 <= j < |lines[k]| ==> !IsLineBreak(lines[k][j])
    decreases |s|
  {
    if s == [] then []
    else if IsLineBreak(s[0]) then
      var skip := if s[0] == '\r' && |s| > 1 && s[1] == '\n' then 2 else 1;
      [[]] + SplitLines(s[skip..])
    else
      var rest := SplitLines(s[1..]);
      if rest == [] then [[s[0]]] else [[s[0]] + rest[0]] + rest[1..]
  }

  // ---------------------------------------------------------------------
  // Round trips and counts

  /** For a text whose only line boundaries are `\n` and which does not end
      in one, joining its lines with `\n` gives it back. */
  lemma {:induction false} SplitLinesJoin(s: string)
    requires forall k :: 0 <= k < |s| && IsLineBreak(s[k]) ==> s[k] == '\n'
    requires s == [] || s[|s| - 1] != '\n'
    ensures JoinWith("\n", SplitLines(s)) == s
    decreases |s|
  {
    if s != [] {
      var t := s[1..];
      assert forall k :: 0 <= k < |t| ==> t[k] == s[k + 1];
      SplitLinesJoin(t);
      if IsLineBreak(s[0]) {
        assert t != [];
        assert SplitLines(s) == [[]] + SplitLines(t);
      } else {
        var rest := SplitLines(t);
        if rest == [] {
          assert t == [];
          assert [s[0]] == s;
        } else {
          JoinPrepend("\n", [s[0]], rest);
          assert [s[0]] + t == s;
        }
      }
    }
  }

  /** A non-empty text without line boundaries is a single line. */
  lemma {:induction false} SplitLinesSingle(s: string)
    requires s != [] && forall k :: 0 <= k < |s| ==> !IsLineBreak(s[k])
    ensures SplitLines(s) == [s]
    decreases |s|
  {
    if |s| > 1 {
      assert forall k :: 0 <= k < |s[1..]| ==> s[1..][k] == s[k + 1];
      SplitLinesSingle(s[1..]);
      assert [s[0]] + s[1..] == s;
    } else {
      assert s[1..] == [] && [s[0]] == s;
    }
  }

  lemma {:induction false} JoinPrepend(sep: string, x: string, parts: seq<string>)
    requires parts != []
    ensures JoinWith(sep, [x + parts[0]] + parts[1..]) == x + JoinWith(sep, parts)
  {
    if |parts| > 1 {
      assert ([x + parts[0]] + parts[1..])[1..] == parts[1..];
    }
  }

  /** Joining the pieces of `s.split(sep)` with `sep` gives `s` back. */
  lemma {:induction false} SplitOnJoin(s: string, sep: string)
    requires sep != []
    ensures JoinWith(sep, SplitOn(s, sep)) == s
    decreases |s|
  {
    if |s| < |sep| {
    } else if s[..|sep|] == sep {
      var rest := SplitOn(s[|sep|..], sep);
      SplitOnJoin(s[|sep|..], sep);
      assert ([[]] + rest)[1..] == rest;
      assert s == sep + s[|sep|..];
    } else {
      var rest := SplitOn(s[1..], sep);
      SplitOnJoin(s[1..], sep);
      JoinPrepend(sep, [s[0]], rest);
      assert [s[0]] + rest[0] == [s[0]] + rest[0];
      assert s == [s[0]] + s[1..];
    }
  }

  /** Splitting on a one-character separator gives one more piece than
      there are occurrences of it. */
  lemma {:induction false} SplitOnCount(s: string, c: char)
    ensures |SplitOn(s, [c])| == CountChar(s, c) + 1
    decreases |s|
  {
    if s == [] {
    } else {
      SplitOnCount(s[1..], c);
      if s[0] == c {
        assert s[..1] == [c];
        assert s[1..] == s[|[c]|..];
      } else {
        assert s[..1] != [c];
      }
    }
  }

  /** A string with no occurrence of `sep` splits into itself alone. */
  lemma {:induction false} SplitOnAbsent(s: string, sep: string)
    requires sep != []
    requires forall i :: !OccursAt(s, sep, i)
    ensures SplitOn(s, sep) == [s]
    decreases |s|
  {
    if |s| < |sep| {
    } else {
      assert !OccursAt(s, sep, 0);
      assert s[..|sep|] != sep;
      forall i ensures !OccursAt(s[1..], sep, i) {
        if OccursAt(s[1..], sep, i) {
          assert s[1..][i..i + |sep|] == s[i + 1..i + 1 + |sep|];
          assert OccursAt(s, sep, i + 1);
        }
      }
      SplitOnAbsent(s[1..], sep);
      assert [s[0]] + s[1..] == s;
    }
  }

  /** A prefix in which no occurrence of `sep` starts is glued onto the first
      piece of the remainder. */
  lemma NoOccurrenceTail(a: string, t: string, sep: string)
    requires a != []
    requires forall i :: 0 <= i < |a| ==> !OccursAt(a + t, sep, i)
    ensures forall i :: 0 <= i < |a| - 1 ==> !OccursAt(a[1..] + t, sep, i)
  {
    var s := a + t;
    assert a[1..] + t == s[1..];
    forall i | 0 <= i < |a| - 1 ensures !OccursAt(s[1..], sep, i) {
      assert !OccursAt(s, sep, i + 1);
      if i + |sep| <= |s[1..]| {
        assert s[1..][i..i + |sep|] == s[i + 1..i + 1 + |sep|];
      }
    }
  }

  lemma {:induction false} SplitOnPrefix(a: string, t: string, sep: string)
    requires sep != []
    requires forall i :: 0 <= i < |a| ==> !OccursAt(a + t, sep, i)
    ensures SplitOn(a + t, sep) == [a + SplitOn(t, sep)[0]] + SplitOn(t, sep)[1..]
    decreases |a|
  {
    if a == [] {
      var parts := SplitOn(t, sep);
      assert a + t == t;
      assert a + parts[0] == parts[0];
      assert [parts[0]] + parts[1..] == parts;
    } else {
      var s := a + t;
      assert !OccursAt(s, sep, 0);
      NoOccurrenceTail(a, t, sep);
      SplitOnPrefix(a[1..], t, sep);
      assert s[1..] == a[1..] + t;
      if |s| < |sep| {
        SplitOnAbsent(t, sep);
        assert SplitOn(s, sep) == [s];
      } else {
        assert s[..|sep|] != sep;
        assert [s[0]] + (a[1..] + SplitOn(t, sep)[0]) == a + SplitOn(t, sep)[0];
      }
    }
  }

  /** Splitting the `sep`-join of two pieces returns the two pieces, provided
      no occurrence of `sep` starts inside the first one and the second has
      none. */
  lemma SplitOnPair(a: string, b: string, sep: string)
    requires sep != []
    requires forall i :: 0 <= i < |a| ==> !OccursAt(a + sep + b, sep, i)
    requires forall i :: !OccursAt(b, sep, i)
    ensures SplitOn(a + sep + b, sep) == [a, b]
  {
    assert a + sep + b == a + (sep + b);
    SplitOnPrefix(a, sep + b, sep);
    assert (sep + b)[..|sep|] == sep;
    assert (sep + b)[|sep|..] == b;
    SplitOnAbsent(b, sep);
    assert SplitOn(sep + b, sep) == [[], b];
    assert a + [] == a;
  }

  /** Splitting a space-join of non-empty whitespace-free words returns the
      words. */
  lemma {:induction false} SplitWordsJoin(ws: seq<string>)
    requires forall k :: 0 <= k < |ws| ==> ws[k] != [] && SpaceFree(ws[k])
    ensures SplitWords(JoinWith(" ", ws)) == ws
    decreases |ws|
  {
    if ws == [] {
    } else if |ws| == 1 {
      WordLenOfWord(ws[0], []);
      assert ws[0] + [] == ws[0];
      assert ws[0][..|ws[0]|] == ws[0];
    } else {
      var t := JoinWith(" ", ws[1..]);
      var s := ws[0] + " " + t;
      assert s == ws[0] + (" " + t);
      WordLenOfWord(ws[0], " " + t);
      assert s[..|ws[0]|] == ws[0];
      assert s[|ws[0]|..] == " " + t;
      assert (" " + t)[1..] == t;
      SplitWordsJoin(ws[1..]);
      assert [ws[0]] + ws[1..] == ws;
    }
  }

  lemma {:induction false} WordLenOfWord(w: string, t: string)
    requires w != [] && SpaceFree(w)
    requires t == [] || IsSpace(t[0])
    ensures WordLen(w + t) == |w|
    decreases |w|
  {
    if |w| > 1 {
      assert (w + t)[1..] == w[1..] + t;
      WordLenOfWord(w[1..], t);
    } else {
      assert (w + t)[1..] == t;
    }
  }

  /** `s.split()` is empty exactly when `s` is whitespace only (or empty). */
  lemma {:induction false} SplitWordsBlank(s: string)
    ensures SplitWords(s) == [] <==> AllSpace(s)
    decreases |s|
  {
    if s != [] && IsSpace(s[0]) {
      SplitWordsBlank(s[1..]);
      assert AllSpace(s) <==> AllSpace(s[1..]);
    }
  }
}
