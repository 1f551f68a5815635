/** Character classes and the handful of Python string operations the graph
    pipeline applies to its input lines: stripping, removing characters,
    splitting on a separator, joining, and the ordering Python uses to compare
    strings. Only ASCII character classes are modelled. */
module Text {

  /** Python's whitespace (`str.isspace`, `\s`), restricted to ASCII. */
  predicate IsSpace(c: char) {
    c == ' ' || ('\t' <= c <= '\r') || (28 <= c as int <= 31)
  }

  /** Python's `\w`, restricted to ASCII: letters, digits and underscore. */
  predicate IsWordChar(c: char) {
    ('a' <= c <= 'z') || ('A' <= c <= 'Z') || ('0' <= c <= '9') || c == '_'
  }

  /** Python's `\d` and `str.isdigit`, restricted to ASCII. */
  predicate IsDigit(c: char) {
    '0' <= c <= '9'
  }

  predicate IsWord(s: string) {
    |s| > 0 && forall i :: 0 <= i < |s| ==> IsWordChar(s[i])
  }

  predicate IsDigits(s: string) {
    |s| > 0 && forall i :: 0 <= i < |s| ==> IsDigit(s[i])
  }

  /** The value of a string of decimal digits, as Python's `int` reads it. */
  function DigitsValue(s: string): (n: nat)
    requires forall i :: 0 <= i < |s| ==> IsDigit(s[i])
    ensures s == [] ==> n == 0
  {
    if s == [] then 0
    else
      assert IsDigit(s[|s| - 1]);
      DigitsValue(s[..|s| - 1]) * 10 + (s[|s| - 1] as int - '0' as int)
  }

  /** How many leading characters of `s` satisfy `p`. */
  function LeadingCount(s: string, p: char -> bool): (n: nat)
    ensures n <= |s| && (n == |s| || !p(s[n]))
    ensures forall k :: 0 <= k < n ==> p(s[k])
  {
    if s == [] || !p(s[0]) then 0 else 1 + LeadingCount(s[1..], p)
  }

  /** How many trailing characters of `s` satisfy `p`. */
  function TrailingCount(s: string, p: char -> bool): (n: nat)
    ensures n <= |s| && (n == |s| || !p(s[|s| - 1 - n]))
    ensures forall k :: |s| - n <= k < |s| ==> p(s[k])
  {
    if s == [] || !p(s[|s| - 1]) then 0 else 1 + TrailingCount(s[..|s| - 1], p)
  }

  /** Python's `s.lstrip(chars)`: the longest prefix of characters satisfying
      `p` removed. */
  function LStrip(s: string, p: char -> bool): string {
    s[LeadingCount(s, p)..]
  }

  /** The longest prefix of `s` whose characters all satisfy `p`. */
  function TakeWhile(s: string, p: char -> bool): (r: string)
    ensures |r| <= |s| && r == s[..|r|]
    ensures forall k :: 0 <= k < |r| ==> p(r[k])
    ensures |r| == |s| || !p(s[|r|])
  {
    if s == [] || !p(s[0]) then [] else [s[0]] + TakeWhile(s[1..], p)
  }

  lemma {:induction false} TakeWhileOf(w: string, rest: string, p: char -> bool)
    requires forall k :: 0 <= k < |w| ==> p(w[k])
    requires rest == [] || !p(rest[0])
    ensures TakeWhile(w + rest, p) == w
  {
    if w != [] {
      assert (w + rest)[1..] == w[1..] + rest;
      TakeWhileOf(w[1..], rest, p);
    }
  }

  /** A run of whitespace, possibly empty. */
  predicate Blanks(s: string) {
    forall k :: 0 <= k < |s| ==> IsSpace(s[k])
  }

  /** Stripping leading whitespace from blanks followed by a non-blank leaves
      exactly what follows the blanks. */
  lemma SkipBlanks(gap: string, s: string)
    requires Blanks(gap)
    requires s != [] && !IsSpace(s[0])
    ensures LStrip(gap + s, IsSpace) == s
  {
    assert LeadingCount(gap + s, IsSpace) == |gap|;
    assert (gap + s)[|gap|..] == s;
  }

  /** What `LStrip` removes is a run of blanks. */
  lemma LStripShape(s: string) returns (gap: string)
    ensures Blanks(gap) && s == gap + LStrip(s, IsSpace)
  {
    gap := s[..LeadingCount(s, IsSpace)];
  }

  /** `TakeWhile` splits its argument: what it takes, then a rest that does
      not start with a character it would take. */
  lemma TakeWhileShape(s: string, p: char -> bool) returns (rest: string)
    ensures s == TakeWhile(s, p) + rest
    ensures rest == [] || !p(rest[0])
  {
    rest := s[|TakeWhile(s, p)|..];
  }

  /** Python's `s.rstrip(chars)`: the longest suffix of characters
      satisfying `p` removed. */
  function RStrip(s: string, p: char -> bool): string {
    s[..|s| - TrailingCount(s, p)]
  }

  /** Python's `s.strip(chars)`: both ends, left first. */
  function Strip(s: string, p: char -> bool): string {
    RStrip(LStrip(s, p), p)
  }

  /** Python's `s.replace(c, '')` for a one-character `c`. */
  function RemoveAll(s: string, c: char): (r: string)
    ensures c !in r
    ensures forall x :: x != c ==> multiset(r)[x] == multiset(s)[x]
  {
    if s == [] then []
    else
      assert s == [s[0]] + s[1..];
      (if s[0] == c then [] else [s[0]]) + RemoveAll(s[1..], c)
  }

  /** Python's `sep.join(parts)`. */
  function Join(parts: seq<string>, sep: string): string {
    if parts == [] then []
    else if |parts| == 1 then parts[0]
    else parts[0] + sep + Join(parts[1..], sep)
  }

  lemma JoinHead(parts: seq<string>, sep: string)
    requires parts != []
    ensures |Join(parts, sep)| >= |parts[0]| && Join(parts, sep)[..|parts[0]|] == parts[0]
  {
  }

  /** Joining two or more parts puts the separator after the first. */
  lemma JoinCons(parts: seq<string>, sep: string)
    requires |parts| >= 2
    ensures Join(parts, sep) == parts[0] + sep + Join(parts[1..], sep)
  {
  }

  /** Python's `s.split(sep)` for a non-empty separator: the pieces between the
      occurrences of `sep` found scanning left to right. */
  function Split(s: string, sep: string): (parts: seq<string>)
    requires |sep| > 0
    ensures |parts| > 0
    decreases |s|
  {
    if |s| < |sep| then [s]
    else if s[..|sep|] == sep then [[]] + Split(s[|sep|..], sep)
    else
      var rest := Split(s[1..], sep);
      [[s[0]] + rest[0]] + rest[1..]
  }

  /** Splitting and joining again gives back the input. */
  lemma {:induction false} JoinSplit(s: string, sep: string)
    requires |sep| > 0
    ensures Join(Split(s, sep), sep) == s
    decreases |s|
  {
    if |s| < |sep| {
    } else if s[..|sep|] == sep {
      JoinSplit(s[|sep|..], sep);
      JoinSplitAtSep(s, sep);
    } else {
      JoinSplit(s[1..], sep);
      JoinSplitOther(s, sep);
    }
  }

  /** The step of `JoinSplit` where `s` starts with the separator. */
  lemma JoinSplitAtSep(s: string, sep: string)
    requires |sep| > 0 && |s| >= |sep| && s[..|sep|] == sep
    requires Join(Split(s[|sep|..], sep), sep) == s[|sep|..]
    ensures Join(Split(s, sep), sep) == s
  {
    var rest := Split(s[|sep|..], sep);
    assert Split(s, sep) == [[]] + rest;
    JoinEmptyFirst(rest, sep);
    Reassemble(s, |sep|);
  }

  lemma Reassemble(s: string, n: nat)
    requires n <= |s|
    ensures s[..n] + s[n..] == s
  {
  }

  lemma JoinEmptyFirst(parts: seq<string>, sep: string)
    requires parts != []
    ensures Join([[]] + parts, sep) == sep + Join(parts, sep)
  {
    var all := [[]] + parts;
    JoinCons(all, sep);
    assert all[0] == [] && all[1..] == parts;
  }

  /** The step of `JoinSplit` where `s` does not start with the separator. */
  lemma JoinSplitOther(s: string, sep: string)
    requires |sep| > 0 && |s| >= |sep| && s[..|sep|] != sep
    requires Join(Split(s[1..], sep), sep) == s[1..]
    ensures Join(Split(s, sep), sep) == s
  {
    var rest := Split(s[1..], sep);
    var parts := Split(s, sep);
    assert parts == [[s[0]] + rest[0]] + rest[1..];
    if |rest| == 1 {
      assert s == [s[0]] + s[1..];
    } else {
      var tail := Join(rest[1..], sep);
      assert s[1..] == rest[0] + sep + tail by {
        JoinCons(rest, sep);
      }
      assert Join(parts, sep) == [s[0]] + rest[0] + sep + tail by {
        JoinCons(parts, sep);
        assert parts[1..] == rest[1..];
      }
      JoinSplitFront(s, rest[0], sep, tail);
    }
  }

  lemma JoinSplitFront(s: string, a: string, b: string, c: string)
    requires |s| > 0 && s[1..] == a + b + c
    ensures [s[0]] + a + b + c == s
  {
    assert s == [s[0]] + s[1..];
  }

  /** Python's `<` on strings: lexicographic by code point, a proper prefix
      first. */
  predicate StrLess(a: string, b: string) {
    if a == [] then b != []
    else if b == [] then false
    else if a[0] != b[0] then a[0] < b[0]
    else StrLess(a[1..], b[1..])
  }

  lemma {:induction false} StrLessIrreflexive(a: string)
    ensures !StrLess(a, a)
  {
    if a != [] { StrLessIrreflexive(a[1..]); }
  }

  lemma {:induction false} StrLessTransitive(a: string, b: string, c: string)
    requires StrLess(a, b) && StrLess(b, c)
    ensures StrLess(a, c)
  {
    if a != [] && b != [] && c != [] && a[0] == b[0] == c[0] {
      StrLessTransitive(a[1..], b[1..], c[1..]);
    }
  }

  lemma {:induction false} StrLessTotal(a: string, b: string)
    ensures a == b || StrLess(a, b) || StrLess(b, a)
  {
    if a != [] && b != [] && a[0] == b[0] {
      StrLessTotal(a[1..], b[1..]);
      if a[1..] == b[1..] {
        assert a == [a[0]] + a[1..] && b == [b[0]] + b[1..];
      }
    }
  }
}
