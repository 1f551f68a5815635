/** The textual form of arcs: how a line of input is normalised and cut into
    fragments, and the grammar `(word, word, digits)` a fragment must match
    (Practice/nntask1.py, read_txt). */
module ArcGrammar {
  import opened Text
  import opened Wrappers
  import opened Graph

  predicate IsComma(c: char) { c == ',' }

  predicate IsParen(c: char) { c == '(' || c == ')' }

  /** The separator between two triples once the outer brackets are gone. */
  const Separator: string := "),("

  /** The normalisation of one line: strip whitespace, drop trailing commas,
      delete every blank and tab, strip the outer brackets, then split on
      `),(`. */
  function Fragments(line: string): (frags: seq<string>)
    ensures |frags| > 0
  {
    var s := Strip(line, IsSpace);
    var s := RStrip(s, IsComma);
    var s := RemoveAll(RemoveAll(s, ' '), '\t');
    var s := Strip(s, IsParen);
    Split(s, Separator)
  }

  /** Whitespace, then a non-empty run of characters satisfying `p`; gives the
      run and what follows it. */
  function Token(s: string, p: char -> bool): (r: Option<(string, string)>)
    ensures r.Some? ==> |r.value.0| > 0 && forall k :: 0 <= k < |r.value.0| ==> p(r.value.0[k])
  {
    var s := LStrip(s, IsSpace);
    var w := TakeWhile(s, p);
    if w == [] then None else Some((w, s[|w|..]))
  }

  /** Whitespace, then the character `c`; gives what follows it. */
  function Punct(s: string, c: char): Option<string> {
    var s := LStrip(s, IsSpace);
    if s != [] && s[0] == c then Some(s[1..]) else None
  }

  /** The pattern `\(\s*(\w+)\s*,\s*(\w+)\s*,\s*(\d+)\s*\)` matched at the
      start of `t`; whatever follows the closing bracket is ignored, as
      `re.match` does. */
  function MatchTriple(t: string): (r: Option<Arc>)
    ensures r.Some? ==> IsWord(r.value.src) && IsWord(r.value.dst)
    ensures r.Some? ==> |t| > 0 && t[0] == '('
  {
    if t == [] || t[0] != '(' then None else AfterOpen(t[1..])
  }

  /** The pattern after its opening bracket: the source word and a comma. */
  function AfterOpen(s: string): (r: Option<Arc>)
    ensures r.Some? ==> IsWord(r.value.src) && IsWord(r.value.dst)
  {
    match Token(s, IsWordChar)
    case None => None
    case Some((src, rest)) =>
      match Punct(rest, ',')
      case None => None
      case Some(rest) => AfterSource(src, rest)
  }

  /** The pattern after the source: the target word and a comma. */
  function AfterSource(src: Vertex, s: string): (r: Option<Arc>)
    ensures r.Some? ==> r.value.src == src && IsWord(r.value.dst)
  {
    match Token(s, IsWordChar)
    case None => None
    case Some((dst, rest)) =>
      match Punct(rest, ',')
      case None => None
      case Some(rest) => AfterTarget(src, dst, rest)
  }

  /** The pattern after the target: the digits and the closing bracket. */
  function AfterTarget(src: Vertex, dst: Vertex, s: string): (r: Option<Arc>)
    ensures r.Some? ==> r.value.src == src && r.value.dst == dst
  {
    match Token(s, IsDigit)
    case None => None
    case Some((digits, rest)) =>
      match Punct(rest, ')')
      case None => None
      case Some(_) => Some(Arc(src, dst, DigitsValue(digits)))
  }

  /** The triple a non-empty fragment stands for, if it matches: the fragment
      is put back between brackets before matching. */
  function FragmentArc(frag: string): Option<Arc> {
    MatchTriple("(" + frag + ")")
  }

  /** Blanks `g1`, the word `w`, blanks `g2`, a comma, then `tail`. */
  function WordText(g1: string, w: string, g2: string, tail: string): string {
    g1 + (w + (g2 + ([','] + tail)))
  }

  /** Blanks `g1`, the digits `d`, blanks `g2`, a closing bracket, then
      `rest`. */
  function DigitsText(g1: string, d: string, g2: string, rest: string): string {
    g1 + (d + (g2 + ([')'] + rest)))
  }

  /** The text `(a, b, d)` followed by `rest`, with the blanks `g1` to `g6`
      around its parts, in order. */
  function TripleText(g1: string, a: string, g2: string, g3: string, b: string, g4: string,
                      g5: string, d: string, g6: string, rest: string): string {
    "(" + WordText(g1, a, g2, WordText(g3, b, g4, DigitsText(g5, d, g6, rest)))
  }

  /** Blanks, then a run `w` of characters satisfying `p` that stops at
      `rest`: `Token` gives exactly `w` and `rest`. */
  lemma TokenAfter(gap: string, w: string, rest: string, p: char -> bool)
    requires Blanks(gap) && |w| > 0 && !IsSpace(w[0])
    requires forall k :: 0 <= k < |w| ==> p(w[k])
    requires rest == [] || !p(rest[0])
    ensures Token(gap + (w + rest), p) == Some((w, rest))
  {
    SkipBlanks(gap, w + rest);
    TakeWhileOf(w, rest, p);
    assert (w + rest)[|w|..] == rest;
  }

  /** Blanks, then `c`: `Punct` gives what follows `c`. */
  lemma PunctAfter(gap: string, c: char, rest: string)
    requires Blanks(gap) && !IsSpace(c)
    ensures Punct(gap + ([c] + rest), c) == Some(rest)
  {
    SkipBlanks(gap, [c] + rest);
  }

  /** Conversely, what `Token` accepts is blanks, the run it gives, and a
      rest that does not continue the run. */
  lemma TokenShape(s: string, p: char -> bool) returns (gap: string, w: string, rest: string)
    requires Token(s, p).Some?
    ensures Token(s, p) == Some((w, rest))
    ensures s == gap + (w + rest) && Blanks(gap)
    ensures rest == [] || !p(rest[0])
  {
    gap := LStripShape(s);
    var t := LStrip(s, IsSpace);
    w := TakeWhile(t, p);
    rest := TakeWhileShape(t, p);
    assert rest == t[|w|..];
  }

  /** Conversely, what `Punct` accepts is blanks, `c` and the rest. */
  lemma PunctShape(s: string, c: char) returns (gap: string, rest: string)
    requires Punct(s, c).Some?
    ensures Punct(s, c) == Some(rest)
    ensures s == gap + ([c] + rest) && Blanks(gap)
  {
    gap := LStripShape(s);
    var t := LStrip(s, IsSpace);
    rest := t[1..];
    assert t == [c] + rest;
  }

  /** What follows a blank run and a punctuation mark stops any run of
      word characters or digits. */
  lemma StopsRun(gap: string, c: char, rest: string)
    requires Blanks(gap) && (c == ',' || c == ')')
    ensures var r := gap + ([c] + rest); !IsWordChar(r[0]) && !IsDigit(r[0])
  {
    if gap != [] {
      assert (gap + ([c] + rest))[0] == gap[0];
    }
  }

  lemma AfterTargetSpaced(a: Vertex, b: Vertex, g5: string, d: string, g6: string, rest: string)
    requires Blanks(g5) && Blanks(g6) && IsDigits(d)
    ensures AfterTarget(a, b, DigitsText(g5, d, g6, rest)) == Some(Arc(a, b, DigitsValue(d)))
  {
    StopsRun(g6, ')', rest);
    TokenAfter(g5, d, g6 + ([')'] + rest), IsDigit);
    PunctAfter(g6, ')', rest);
  }

  lemma AfterSourceSpaced(a: Vertex, g3: string, b: string, g4: string, g5: string, d: string,
                          g6: string, rest: string)
    requires Blanks(g3) && Blanks(g4) && Blanks(g5) && Blanks(g6)
    requires IsWord(b) && IsDigits(d)
    ensures AfterSource(a, WordText(g3, b, g4, DigitsText(g5, d, g6, rest)))
            == Some(Arc(a, b, DigitsValue(d)))
  {
    var tail := DigitsText(g5, d, g6, rest);
    StopsRun(g4, ',', tail);
    TokenAfter(g3, b, g4 + ([','] + tail), IsWordChar);
    PunctAfter(g4, ',', tail);
    AfterTargetSpaced(a, b, g5, d, g6, rest);
  }

  lemma AfterOpenSpaced(g1: string, a: string, g2: string, g3: string, b: string, g4: string,
                        g5: string, d: string, g6: string, rest: string)
    requires Blanks(g1) && Blanks(g2) && Blanks(g3) && Blanks(g4) && Blanks(g5) && Blanks(g6)
    requires IsWord(a) && IsWord(b) && IsDigits(d)
    ensures AfterOpen(WordText(g1, a, g2, WordText(g3, b, g4, DigitsText(g5, d, g6, rest))))
            == Some(Arc(a, b, DigitsValue(d)))
  {
    var tail := WordText(g3, b, g4, DigitsText(g5, d, g6, rest));
    StopsRun(g2, ',', tail);
    TokenAfter(g1, a, g2 + ([','] + tail), IsWordChar);
    PunctAfter(g2, ',', tail);
    AfterSourceSpaced(a, g3, b, g4, g5, d, g6, rest);
  }

  /** A triple `(a, b, n)` with word names and decimal digits, blanks
      allowed around every part, matches with exactly its parts, whatever
      follows the closing bracket. */
  lemma {:induction false} MatchSpaced(g1: string, a: string, g2: string, g3: string, b: string,
                                       g4: string, g5: string, d: string, g6: string, rest: string)
    requires Blanks(g1) && Blanks(g2) && Blanks(g3) && Blanks(g4) && Blanks(g5) && Blanks(g6)
    requires IsWord(a) && IsWord(b) && IsDigits(d)
    ensures MatchTriple(TripleText(g1, a, g2, g3, b, g4, g5, d, g6, rest)) == Some(Arc(a, b, DigitsValue(d)))
  {
    var s := WordText(g1, a, g2, WordText(g3, b, g4, DigitsText(g5, d, g6, rest)));
    assert ("(" + s)[1..] == s;
    AfterOpenSpaced(g1, a, g2, g3, b, g4, g5, d, g6, rest);
  }

  lemma AfterTargetShape(src: Vertex, dst: Vertex, s: string)
    returns (g5: string, d: string, g6: string, rest: string)
    requires AfterTarget(src, dst, s).Some?
    ensures IsDigits(d) && AfterTarget(src, dst, s) == Some(Arc(src, dst, DigitsValue(d)))
    ensures s == DigitsText(g5, d, g6, rest) && Blanks(g5) && Blanks(g6)
  {
    var r;
    g5, d, r := TokenShape(s, IsDigit);
    g6, rest := PunctShape(r, ')');
  }

  lemma AfterSourceShape(src: Vertex, s: string)
    returns (g3: string, dst: string, g4: string, g5: string, d: string, g6: string, rest: string)
    requires AfterSource(src, s).Some?
    ensures IsDigits(d) && AfterSource(src, s) == Some(Arc(src, dst, DigitsValue(d)))
    ensures s == WordText(g3, dst, g4, DigitsText(g5, d, g6, rest))
    ensures Blanks(g3) && Blanks(g4) && Blanks(g5) && Blanks(g6)
  {
    var r, tail;
    g3, dst, r := TokenShape(s, IsWordChar);
    g4, tail := PunctShape(r, ',');
    g5, d, g6, rest := AfterTargetShape(src, dst, tail);
  }

  lemma AfterOpenShape(s: string)
    returns (g1: string, src: string, g2: string, g3: string, dst: string, g4: string,
             g5: string, d: string, g6: string, rest: string)
    requires AfterOpen(s).Some?
    ensures IsDigits(d) && AfterOpen(s) == Some(Arc(src, dst, DigitsValue(d)))
    ensures s == WordText(g1, src, g2, WordText(g3, dst, g4, DigitsText(g5, d, g6, rest)))
    ensures Blanks(g1) && Blanks(g2) && Blanks(g3) && Blanks(g4) && Blanks(g5) && Blanks(g6)
  {
    var r, tail;
    g1, src, r := TokenShape(s, IsWordChar);
    g2, tail := PunctShape(r, ',');
    g3, dst, g4, g5, d, g6, rest := AfterSourceShape(src, tail);
  }

  /** Conversely, a text `MatchTriple` accepts is a bracketed triple of two
      word names and decimal digits, blanks allowed around every part,
      followed by anything; the arc is made of exactly those parts. */
  lemma MatchTripleShape(t: string)
    returns (g1: string, src: string, g2: string, g3: string, dst: string, g4: string,
             g5: string, d: string, g6: string, rest: string)
    requires MatchTriple(t).Some?
    ensures IsWord(src) && IsWord(dst) && IsDigits(d)
    ensures MatchTriple(t) == Some(Arc(src, dst, DigitsValue(d)))
    ensures t == TripleText(g1, src, g2, g3, dst, g4, g5, d, g6, rest)
    ensures Blanks(g1) && Blanks(g2) && Blanks(g3) && Blanks(g4) && Blanks(g5) && Blanks(g6)
  {
    g1, src, g2, g3, dst, g4, g5, d, g6, rest := AfterOpenShape(t[1..]);
    Bracketed(t, WordText(g1, src, g2, WordText(g3, dst, g4, DigitsText(g5, d, g6, rest))));
  }

  lemma Bracketed(t: string, s: string)
    requires |t| > 0 && t[0] == '(' && t[1..] == s
    ensures t == "(" + s
  {
  }
}
