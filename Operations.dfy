/** The operation file (Practice/nntask3.py, read_operations): every line but
    the first and the last names a vertex and the token of its operation,
    `name : token`; the table maps each vertex to the token of the last line
    naming it. */
module Operations {
  import opened Wrappers
  import opened Text
  import opened Graph

  predicate NotSpace(c: char) { !IsSpace(c) }

  /** The pattern `(\w+)\s*:\s*(\S+)` matched at the start of `line`: the
      vertex name and the operation token. Whatever follows the token is
      ignored, as `re.match` does. The greedy reading is the only one: a
      shorter name would be followed by a word character, a shorter gap by
      a blank where the colon is needed. */
  function OperationLine(line: string): (r: Option<(Vertex, string)>)
    ensures r.Some? ==> IsWord(r.value.0)
    ensures r.Some? ==> r.value.1 != [] && forall k :: 0 <= k < |r.value.1| ==> !IsSpace(r.value.1[k])
  {
    var name := TakeWhile(line, IsWordChar);
    var s := LStrip(line[|name|..], IsSpace);
    if name == [] || s == [] || s[0] != ':' then None
    else
      var token := TakeWhile(LStrip(s[1..], IsSpace), NotSpace);
      if token == [] then None else Some((name, token))
  }

  /** A line written as name, blanks, colon, blanks, token is read back as
      that name and token, whatever follows a blank after the token. */
  lemma OperationLineOf(name: string, gap1: string, gap2: string, token: string, rest: string)
    requires IsWord(name) && token != []
    requires Blanks(gap1) && Blanks(gap2)
    requires forall k :: 0 <= k < |token| ==> !IsSpace(token[k])
    requires rest == [] || IsSpace(rest[0])
    ensures OperationLine(name + gap1 + ":" + gap2 + token + rest) == Some((name, token))
  {
    var s := ":" + (gap2 + (token + rest));
    var line := name + (gap1 + s);
    assert name + gap1 + ":" + gap2 + token + rest == line;
    assert TakeWhile(line, IsWordChar) == name && line[|name|..] == gap1 + s by {
      TakeWhileOf(name, gap1 + s, IsWordChar);
    }
    SkipBlanks(gap1, s);
    assert s[1..] == gap2 + (token + rest);
    SkipBlanks(gap2, token + rest);
    TakeWhileOf(token, rest, NotSpace);
  }

  /** Conversely, a line the pattern accepts is its name, blanks, a colon,
      blanks and its token, followed by nothing or by a blank. */
  lemma OperationLineShape(line: string)
    returns (name: string, gap1: string, gap2: string, token: string, rest: string)
    requires OperationLine(line).Some?
    ensures OperationLine(line) == Some((name, token))
    ensures IsWord(name) && token != [] && forall k :: 0 <= k < |token| ==> !IsSpace(token[k])
    ensures line == name + gap1 + ":" + gap2 + token + rest
    ensures Blanks(gap1) && Blanks(gap2)
    ensures rest == [] || IsSpace(rest[0])
  {
    name := TakeWhile(line, IsWordChar);
    var after := TakeWhileShape(line, IsWordChar);
    gap1 := LStripShape(after);
    var s := LStrip(after, IsSpace);
    assert s != [] && s[0] == ':';
    var t := s[1..];
    gap2 := LStripShape(t);
    var u := LStrip(t, IsSpace);
    token := TakeWhile(u, NotSpace);
    assert OperationLine(line) == Some((name, token));
    rest := TakeWhileShape(u, NotSpace);
    JoinLineParts(line, name, after, gap1, s, t, gap2, u, token, rest);
  }

  /** Puts the pieces of `OperationLineShape` back together. */
  lemma JoinLineParts(line: string, name: string, after: string, gap1: string, s: string,
                   t: string, gap2: string, u: string, token: string, rest: string)
    requires line == name + after && after == gap1 + s
    requires s != [] && s[0] == ':' && t == s[1..]
    requires t == gap2 + u && u == token + rest
    ensures line == name + gap1 + ":" + gap2 + token + rest
  {
    assert s == ":" + t;
  }

  /** `f.readlines()[1:-1]`: the first and the last line are not read. */
  function Body(lines: seq<string>): (body: seq<string>)
    ensures |lines| >= 2 ==> body == lines[1..|lines| - 1]
    ensures |lines| < 2 ==> body == []
  {
    if |lines| < 2 then [] else lines[1..|lines| - 1]
  }

  /** A line of the file after `line.strip()`, with what the pattern reads
      from it. */
  datatype OpLine = OpLine(text: string, parsed: Option<(Vertex, string)>)

  function ReadLine(line: string): (c: OpLine)
    ensures c.text == Strip(line, IsSpace) && c.parsed == OperationLine(c.text)
  {
    var text := Strip(line, IsSpace);
    OpLine(text, OperationLine(text))
  }

  function ReadLines(body: seq<string>): (cs: seq<OpLine>)
    ensures |cs| == |body| && forall i :: 0 <= i < |body| ==> cs[i] == ReadLine(body[i])
  {
    seq(|body|, i requires 0 <= i < |body| => ReadLine(body[i]))
  }

  /** The table the lines describe, or the first line (stripped) that is
      not of the form `name : token`. */
  function Table(cs: seq<OpLine>): Result<map<Vertex, string>, string> {
    if cs == [] then Ok(map[])
    else
      match Table(cs[..|cs| - 1])
      case Err(line) => Err(line)
      case Ok(m) =>
        var c := cs[|cs| - 1];
        match c.parsed
        case None => Err(c.text)
        case Some((name, token)) => Ok(m[name := token])
  }

  /** `read_operations` on the lines of the file. */
  method ReadOperations(lines: seq<string>) returns (r: Result<map<Vertex, string>, string>)
    ensures r == Table(ReadLines(Body(lines)))
  {
    var body := Body(lines);
    ghost var cs := ReadLines(body);
    var opers: map<Vertex, string> := map[];
    var i := 0;
    while i < |body|
      invariant 0 <= i <= |body|
      invariant Table(cs[..i]) == Ok(opers)
    {
      var line := Strip(body[i], IsSpace);
      var matched := OperationLine(line);
      TableSnoc(cs, i);
      if matched.None? {
        TableErrStays(cs, i + 1);
        assert cs[..|cs|] == cs;
        return Err(line);
      }
      opers := opers[matched.value.0 := matched.value.1];
      i := i + 1;
    }
    assert cs[..i] == cs;
    return Ok(opers);
  }

  lemma TableSnoc(cs: seq<OpLine>, i: nat)
    requires i < |cs| && Table(cs[..i]).Ok?
    ensures cs[i].parsed.None? ==> Table(cs[..i + 1]) == Err(cs[i].text)
    ensures cs[i].parsed.Some? ==>
      Table(cs[..i + 1]) == Ok(Table(cs[..i]).value[cs[i].parsed.value.0 := cs[i].parsed.value.1])
  {
    assert cs[..i + 1][..i] == cs[..i];
  }

  /** Once a prefix of the lines fails, the whole file fails the same way. */
  lemma {:induction false} TableErrStays(cs: seq<OpLine>, n: nat)
    requires n <= |cs| && Table(cs[..n]).Err?
    ensures Table(cs) == Table(cs[..n])
    decreases |cs| - n
  {
    if n < |cs| {
      assert cs[..n + 1][..n] == cs[..n];
      TableErrStays(cs, n + 1);
    } else {
      assert cs[..n] == cs;
    }
  }

  predicate AllGood(cs: seq<OpLine>) {
    forall i :: 0 <= i < |cs| ==> cs[i].parsed.Some?
  }

  /** The table fails exactly when some line is malformed, and then it names
      the first such line, stripped. */
  lemma {:induction false} TableErr(cs: seq<OpLine>)
    ensures Table(cs).Ok? <==> AllGood(cs)
    ensures Table(cs).Err? ==> FirstBad(cs, Table(cs).error)
  {
    if cs != [] {
      var init := cs[..|cs| - 1];
      TableErr(init);
      assert forall i :: 0 <= i < |init| ==> init[i] == cs[i];
      if Table(init).Err? {
        var i :| 0 <= i < |init| && init[i].parsed.None? && init[i].text == Table(init).error &&
          forall j :: 0 <= j < i ==> init[j].parsed.Some?;
        assert cs[i] == init[i];
      }
    }
  }

  /** `line` is the first malformed line, stripped. */
  predicate FirstBad(cs: seq<OpLine>, line: string) {
    exists i :: 0 <= i < |cs| && cs[i].parsed.None? && cs[i].text == line &&
      forall j :: 0 <= j < i ==> cs[j].parsed.Some?
  }

  /** When every line is well formed, the vertices of the table are exactly
      the names on the lines. */
  lemma {:induction false} TableKeys(cs: seq<OpLine>)
    requires AllGood(cs)
    ensures Table(cs).Ok?
    ensures forall v :: v in Table(cs).value <==> exists i :: 0 <= i < |cs| && cs[i].parsed.value.0 == v
  {
    TableErr(cs);
    if cs != [] {
      var init := cs[..|cs| - 1];
      assert forall i :: 0 <= i < |init| ==> init[i] == cs[i];
      TableKeys(init);
      forall v ensures v in Table(cs).value <==> exists i :: 0 <= i < |cs| && cs[i].parsed.value.0 == v {
        if v in Table(init).value {
          var i :| 0 <= i < |init| && init[i].parsed.value.0 == v;
          assert cs[i] == init[i];
        }
      }
    }
  }

  /** A vertex is mapped to the token of the last line naming it: a later
      line for the same vertex overwrites an earlier one. */
  lemma {:induction false} TableLastWins(cs: seq<OpLine>, i: nat)
    requires AllGood(cs) && i < |cs|
    requires forall j :: i < j < |cs| ==> cs[j].parsed.value.0 != cs[i].parsed.value.0
    ensures Table(cs).Ok? && cs[i].parsed.value.0 in Table(cs).value
    ensures Table(cs).value[cs[i].parsed.value.0] == cs[i].parsed.value.1
  {
    TableErr(cs);
    var init := cs[..|cs| - 1];
    assert forall k :: 0 <= k < |init| ==> init[k] == cs[k];
    TableErr(init);
    if i < |init| {
      TableLastWins(init, i);
    }
  }

  // ---------------------------------------------------------------------
  // Numeric tokens

  /** `s.replace(c, '', 1)`: the first `c` removed. */
  function RemoveFirst(s: string, c: char): (r: string)
    ensures c !in s ==> r == s
    ensures c in s ==> |r| == |s| - 1
  {
    if s == [] then []
    else if s[0] == c then s[1..]
    else [s[0]] + RemoveFirst(s[1..], c)
  }

  /** `s.count(c)`. */
  function Count(s: string, c: char): nat {
    if s == [] then 0 else (if s[0] == c then 1 else 0) + Count(s[1..], c)
  }

  /** The test `calculate` applies to an operation token:
      `isdigit() or (replace('.', '', 1).isdigit() and count('.') < 2)`. */
  predicate IsNumber(op: string) {
    IsDigits(op) || (IsDigits(RemoveFirst(op, '.')) && Count(op, '.') < 2)
  }

  predicate AllDigits(s: string) {
    forall k :: 0 <= k < |s| ==> IsDigit(s[k])
  }

  /** `op` has its point at `i`, digits on both sides and at least one
      digit in all. */
  predicate PointAt(op: string, i: int) {
    0 <= i < |op| && op[i] == '.' && |op| >= 2 && AllDigits(op[..i]) && AllDigits(op[i + 1..])
  }

  /** A numeric token is a run of digits with at most one point somewhere in
      it, and at least one digit. */
  lemma NumberShape(op: string)
    ensures IsNumber(op) <==> IsDigits(op) || exists i :: PointAt(op, i)
  {
    if IsNumber(op) && !IsDigits(op) {
      PointOfNumber(op);
    }
    if exists i :: PointAt(op, i) {
      var i :| PointAt(op, i);
      NumberOfPoint(op, i);
    }
  }

  /** A numeric token that is not all digits has its point at the first `.`. */
  lemma PointOfNumber(op: string)
    requires IsNumber(op) && !IsDigits(op)
    ensures '.' in op && PointAt(op, FirstIndex(op, '.'))
  {
    var r := RemoveFirst(op, '.');
    assert '.' in op;
    var i := FirstIndex(op, '.');
    RemoveFirstAt(op, '.', i);
    assert r == op[..i] + op[i + 1..];
    var head, tail := op[..i], op[i + 1..];
    forall k | 0 <= k < |head| ensures IsDigit(head[k]) {
      assert head[k] == r[k];
    }
    forall k | 0 <= k < |tail| ensures IsDigit(tail[k]) {
      assert tail[k] == r[i + k];
    }
  }

  /** Digits, one point, digits, and at least one digit: a numeric token. */
  lemma NumberOfPoint(op: string, i: nat)
    requires PointAt(op, i)
    ensures IsNumber(op)
  {
    var head, tail := op[..i], op[i + 1..];
    forall k | 0 <= k < i ensures op[k] != '.' {
      assert op[k] == head[k];
    }
    RemoveFirstAt(op, '.', i);
    var r := head + tail;
    forall k | 0 <= k < |r| ensures IsDigit(r[k]) {
      if k < i { assert r[k] == head[k]; } else { assert r[k] == tail[k - i]; }
    }
    CountSplit(op, i);
  }

  /** The position of the first `c` in `s`. */
  function FirstIndex(s: string, c: char): (i: nat)
    requires c in s
    ensures i < |s| && s[i] == c && forall k :: 0 <= k < i ==> s[k] != c
  {
    if s[0] == c then 0 else 1 + FirstIndex(s[1..], c)
  }

  lemma {:induction false} RemoveFirstAt(s: string, c: char, i: nat)
    requires i < |s| && s[i] == c && forall k :: 0 <= k < i ==> s[k] != c
    ensures RemoveFirst(s, c) == s[..i] + s[i + 1..]
  {
    if i > 0 {
      RemoveFirstAt(s[1..], c, i - 1);
      assert s[1..][..i - 1] == s[1..i];
      assert s[..i] == [s[0]] + s[1..i];
    }
  }

  /** A `c` at `i` and none elsewhere: the count is one. */
  lemma {:induction false} CountSplit(s: string, i: nat)
    requires i < |s| && s[i] == '.'
    requires AllDigits(s[..i]) && AllDigits(s[i + 1..])
    ensures Count(s, '.') == 1
  {
    if i == 0 {
      NoneCounted(s[1..]);
    } else {
      assert s[0] == s[..i][0];
      assert s[1..][..i - 1] == s[..i][1..];
      assert s[1..][i..] == s[i + 1..];
      CountSplit(s[1..], i - 1);
    }
  }

  lemma {:induction false} NoneCounted(s: string)
    requires AllDigits(s)
    ensures Count(s, '.') == 0
  {
    if s != [] {
      NoneCounted(s[1..]);
    }
  }

  function Pow10(n: nat): (p: nat)
    ensures p >= 1
  {
    if n == 0 then 1 else 10 * Pow10(n - 1)
  }

  /** `float(op)` on a numeric token, as an exact decimal value. */
  function NumberValue(op: string): real
    requires IsNumber(op)
  {
    if IsDigits(op) then DigitsValue(op) as real
    else
      PointOfNumber(op);
      var i := FirstIndex(op, '.');
      DigitsValue(op[..i]) as real + DigitsValue(op[i + 1..]) as real / Pow10(|op| - i - 1) as real
  }
}
