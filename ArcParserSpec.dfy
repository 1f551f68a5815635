/** What reading the arc text computes (Practice/nntask1.py, read_txt), stated
    as pure step functions over a parser state: one arc, one fragment, the
    fragments of one line, all lines. The `Parser` class in ArcParser.dfy is
    proved to follow these steps; the lemmas here say what the steps
    guarantee. */
module ArcParserSpec {
  import opened Text
  import opened Wrappers
  import opened Graph
  import opened ArcGrammar

  /** A diagnostic of the parser, tagged with the 1-based line it was found on. */
  datatype ParseError =
      /** A fragment that does not match the triple grammar, in brackets. */
    | Malformed(line: nat, text: string)
      /** Ordinal `ord` of `dst` was already recorded, for `recorded`. */
    | OrdinalTaken(line: nat, src: Vertex, dst: Vertex, ord: nat, recorded: Vertex)
      /** `src` already holds ordinal `existing` of `dst`, and now also `ord`. */
    | PairConflict(line: nat, src: Vertex, dst: Vertex, existing: nat, ord: nat)

  /** Per target, the ordinals recorded so far with their first source, in the
      order they were recorded (the inner dictionaries of `arc_order_map`). */
  type OrderTable = map<Vertex, seq<Entry>>

  datatype ParseState = ParseState(
    vertices: set<Vertex>,
    arcs: seq<Arc>,
    errors: seq<ParseError>,
    orders: OrderTable)

  const Initial: ParseState := ParseState({}, [], [], map[])

  /** The recorded entries of target `t`; none if it was never a target. */
  function Recorded(orders: OrderTable, t: Vertex): seq<Entry> {
    if t in orders then orders[t] else []
  }

  /** The source recorded for ordinal `k`, if any. */
  function Lookup(es: seq<Entry>, k: nat): (r: Option<Vertex>)
    ensures r.None? <==> forall e :: e in es ==> e.ord != k
    ensures r.Some? ==> Entry(k, r.value) in es
  {
    if es == [] then None
    else if es[0].ord == k then Some(es[0].src)
    else Lookup(es[1..], k)
  }

  predicate OrdsDistinct(es: seq<Entry>) {
    forall i, j :: 0 <= i < j < |es| ==> es[i].ord != es[j].ord
  }

  /** One conflict per recorded entry of another ordinal held by the same
      source, in the order the entries were recorded. */
  function PairConflicts(es: seq<Entry>, line: nat, a: Arc): seq<ParseError> {
    if es == [] then []
    else
      var x := es[|es| - 1];
      PairConflicts(es[..|es| - 1], line, a) +
        (if x.ord != a.ord && x.src == a.src
         then [PairConflict(line, a.src, a.dst, x.ord, a.ord)] else [])
  }

  /** Scanning one more recorded entry adds its conflict, if any, at the end. */
  lemma PairConflictsSnoc(es: seq<Entry>, k: nat, line: nat, a: Arc)
    requires k < |es|
    ensures PairConflicts(es[..k + 1], line, a) == PairConflicts(es[..k], line, a) +
      (if es[k].ord != a.ord && es[k].src == a.src
       then [PairConflict(line, a.src, a.dst, es[k].ord, a.ord)] else [])
  {
    assert es[..k + 1][..k] == es[..k];
  }

  /** The pair conflicts are exactly one report per recorded entry of another
      ordinal held by the arc's source. */
  lemma {:induction false} PairConflictsMembers(es: seq<Entry>, line: nat, a: Arc)
    ensures forall e :: e in PairConflicts(es, line, a) ==>
      e.PairConflict? && e == PairConflict(line, a.src, a.dst, e.existing, a.ord) &&
      e.existing != a.ord && Entry(e.existing, a.src) in es
    ensures forall x :: x in es && x.ord != a.ord && x.src == a.src ==>
      PairConflict(line, a.src, a.dst, x.ord, a.ord) in PairConflicts(es, line, a)
  {
    if es != [] {
      var init := es[..|es| - 1];
      assert es == init + [es[|es| - 1]];
      PairConflictsMembers(init, line, a);
    }
  }

  /** Recording one well-formed arc: its endpoints join the vertex set, the arc
      is appended whatever conflicts it raises, an already recorded ordinal is
      reported and keeps its first source, and every other ordinal the same
      source holds on this target is reported as a pair conflict. */
  function StepArc(st: ParseState, line: nat, a: Arc): ParseState {
    var es := Recorded(st.orders, a.dst);
    var taken := Lookup(es, a.ord);
    var es' := if taken.Some? then es else es + [Entry(a.ord, a.src)];
    var ordErrors := if taken.Some? then [OrdinalTaken(line, a.src, a.dst, a.ord, taken.value)] else [];
    ParseState(
      st.vertices + {a.src, a.dst},
      st.arcs + [a],
      st.errors + ordErrors + PairConflicts(es', line, a),
      st.orders[a.dst := es'])
  }

  /** A fragment after matching: empty, failing the grammar (kept as the
      bracketed text the error reports), or the triple it stands for. */
  datatype Fragment = Blank | Bad(text: string) | Good(arc: Arc)

  /** Matches one fragment against the triple grammar. */
  function Classify(frag: string): (c: Fragment)
    ensures c.Blank? <==> frag == []
    ensures c.Bad? <==> frag != [] && FragmentArc(frag).None?
    ensures c.Bad? ==> c.text == "(" + frag + ")"
    ensures c.Good? ==> FragmentArc(frag) == Some(c.arc)
  {
    if frag == [] then Blank
    else match FragmentArc(frag)
      case None => Bad("(" + frag + ")")
      case Some(a) => Good(a)
  }

  /** The fragments of a line, matched one by one. */
  function ClassifyAll(frags: seq<string>): (cs: seq<Fragment>)
    ensures |cs| == |frags| && forall i :: 0 <= i < |frags| ==> cs[i] == Classify(frags[i])
  {
    seq(|frags|, i requires 0 <= i < |frags| => Classify(frags[i]))
  }

  /** The matched fragments of each line, line by line. */
  function LineFragments(lines: seq<string>): (fl: seq<seq<Fragment>>)
    ensures |fl| == |lines| && forall i :: 0 <= i < |lines| ==> fl[i] == ClassifyAll(Fragments(lines[i]))
  {
    seq(|lines|, i requires 0 <= i < |lines| => ClassifyAll(Fragments(lines[i])))
  }

  /** What recording one arc does, stated apart from how: the endpoints join
      the vertex set, the arc is appended, the old errors stay in front; an
      ordinal already recorded for the target is reported first and keeps its
      source; no other target's table changes. */
  lemma StepArcFacts(st: ParseState, line: nat, a: Arc)
    ensures var r := StepArc(st, line, a);
      && r.vertices == st.vertices + {a.src, a.dst}
      && r.arcs == st.arcs + [a]
      && st.errors <= r.errors
      && (forall s0 :: Lookup(Recorded(st.orders, a.dst), a.ord) == Some(s0) ==>
            |r.errors| > |st.errors| && r.errors[|st.errors|] == OrdinalTaken(line, a.src, a.dst, a.ord, s0) &&
            Lookup(Recorded(r.orders, a.dst), a.ord) == Some(s0))
      && (forall t :: t != a.dst ==> Recorded(r.orders, t) == Recorded(st.orders, t))
  {
  }

  /** One fragment of a line: empty ones are skipped, ones that fail the
      grammar are reported, the rest are recorded. */
  function StepFragment(st: ParseState, line: nat, c: Fragment): ParseState {
    match c
    case Blank => st
    case Bad(text) => st.(errors := st.errors + [Malformed(line, text)])
    case Good(a) => StepArc(st, line, a)
  }

  function StepFragments(st: ParseState, line: nat, frags: seq<Fragment>): ParseState {
    if frags == [] then st
    else StepFragment(StepFragments(st, line, frags[..|frags| - 1]), line, frags[|frags| - 1])
  }

  /** The state after all lines, given as their matched fragments; the last
      line is line number `|lines|`. */
  function StepLines(lines: seq<seq<Fragment>>): ParseState {
    if lines == [] then Initial
    else StepFragments(StepLines(lines[..|lines| - 1]), |lines|, lines[|lines| - 1])
  }

  /** Reading one more line is one more `StepFragments`, numbered after the
      lines before it. */
  lemma StepLinesSnoc(lines: seq<seq<Fragment>>, i: nat)
    requires i < |lines|
    ensures StepLines(lines[..i + 1]) == StepFragments(StepLines(lines[..i]), i + 1, lines[i])
  {
    assert lines[..i + 1][..i] == lines[..i];
  }

  // ---------------------------------------------------------------------
  // Independent descriptions of the outcome

  /** Every fragment of the line is empty or matches the grammar. */
  predicate LineWellFormed(frags: seq<Fragment>) {
    forall f :: f in frags ==> !f.Bad?
  }

  lemma LineWellFormedSnoc(frags: seq<Fragment>)
    requires frags != []
    ensures LineWellFormed(frags) <==>
      LineWellFormed(frags[..|frags| - 1]) && !frags[|frags| - 1].Bad?
  {
    assert frags == frags[..|frags| - 1] + [frags[|frags| - 1]];
  }

  /** Every line is well formed. */
  predicate AllWellFormed(lines: seq<seq<Fragment>>) {
    forall i :: 0 <= i < |lines| ==> LineWellFormed(lines[i])
  }

  /** The triples of the fragments that match, in order. */
  function MatchedArcs(frags: seq<Fragment>): seq<Arc> {
    if frags == [] then []
    else
      var f := frags[|frags| - 1];
      MatchedArcs(frags[..|frags| - 1]) + (if f.Good? then [f.arc] else [])
  }

  /** The triples of all lines that match, in input order. */
  function AcceptedArcs(lines: seq<seq<Fragment>>): seq<Arc> {
    if lines == [] then []
    else AcceptedArcs(lines[..|lines| - 1]) + MatchedArcs(lines[|lines| - 1])
  }

  /** The two invariants the parser checks: no two arcs into one target share
      an ordinal, and one source/target pair never carries two ordinals. */
  predicate ArcsConsistent(arcs: seq<Arc>) {
    && (forall i, j :: 0 <= i < j < |arcs| && arcs[i].dst == arcs[j].dst ==> arcs[i].ord != arcs[j].ord)
    && (forall i, j :: 0 <= i < j < |arcs| && arcs[i].src == arcs[j].src && arcs[i].dst == arcs[j].dst ==>
          arcs[i].ord == arcs[j].ord)
  }

  /** Arc `a` may follow `arcs` without breaking either invariant. */
  predicate Fits(arcs: seq<Arc>, a: Arc) {
    forall b :: b in arcs && b.dst == a.dst ==> b.ord != a.ord && b.src != a.src
  }

  // ---------------------------------------------------------------------
  // The invariant of the parser state

  /** The vertex set holds exactly the endpoints of the recorded arcs; each
      target's table has distinct ordinals, holds only recorded arcs and has an
      entry for every recorded arc's ordinal; with no error so far every arc is
      in its target's table as it was declared. */
  ghost predicate Inv(st: ParseState) {
    && TablesInv(st.vertices, st.arcs, st.orders)
    && (st.errors == [] ==> AsDeclared(st.arcs, st.orders))
  }

  /** The part of the invariant that does not depend on the errors. */
  ghost predicate TablesInv(vertices: set<Vertex>, arcs: seq<Arc>, orders: OrderTable) {
    && vertices == Endpoints(arcs)
    && (forall t :: t in orders ==> OrdsDistinct(orders[t]))
    && (forall t, e :: t in orders && e in orders[t] ==> Arc(e.src, t, e.ord) in arcs)
    && (forall a :: a in arcs ==> Lookup(Recorded(orders, a.dst), a.ord).Some?)
  }

  /** Every arc is in its target's table as it was declared. */
  ghost predicate AsDeclared(arcs: seq<Arc>, orders: OrderTable) {
    forall a :: a in arcs ==> Entry(a.ord, a.src) in Recorded(orders, a.dst)
  }

  lemma InitialInv()
    ensures Inv(Initial)
  {
  }

  lemma AppendDistinct(es: seq<Entry>, x: Entry)
    requires OrdsDistinct(es) && Lookup(es, x.ord).None?
    ensures OrdsDistinct(es + [x])
  {
    var es' := es + [x];
    forall i, j | 0 <= i < j < |es'| ensures es'[i].ord != es'[j].ord {
      if j == |es| { assert es'[i] in es; }
      else { assert es'[i] == es[i] && es'[j] == es[j]; }
    }
  }

  lemma StepArcTables(st: ParseState, line: nat, a: Arc)
    requires Inv(st)
    ensures var r := StepArc(st, line, a);
      forall t :: t in r.orders ==> OrdsDistinct(r.orders[t])
  {
    var es := Recorded(st.orders, a.dst);
    assert a.dst in st.orders ==> OrdsDistinct(st.orders[a.dst]);
    if Lookup(es, a.ord).None? { AppendDistinct(es, Entry(a.ord, a.src)); }
  }

  lemma StepArcEntriesRecorded(st: ParseState, line: nat, a: Arc)
    requires Inv(st)
    ensures var r := StepArc(st, line, a);
      forall t, e :: t in r.orders && e in r.orders[t] ==> Arc(e.src, t, e.ord) in r.arcs
  {
    var r := StepArc(st, line, a);
    var es := Recorded(st.orders, a.dst);
    forall t, e | t in r.orders && e in r.orders[t] ensures Arc(e.src, t, e.ord) in r.arcs {
      if t != a.dst || e in es {
        assert t in st.orders && e in st.orders[t];
      }
    }
  }

  lemma StepArcOrdinalsRecorded(st: ParseState, line: nat, a: Arc)
    requires Inv(st)
    ensures var r := StepArc(st, line, a);
      forall b :: b in r.arcs ==> Lookup(Recorded(r.orders, b.dst), b.ord).Some?
  {
    var r := StepArc(st, line, a);
    var es := Recorded(st.orders, a.dst);
    var es' := Recorded(r.orders, a.dst);
    forall b | b in r.arcs ensures Lookup(Recorded(r.orders, b.dst), b.ord).Some? {
      if b != a && b.dst == a.dst {
        var s0 := Lookup(es, b.ord).value;
        assert Entry(b.ord, s0) in es';
      } else if b == a && Lookup(es, a.ord).None? {
        assert Entry(a.ord, a.src) in es';
      }
    }
  }

  lemma StepArcCleanTables(st: ParseState, line: nat, a: Arc)
    requires Inv(st)
    ensures var r := StepArc(st, line, a);
      r.errors == [] ==> forall b :: b in r.arcs ==> Entry(b.ord, b.src) in Recorded(r.orders, b.dst)
  {
    var r := StepArc(st, line, a);
    var es := Recorded(st.orders, a.dst);
    if r.errors == [] {
      StepArcFacts(st, line, a);
      assert st.errors == [] && Lookup(es, a.ord).None?;
      forall b | b in r.arcs ensures Entry(b.ord, b.src) in Recorded(r.orders, b.dst) {
        if b != a && b.dst == a.dst {
          assert Entry(b.ord, b.src) in es;
        }
      }
    }
  }

  lemma StepArcInv(st: ParseState, line: nat, a: Arc)
    requires Inv(st)
    ensures Inv(StepArc(st, line, a))
  {
    EndpointsSnoc(st.arcs, a);
    StepArcTables(st, line, a);
    StepArcEntriesRecorded(st, line, a);
    StepArcOrdinalsRecorded(st, line, a);
    StepArcCleanTables(st, line, a);
  }

  /** With no error so far, recording `a` raises no error exactly when `a`
      fits the arcs recorded before it. */
  lemma StepArcClean(st: ParseState, line: nat, a: Arc)
    requires Inv(st) && st.errors == []
    ensures StepArc(st, line, a).errors == [] <==> Fits(st.arcs, a)
  {
    StepArcCleanFits(st, line, a);
    StepArcFitsClean(st, line, a);
  }

  lemma StepArcCleanFits(st: ParseState, line: nat, a: Arc)
    requires Inv(st) && st.errors == []
    ensures StepArc(st, line, a).errors == [] ==> Fits(st.arcs, a)
  {
    var es := Recorded(st.orders, a.dst);
    var taken := Lookup(es, a.ord);
    var es' := if taken.Some? then es else es + [Entry(a.ord, a.src)];
    if StepArc(st, line, a).errors == [] {
      PairConflictsMembers(es', line, a);
      assert taken.None?;
      assert PairConflicts(es', line, a) == [];
      forall b | b in st.arcs && b.dst == a.dst ensures b.ord != a.ord && b.src != a.src {
        assert Entry(b.ord, b.src) in es;
        assert Entry(b.ord, b.src) in es';
      }
    }
  }

  lemma StepArcFitsClean(st: ParseState, line: nat, a: Arc)
    requires Inv(st) && st.errors == []
    ensures Fits(st.arcs, a) ==> StepArc(st, line, a).errors == []
  {
    var es := Recorded(st.orders, a.dst);
    var taken := Lookup(es, a.ord);
    var es' := if taken.Some? then es else es + [Entry(a.ord, a.src)];
    if taken.Some? {
      assert Arc(taken.value, a.dst, a.ord) in st.arcs;
    } else if PairConflicts(es', line, a) != [] {
      PairConflictsMembers(es', line, a);
      var e := PairConflicts(es', line, a)[0];
      assert e in PairConflicts(es', line, a);
      assert Entry(e.existing, a.src) in es;
      assert Arc(a.src, a.dst, e.existing) in st.arcs;
    }
  }

  // ---------------------------------------------------------------------
  // What the steps guarantee, fragment by fragment and line by line

  lemma ConsistentSnoc(arcs: seq<Arc>, a: Arc)
    ensures ArcsConsistent(arcs + [a]) <==> ArcsConsistent(arcs) && Fits(arcs, a)
  {
    var xs := arcs + [a];
    if ArcsConsistent(xs) {
      forall b | b in arcs && b.dst == a.dst ensures b.ord != a.ord && b.src != a.src {
        var i :| 0 <= i < |arcs| && arcs[i] == b;
        assert xs[i] == b && xs[|arcs|] == a;
      }
      assert forall i :: 0 <= i < |arcs| ==> xs[i] == arcs[i];
    }
    if ArcsConsistent(arcs) && Fits(arcs, a) {
      forall i, j | 0 <= i < j < |xs| && xs[i].dst == xs[j].dst
        ensures xs[i].ord != xs[j].ord && xs[i].src != xs[j].src
      {
        if j < |arcs| {
          assert xs[i] == arcs[i] && xs[j] == arcs[j];
        } else {
          assert xs[i] in arcs;
        }
      }
    }
  }

  lemma ConsistentPrefix(arcs: seq<Arc>, more: seq<Arc>)
    requires ArcsConsistent(arcs + more)
    ensures ArcsConsistent(arcs)
  {
    var xs := arcs + more;
    assert forall i :: 0 <= i < |arcs| ==> xs[i] == arcs[i];
  }

  /** One fragment appends exactly its matched triple, only adds errors, and
      reports a malformed fragment in brackets with its line. */
  lemma StepFragmentArcs(st: ParseState, line: nat, f: Fragment)
    ensures var r := StepFragment(st, line, f);
      && r.arcs == st.arcs + (if f.Good? then [f.arc] else [])
      && st.errors <= r.errors
      && (f.Bad? ==> r.errors == st.errors + [Malformed(line, f.text)])
  {
    if f.Good? {
      StepArcFacts(st, line, f.arc);
    }
  }

  lemma StepFragmentInv(st: ParseState, line: nat, f: Fragment)
    requires Inv(st)
    ensures Inv(StepFragment(st, line, f))
  {
    if f.Good? {
      StepArcInv(st, line, f.arc);
    }
  }

  /** Starting clean, one fragment keeps the parser clean exactly when it is
      well formed and the arcs stay consistent. */
  lemma StepFragmentClean(st: ParseState, line: nat, f: Fragment)
    requires Inv(st) && st.errors == [] && ArcsConsistent(st.arcs)
    ensures var r := StepFragment(st, line, f);
      r.errors == [] <==> !f.Bad? && ArcsConsistent(r.arcs)
  {
    if f.Good? {
      ConsistentSnoc(st.arcs, f.arc);
      StepArcClean(st, line, f.arc);
    }
  }

  /** The fragments of a line append exactly their matched triples and only
      add errors. */
  lemma {:induction false} StepFragmentsArcs(st: ParseState, line: nat, frags: seq<Fragment>)
    ensures var r := StepFragments(st, line, frags);
      r.arcs == st.arcs + MatchedArcs(frags) && st.errors <= r.errors
  {
    if frags != [] {
      var init := frags[..|frags| - 1];
      var mid := StepFragments(st, line, init);
      StepFragmentsArcs(st, line, init);
      StepFragmentArcs(mid, line, frags[|frags| - 1]);
    }
  }

  lemma {:induction false} StepFragmentsInv(st: ParseState, line: nat, frags: seq<Fragment>)
    requires Inv(st)
    ensures Inv(StepFragments(st, line, frags))
  {
    if frags != [] {
      var init := frags[..|frags| - 1];
      StepFragmentsInv(st, line, init);
      StepFragmentInv(StepFragments(st, line, init), line, frags[|frags| - 1]);
    }
  }

  /** Every fragment of the line that fails the grammar is reported. */
  lemma {:induction false} StepFragmentsMalformed(st: ParseState, line: nat, frags: seq<Fragment>)
    ensures var r := StepFragments(st, line, frags);
      forall f :: f in frags && f.Bad? ==> Malformed(line, f.text) in r.errors
  {
    if frags != [] {
      var init := frags[..|frags| - 1];
      var f := frags[|frags| - 1];
      assert frags == init + [f];
      var mid := StepFragments(st, line, init);
      StepFragmentsMalformed(st, line, init);
      StepFragmentArcs(mid, line, f);
      var r := StepFragment(mid, line, f);
      forall g | g in frags && g.Bad? ensures Malformed(line, g.text) in r.errors {
        if g in init {
          PrefixMember(mid.errors, r.errors, Malformed(line, g.text));
        }
      }
    }
  }

  /** Starting clean, the line keeps the parser clean exactly when every
      fragment is well formed and the arcs stay consistent. */
  lemma {:induction false} StepFragmentsClean(st: ParseState, line: nat, frags: seq<Fragment>)
    requires Inv(st) && st.errors == [] && ArcsConsistent(st.arcs)
    ensures var r := StepFragments(st, line, frags);
      r.errors == [] <==> LineWellFormed(frags) && ArcsConsistent(r.arcs)
  {
    if frags != [] {
      var init := frags[..|frags| - 1];
      var f := frags[|frags| - 1];
      var mid := StepFragments(st, line, init);
      var r := StepFragment(mid, line, f);
      LineWellFormedSnoc(frags);
      assert mid.errors <= r.errors && mid.arcs <= r.arcs by {
        StepFragmentArcs(mid, line, f);
      }
      StepFragmentsClean(st, line, init);
      if mid.errors == [] {
        assert Inv(mid) by { StepFragmentsInv(st, line, init); }
        StepFragmentClean(mid, line, f);
      } else if ArcsConsistent(r.arcs) {
        assert ArcsConsistent(mid.arcs) by {
          ConsistentPrefix(mid.arcs, r.arcs[|mid.arcs|..]);
        }
      }
    }
  }

  /** The whole input: the invariant holds, so the vertex set is exactly the
      endpoints of the arcs, and the arcs are exactly the matching triples of
      all lines in input order, conflicting ones included. */
  lemma {:induction false} StepLinesBasic(lines: seq<seq<Fragment>>)
    ensures var r := StepLines(lines);
      Inv(r) && r.vertices == Endpoints(r.arcs) && r.arcs == AcceptedArcs(lines)
  {
    if lines != [] {
      var init := lines[..|lines| - 1];
      StepLinesBasic(init);
      StepFragmentsInv(StepLines(init), |lines|, lines[|lines| - 1]);
      StepFragmentsArcs(StepLines(init), |lines|, lines[|lines| - 1]);
    }
  }

  /** Parsing never stops early: reading more lines only appends to the errors
      and to the arcs. */
  lemma {:induction false} StepLinesPrefix(lines: seq<seq<Fragment>>, j: nat)
    requires j <= |lines|
    ensures StepLines(lines[..j]).errors <= StepLines(lines).errors
    ensures StepLines(lines[..j]).arcs <= StepLines(lines).arcs
    decreases |lines|
  {
    if j < |lines| {
      var init := lines[..|lines| - 1];
      assert init[..j] == lines[..j];
      StepLinesPrefix(init, j);
      StepFragmentsArcs(StepLines(init), |lines|, lines[|lines| - 1]);
    } else {
      assert lines[..j] == lines;
    }
  }

  /** A fragment of line `i + 1` that fails the grammar is reported with that
      line number. */
  lemma StepLinesMalformed(lines: seq<seq<Fragment>>, i: nat, f: Fragment)
    requires i < |lines| && f in lines[i] && f.Bad?
    ensures Malformed(i + 1, f.text) in StepLines(lines).errors
  {
    var err := Malformed(i + 1, f.text);
    var upto := lines[..i + 1];
    var mid := StepLines(lines[..i]);
    assert StepLines(upto) == StepFragments(mid, i + 1, lines[i]) by {
      assert upto[..i] == lines[..i] && upto[i] == lines[i];
    }
    assert err in StepLines(upto).errors by {
      StepFragmentsMalformed(mid, i + 1, lines[i]);
    }
    StepLinesPrefix(lines, i + 1);
    PrefixMember(StepLines(upto).errors, StepLines(lines).errors, err);
  }

  lemma PrefixMember<T>(xs: seq<T>, ys: seq<T>, x: T)
    requires xs <= ys && x in xs
    ensures x in ys
  {
    var k :| 0 <= k < |xs| && xs[k] == x;
    assert ys[k] == x;
  }

  lemma WellFormedSnoc(lines: seq<seq<Fragment>>)
    requires lines != []
    ensures AllWellFormed(lines) <==>
      AllWellFormed(lines[..|lines| - 1]) && LineWellFormed(lines[|lines| - 1])
  {
    var init := lines[..|lines| - 1];
    assert forall i :: 0 <= i < |init| ==> init[i] == lines[i];
  }

  /** The parser reports no error exactly when every fragment is well formed
      and the arcs keep both ordinal invariants. */
  lemma {:induction false} ErrorFreeIffConsistent(lines: seq<seq<Fragment>>)
    ensures var r := StepLines(lines);
      r.errors == [] <==> AllWellFormed(lines) && ArcsConsistent(r.arcs)
  {
    if lines != [] {
      var init := lines[..|lines| - 1];
      var last := lines[|lines| - 1];
      var mid := StepLines(init);
      var r := StepLines(lines);
      assert r == StepFragments(mid, |lines|, last);
      ErrorFreeIffConsistent(init);
      StepFragmentsArcs(mid, |lines|, last);
      WellFormedSnoc(lines);
      var more := r.arcs[|mid.arcs|..];
      assert mid.arcs + more == r.arcs;
      if mid.errors == [] {
        StepLinesBasic(init);
        StepFragmentsClean(mid, |lines|, last);
      } else {
        assert r.errors != [];
        if ArcsConsistent(r.arcs) {
          ConsistentPrefix(mid.arcs, more);
        }
      }
    }
  }
}
