/** Reading the arc text (Practice/nntask1.py, read_txt): a parser object
    whose vertex set, arc list, error list and per-target ordinal tables are
    updated in place, line by line and fragment by fragment. Each method is
    proved to perform one step of ArcParserSpec. */
module ArcParser {
  import opened Wrappers
  import opened Graph
  import opened ArcGrammar
  import opened ArcParserSpec

  class Parser {
    var vertices: set<Vertex>
    var arcs: seq<Arc>
    var errors: seq<ParseError>
    var orders: OrderTable

    function State(): ParseState
      reads this
    {
      ParseState(vertices, arcs, errors, orders)
    }

    constructor ()
      ensures State() == Initial
    {
      vertices, arcs, errors, orders := {}, [], [], map[];
    }

    /** Records one triple that matched the grammar. */
    method RecordArc(line: nat, a: Arc)
      modifies this
      ensures State() == StepArc(old(State()), line, a)
      ensures arcs == old(arcs) + [a] && vertices == old(vertices) + {a.src, a.dst}
    {
      ghost var st := State();
      vertices := vertices + {a.src, a.dst};
      arcs := arcs + [a];
      var table := Recorded(orders, a.dst);
      var taken := Lookup(table, a.ord);
      ghost var ordErrors := if taken.Some? then [OrdinalTaken(line, a.src, a.dst, a.ord, taken.value)] else [];
      if taken.Some? {
        errors := errors + [OrdinalTaken(line, a.src, a.dst, a.ord, taken.value)];
      } else {
        table := table + [Entry(a.ord, a.src)];
      }
      orders := orders[a.dst := table];
      ghost var before := errors;
      var k := 0;
      while k < |table|
        invariant 0 <= k <= |table|
        invariant errors == before + PairConflicts(table[..k], line, a)
        invariant vertices == st.vertices + {a.src, a.dst} && arcs == st.arcs + [a]
        invariant orders == st.orders[a.dst := table]
      {
        var e := table[k];
        PairConflictsSnoc(table, k, line, a);
        if e.ord != a.ord && e.src == a.src {
          errors := errors + [PairConflict(line, a.src, a.dst, e.ord, a.ord)];
        }
        k := k + 1;
      }
      assert table[..k] == table;
      assert errors == st.errors + ordErrors + PairConflicts(table, line, a);
    }

    /** Processes one fragment of line `line`: an empty one is skipped, one that
        fails the grammar adds one error and nothing else. */
    method ProcessFragment(line: nat, frag: string)
      modifies this
      ensures State() == StepFragment(old(State()), line, Classify(frag))
      ensures frag == [] ==> State() == old(State())
      ensures frag != [] && FragmentArc(frag).None? ==>
        errors == old(errors) + [Malformed(line, "(" + frag + ")")] &&
        arcs == old(arcs) && vertices == old(vertices) && orders == old(orders)
    {
      if frag == [] {
        return;
      }
      var matched := FragmentArc(frag);
      if matched.Some? {
        RecordArc(line, matched.value);
      } else {
        errors := errors + [Malformed(line, "(" + frag + ")")];
      }
    }

    /** Processes every fragment of one line, in order. */
    method ProcessLine(line: nat, text: string)
      modifies this
      ensures State() == StepFragments(old(State()), line, ClassifyAll(Fragments(text)))
    {
      var frags := Fragments(text);
      ghost var cs := ClassifyAll(frags);
      var i := 0;
      while i < |frags|
        invariant 0 <= i <= |frags|
        invariant State() == StepFragments(old(State()), line, cs[..i])
      {
        assert cs[..i + 1][..i] == cs[..i];
        ProcessFragment(line, frags[i]);
        i := i + 1;
      }
      assert cs[..i] == cs;
    }
  }

  /** `read_txt` on the lines of a file: every line is processed, numbered from
      1. The arcs are the matching triples in input order, the vertex set is
      their endpoints, and no error is reported exactly when every fragment is
      well formed and the arcs keep both ordinal invariants. */
  method ReadArcs(lines: seq<string>) returns (vertices: set<Vertex>, arcs: seq<Arc>, errors: seq<ParseError>)
    ensures ParseState(vertices, arcs, errors, StepLines(LineFragments(lines)).orders) == StepLines(LineFragments(lines))
    ensures vertices == Endpoints(arcs)
    ensures arcs == AcceptedArcs(LineFragments(lines))
    ensures errors == [] <==> AllWellFormed(LineFragments(lines)) && ArcsConsistent(arcs)
  {
    var parser := new Parser();
    ghost var fl := LineFragments(lines);
    var i := 0;
    while i < |lines|
      invariant 0 <= i <= |lines|
      invariant parser.State() == StepLines(fl[..i])
    {
      StepLinesSnoc(fl, i);
      i := i + 1;
      parser.ProcessLine(i, lines[i - 1]);
    }
    assert fl[..i] == fl;
    vertices, arcs, errors := parser.vertices, parser.arcs, parser.errors;
    StepLinesBasic(fl);
    ErrorFreeIffConsistent(fl);
  }
}
