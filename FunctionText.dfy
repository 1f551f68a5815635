/** The textual form of the function a graph computes (Practice/nntask2.py,
    bldr and to_fun): every root is printed as `name(arg, arg, ...)`, its
    arguments being its children in ordinal order, printed the same way. The
    text is proved to read back as the expression tree of the root. */
module FunctionText {
  import opened Wrappers
  import opened Text
  import opened Graph
  import opened Sorting
  import opened GraphLoader
  import opened CycleDetector
  import opened Reach

  /** The child list of `v`, empty when `v` is not a key (`edges.get(v, [])`). */
  function Entries(g: Adjacency, v: Vertex): seq<Entry> {
    if v in g then g[v] else []
  }

  function OrdKey(e: Entry): int {
    e.ord
  }

  /** `sorted(entries, key=lambda x: x[0])`: by ordinal, ties kept in list order. */
  function ByOrd(es: seq<Entry>): seq<Entry> {
    SortBy(es, OrdKey)
  }

  /** Every entry of `cs` is an arc into `v`, so its source is a child. */
  predicate EdgesFrom(g: Adjacency, v: Vertex, cs: seq<Entry>) {
    forall i :: 0 <= i < |cs| ==> Edge(g, v, cs[i].src)
  }

  lemma EdgesFromTail(g: Adjacency, v: Vertex, cs: seq<Entry>)
    requires EdgesFrom(g, v, cs) && cs != []
    ensures Edge(g, v, cs[0].src) && EdgesFrom(g, v, cs[1..])
  {
    forall i | 0 <= i < |cs| - 1 ensures Edge(g, v, cs[1..][i].src) {
      assert cs[1..][i] == cs[i + 1];
    }
  }

  /** Every entry of the sorted child list of `v` is an edge out of `v`. */
  lemma ByOrdEdges(g: Adjacency, v: Vertex)
    ensures EdgesFrom(g, v, ByOrd(Entries(g, v)))
  {
    var es := Entries(g, v);
    var sorted := ByOrd(es);
    SortBySorted(es, OrdKey);
    forall k | 0 <= k < |sorted| ensures Edge(g, v, sorted[k].src) {
      assert sorted[k] in multiset(sorted);
      var i :| 0 <= i < |es| && es[i] == sorted[k];
      assert Children(g, v)[i] == sorted[k].src;
    }
  }

  /** Conversely, every child of `v` is the source of some entry of its
      sorted child list. */
  lemma ChildInByOrd(g: Adjacency, v: Vertex, c: Vertex) returns (k: nat)
    requires Edge(g, v, c)
    ensures k < |ByOrd(Entries(g, v))| && ByOrd(Entries(g, v))[k].src == c
  {
    var es := Entries(g, v);
    var sorted := ByOrd(es);
    SortBySorted(es, OrdKey);
    var i :| 0 <= i < |Children(g, v)| && Children(g, v)[i] == c;
    assert es[i] in multiset(sorted);
    k :| 0 <= k < |sorted| && sorted[k] == es[i];
  }

  /** A child list as loaded (sorted by ordinal, then by source) is already
      in ordinal order, so sorting it again changes nothing. */
  lemma LoadedListInOrder(es: seq<Entry>)
    requires SortedEntries(es)
    ensures ByOrd(es) == es
  {
    assert SortedBy(es, OrdKey) by {
      forall i, j | 0 <= i < j < |es| ensures OrdKey(es[i]) <= OrdKey(es[j]) {
        assert EntryLe(es[i], es[j]);
      }
    }
    SortByIdentity(es, OrdKey);
  }

  // ---------------------------------------------------------------------
  // Expression trees and their printed form

  /** A vertex applied to the trees of its arguments. */
  datatype Term = Term(name: Vertex, args: seq<Term>)

  /** `name(arg, arg, ...)`, the arguments joined by `, `. */
  function Show(t: Term): string
    decreases t
  {
    t.name + "(" + Join(ShowAll(t.args), ", ") + ")"
  }

  function ShowAll(ts: seq<Term>): (ss: seq<string>)
    ensures |ss| == |ts|
    decreases ts
  {
    if ts == [] then [] else [Show(ts[0])] + ShowAll(ts[1..])
  }

  /** Every name in the tree is a non-empty word. */
  predicate WellNamed(t: Term)
    decreases t
  {
    IsWord(t.name) && forall i :: 0 <= i < |t.args| ==> WellNamed(t.args[i])
  }

  /** Reads one term at the start of `s` and gives what follows it. */
  function ParseTerm(s: string): (r: Option<(Term, string)>)
    ensures r.Some? ==> |r.value.1| < |s|
    decreases |s|, 0
  {
    var name := TakeWhile(s, IsWordChar);
    var rest := s[|name|..];
    if name == [] || rest == [] || rest[0] != '(' then None
    else if |rest| > 1 && rest[1] == ')' then Some((Term(name, []), rest[2..]))
    else
      match ParseArgs(rest[1..])
      case None => None
      case Some((args, more)) =>
        if more != [] && more[0] == ')' then Some((Term(name, args), more[1..])) else None
  }

  /** Reads terms separated by `, `, at least one. */
  function ParseArgs(s: string): (r: Option<(seq<Term>, string)>)
    ensures r.Some? ==> |r.value.1| < |s|
    decreases |s|, 1
  {
    match ParseTerm(s)
    case None => None
    case Some((t, rest)) =>
      if |rest| >= 2 && rest[..2] == ", " then
        match ParseArgs(rest[2..])
        case None => None
        case Some((ts, more)) => Some(([t] + ts, more))
      else Some(([t], rest))
  }

  lemma ShowStart(t: Term)
    requires WellNamed(t)
    ensures |Show(t)| > 0 && IsWordChar(Show(t)[0])
  {
    assert Show(t)[0] == t.name[0];
  }

  /** `ParseTerm` on a word followed by an opening bracket. */
  lemma ParseTermAfterName(name: string, after: string)
    requires IsWord(name) && after != [] && after[0] == '('
    ensures TakeWhile(name + after, IsWordChar) == name && (name + after)[|name|..] == after
  {
    TakeWhileOf(name, after, IsWordChar);
    assert (name + after)[|name|..] == after;
  }

  lemma ParseTermWithArgs(name: string, after: string, args: seq<Term>, more: string)
    requires IsWord(name) && |after| > 1 && after[0] == '(' && after[1] != ')'
    requires ParseArgs(after[1..]) == Some((args, more)) && more != [] && more[0] == ')'
    ensures ParseTerm(name + after) == Some((Term(name, args), more[1..]))
  {
    ParseTermAfterName(name, after);
  }

  lemma ParseArgsLast(x: string, t: Term, y: string)
    requires ParseTerm(x) == Some((t, y)) && y != [] && y[0] == ')'
    ensures ParseArgs(x) == Some(([t], y))
  {
  }

  lemma ParseArgsMore(x: string, t: Term, y: string, ts: seq<Term>, rest: string)
    requires ParseTerm(x) == Some((t, y)) && |y| >= 2 && y[..2] == ", "
    requires ParseArgs(y[2..]) == Some((ts, rest))
    ensures ParseArgs(x) == Some(([t] + ts, rest))
  {
  }

  /** The printed tree followed by `rest`, cut after the name. */
  lemma ShowParts(t: Term, rest: string)
    ensures Show(t) + rest == t.name + ("(" + Join(ShowAll(t.args), ", ") + ")" + rest)
    ensures ("(" + Join(ShowAll(t.args), ", ") + ")" + rest)[1..] == Join(ShowAll(t.args), ", ") + (")" + rest)
  {
  }

  /** The printed list of two or more trees, cut after the first. */
  lemma ShowAllCons(ts: seq<Term>, rest: string)
    requires |ts| >= 2
    ensures Join(ShowAll(ts), ", ") + rest == Show(ts[0]) + (", " + Join(ShowAll(ts[1..]), ", ") + rest)
    ensures (", " + Join(ShowAll(ts[1..]), ", ") + rest)[..2] == ", "
    ensures (", " + Join(ShowAll(ts[1..]), ", ") + rest)[2..] == Join(ShowAll(ts[1..]), ", ") + rest
  {
    var parts := ShowAll(ts);
    var tail := Join(ShowAll(ts[1..]), ", ");
    assert Join(parts, ", ") == Show(ts[0]) + ", " + tail by {
      JoinCons(parts, ", ");
      assert parts[1..] == ShowAll(ts[1..]);
    }
    Regroup(Show(ts[0]), ", ", tail, rest);
  }

  lemma Regroup(a: string, b: string, c: string, d: string)
    ensures a + b + c + d == a + (b + c + d)
    ensures (b + c + d)[..|b|] == b && (b + c + d)[|b|..] == c + d
  {
  }

  /** A printed non-empty list starts with a word character, not `)`. */
  lemma ShowAllStart(ts: seq<Term>)
    requires ts != [] && WellNamed(ts[0])
    ensures |Join(ShowAll(ts), ", ")| > 0 && Join(ShowAll(ts), ", ")[0] != ')'
  {
    var j := Join(ShowAll(ts), ", ");
    ShowStart(ts[0]);
    JoinHead(ShowAll(ts), ", ");
    assert j[0] == j[..|Show(ts[0])|][0];
  }

  /** The printed form of a tree reads back as that tree, whatever follows it. */
  lemma {:induction false} ParseShow(t: Term, rest: string)
    requires WellNamed(t)
    ensures ParseTerm(Show(t) + rest) == Some((t, rest))
    decreases t, 1
  {
    var after := "(" + Join(ShowAll(t.args), ", ") + ")" + rest;
    ShowParts(t, rest);
    if t.args == [] {
      assert after == "()" + rest;
      ParseTermAfterName(t.name, after);
    } else {
      ShowAllStart(t.args);
      ParseShowAll(t.args, ")" + rest);
      ParseTermWithArgs(t.name, after, t.args, ")" + rest);
      assert (")" + rest)[1..] == rest;
    }
  }

  lemma {:induction false} ParseShowAll(ts: seq<Term>, rest: string)
    requires ts != [] && forall i :: 0 <= i < |ts| ==> WellNamed(ts[i])
    requires rest != [] && rest[0] == ')'
    ensures ParseArgs(Join(ShowAll(ts), ", ") + rest) == Some((ts, rest))
    decreases ts, 0
  {
    if |ts| == 1 {
      assert Join(ShowAll(ts), ", ") == Show(ts[0]);
      ParseShow(ts[0], rest);
      ParseArgsLast(Show(ts[0]) + rest, ts[0], rest);
      assert [ts[0]] == ts;
    } else {
      var more := ", " + Join(ShowAll(ts[1..]), ", ") + rest;
      ShowAllCons(ts, rest);
      ParseShow(ts[0], more);
      ParseShowAll(ts[1..], rest);
      ParseArgsMore(Show(ts[0]) + more, ts[0], more, ts[1..], rest);
      assert [ts[0]] + ts[1..] == ts;
    }
  }

  // ---------------------------------------------------------------------
  // The tree of a vertex and `bldr`

  /** The expression tree of `v`: `v` applied to the trees of its children
      in ordinal order. Finite because the graph has no cycle. */
  function Unfold(g: Adjacency, v: Vertex): (t: Term)
    requires !HasCycle(g)
    ensures t.name == v && |t.args| == |Entries(g, v)|
    decreases |ReachSet(g, v)|, 1
  {
    ByOrdEdges(g, v);
    Term(v, UnfoldAll(g, v, ByOrd(Entries(g, v))))
  }

  function UnfoldAll(g: Adjacency, v: Vertex, cs: seq<Entry>): (ts: seq<Term>)
    requires !HasCycle(g) && EdgesFrom(g, v, cs)
    ensures |ts| == |cs|
    decreases |ReachSet(g, v)|, 0, |cs|
  {
    if cs == [] then []
    else
      EdgesFromTail(g, v, cs);
      ReachShrinks(g, v, cs[0].src);
      [Unfold(g, cs[0].src)] + UnfoldAll(g, v, cs[1..])
  }

  lemma {:induction false} UnfoldAllAt(g: Adjacency, v: Vertex, cs: seq<Entry>, i: nat)
    requires !HasCycle(g) && EdgesFrom(g, v, cs)
    requires i < |cs|
    ensures UnfoldAll(g, v, cs)[i] == Unfold(g, cs[i].src)
  {
    if i > 0 {
      EdgesFromTail(g, v, cs);
      UnfoldAllAt(g, v, cs[1..], i - 1);
    }
  }

  /** `bldr(v, edges)`: `v()` for a vertex without children, otherwise `v`
      followed by the texts of its children in ordinal order, joined by `, `,
      in brackets. The `path` argument of the original is never read and is
      not modelled. */
  function Repr(g: Adjacency, v: Vertex): string
    requires !HasCycle(g)
    decreases |ReachSet(g, v)|, 1
  {
    if v !in g || g[v] == [] then v + "()"
    else
      ByOrdEdges(g, v);
      v + "(" + Join(ReprAll(g, v, ByOrd(g[v])), ", ") + ")"
  }

  /** `[bldr(child[1], edges) for child in children]`. */
  function ReprAll(g: Adjacency, v: Vertex, cs: seq<Entry>): (ss: seq<string>)
    requires !HasCycle(g) && EdgesFrom(g, v, cs)
    ensures |ss| == |cs|
    decreases |ReachSet(g, v)|, 0, |cs|
  {
    if cs == [] then []
    else
      EdgesFromTail(g, v, cs);
      ReachShrinks(g, v, cs[0].src);
      [Repr(g, cs[0].src)] + ReprAll(g, v, cs[1..])
  }

  /** The text `bldr` builds is the printed form of the expression tree. */
  lemma {:induction false} ReprShowsTree(g: Adjacency, v: Vertex)
    requires !HasCycle(g)
    ensures Repr(g, v) == Show(Unfold(g, v))
    decreases |ReachSet(g, v)|, 1
  {
    ByOrdEdges(g, v);
    var cs := ByOrd(Entries(g, v));
    ReprAllShowsTrees(g, v, cs);
    if v !in g || g[v] == [] {
      assert cs == [];
    }
  }

  lemma {:induction false} ReprAllShowsTrees(g: Adjacency, v: Vertex, cs: seq<Entry>)
    requires !HasCycle(g) && EdgesFrom(g, v, cs)
    ensures ReprAll(g, v, cs) == ShowAll(UnfoldAll(g, v, cs))
    decreases |ReachSet(g, v)|, 0, |cs|
  {
    if cs != [] {
      EdgesFromTail(g, v, cs);
      ReachShrinks(g, v, cs[0].src);
      ReprShowsTree(g, cs[0].src);
      ReprAllShowsTrees(g, v, cs[1..]);
      assert UnfoldAll(g, v, cs)[1..] == UnfoldAll(g, v, cs[1..]);
    }
  }

  /** Every vertex of the graph is named by a word, as the arc parser
      guarantees. */
  predicate WordNamed(g: Adjacency) {
    forall u :: u in Nodes(g) ==> IsWord(u)
  }

  lemma {:induction false} UnfoldWellNamed(g: Adjacency, v: Vertex)
    requires !HasCycle(g) && WordNamed(g) && IsWord(v)
    ensures WellNamed(Unfold(g, v))
    decreases |ReachSet(g, v)|
  {
    ByOrdEdges(g, v);
    var cs := ByOrd(Entries(g, v));
    var t := Unfold(g, v);
    forall i | 0 <= i < |t.args| ensures WellNamed(t.args[i]) {
      UnfoldAllAt(g, v, cs, i);
      EdgeInNodes(g, v, cs[i].src);
      ReachShrinks(g, v, cs[i].src);
      UnfoldWellNamed(g, cs[i].src);
    }
  }

  /** What `bldr` prints reads back as exactly the expression tree of the
      vertex: its name, then the trees of its children in ordinal order. */
  lemma ReprParses(g: Adjacency, v: Vertex)
    requires !HasCycle(g) && WordNamed(g) && IsWord(v)
    ensures ParseTerm(Repr(g, v)) == Some((Unfold(g, v), []))
  {
    ReprShowsTree(g, v);
    UnfoldWellNamed(g, v);
    ParseShow(Unfold(g, v), []);
    assert Show(Unfold(g, v)) + [] == Show(Unfold(g, v));
  }

  // ---------------------------------------------------------------------
  // `to_fun`

  /** `[v for v in vertices if out_edgs[v] == 0]`, with the vertex set
      enumerated in `order`: the vertices no arc leaves. */
  function Roots(order: seq<Vertex>, outDeg: map<Vertex, nat>): (rs: seq<Vertex>)
    ensures forall v :: v in rs <==> v in order && Degree(outDeg, v) == 0
  {
    if order == [] then []
    else
      var v := order[|order| - 1];
      assert order == order[..|order| - 1] + [v];
      Roots(order[..|order| - 1], outDeg) + (if Degree(outDeg, v) == 0 then [v] else [])
  }

  /** No vertex of the list is a root exactly when every vertex in it has an
      outgoing arc. */
  lemma RootsEmpty(order: seq<Vertex>, outDeg: map<Vertex, nat>)
    ensures Roots(order, outDeg) == [] <==> forall v :: v in Elems(order) ==> Degree(outDeg, v) != 0
  {
    var rs := Roots(order, outDeg);
    if rs != [] {
      assert rs[0] in rs;
    }
  }

  /** The sort key of `to_fun`, negated so that larger reach sorts first. */
  ghost function ReachKey(g: Adjacency): Vertex -> int {
    v => -|ReachSet(g, v)|
  }

  /** `sorted(roots, key=lambda v: count_reachable(v, edges), reverse=True)`. */
  ghost function Ranked(g: Adjacency, roots: seq<Vertex>): seq<Vertex> {
    SortBy(roots, ReachKey(g))
  }

  /** Sorting by the counted sizes is sorting by reach. */
  lemma CountedKey(g: Adjacency, roots: seq<Vertex>, counts: map<Vertex, int>)
    requires forall v :: v in counts ==> counts[v] == |ReachSet(g, v)|
    requires forall j :: 0 <= j < |roots| ==> roots[j] in counts
    ensures SortBy(roots, v => if v in counts then -counts[v] else 0) == Ranked(g, roots)
  {
    var key := v => if v in counts then -counts[v] else 0;
    forall j | 0 <= j < |roots| ensures key(roots[j]) == ReachKey(g)(roots[j]) {
      assert roots[j] in counts;
    }
    SortByAgree(roots, key, ReachKey(g));
  }

  /** The ranked roots are the roots, each once, by non-increasing number of
      reachable vertices; roots that reach equally many keep their order. */
  lemma RankedOrder(g: Adjacency, roots: seq<Vertex>)
    ensures multiset(Ranked(g, roots)) == multiset(roots)
    ensures forall i, j :: 0 <= i < j < |Ranked(g, roots)| ==>
      |ReachSet(g, Ranked(g, roots)[i])| >= |ReachSet(g, Ranked(g, roots)[j])|
    ensures forall n :: WithKey(Ranked(g, roots), ReachKey(g), n) == WithKey(roots, ReachKey(g), n)
  {
    SortBySorted(roots, ReachKey(g));
    forall n ensures WithKey(Ranked(g, roots), ReachKey(g), n) == WithKey(roots, ReachKey(g), n) {
      SortByStable(roots, ReachKey(g), n);
    }
  }

  /** The texts of the roots, in the order given. */
  function Texts(g: Adjacency, roots: seq<Vertex>): (ts: seq<string>)
    requires !HasCycle(g)
    ensures |ts| == |roots|
  {
    if roots == [] then []
    else Texts(g, roots[..|roots| - 1]) + [Repr(g, roots[|roots| - 1])]
  }

  /** The sort key of `to_fun` for every root: `count_reachable(v, edges)`. */
  method CountAll(g: Adjacency, roots: seq<Vertex>) returns (counts: map<Vertex, int>)
    ensures forall v :: v in counts ==> counts[v] == |ReachSet(g, v)|
    ensures forall j :: 0 <= j < |roots| ==> roots[j] in counts
  {
    counts := map[];
    var i := 0;
    while i < |roots|
      invariant 0 <= i <= |roots|
      invariant forall v :: v in counts ==> counts[v] == |ReachSet(g, v)|
      invariant forall j :: 0 <= j < i ==> roots[j] in counts
    {
      var c := CountReachable(g, roots[i]);
      counts := counts[roots[i] := c];
      i := i + 1;
    }
  }

  /** The loop of `to_fun` that prints every root in turn. */
  method PrintAll(g: Adjacency, roots: seq<Vertex>) returns (texts: seq<string>)
    requires !HasCycle(g)
    ensures texts == Texts(g, roots)
  {
    texts := [];
    var k := 0;
    while k < |roots|
      invariant 0 <= k <= |roots|
      invariant texts == Texts(g, roots[..k])
    {
      assert roots[..k + 1][..k] == roots[..k];
      texts := texts + [Repr(g, roots[k])];
      k := k + 1;
    }
    assert roots[..k] == roots;
  }

  /** What `to_fun` returns (the file it also writes is not modelled). */
  datatype FunResult =
    | CycleFound
      /** No vertex has out-degree 0. */
    | NoRoot
    | Function(text: string)

  /** `to_fun` on a loaded graph, the vertex set enumerated in `order`: the
      cycle error exactly when the child map has a cycle; otherwise the
      no-root error exactly when every vertex has outgoing arcs; otherwise the
      texts of the roots, largest reach first, joined by `, `. */
  method ToFun(vertices: set<Vertex>, edges: Adjacency, outDeg: map<Vertex, nat>, order: seq<Vertex>)
    returns (r: FunResult)
    requires Elems(order) == vertices && NoDuplicates(order)
    ensures r.CycleFound? <==> HasCycle(edges)
    ensures r.NoRoot? <==> !HasCycle(edges) && forall v :: v in vertices ==> Degree(outDeg, v) != 0
    ensures r.Function? ==>
      !HasCycle(edges) && r.text == Join(Texts(edges, Ranked(edges, Roots(order, outDeg))), ", ")
  {
    var cyclic := DetectCycle(edges);
    if cyclic {
      return CycleFound;
    }
    var roots := Roots(order, outDeg);
    RootsEmpty(order, outDeg);
    if roots == [] {
      return NoRoot;
    }
    var counts := CountAll(edges, roots);
    var ranked := SortBy(roots, v => if v in counts then -counts[v] else 0);
    CountedKey(edges, roots, counts);
    var texts := PrintAll(edges, ranked);
    r := Function(Join(texts, ", "));
  }
}
