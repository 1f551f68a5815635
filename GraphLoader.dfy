/** Loading the canonical record back (Practice/nntask2.py, read_xml, the arc
    loop and the sort): arcs are inverted into a map from each target to its
    `(ord, from)` pairs, sorted by ordinal and then by source name, and the
    out-degree of every source is counted. */
module GraphLoader {
  import opened Text
  import opened Graph
  import opened GraphBuilder

  /** The `(ord, from)` pairs of the arcs into `t`, in arc order. */
  function InEntries(arcs: seq<Arc>, t: Vertex): seq<Entry> {
    if arcs == [] then []
    else
      var a := arcs[|arcs| - 1];
      InEntries(arcs[..|arcs| - 1], t) + (if a.dst == t then [Entry(a.ord, a.src)] else [])
  }

  /** The number of arcs leaving `v`. */
  function OutCount(arcs: seq<Arc>, v: Vertex): nat {
    if arcs == [] then 0
    else OutCount(arcs[..|arcs| - 1], v) + (if arcs[|arcs| - 1].src == v then 1 else 0)
  }

  /** Every vertex some arc enters. */
  function Targets(arcs: seq<Arc>): set<Vertex> {
    set a | a in arcs :: a.dst
  }

  /** A lookup in a counting dictionary: 0 where nothing was counted. */
  function Degree(m: map<Vertex, nat>, v: Vertex): nat {
    if v in m then m[v] else 0
  }

  /** Python's order on `(ord, from)` tuples: ordinal first, then source name. */
  predicate EntryLe(x: Entry, y: Entry) {
    x.ord < y.ord || (x.ord == y.ord && (x.src == y.src || StrLess(x.src, y.src)))
  }

  predicate SortedEntries(es: seq<Entry>) {
    forall i, j :: 0 <= i < j < |es| ==> EntryLe(es[i], es[j])
  }

  lemma EntryLeTotal(x: Entry, y: Entry)
    ensures EntryLe(x, y) || EntryLe(y, x)
  {
    if x.ord == y.ord && x.src != y.src {
      StrLessTotal(x.src, y.src);
    }
  }

  lemma EntryLeAntisymmetric(x: Entry, y: Entry)
    requires EntryLe(x, y) && EntryLe(y, x)
    ensures x == y
  {
    if x.src != y.src {
      StrLessTransitive(x.src, y.src, x.src);
      StrLessIrreflexive(x.src);
    }
  }

  /** `x` put into a sorted list: the result is sorted and holds exactly the
      old elements and `x`. */
  function Insert(es: seq<Entry>, x: Entry): (r: seq<Entry>)
    requires SortedEntries(es)
    ensures SortedEntries(r)
    ensures multiset(r) == multiset(es) + multiset{x}
  {
    if es == [] then [x]
    else if EntryLe(x, es[0]) then
      assert forall j :: 0 <= j < |es| ==> EntryLe(es[0], es[j]) by {
        forall j | 0 <= j < |es| ensures EntryLe(es[0], es[j]) {
          if j == 0 { } else { assert EntryLe(es[0], es[j]); }
        }
      }
      InsertFront(es, x);
      [x] + es
    else
      assert es == [es[0]] + es[1..];
      var tail := Insert(es[1..], x);
      EntryLeTotal(x, es[0]);
      forall y | y in multiset(tail) ensures EntryLe(es[0], y) {
        assert y in multiset(es[1..]) || y == x;
        if y != x {
          var j :| 0 <= j < |es[1..]| && es[1..][j] == y;
          assert es[j + 1] == y;
        }
      }
      PrependSmallest(es[0], tail);
      [es[0]] + tail
  }

  lemma InsertFront(es: seq<Entry>, x: Entry)
    requires SortedEntries(es) && es != [] && EntryLe(x, es[0])
    ensures SortedEntries([x] + es)
  {
    forall j | 0 <= j < |es| ensures EntryLe(x, es[j]) {
      if j > 0 { EntryLeTransitive(x, es[0], es[j]); }
    }
    PrependSmallest(x, es);
  }

  lemma PrependSmallest(x: Entry, es: seq<Entry>)
    requires SortedEntries(es)
    requires forall y :: y in multiset(es) ==> EntryLe(x, y)
    ensures SortedEntries([x] + es)
  {
    var r := [x] + es;
    forall i, j | 0 <= i < j < |r| ensures EntryLe(r[i], r[j]) {
      assert r[j] == es[j - 1];
      assert r[j] in multiset(es);
      if i > 0 { assert r[i] == es[i - 1]; }
    }
  }

  lemma EntryLeTransitive(x: Entry, y: Entry, z: Entry)
    requires EntryLe(x, y) && EntryLe(y, z)
    ensures EntryLe(x, z)
  {
    if x.ord == y.ord == z.ord && x.src != y.src && y.src != z.src {
      StrLessTransitive(x.src, y.src, z.src);
    }
  }

  /** Sorting one child list: a sorted permutation of its input. */
  method SortEntries(es: seq<Entry>) returns (sorted: seq<Entry>)
    ensures SortedEntries(sorted)
    ensures multiset(sorted) == multiset(es)
  {
    sorted := [];
    var i := 0;
    while i < |es|
      invariant 0 <= i <= |es|
      invariant SortedEntries(sorted)
      invariant multiset(sorted) == multiset(es[..i])
    {
      assert es[..i + 1] == es[..i] + [es[i]];
      sorted := Insert(sorted, es[i]);
      i := i + 1;
    }
    assert es[..i] == es;
  }

  /** Two sorted lists with the same elements are the same list, so the
      sorted child list of a target does not depend on the arc order. */
  lemma {:induction false} SortedUnique(a: seq<Entry>, b: seq<Entry>)
    requires SortedEntries(a) && SortedEntries(b)
    requires multiset(a) == multiset(b)
    ensures a == b
    decreases |a|
  {
    if a == [] {
      assert |b| == |multiset(b)| == 0;
    } else {
      assert |b| == |multiset(b)| > 0;
      HeadIsLeast(a, b[0]);
      HeadIsLeast(b, a[0]);
      EntryLeAntisymmetric(a[0], b[0]);
      DropHead(a);
      DropHead(b);
      SortedUnique(a[1..], b[1..]);
    }
  }

  lemma HeadIsLeast(a: seq<Entry>, y: Entry)
    requires SortedEntries(a) && y in multiset(a)
    ensures EntryLe(a[0], y)
  {
    var i :| 0 <= i < |a| && a[i] == y;
    if i > 0 { assert EntryLe(a[0], a[i]); }
  }

  lemma DropHead(a: seq<Entry>)
    requires SortedEntries(a) && a != []
    ensures SortedEntries(a[1..])
    ensures multiset(a[1..]) == multiset(a) - multiset{a[0]}
  {
    assert a == [a[0]] + a[1..];
  }

  lemma InEntriesSnoc(arcs: seq<Arc>, a: Arc, t: Vertex)
    ensures InEntries(arcs + [a], t) == InEntries(arcs, t) + (if a.dst == t then [Entry(a.ord, a.src)] else [])
    ensures OutCount(arcs + [a], t) == OutCount(arcs, t) + (if a.src == t then 1 else 0)
    ensures Targets(arcs + [a]) == Targets(arcs) + {a.dst}
  {
    assert (arcs + [a])[..|arcs|] == arcs;
  }

  /** The pair `(ord, from)` is in the child list of `t` exactly when the arc
      `from -> t` with that ordinal was read: the inverted map loses no arc
      and invents none. */
  lemma {:induction false} InEntriesMembers(arcs: seq<Arc>, t: Vertex, e: Entry)
    ensures e in InEntries(arcs, t) <==> Arc(e.src, t, e.ord) in arcs
  {
    if arcs != [] {
      var init := arcs[..|arcs| - 1];
      InEntriesMembers(init, t, e);
      assert arcs == init + [arcs[|arcs| - 1]];
    }
  }

  /** A vertex has out-degree 0 exactly when no arc leaves it. */
  lemma {:induction false} OutCountZero(arcs: seq<Arc>, v: Vertex)
    ensures OutCount(arcs, v) == 0 <==> forall a :: a in arcs ==> a.src != v
  {
    if arcs != [] {
      var init := arcs[..|arcs| - 1];
      OutCountZero(init, v);
      assert arcs == init + [arcs[|arcs| - 1]];
    }
  }

  /** The arc loop and the sort of `read_xml` on a loaded record. Only targets
      are keys of the child map; each child list is the sorted permutation of
      the pairs of the arcs into that target; the out-degree of every vertex
      is the number of arcs leaving it, 0 when none does. */
  method Load(rec: Record) returns (vertices: set<Vertex>, edges: Adjacency, outDeg: map<Vertex, nat>)
    ensures vertices == Elems(rec.vertices)
    ensures edges.Keys == Targets(rec.arcs)
    ensures forall t :: t in edges ==>
      SortedEntries(edges[t]) && multiset(edges[t]) == multiset(InEntries(rec.arcs, t))
    ensures forall v :: Degree(outDeg, v) == OutCount(rec.arcs, v)
  {
    vertices := Elems(rec.vertices);
    var unsorted;
    unsorted, outDeg := InvertArcs(rec.arcs);
    edges := SortChildLists(unsorted);
  }

  /** The arc loop of `read_xml`: each arc appends its `(ord, from)` pair to
      the list of its target, in arc order, and counts one more arc out of its
      source. */
  method InvertArcs(arcs: seq<Arc>) returns (edges: Adjacency, outDeg: map<Vertex, nat>)
    ensures Inverted(arcs, edges, outDeg)
  {
    edges, outDeg := map[], map[];
    var i := 0;
    while i < |arcs|
      invariant 0 <= i <= |arcs|
      invariant Inverted(arcs[..i], edges, outDeg)
    {
      var a := arcs[i];
      assert arcs[..i + 1] == arcs[..i] + [a];
      InvertStep(arcs[..i], a, edges, outDeg);
      var old_list := if a.dst in edges then edges[a.dst] else [];
      edges := edges[a.dst := old_list + [Entry(a.ord, a.src)]];
      outDeg := outDeg[a.src := Degree(outDeg, a.src) + 1];
      i := i + 1;
    }
    assert arcs[..i] == arcs;
  }

  /** The sort of `read_xml`: every child list replaced by its sorted
      permutation, the keys unchanged. */
  method SortChildLists(edges: Adjacency) returns (sorted: Adjacency)
    ensures sorted.Keys == edges.Keys
    ensures forall t :: t in sorted ==>
      SortedEntries(sorted[t]) && multiset(sorted[t]) == multiset(edges[t])
  {
    sorted := edges;
    var todo := edges.Keys;
    while todo != {}
      invariant todo <= sorted.Keys == edges.Keys
      invariant forall t :: t in todo ==> sorted[t] == edges[t]
      invariant forall t :: t in sorted && t !in todo ==>
        SortedEntries(sorted[t]) && multiset(sorted[t]) == multiset(edges[t])
      decreases todo
    {
      var t :| t in todo;
      var list := SortEntries(sorted[t]);
      sorted := sorted[t := list];
      todo := todo - {t};
    }
  }

  /** The dictionaries after the arc loop has seen `arcs`, before sorting. */
  ghost predicate Inverted(arcs: seq<Arc>, edges: Adjacency, outDeg: map<Vertex, nat>) {
    && edges.Keys == Targets(arcs)
    && (forall t :: t in edges ==> edges[t] == InEntries(arcs, t))
    && (forall v :: Degree(outDeg, v) == OutCount(arcs, v))
  }

  lemma InvertStep(arcs: seq<Arc>, a: Arc, edges: Adjacency, outDeg: map<Vertex, nat>)
    requires Inverted(arcs, edges, outDeg)
    ensures Inverted(arcs + [a],
      edges[a.dst := (if a.dst in edges then edges[a.dst] else []) + [Entry(a.ord, a.src)]],
      outDeg[a.src := Degree(outDeg, a.src) + 1])
  {
    forall t ensures InEntries(arcs + [a], t) == InEntries(arcs, t) + (if a.dst == t then [Entry(a.ord, a.src)] else [])
      && OutCount(arcs + [a], t) == OutCount(arcs, t) + (if a.src == t then 1 else 0)
    {
      InEntriesSnoc(arcs, a, t);
    }
    InEntriesSnoc(arcs, a, a.dst);
    if a.dst !in edges {
      InEntriesAbsent(arcs, a.dst);
    }
  }

  lemma InEntriesAbsent(arcs: seq<Arc>, t: Vertex)
    requires t !in Targets(arcs)
    ensures InEntries(arcs, t) == []
  {
    if arcs != [] {
      var init := arcs[..|arcs| - 1];
      assert Targets(init) <= Targets(arcs);
      InEntriesAbsent(init, t);
    }
  }
}
