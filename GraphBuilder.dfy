/** The canonical record written after a clean parse (Practice/nntask1.py,
    to_xml, before the document is built): the vertices in the order they are
    first met scanning the arcs, source before target, and the arcs verbatim. */
module GraphBuilder {
  import opened Graph

  /** The vertex list and the arc list handed to the document writer. */
  datatype Record = Record(vertices: seq<Vertex>, arcs: seq<Arc>)

  /** The endpoints of the arcs in scanning order: source, target, source, ... */
  function EndpointSeq(arcs: seq<Arc>): seq<Vertex> {
    if arcs == [] then []
    else EndpointSeq(arcs[..|arcs| - 1]) + [arcs[|arcs| - 1].src, arcs[|arcs| - 1].dst]
  }

  /** Arc `i` contributes positions `2 * i` and `2 * i + 1`. */
  lemma {:induction false} EndpointSeqAt(arcs: seq<Arc>)
    ensures |EndpointSeq(arcs)| == 2 * |arcs|
    ensures forall i :: 0 <= i < |arcs| ==>
      EndpointSeq(arcs)[2 * i] == arcs[i].src && EndpointSeq(arcs)[2 * i + 1] == arcs[i].dst
  {
    if arcs != [] {
      var init := arcs[..|arcs| - 1];
      EndpointSeqAt(init);
      assert forall i :: 0 <= i < |init| ==> init[i] == arcs[i];
    }
  }

  lemma EndpointSeqPrefix(arcs: seq<Arc>, i: nat)
    requires i < |arcs|
    ensures EndpointSeq(arcs[..i + 1]) == (EndpointSeq(arcs[..i]) + [arcs[i].src]) + [arcs[i].dst]
  {
    var p := arcs[..i + 1];
    assert p[..|p| - 1] == arcs[..i];
  }

  lemma EndpointSeqElems(arcs: seq<Arc>)
    ensures Elems(EndpointSeq(arcs)) == Endpoints(arcs)
  {
    EndpointSeqAt(arcs);
    var vs := EndpointSeq(arcs);
    forall v | v in Endpoints(arcs) ensures v in vs {
      var i :| 0 <= i < |arcs| && (arcs[i].src == v || arcs[i].dst == v);
      assert vs[2 * i] == arcs[i].src && vs[2 * i + 1] == arcs[i].dst;
    }
    forall v | v in vs ensures v in Endpoints(arcs) {
      var k :| 0 <= k < |vs| && vs[k] == v;
      var i := k / 2;
      assert k == 2 * i || k == 2 * i + 1;
      assert arcs[i] in arcs;
    }
  }

  /** The position of the first occurrence of `x`. */
  function IndexOf(xs: seq<Vertex>, x: Vertex): (i: nat)
    requires x in xs
    ensures i < |xs| && xs[i] == x && forall j :: 0 <= j < i ==> xs[j] != x
  {
    if xs[0] == x then 0 else 1 + IndexOf(xs[1..], x)
  }

  /** `r` lists the elements of `xs` once each, in order of first occurrence. */
  predicate FirstOccurrencesOf(xs: seq<Vertex>, r: seq<Vertex>) {
    && NoDuplicates(r)
    && Elems(r) == Elems(xs)
    && (forall i :: 0 <= i < |r| ==> r[i] in xs)
    && (forall i, j :: 0 <= i < j < |r| ==> IndexOf(xs, r[i]) < IndexOf(xs, r[j]))
  }

  /** `xs` with every repeat dropped: each element kept where it first occurs. */
  function FirstOccurrences(xs: seq<Vertex>): seq<Vertex> {
    if xs == [] then []
    else
      var prev := FirstOccurrences(xs[..|xs| - 1]);
      if xs[|xs| - 1] in xs[..|xs| - 1] then prev else prev + [xs[|xs| - 1]]
  }

  /** The result has no duplicates, the same elements, and keeps the order of
      first occurrences. */
  lemma {:induction false} FirstOccurrencesSpec(xs: seq<Vertex>)
    ensures FirstOccurrencesOf(xs, FirstOccurrences(xs))
  {
    if xs != [] {
      var init := xs[..|xs| - 1];
      FirstOccurrencesSpec(init);
      assert xs == init + [xs[|xs| - 1]];
      FirstOccurrencesStep(init, xs[|xs| - 1], FirstOccurrences(init));
    }
  }

  /** Scanning one more element keeps the first occurrences: a repeat is
      dropped, a new element goes last. */
  lemma FirstOccurrencesStep(init: seq<Vertex>, x: Vertex, prev: seq<Vertex>)
    requires FirstOccurrencesOf(init, prev)
    ensures x in init ==> FirstOccurrencesOf(init + [x], prev)
    ensures x !in init ==> FirstOccurrencesOf(init + [x], prev + [x])
  {
    var xs := init + [x];
    forall y | y in init ensures IndexOf(xs, y) == IndexOf(init, y) {
      IndexOfPrefix(init, [x], y);
    }
    if x in init {
      FirstOccurrencesRepeat(init, x, prev);
    } else {
      FirstOccurrencesNew(init, x, prev);
    }
  }

  lemma FirstOccurrencesRepeat(init: seq<Vertex>, x: Vertex, prev: seq<Vertex>)
    requires FirstOccurrencesOf(init, prev) && x in init
    requires forall y :: y in init ==> IndexOf(init + [x], y) == IndexOf(init, y)
    ensures FirstOccurrencesOf(init + [x], prev)
  {
    var xs := init + [x];
    assert Elems(xs) == Elems(init) + {x};
    assert forall i :: 0 <= i < |prev| ==> prev[i] in init;
  }

  lemma FirstOccurrencesNew(init: seq<Vertex>, x: Vertex, prev: seq<Vertex>)
    requires FirstOccurrencesOf(init, prev) && x !in init
    requires forall y :: y in init ==> IndexOf(init + [x], y) == IndexOf(init, y)
    ensures FirstOccurrencesOf(init + [x], prev + [x])
  {
    var xs := init + [x];
    var r := prev + [x];
    assert Elems(xs) == Elems(init) + {x};
    IndexOfUnique(xs, x, |init|);
    assert Elems(r) == Elems(prev) + {x};
    forall i | 0 <= i < |prev| ensures r[i] == prev[i] && prev[i] in init && IndexOf(xs, prev[i]) < |init| {
      assert prev[i] in init;
    }
    assert NoDuplicates(r);
    assert forall i :: 0 <= i < |r| ==> r[i] in xs;
    forall i, j | 0 <= i < j < |r| ensures IndexOf(xs, r[i]) < IndexOf(xs, r[j]) {
      if j < |prev| {
        assert r[i] == prev[i] && r[j] == prev[j];
      }
    }
  }

  lemma FirstOccurrencesSnoc(xs: seq<Vertex>, x: Vertex)
    ensures FirstOccurrences(xs + [x]) == if x in xs then FirstOccurrences(xs) else FirstOccurrences(xs) + [x]
    ensures Elems(xs + [x]) == Elems(xs) + {x}
  {
    assert (xs + [x])[..|xs|] == xs;
  }

  lemma IndexOfPrefix(xs: seq<Vertex>, ys: seq<Vertex>, x: Vertex)
    requires x in xs
    ensures IndexOf(xs + ys, x) == IndexOf(xs, x)
  {
    IndexOfUnique(xs + ys, x, IndexOf(xs, x));
  }

  lemma IndexOfUnique(xs: seq<Vertex>, x: Vertex, i: nat)
    requires i < |xs| && xs[i] == x && forall j :: 0 <= j < i ==> xs[j] != x
    ensures IndexOf(xs, x) == i
  {
  }

  /** One arc of the ordering loop: its source, then its target, is emitted
      unless already seen. */
  lemma OrderStep(scanned: seq<Vertex>, ordered: seq<Vertex>, visited: set<Vertex>, s: Vertex, d: Vertex)
    requires ordered == FirstOccurrences(scanned) && visited == Elems(scanned)
    ensures var o1 := if s in visited then ordered else ordered + [s];
      var v1 := if s in visited then visited else visited + {s};
      var o2 := if d in v1 then o1 else o1 + [d];
      var v2 := if d in v1 then v1 else v1 + {d};
      o2 == FirstOccurrences((scanned + [s]) + [d]) && v2 == Elems((scanned + [s]) + [d])
  {
    FirstOccurrencesSnoc(scanned, s);
    FirstOccurrencesSnoc(scanned + [s], d);
    var v1 := if s in visited then visited else visited + {s};
    assert v1 == Elems(scanned + [s]);
  }

  /** The ordering loop of `to_xml`: a vertex is emitted the first time it is
      seen, source before target, and the arcs are kept in declaration order.
      The vertex list has no duplicates, holds exactly the arc endpoints and
      lists them in order of first occurrence. */
  method CanonicalRecord(arcs: seq<Arc>) returns (rec: Record)
    ensures rec.arcs == arcs
    ensures rec.vertices == FirstOccurrences(EndpointSeq(arcs))
    ensures FirstOccurrencesOf(EndpointSeq(arcs), rec.vertices)
    ensures NoDuplicates(rec.vertices) && Elems(rec.vertices) == Endpoints(arcs)
  {
    var ordered: seq<Vertex> := [];
    var visited: set<Vertex> := {};
    ghost var scanned: seq<Vertex> := [];
    var i := 0;
    while i < |arcs|
      invariant 0 <= i <= |arcs| && scanned == EndpointSeq(arcs[..i])
      invariant ordered == FirstOccurrences(scanned) && visited == Elems(scanned)
    {
      var a := arcs[i];
      EndpointSeqPrefix(arcs, i);
      OrderStep(scanned, ordered, visited, a.src, a.dst);
      scanned := (scanned + [a.src]) + [a.dst];
      if a.src !in visited {
        ordered := ordered + [a.src];
        visited := visited + {a.src};
      }
      if a.dst !in visited {
        ordered := ordered + [a.dst];
        visited := visited + {a.dst};
      }
      i := i + 1;
    }
    assert arcs[..i] == arcs;
    EndpointSeqElems(arcs);
    FirstOccurrencesSpec(EndpointSeq(arcs));
    rec := Record(ordered, arcs);
  }
}
