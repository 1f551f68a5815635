/** Vertices, ordinal-carrying arcs and the inverted adjacency view that the
    later stages work on, with the graph notions their contracts are stated in:
    paths, cycles and reachability along the adjacency lists. */
module Graph {

  /** A vertex is identified by its name. */
  type Vertex = string

  /** "`src` is the `ord`-th argument of `dst`." */
  datatype Arc = Arc(src: Vertex, dst: Vertex, ord: nat)

  /** One element of a target's child list: the pair `(ord, from)`. */
  datatype Entry = Entry(ord: nat, src: Vertex)

  /** Target vertex to its list of `(ord, from)` pairs. */
  type Adjacency = map<Vertex, seq<Entry>>

  /** Every vertex named by some arc. */
  function Endpoints(arcs: seq<Arc>): set<Vertex> {
    (set a | a in arcs :: a.src) + (set a | a in arcs :: a.dst)
  }

  lemma EndpointsSnoc(arcs: seq<Arc>, a: Arc)
    ensures Endpoints(arcs + [a]) == Endpoints(arcs) + {a.src, a.dst}
  {
    assert forall b :: b in arcs + [a] <==> b in arcs || b == a;
  }

  /** The child list of `v` with the ordinals dropped (`graph.get(v, [])`). */
  function Children(g: Adjacency, v: Vertex): (cs: seq<Vertex>)
    ensures v !in g ==> cs == []
    ensures v in g ==> |cs| == |g[v]| && forall i :: 0 <= i < |cs| ==> cs[i] == g[v][i].src
  {
    if v in g then seq(|g[v]|, i requires 0 <= i < |g[v]| => g[v][i].src) else []
  }

  predicate Edge(g: Adjacency, u: Vertex, w: Vertex) {
    w in Children(g, u)
  }

  /** Every vertex that is a key of the map or occurs in some child list. */
  function Nodes(g: Adjacency): set<Vertex> {
    g.Keys + (set u, e | u in g && e in g[u] :: e.src)
  }

  lemma EdgeInNodes(g: Adjacency, u: Vertex, w: Vertex)
    requires Edge(g, u, w)
    ensures u in g && u in Nodes(g) && w in Nodes(g)
  {
    var i :| 0 <= i < |g[u]| && Children(g, u)[i] == w;
    assert g[u][i] in g[u];
  }

  /** A walk along the adjacency lists, at least one vertex long. */
  ghost predicate IsPath(g: Adjacency, p: seq<Vertex>) {
    |p| >= 1 && forall i :: 0 <= i < |p| - 1 ==> Edge(g, p[i], p[i + 1])
  }

  /** A closed walk with at least one edge; a self-loop `[v, v]` is one. */
  ghost predicate IsCycle(g: Adjacency, p: seq<Vertex>) {
    IsPath(g, p) && |p| >= 2 && p[0] == p[|p| - 1]
  }

  ghost predicate HasCycle(g: Adjacency) {
    exists p :: IsCycle(g, p)
  }

  ghost predicate Reachable(g: Adjacency, u: Vertex, w: Vertex) {
    exists p :: IsPath(g, p) && p[0] == u && p[|p| - 1] == w
  }

  /** The vertices reachable from `v`, `v` included. */
  ghost function ReachSet(g: Adjacency, v: Vertex): set<Vertex> {
    set w | w in Nodes(g) + {v} && Reachable(g, v, w)
  }

  /** The vertices of `p`, as a set. */
  /** No vertex occurs twice in `xs`. */
  predicate NoDuplicates(xs: seq<Vertex>) {
    forall i, j :: 0 <= i < j < |xs| ==> xs[i] != xs[j]
  }

  function Elems(p: seq<Vertex>): set<Vertex> {
    set x | x in p
  }

  /** A walk that comes back to a vertex it has already visited closes a cycle. */
  lemma CycleOnRepeat(g: Adjacency, p: seq<Vertex>, v: Vertex)
    requires IsPath(g, p + [v]) && v in p
    ensures HasCycle(g)
  {
    var i :| 0 <= i < |p| && p[i] == v;
    var c := (p + [v])[i..];
    assert IsCycle(g, c) by {
      forall j | 0 <= j < |c| - 1 ensures Edge(g, c[j], c[j + 1]) {
        assert c[j] == (p + [v])[i + j] && c[j + 1] == (p + [v])[i + j + 1];
      }
    }
  }

  /** On a graph without cycles a vertex cannot follow a walk it is already on. */
  lemma NotOnAcyclicPath(g: Adjacency, p: seq<Vertex>, v: Vertex)
    requires !HasCycle(g)
    requires IsPath(g, p + [v])
    ensures v !in p
  {
    if v in p {
      CycleOnRepeat(g, p, v);
    }
  }

  /** Extending an acyclic walk by one more vertex that has children leaves
      fewer vertices outside the walk: the measure recursive descents use. */
  lemma WalkMeasureDecreases(g: Adjacency, p: seq<Vertex>, v: Vertex, w: Vertex)
    requires !HasCycle(g)
    requires IsPath(g, p + [v]) && Edge(g, v, w)
    ensures |Nodes(g) - Elems(p + [v])| < |Nodes(g) - Elems(p)|
  {
    NotOnAcyclicPath(g, p, v);
    EdgeInNodes(g, v, w);
    assert Elems(p + [v]) == Elems(p) + {v};
    assert Nodes(g) - Elems(p) == (Nodes(g) - Elems(p + [v])) + {v};
  }

  /** A set holding every entry of the child list of `v` holds every `w`
      with an edge from `v`. */
  lemma ChildrenCovered(g: Adjacency, v: Vertex, s: set<Vertex>)
    requires forall j :: 0 <= j < |Children(g, v)| ==> Children(g, v)[j] in s
    ensures forall w :: Edge(g, v, w) ==> w in s
  {
  }

  lemma PathExtend(g: Adjacency, p: seq<Vertex>, w: Vertex)
    requires IsPath(g, p) && Edge(g, p[|p| - 1], w)
    ensures IsPath(g, p + [w])
  {
    var q := p + [w];
    forall i | 0 <= i < |q| - 1 ensures Edge(g, q[i], q[i + 1]) {
      if i < |p| - 1 { assert q[i] == p[i] && q[i + 1] == p[i + 1]; }
    }
  }

  /** A set holding `v` and closed under edges holds everything reachable from `v`. */
  lemma ClosedHoldsReach(g: Adjacency, v: Vertex, s: set<Vertex>)
    requires v in s
    requires forall u, w :: u in s && Edge(g, u, w) ==> w in s
    ensures ReachSet(g, v) <= s
  {
    forall w | w in ReachSet(g, v) ensures w in s {
      var p :| IsPath(g, p) && p[0] == v && p[|p| - 1] == w;
      var i := 0;
      while i < |p| - 1
        invariant 0 <= i <= |p| - 1 && p[i] in s
      {
        assert Edge(g, p[i], p[i + 1]);
        i := i + 1;
      }
    }
  }

  /** Two vertices `u -> w` along an edge: whatever reaches `u` reaches `w`. */
  lemma ReachStep(g: Adjacency, v: Vertex, u: Vertex, w: Vertex)
    requires u in ReachSet(g, v) && Edge(g, u, w)
    ensures w in ReachSet(g, v)
  {
    var p :| IsPath(g, p) && p[0] == v && p[|p| - 1] == u;
    PathExtend(g, p, w);
    EdgeInNodes(g, u, w);
    assert (p + [w])[0] == v;
  }

  /** A path from a child, with the parent put in front, is a path from the
      parent. */
  lemma PathFromParent(g: Adjacency, v: Vertex, p: seq<Vertex>)
    requires IsPath(g, p) && Edge(g, v, p[0])
    ensures IsPath(g, [v] + p) && ([v] + p)[0] == v && ([v] + p)[|p|] == p[|p| - 1]
  {
    var q := [v] + p;
    forall i | 0 <= i < |q| - 1 ensures Edge(g, q[i], q[i + 1]) {
      if i > 0 { assert q[i] == p[i - 1] && q[i + 1] == p[i]; }
    }
  }

  /** Without cycles, a child reaches a subset of what its parent reaches,
      and not the parent itself. */
  lemma ReachSubset(g: Adjacency, v: Vertex, w: Vertex)
    requires !HasCycle(g) && Edge(g, v, w)
    ensures ReachSet(g, w) <= ReachSet(g, v) && v in ReachSet(g, v) - ReachSet(g, w)
  {
    EdgeInNodes(g, v, w);
    forall u | u in ReachSet(g, w) ensures u in ReachSet(g, v) {
      var p :| IsPath(g, p) && p[0] == w && p[|p| - 1] == u;
      PathFromParent(g, v, p);
    }
    ReachSelf(g, v);
    if v in ReachSet(g, w) {
      var p :| IsPath(g, p) && p[0] == w && p[|p| - 1] == v;
      PathFromParent(g, v, p);
      assert IsCycle(g, [v] + p);
    }
  }

  /** Without cycles, a child reaches strictly fewer vertices than its
      parent: the measure of the recursive descents over the child lists. */
  lemma ReachShrinks(g: Adjacency, v: Vertex, w: Vertex)
    requires !HasCycle(g) && Edge(g, v, w)
    ensures |ReachSet(g, w)| < |ReachSet(g, v)|
  {
    ReachSubset(g, v, w);
    var a, b := ReachSet(g, w), ReachSet(g, v);
    assert b == a + (b - a) && a * (b - a) == {};
  }

  lemma ReachSelf(g: Adjacency, v: Vertex)
    ensures v in ReachSet(g, v)
  {
    assert IsPath(g, [v]);
  }

  /** Marking `v` as seen leaves fewer unseen vertices: the measure of the
      recursive searches. */
  lemma FewerUnvisited(nodes: set<Vertex>, a: set<Vertex>, b: set<Vertex>, v: Vertex)
    requires a + {v} <= b && v in nodes && v !in a
    ensures |nodes - b| < |nodes - a|
  {
    var s := nodes - a;
    var t := s - {v};
    var r := nodes - b;
    assert s == t + {v} && v !in t;
    assert r <= t;
    assert t == r + (t - r) && r * (t - r) == {};
  }

  lemma UnvisitedShrinks(nodes: set<Vertex>, a: set<Vertex>, b: set<Vertex>)
    requires a <= b
    ensures |nodes - b| <= |nodes - a|
  {
    var s := nodes - a;
    var r := nodes - b;
    assert s == r + (s - r) && r * (s - r) == {};
  }
}
