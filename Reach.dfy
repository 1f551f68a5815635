/** Counting reachable vertices (Practice/nntask2.py, count_reachable): a
    depth-first walk over the child lists that shares one visited set across
    its recursive calls and adds up what each call newly reached. */
module Reach {
  import opened Graph

  /** The invariant of the walk from `root`: everything visited is reachable
      from the root, and every visited vertex whose child loop is not running
      any more has all its children visited. */
  ghost predicate ReachInv(g: Adjacency, root: Vertex, visited: set<Vertex>, active: set<Vertex>) {
    && visited <= ReachSet(g, root)
    && active <= visited
    && forall u, w :: u in visited && u !in active && Edge(g, u, w) ==> w in visited
  }

  /** Visiting a reachable vertex and starting its child loop keeps the
      invariant. */
  lemma Activate(g: Adjacency, root: Vertex, visited: set<Vertex>, active: set<Vertex>, v: Vertex)
    requires ReachInv(g, root, visited, active) && v in ReachSet(g, root)
    ensures ReachInv(g, root, visited + {v}, active + {v})
  {
  }

  /** Ending the child loop of `v` once all its children are visited keeps
      the invariant. */
  lemma Release(g: Adjacency, root: Vertex, visited: set<Vertex>, active: set<Vertex>, v: Vertex)
    requires ReachInv(g, root, visited, active)
    requires forall w :: Edge(g, v, w) ==> w in visited
    ensures ReachInv(g, root, visited, active - {v})
  {
  }

  /** One more child of the loop in `CountChildren` is visited, and the
      earlier ones stay visited. */
  lemma ChildVisited(before: set<Vertex>, after: set<Vertex>, cs: seq<Vertex>, k: nat)
    requires k < |cs| && before <= after && cs[k] in after
    requires forall j :: 0 <= j < k ==> cs[j] in before
    ensures forall j :: 0 <= j < k + 1 ==> cs[j] in after
  {
  }

  /** The `visited` set shared by the nested `count_reachable` calls. */
  class Counter {
    const g: Adjacency
    ghost const root: Vertex
    var visited: set<Vertex>
    /** The vertices whose child loop is running, outermost first. */
    ghost var active: set<Vertex>

    ghost predicate Valid()
      reads this
    {
      ReachInv(g, root, visited, active)
    }

    constructor (g: Adjacency, root: Vertex)
      ensures this.g == g && this.root == root && visited == {} && active == {} && Valid()
    {
      this.g, this.root := g, root;
      visited, active := {}, {};
    }

    /** `count_reachable(v, edges, visited)` on a vertex not yet visited:
        the result is the number of vertices this call added to `visited`. */
    method Count(v: Vertex) returns (count: nat)
      requires Valid() && v in ReachSet(g, root) && v !in visited
      modifies this
      decreases |ReachSet(g, root) - visited|, 2
      ensures Valid() && active == old(active)
      ensures v in visited && old(visited) <= visited
      ensures |visited| == |old(visited)| + count
    {
      ghost var visited0 := visited;
      Activate(g, root, visited, active, v);
      visited := visited + {v};
      active := active + {v};
      FewerUnvisited(ReachSet(g, root), visited0, visited, v);
      var c := CountChildren(v);
      count := 1 + c;
      Release(g, root, visited, active, v);
      active := active - {v};
    }

    /** The loop over the children of `v`: every child ends up visited, and
        the sum is the number of vertices added on the way. */
    method CountChildren(v: Vertex) returns (count: nat)
      requires Valid() && v in active && v in ReachSet(g, root)
      modifies this
      decreases |ReachSet(g, root) - visited| + 1, 1
      ensures Valid() && active == old(active) && old(visited) <= visited
      ensures |visited| == |old(visited)| + count
      ensures forall w :: Edge(g, v, w) ==> w in visited
    {
      var cs := Children(g, v);
      count := 0;
      var k := 0;
      while k < |cs|
        invariant 0 <= k <= |cs|
        invariant Valid() && active == old(active) && old(visited) <= visited
        invariant |visited| == |old(visited)| + count
        invariant forall j :: 0 <= j < k ==> cs[j] in visited
      {
        assert Edge(g, v, cs[k]);
        ghost var before := visited;
        UnvisitedShrinks(ReachSet(g, root), old(visited), visited);
        var c := CountChild(v, cs[k]);
        count := count + c;
        ChildVisited(before, visited, cs, k);
        k := k + 1;
      }
      ChildrenCovered(g, v, visited);
    }

    /** One turn of the child loop: a child not yet visited is counted. */
    method CountChild(v: Vertex, child: Vertex) returns (count: nat)
      requires Valid() && v in active && v in ReachSet(g, root) && Edge(g, v, child)
      modifies this
      decreases |ReachSet(g, root) - visited| + 1, 0
      ensures Valid() && active == old(active) && old(visited) <= visited
      ensures |visited| == |old(visited)| + count
      ensures child in visited
    {
      count := 0;
      if child !in visited {
        ReachStep(g, root, v, child);
        count := Count(child);
      }
    }
  }

  /** `count_reachable(v, edges)` with a fresh visited set: the number of
      distinct vertices reachable from `v`, `v` included, hence at least 1. */
  method CountReachable(g: Adjacency, v: Vertex) returns (count: nat)
    ensures count == |ReachSet(g, v)|
    ensures count >= 1
  {
    var counter := new Counter(g, v);
    ReachSelf(g, v);
    count := counter.Count(v);
    ClosedHoldsReach(g, v, counter.visited);
    assert counter.visited - {} == counter.visited == ReachSet(g, v);
  }
}
