/** Cycle detection (Practice/nntask2.py, detect_cycle): a depth-first search
    that keeps the set of visited vertices and the set of vertices on the
    recursion stack, started from every key of the child map. The search
    reports a cycle exactly when the child map has one. */
module CycleDetector {
  import opened Graph

  /** Vertices in `done` were visited and left the stack; each got a finishing
      time, and every edge out of a finished vertex leads to a vertex that
      finished earlier. */
  ghost predicate FinishOrdered(g: Adjacency, finish: map<Vertex, nat>) {
    forall u, w :: u in finish && Edge(g, u, w) ==> w in finish && finish[w] < finish[u]
  }

  /** If every vertex with children has finished and the finishing times
      decrease along every edge, there is no cycle. */
  lemma FinishOrderAcyclic(g: Adjacency, finish: map<Vertex, nat>)
    requires g.Keys <= finish.Keys
    requires FinishOrdered(g, finish)
    ensures !HasCycle(g)
  {
    forall p | IsCycle(g, p) ensures false {
      assert p[0] in g by { EdgeInNodes(g, p[0], p[1]); }
      var i := 0;
      while i < |p| - 1
        invariant 0 <= i <= |p| - 1
        invariant p[i] in finish && finish[p[i]] + i <= finish[p[0]]
      {
        assert Edge(g, p[i], p[i + 1]);
        i := i + 1;
      }
    }
  }

  lemma ExtendsTransitive(m0: map<Vertex, nat>, m1: map<Vertex, nat>, m2: map<Vertex, nat>)
    requires Extends(m0, m1) && Extends(m1, m2)
    ensures Extends(m0, m2)
  {
  }

  lemma ExtendsUpdate(m0: map<Vertex, nat>, m1: map<Vertex, nat>, v: Vertex, c: nat)
    requires Extends(m0, m1) && v !in m1
    ensures Extends(m0, m1[v := c])
  {
  }

  /** One more child of the loop in `VisitChildren` has finished, and the
      earlier ones keep their finishing times. */
  lemma ChildFinished(m0: map<Vertex, nat>, before: map<Vertex, nat>, after: map<Vertex, nat>,
                      cs: seq<Vertex>, k: nat)
    requires k < |cs| && cs[k] in after
    requires Extends(m0, before) && Extends(before, after)
    requires forall j :: 0 <= j < k ==> cs[j] in before
    ensures Extends(m0, after)
    ensures forall j :: 0 <= j < k + 1 ==> cs[j] in after
  {
  }

  /** Finishing `v` after all its children have finished keeps the order. */
  lemma FinishStep(g: Adjacency, finish: map<Vertex, nat>, clock: nat, v: Vertex)
    requires FinishOrdered(g, finish) && v !in finish
    requires forall u :: u in finish ==> finish[u] < clock
    requires forall w :: Edge(g, v, w) ==> w in finish
    ensures FinishOrdered(g, finish[v := clock])
  {
  }

  /** `m1` keeps every finishing time recorded in `m0`. */
  ghost predicate Extends(m0: map<Vertex, nat>, m1: map<Vertex, nat>) {
    forall u :: u in m0 ==> u in m1 && m1[u] == m0[u]
  }

  /** The invariant of the search: the on-stack set is the stack, the finished vertices are the visited ones
      off the stack, and finishing times are ordered along edges. */
  ghost predicate SearchInv(g: Adjacency, visited: set<Vertex>, onStack: set<Vertex>, stack: seq<Vertex>,
                            finish: map<Vertex, nat>, clock: nat) {
    && onStack == Elems(stack) && onStack <= visited
    && finish.Keys == visited - onStack
    && (forall u :: u in finish ==> finish[u] < clock)
    && FinishOrdered(g, finish)
  }

  /** Pushing an unvisited vertex keeps the invariant. */
  lemma PushInv(g: Adjacency, visited: set<Vertex>, onStack: set<Vertex>, stack: seq<Vertex>,
                finish: map<Vertex, nat>, clock: nat, v: Vertex)
    requires SearchInv(g, visited, onStack, stack, finish, clock)
    requires v !in visited
    ensures SearchInv(g, visited + {v}, onStack + {v}, stack + [v], finish, clock)
  {
    assert Elems(stack + [v]) == Elems(stack) + {v};
  }

  /** Popping `v` once all its children finished, and giving it the next
      finishing time, keeps the invariant. */
  lemma PopInv(g: Adjacency, visited: set<Vertex>, onStack: set<Vertex>, stack: seq<Vertex>,
               finish: map<Vertex, nat>, clock: nat, v: Vertex)
    requires SearchInv(g, visited, onStack + {v}, stack + [v], finish, clock)
    requires onStack == Elems(stack) && v !in onStack && v in visited && v !in finish
    requires forall w :: Edge(g, v, w) ==> w in finish
    ensures SearchInv(g, visited, onStack, stack, finish[v := clock], clock + 1)
  {
    FinishStep(g, finish, clock, v);
  }

  /** The state shared by the nested `visit` calls. */
  class Search {
    const g: Adjacency
    var visited: set<Vertex>
    var onStack: set<Vertex>
    /** The vertices of the recursion stack, outermost first. */
    ghost var stack: seq<Vertex>
    /** Finishing times of the vertices that left the stack, and the next one. */
    ghost var finish: map<Vertex, nat>
    ghost var clock: nat

    ghost predicate Valid()
      reads this
    {
      SearchInv(g, visited, onStack, stack, finish, clock)
    }

    constructor (g: Adjacency)
      ensures this.g == g && Valid()
      ensures visited == {} && stack == [] && onStack == {} && finish == map[]
    {
      this.g := g;
      visited, onStack := {}, {};
      stack, finish, clock := [], map[], 0;
    }

    /** `visit(v)` reached along the stack: true means a cycle was found;
        false means `v` and everything it reaches has finished, the stack is
        as before, and nothing that had finished was touched. */
    method Visit(v: Vertex) returns (found: bool)
      requires Valid() && v in Nodes(g) && IsPath(g, stack + [v])
      modifies this
      decreases |Nodes(g) - visited|, 1
      ensures found ==> HasCycle(g)
      ensures !found ==> Valid() && stack == old(stack) && onStack == old(onStack) && v in finish
      ensures !found ==> old(visited) <= visited && Extends(old(finish), finish)
    {
      if v in onStack {
        CycleOnRepeat(g, stack, v);
        return true;
      }
      if v in visited {
        return false;
      }
      ghost var visited0, finish0 := visited, finish;
      Push(v);
      FewerUnvisited(Nodes(g), visited0, visited, v);
      found := VisitChildren(v);
      if found {
        return;
      }
      Pop(v);
      ExtendsUpdate(finish0, old(finish), v, clock);
    }

    /** Marks `v` visited and puts it on the stack. */
    method Push(v: Vertex)
      requires Valid() && v !in visited
      modifies this
      ensures Valid()
      ensures visited == old(visited) + {v} && onStack == old(onStack) + {v} && stack == old(stack) + [v]
      ensures finish == old(finish) && clock == old(clock)
    {
      PushInv(g, visited, onStack, stack, finish, clock, v);
      visited := visited + {v};
      onStack := onStack + {v};
      stack := stack + [v];
    }

    /** Takes `v`, whose children have all finished, off the top of the stack
        and gives it the next finishing time. */
    method Pop(v: Vertex)
      requires Valid() && stack != [] && stack[|stack| - 1] == v && v !in stack[..|stack| - 1]
      requires v !in finish && forall w :: Edge(g, v, w) ==> w in finish
      modifies this
      ensures Valid()
      ensures onStack == old(onStack) - {v} && stack == old(stack)[..|old(stack)| - 1]
      ensures visited == old(visited) && finish == old(finish)[v := old(clock)]
    {
      ghost var stack0 := stack[..|stack| - 1];
      ghost var onStack0 := onStack - {v};
      assert stack == stack0 + [v];
      assert onStack == onStack0 + {v} && onStack0 == Elems(stack0);
      PopInv(g, visited, onStack0, stack0, finish, clock, v);
      onStack := onStack - {v};
      stack := stack0;
      finish := finish[v := clock];
      clock := clock + 1;
    }

    /** The loop over the children of `v`, which has just been pushed: stops
        at the first child that reports a cycle; otherwise every child has
        finished and `v` is still on top of the stack. */
    method VisitChildren(v: Vertex) returns (found: bool)
      requires Valid() && IsPath(g, stack) && stack != [] && stack[|stack| - 1] == v
      requires v in onStack && v !in finish
      modifies this
      decreases |Nodes(g) - visited| + 1, 0
      ensures found ==> HasCycle(g)
      ensures !found ==> Valid() && stack == old(stack) && onStack == old(onStack)
      ensures !found ==> old(visited) <= visited && Extends(old(finish), finish)
      ensures !found ==> v !in finish && forall w :: Edge(g, v, w) ==> w in finish
    {
      var cs := Children(g, v);
      var k := 0;
      while k < |cs|
        invariant 0 <= k <= |cs|
        invariant Valid() && stack == old(stack) && onStack == old(onStack)
        invariant old(visited) <= visited
        invariant Extends(old(finish), finish)
        invariant forall j :: 0 <= j < k ==> cs[j] in finish
      {
        assert Edge(g, v, cs[k]);
        EdgeInNodes(g, v, cs[k]);
        PathExtend(g, stack, cs[k]);
        UnvisitedShrinks(Nodes(g), old(visited), visited);
        ghost var before := finish;
        found := Visit(cs[k]);
        if found {
          return;
        }
        ChildFinished(old(finish), before, finish, cs, k);
        k := k + 1;
      }
      ChildrenCovered(g, v, finish.Keys);
      found := false;
    }
  }

  /** `detect_cycle`: true exactly when the child map has a cycle, a self-loop
      included, whether or not any root reaches it. */
  method DetectCycle(g: Adjacency) returns (found: bool)
    ensures found <==> HasCycle(g)
  {
    var search := new Search(g);
    var todo := g.Keys;
    while todo != {}
      invariant search.g == g && search.Valid()
      invariant search.stack == [] && search.onStack == {}
      invariant g.Keys - todo <= search.finish.Keys
      decreases todo
    {
      var v :| v in todo;
      found := search.Visit(v);
      if found {
        return;
      }
      todo := todo - {v};
    }
    FinishOrderAcyclic(g, search.finish);
    found := false;
  }
}
