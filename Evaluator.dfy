/** Evaluating the graph as an expression (Practice/nntask3.py, calculate and
    process_graph). Every vertex carries an operation token: a number, `+`,
    `*` or `exp`. A vertex is evaluated after its children, in ordinal order,
    and every value computed is cached. A missing operation, a constant with
    children and an unknown operator are reported as errors and give no
    value; an operator applied to a child without a value raises, which ends
    the whole evaluation. */
module Evaluator {
  import opened Wrappers
  import opened Graph
  import opened GraphLoader
  import opened CycleDetector
  import opened FunctionText
  import opened Operations
  import Text

  /** What a call of `calculate` gives: a value, `None`, or the `TypeError`
      that `sum`, `math.prod` or `math.exp` raise on `None`. */
  datatype Outcome = Val(value: real) | Absent | Raised

  /** The three errors `calculate` reports (message text not modelled). */
  datatype EvalError =
    | NoOperation(v: Vertex)
    | ConstantWithChildren(v: Vertex)
    | UnknownOperation(op: string, v: Vertex)

  predicate IsOperator(op: string) {
    op == "+" || op == "*" || op == "exp"
  }

  function Sum(xs: seq<real>): real {
    if xs == [] then 0.0 else Sum(xs[..|xs| - 1]) + xs[|xs| - 1]
  }

  function Product(xs: seq<real>): real {
    if xs == [] then 1.0 else Product(xs[..|xs| - 1]) * xs[|xs| - 1]
  }

  function ValuesOf(kids: seq<Outcome>): (xs: seq<real>)
    requires forall i :: 0 <= i < |kids| ==> kids[i].Val?
    ensures |xs| == |kids| && forall i :: 0 <= i < |kids| ==> xs[i] == kids[i].value
  {
    seq(|kids|, i requires 0 <= i < |kids| => kids[i].value)
  }

  /** An operator applied to the outcomes of the children, once none of them
      raised: `+` and `*` raise on a child without a value, `exp` looks only
      at the first child (and gives 1 without children), any other token
      gives no value. */
  function Apply(op: string, kids: seq<Outcome>, exp: real -> real): (r: Outcome)
    requires Raised !in kids
    ensures r.Absent? <==> !IsOperator(op)
  {
    if op == "+" then
      if Absent in kids then Raised else Val(Sum(ValuesOf(kids)))
    else if op == "*" then
      if Absent in kids then Raised else Val(Product(ValuesOf(kids)))
    else if op == "exp" then
      if kids == [] then Val(1.0)
      else if kids[0].Absent? then Raised
      else Val(exp(kids[0].value))
    else Absent
  }

  /** The outcome of evaluating `v` from scratch. */
  function Denote(g: Adjacency, ops: map<Vertex, string>, exp: real -> real, v: Vertex): Outcome
    requires !HasCycle(g)
    decreases |ReachSet(g, v)|, 1
  {
    if v !in ops then Absent
    else if IsNumber(ops[v]) then
      if Entries(g, v) != [] then Absent else Val(NumberValue(ops[v]))
    else
      ByOrdEdges(g, v);
      var kids := Kids(g, ops, exp, v, ByOrd(Entries(g, v)));
      if Raised in kids then Raised else Apply(ops[v], kids, exp)
  }

  /** The outcomes of the children in `cs`, in order. */
  function Kids(g: Adjacency, ops: map<Vertex, string>, exp: real -> real, v: Vertex, cs: seq<Entry>): (kids: seq<Outcome>)
    requires !HasCycle(g) && EdgesFrom(g, v, cs)
    ensures |kids| == |cs|
    decreases |ReachSet(g, v)|, 0, |cs|
  {
    if cs == [] then []
    else
      EdgesFromTail(g, v, cs);
      ReachShrinks(g, v, cs[0].src);
      [Denote(g, ops, exp, cs[0].src)] + Kids(g, ops, exp, v, cs[1..])
  }

  lemma {:induction false} KidsAt(g: Adjacency, ops: map<Vertex, string>, exp: real -> real, v: Vertex, cs: seq<Entry>, i: nat)
    requires !HasCycle(g) && EdgesFrom(g, v, cs) && i < |cs|
    ensures Kids(g, ops, exp, v, cs)[i] == Denote(g, ops, exp, cs[i].src)
  {
    if i > 0 {
      EdgesFromTail(g, v, cs);
      KidsAt(g, ops, exp, v, cs[1..], i - 1);
    }
  }

  /** Evaluating `v` reports no error anywhere below it. */
  predicate Clean(g: Adjacency, ops: map<Vertex, string>, v: Vertex)
    requires !HasCycle(g)
    decreases |ReachSet(g, v)|, 1
  {
    v in ops &&
    if IsNumber(ops[v]) then Entries(g, v) == []
    else
      ByOrdEdges(g, v);
      IsOperator(ops[v]) && AllClean(g, ops, v, ByOrd(Entries(g, v)))
  }

  predicate AllClean(g: Adjacency, ops: map<Vertex, string>, v: Vertex, cs: seq<Entry>)
    requires !HasCycle(g) && EdgesFrom(g, v, cs)
    decreases |ReachSet(g, v)|, 0, |cs|
  {
    if cs == [] then true
    else
      EdgesFromTail(g, v, cs);
      ReachShrinks(g, v, cs[0].src);
      Clean(g, ops, cs[0].src) && AllClean(g, ops, v, cs[1..])
  }

  lemma {:induction false} AllCleanAt(g: Adjacency, ops: map<Vertex, string>, v: Vertex, cs: seq<Entry>)
    requires !HasCycle(g) && EdgesFrom(g, v, cs)
    ensures AllClean(g, ops, v, cs) <==> forall i :: 0 <= i < |cs| ==> Clean(g, ops, cs[i].src)
  {
    if cs != [] {
      EdgesFromTail(g, v, cs);
      AllCleanAt(g, ops, v, cs[1..]);
      assert forall i :: 0 < i < |cs| ==> cs[i] == cs[1..][i - 1];
    }
  }

  /** A vertex whose evaluation reports no error has a value. */
  lemma {:induction false} CleanHasValue(g: Adjacency, ops: map<Vertex, string>, exp: real -> real, v: Vertex)
    requires !HasCycle(g) && Clean(g, ops, v)
    ensures Denote(g, ops, exp, v).Val?
    decreases |ReachSet(g, v)|
  {
    if !IsNumber(ops[v]) {
      ByOrdEdges(g, v);
      var cs := ByOrd(Entries(g, v));
      var kids := Kids(g, ops, exp, v, cs);
      AllCleanAt(g, ops, v, cs);
      forall i | 0 <= i < |kids| ensures kids[i].Val? {
        KidsAt(g, ops, exp, v, cs, i);
        ReachShrinks(g, v, cs[i].src);
        CleanHasValue(g, ops, exp, cs[i].src);
      }
      assert Raised !in kids && Absent !in kids;
    }
  }

  /** Without children, `+` gives 0, `*` gives 1 and `exp` gives 1. */
  lemma NoChildren(g: Adjacency, ops: map<Vertex, string>, exp: real -> real, v: Vertex)
    requires !HasCycle(g) && v in ops && Entries(g, v) == []
    ensures ops[v] == "+" ==> Denote(g, ops, exp, v) == Val(0.0)
    ensures ops[v] == "*" ==> Denote(g, ops, exp, v) == Val(1.0)
    ensures ops[v] == "exp" ==> Denote(g, ops, exp, v) == Val(1.0)
  {
    assert ByOrd(Entries(g, v)) == [];
  }

  /** `exp` depends on its first child only: a vertex `exp` has the value
      `exp` of its first child whatever the other children give, as long as
      none of them raises. */
  lemma ExpFirstChild(g: Adjacency, ops: map<Vertex, string>, exp: real -> real, v: Vertex)
    requires !HasCycle(g) && v in ops && ops[v] == "exp" && Entries(g, v) != []
    requires !Denote(g, ops, exp, v).Raised?
    ensures
      var first := ByOrd(Entries(g, v))[0].src;
      Denote(g, ops, exp, first).Val? &&
      Denote(g, ops, exp, v) == Val(exp(Denote(g, ops, exp, first).value))
  {
    ByOrdEdges(g, v);
    var cs := ByOrd(Entries(g, v));
    assert |cs| == |Entries(g, v)|;
    KidsAt(g, ops, exp, v, cs, 0);
  }

  /** The value and the cleanliness of a vertex whose operation is not a
      number, in terms of its children in ordinal order. */
  lemma DenoteOperator(g: Adjacency, ops: map<Vertex, string>, exp: real -> real, v: Vertex)
    requires !HasCycle(g) && v in ops && !IsNumber(ops[v])
    ensures EdgesFrom(g, v, ByOrd(Entries(g, v)))
    ensures var kids := Kids(g, ops, exp, v, ByOrd(Entries(g, v)));
      Denote(g, ops, exp, v) == if Raised in kids then Raised else Apply(ops[v], kids, exp)
    ensures Clean(g, ops, v) <==> IsOperator(ops[v]) && AllClean(g, ops, v, ByOrd(Entries(g, v)))
  {
    ByOrdEdges(g, v);
  }

  /** A child that raises makes every operator vertex above it raise: the
      children are evaluated before the token is looked at. */
  lemma ChildRaises(g: Adjacency, ops: map<Vertex, string>, exp: real -> real, v: Vertex, c: Vertex)
    requires !HasCycle(g) && v in ops && !IsNumber(ops[v])
    requires Edge(g, v, c) && Denote(g, ops, exp, c).Raised?
    ensures Denote(g, ops, exp, v).Raised?
  {
    ByOrdEdges(g, v);
    var k := ChildInByOrd(g, v, c);
    var kids := Kids(g, ops, exp, v, ByOrd(Entries(g, v)));
    KidsAt(g, ops, exp, v, ByOrd(Entries(g, v)), k);
    assert kids[k] == Raised;
  }

  /** `sum` and `math.prod` need a value from every child: a `+` or `*`
      vertex raises exactly when some child raises or has no value. */
  lemma ArithmeticNeedsValues(g: Adjacency, ops: map<Vertex, string>, exp: real -> real, v: Vertex)
    requires !HasCycle(g) && v in ops && (ops[v] == "+" || ops[v] == "*")
    ensures Denote(g, ops, exp, v).Raised? <==>
            exists c :: Edge(g, v, c) && !Denote(g, ops, exp, c).Val?
  {
    ByOrdEdges(g, v);
    var cs := ByOrd(Entries(g, v));
    var kids := Kids(g, ops, exp, v, cs);
    assert !IsNumber(ops[v]) by {
      assert '.' !in ops[v] && !Text.IsDigit(ops[v][0]);
    }
    if Denote(g, ops, exp, v).Raised? {
      assert Raised in kids || Absent in kids;
      var k :| 0 <= k < |kids| && !kids[k].Val?;
      KidsAt(g, ops, exp, v, cs, k);
      assert Edge(g, v, cs[k].src);
    }
    if c :| Edge(g, v, c) && !Denote(g, ops, exp, c).Val? {
      var k := ChildInByOrd(g, v, c);
      KidsAt(g, ops, exp, v, cs, k);
      assert kids[k] in kids;
    }
  }

  lemma AllValues(kids: seq<Outcome>)
    requires Raised !in kids && Absent !in kids
    ensures forall i :: 0 <= i < |kids| ==> kids[i].Val?
  {
    forall i | 0 <= i < |kids| ensures kids[i].Val? {
      assert kids[i] in kids;
    }
  }

  lemma SnocSlice<T>(s: seq<T>, k: nat)
    requires k < |s|
    ensures s[..k + 1] == s[..k] + [s[k]]
  {
  }

  lemma NoneRaised(outs: seq<Outcome>)
    requires Raised !in outs
    ensures forall j :: 0 <= j < |outs| ==> !outs[j].Raised?
  {
    forall j | 0 <= j < |outs| ensures !outs[j].Raised? {
      assert outs[j] in outs;
    }
  }

  /** The error list stays empty through the first `i + 1` roots exactly
      when they are all clean. */
  lemma CleanRootsStep(g: Adjacency, ops: map<Vertex, string>, roots: seq<Vertex>, i: nat,
                       before: seq<EvalError>, after: seq<EvalError>)
    requires !HasCycle(g) && i < |roots| && before <= after
    requires before == [] <==> forall j :: 0 <= j < i ==> Clean(g, ops, roots[j])
    requires before == [] ==> (after == [] <==> Clean(g, ops, roots[i]))
    ensures after == [] <==> forall j :: 0 <= j < i + 1 ==> Clean(g, ops, roots[j])
  {
  }

  lemma RaisedAt(kids: seq<Outcome>, k: nat)
    requires k < |kids| && kids[k] == Raised
    ensures Raised in kids
  {
  }

  /** The error list stays empty through the first `k + 1` children exactly
      when they are all clean. */
  lemma CleanPrefixStep(g: Adjacency, ops: map<Vertex, string>, cs: seq<Entry>, k: nat,
                        start: seq<EvalError>, before: seq<EvalError>, after: seq<EvalError>)
    requires !HasCycle(g) && k < |cs|
    requires start <= before <= after
    requires start == [] ==> (before == [] <==> forall j :: 0 <= j < k ==> Clean(g, ops, cs[j].src))
    requires before == [] ==> (after == [] <==> Clean(g, ops, cs[k].src))
    ensures start == [] ==> (after == [] <==> forall j :: 0 <= j < k + 1 ==> Clean(g, ops, cs[j].src))
  {
  }

  /** Every value in `after` was already in `before` unchanged: a cached
      result is never overwritten. */
  predicate CacheGrows(before: map<Vertex, real>, after: map<Vertex, real>) {
    forall u :: u in before ==> u in after && after[u] == before[u]
  }

  /** Every cached value is the value of its vertex. */
  ghost predicate Sound(g: Adjacency, ops: map<Vertex, string>, exp: real -> real, memo: map<Vertex, real>)
    requires !HasCycle(g)
  {
    forall u :: u in memo ==> Denote(g, ops, exp, u) == Val(memo[u])
  }

  /** Every cached vertex is clean. */
  ghost predicate AllCached(g: Adjacency, ops: map<Vertex, string>, memo: map<Vertex, real>)
    requires !HasCycle(g)
  {
    forall u :: u in memo ==> Clean(g, ops, u)
  }

  lemma SoundAdd(g: Adjacency, ops: map<Vertex, string>, exp: real -> real, memo: map<Vertex, real>, v: Vertex, x: real)
    requires !HasCycle(g) && Sound(g, ops, exp, memo) && Denote(g, ops, exp, v) == Val(x)
    ensures Sound(g, ops, exp, memo[v := x])
  {
  }

  lemma CleanAdd(g: Adjacency, ops: map<Vertex, string>, memo: map<Vertex, real>, v: Vertex, x: real)
    requires !HasCycle(g) && AllCached(g, ops, memo) && Clean(g, ops, v)
    ensures AllCached(g, ops, memo[v := x])
  {
  }

  /** The state shared by the nested `calculate` calls: the cache `res_lst`
      and the error list. */
  class Evaluation {
    const g: Adjacency
    const ops: map<Vertex, string>
    const exp: real -> real
    var memo: map<Vertex, real>
    var errors: seq<EvalError>

    /** Every cached value is the value of its vertex, and while no error
        has been reported every cached vertex is clean. */
    ghost predicate Valid()
      reads this
    {
      && !HasCycle(g)
      && Sound(g, ops, exp, memo)
      && (errors == [] ==> AllCached(g, ops, memo))
    }

    constructor (g: Adjacency, ops: map<Vertex, string>, exp: real -> real)
      requires !HasCycle(g)
      ensures this.g == g && this.ops == ops && this.exp == exp
      ensures memo == map[] && errors == [] && Valid()
    {
      this.g, this.ops, this.exp := g, ops, exp;
      memo, errors := map[], [];
    }

    /** `calculate(v, edges, opers, res_lst, errors)`: the outcome is the
        value of `v` whatever is cached; only vertices reachable from `v`
        are added to the cache, only on success, and never changed; an
        evaluation that starts without errors ends without errors exactly
        when `v` is clean. */
    method Calculate(v: Vertex) returns (r: Outcome)
      requires Valid()
      modifies this
      decreases |ReachSet(g, v)|, 2
      ensures Valid() && CacheGrows(old(memo), memo) && old(errors) <= errors
      ensures r == Denote(g, ops, exp, v)
      ensures v in memo <==> r.Val?
      ensures memo.Keys <= old(memo).Keys + ReachSet(g, v)
      ensures v in old(memo) ==> memo == old(memo) && errors == old(errors)
      ensures v !in old(memo) && v !in ops ==> memo == old(memo) && errors == old(errors) + [NoOperation(v)]
      ensures v !in old(memo) && v in ops && IsNumber(ops[v]) && Entries(g, v) != [] ==>
        memo == old(memo) && errors == old(errors) + [ConstantWithChildren(v)]
      ensures v !in old(memo) && v in ops && !IsNumber(ops[v]) && !IsOperator(ops[v]) && !r.Raised? ==>
        |errors| > |old(errors)| && errors[|errors| - 1] == UnknownOperation(ops[v], v)
      ensures old(errors) == [] && !r.Raised? ==> (errors == [] <==> Clean(g, ops, v))
    {
      ReachSelf(g, v);
      if v in memo {
        return Val(memo[v]);
      }
      if v !in ops {
        errors := errors + [NoOperation(v)];
        return Absent;
      }
      var operation := ops[v];
      if IsNumber(operation) {
        if Entries(g, v) != [] {
          errors := errors + [ConstantWithChildren(v)];
          return Absent;
        }
        var result := NumberValue(operation);
        memo := memo[v := result];
        return Val(result);
      }
      r := CalculateOperator(v);
    }

    /** The branch of `calculate` for a vertex whose operation is not a
        number: its children first, in ordinal order, then the operator. */
    method CalculateOperator(v: Vertex) returns (r: Outcome)
      requires Valid() && v !in memo && v in ops && !IsNumber(ops[v])
      modifies this
      decreases |ReachSet(g, v)|, 1
      ensures Valid() && CacheGrows(old(memo), memo) && old(errors) <= errors
      ensures r == Denote(g, ops, exp, v)
      ensures v in memo <==> r.Val?
      ensures memo.Keys <= old(memo).Keys + ReachSet(g, v)
      ensures !IsOperator(ops[v]) && !r.Raised? ==>
        |errors| > |old(errors)| && errors[|errors| - 1] == UnknownOperation(ops[v], v)
      ensures old(errors) == [] && !r.Raised? ==> (errors == [] <==> Clean(g, ops, v))
    {
      ReachSelf(g, v);
      var operation := ops[v];
      DenoteOperator(g, ops, exp, v);
      var children := ByOrd(Entries(g, v));
      var kids, raised := CalculateAll(v, children);
      if raised {
        return Raised;
      }
      r := Apply(operation, kids, exp);
      if r.Absent? {
        errors := errors + [UnknownOperation(operation, v)];
        return;
      }
      if r.Raised? {
        return;
      }
      assert r == Denote(g, ops, exp, v) && Clean(g, ops, v) == AllClean(g, ops, v, children);
      if errors == [] {
        CleanAdd(g, ops, memo, v, r.value);
      }
      SoundAdd(g, ops, exp, memo, v, r.value);
      memo := memo[v := r.value];
    }

    /** `[calculate(child[1], ...) for child in children]`: the children in
        order, stopping at the first one that raises. */
    method CalculateAll(v: Vertex, cs: seq<Entry>) returns (kids: seq<Outcome>, raised: bool)
      requires Valid() && EdgesFrom(g, v, cs)
      modifies this
      decreases |ReachSet(g, v)|, 0
      ensures Valid() && CacheGrows(old(memo), memo) && old(errors) <= errors
      ensures raised <==> Raised in Kids(g, ops, exp, v, cs)
      ensures !raised ==> kids == Kids(g, ops, exp, v, cs)
      ensures memo.Keys <= old(memo).Keys + (ReachSet(g, v) - {v})
      ensures old(errors) == [] && !raised ==> (errors == [] <==> AllClean(g, ops, v, cs))
    {
      ghost var all := Kids(g, ops, exp, v, cs);
      AllCleanAt(g, ops, v, cs);
      kids := [];
      var k := 0;
      while k < |cs|
        invariant 0 <= k <= |cs| && kids == all[..k] && Raised !in kids
        invariant Valid() && CacheGrows(old(memo), memo) && old(errors) <= errors
        invariant memo.Keys <= old(memo).Keys + (ReachSet(g, v) - {v})
        invariant old(errors) == [] ==> (errors == [] <==> forall j :: 0 <= j < k ==> Clean(g, ops, cs[j].src))
      {
        var child := cs[k].src;
        ReachSubset(g, v, child);
        ReachShrinks(g, v, child);
        KidsAt(g, ops, exp, v, cs, k);
        ghost var before := errors;
        var c := Calculate(child);
        if c.Raised? {
          RaisedAt(all, k);
          return kids, true;
        }
        CleanPrefixStep(g, ops, cs, k, old(errors), before, errors);
        SnocSlice(all, k);
        kids := kids + [c];
        k := k + 1;
      }
      assert kids == all;
      raised := false;
    }
  }

  /** What `process_graph` ends with (the file it writes and the messages it
      prints are not modelled). */
  datatype GraphResult =
      /** `read_operations` raised on this line. */
    | BadOperationLine(line: string)
    | CycleFound
      /** No vertex has out-degree 0. */
    | NoRoot
      /** Evaluating a root raised. */
    | Crashed
    | Failed(errors: seq<EvalError>)
      /** One value per root; the first is the one written to the output. */
    | Values(results: seq<real>)

  /** The loop of `process_graph` over the roots, with one shared cache and
      error list: it stops at the first root whose evaluation raises;
      otherwise it gives the outcome of every root, and the error list is
      empty exactly when every root is clean. */
  method EvaluateRoots(g: Adjacency, ops: map<Vertex, string>, exp: real -> real, roots: seq<Vertex>)
    returns (crashed: bool, outs: seq<Outcome>, errors: seq<EvalError>)
    requires !HasCycle(g)
    ensures crashed <==> exists i :: 0 <= i < |roots| && Denote(g, ops, exp, roots[i]).Raised?
    ensures !crashed ==> |outs| == |roots| && forall i :: 0 <= i < |roots| ==> outs[i] == Denote(g, ops, exp, roots[i])
    ensures !crashed ==> (errors == [] <==> forall i :: 0 <= i < |roots| ==> Clean(g, ops, roots[i]))
  {
    var eval := new Evaluation(g, ops, exp);
    ghost var all := seq(|roots|, j requires 0 <= j < |roots| => Denote(g, ops, exp, roots[j]));
    outs := [];
    var i := 0;
    while i < |roots|
      invariant 0 <= i <= |roots| && outs == all[..i] && Raised !in outs
      invariant eval.Valid() && eval.g == g && eval.ops == ops && eval.exp == exp
      invariant eval.errors == [] <==> forall j :: 0 <= j < i ==> Clean(g, ops, roots[j])
    {
      ghost var before := eval.errors;
      var c := eval.Calculate(roots[i]);
      if c.Raised? {
        assert Denote(g, ops, exp, roots[i]).Raised?;
        return true, outs, eval.errors;
      }
      CleanRootsStep(g, ops, roots, i, before, eval.errors);
      SnocSlice(all, i);
      outs := outs + [c];
      i := i + 1;
    }
    assert outs == all;
    NoneRaised(outs);
    forall j | 0 <= j < |roots| ensures !Denote(g, ops, exp, roots[j]).Raised? {
      assert outs[j] == all[j];
    }
    crashed, errors := false, eval.errors;
  }

  /** `process_graph` on a loaded graph (the vertex set enumerated in
      `order`) and the lines of the operation file. */
  method ProcessGraph(vertices: set<Vertex>, edges: Adjacency, outDeg: map<Vertex, nat>,
                      order: seq<Vertex>, lines: seq<string>, exp: real -> real)
    returns (r: GraphResult)
    requires Elems(order) == vertices && NoDuplicates(order)
    ensures var table := Table(ReadLines(Body(lines)));
      && (r.BadOperationLine? <==> table.Err?)
      && (r.BadOperationLine? ==> r.line == table.error)
      && (table.Ok? ==> (r.CycleFound? <==> HasCycle(edges)))
      && (table.Ok? && !HasCycle(edges) ==>
            (r.NoRoot? <==> forall v :: v in vertices ==> Degree(outDeg, v) != 0))
    ensures r.Crashed? || r.Failed? || r.Values? ==>
      var ops, roots := Table(ReadLines(Body(lines))).value, Roots(order, outDeg);
      && Table(ReadLines(Body(lines))).Ok? && !HasCycle(edges) && roots != []
      && (r.Crashed? <==> exists i :: 0 <= i < |roots| && Denote(edges, ops, exp, roots[i]).Raised?)
      && (r.Failed? <==> (forall i :: 0 <= i < |roots| ==> !Denote(edges, ops, exp, roots[i]).Raised?) &&
                          exists i :: 0 <= i < |roots| && !Clean(edges, ops, roots[i]))
      && (r.Failed? ==> r.errors != [])
      && (r.Values? ==> |r.results| == |roots|)
      && (r.Values? ==> forall i :: 0 <= i < |roots| ==>
            Clean(edges, ops, roots[i]) && Denote(edges, ops, exp, roots[i]) == Val(r.results[i]))
  {
    var table := ReadOperations(lines);
    if table.Err? {
      return BadOperationLine(table.error);
    }
    var opers := table.value;
    var cyclic := DetectCycle(edges);
    if cyclic {
      return GraphResult.CycleFound;
    }
    var roots := Roots(order, outDeg);
    RootsEmpty(order, outDeg);
    if roots == [] {
      return GraphResult.NoRoot;
    }
    var crashed, outs, errors := EvaluateRoots(edges, opers, exp, roots);
    if crashed {
      return Crashed;
    }
    if errors != [] {
      return Failed(errors);
    }
    forall j | 0 <= j < |outs| ensures outs[j].Val? {
      CleanHasValue(edges, opers, exp, roots[j]);
    }
    return Values(ValuesOf(outs));
  }
}
