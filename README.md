# Expression graphs: arcs, functions and values

A model, in Dafny, of the three Practice scripts of the repository. Together
they turn a text list of arcs into a computation graph, print the function
that graph stands for, and evaluate it.

- **Reading the arcs** (`Practice/nntask1.py`, `read_txt`). Every line of the
  arc file is normalised and cut into fragments. Each fragment must match
  `(word, word, digits)`, which reads as "source is the ord-th argument of
  target". Three kinds of error are reported, each with its line number:
  - a malformed fragment;
  - an ordinal of a target that is already taken by another arc;
  - a source/target pair that carries two different ordinals.
- **The record written after a clean parse** (`to_xml`). It holds the
  vertices in order of first appearance, source before target, and the arcs
  verbatim.
- **Loading the record** (`Practice/nntask2.py`, `read_xml`). The arcs are
  inverted into a map from each target to its `(ord, from)` pairs. Each list
  is sorted, and the out-degree of every source is counted.
- **Cycle detection** (`detect_cycle`). A depth-first search with a visited
  set and an on-stack set.
- **Counting reachable vertices** (`count_reachable`).
- **The function text** (`bldr`, `to_fun`). Every root, meaning a vertex no
  arc leaves, is printed as `name(child, child, ...)`, children in ordinal
  order. Roots reaching more vertices come first.
- **The operation table** (`Practice/nntask3.py`, `read_operations`). Each
  line between the first and the last is `name : token`.
- **Evaluation** (`calculate`, `process_graph`). Every root is evaluated with
  one shared cache and one shared error list. A token is a number, `+`, `*`
  or `exp`. Three conditions are reported as errors and give no value:
  - a vertex without an operation;
  - a constant with children;
  - an unknown operator.

  Applying `+`, `*` or `exp` to a child without a value raises an exception
  that ends the run.

The parts of the source that update state keep that form here:
- the arc parser is a class whose methods update its vertex set, arc list,
  error list and ordinal tables;
- the cycle search, the reach counter and the evaluator are classes holding
  the state shared by their recursive calls;
- the loops are `while` loops.

Each of these is proved against a pure specification. Examples are
`StepArc`/`StepLines` for the parser, `FirstOccurrences` for the vertex
order, `HasCycle` and `ReachSet` for the graph searches, `Repr`/`Unfold` for
the printed function, and `Denote`/`Clean` for evaluation. The properties
of those functions are then proved as lemmas.

Inputs that the scripts read from files are parameters:
- the lines of the arc file;
- the record handed from `to_xml` to `read_xml`;
- the lines of the operation file.

Python's iteration order over the vertex set is the parameter `order`, and
`math.exp` is the parameter `exp`.

## Model

| member | source | states |
|---|---|---|
| ArcGrammar.MatchSpaced | Practice/nntask1.py:9 | a text `(a, b, n)` with word names `a` and `b` and decimal digits `n`, blanks allowed around every part, matches as the arc `(a, b, int(n))`, whatever follows the closing bracket |
| ArcGrammar.MatchTripleShape | Practice/nntask1.py:9 | conversely, every text that matches is of that form (bracket, blanks, word, blanks, comma, blanks, word, blanks, comma, blanks, digits, blanks, bracket, then anything), and the arc is made of exactly those words and the value of those digits |
| ArcParserSpec.Classify | Practice/nntask1.py:21-26 | an empty fragment is skipped; a non-empty one that fails the grammar is an error carrying the fragment in brackets; otherwise it is the triple the bracketed fragment matches as |
| ArcParserSpec.Lookup | Practice/nntask1.py:32-33 | the recorded source of an ordinal is found exactly when some recorded entry has that ordinal, and it is that entry's source |
| ArcParserSpec.PairConflictsMembers | Practice/nntask1.py:39-42 | a pair conflict is reported for every recorded ordinal other than the arc's that the same source holds on the target, and only for those |
| ArcParserSpec.StepArcFacts | Practice/nntask1.py:27-37 | a matched arc adds its endpoints and is appended even when it conflicts; a taken ordinal is reported first with the source recorded for it, which keeps the ordinal; no other target's table changes |
| ArcParserSpec.StepArcInv | Practice/nntask1.py:27-42 | recording an arc keeps the vertex set equal to the arc endpoints and keeps each target table with distinct ordinals, entries only from recorded arcs, and an entry for every recorded arc |
| ArcParserSpec.StepArcClean | Practice/nntask1.py:32-42 | from an error-free state, an arc raises no error exactly when no earlier arc into the same target has its ordinal or its source |
| ArcParserSpec.StepFragmentArcs | Practice/nntask1.py:21-45 | one fragment appends exactly its matched triple, keeps the earlier errors in front, and reports a malformed fragment in brackets with its line |
| ArcParserSpec.StepFragmentsMalformed | Practice/nntask1.py:44-45 | every malformed fragment of a line is reported with that line number |
| ArcParserSpec.StepLinesBasic | Practice/nntask1.py:18-46 | after all lines the vertex set is the set of arc endpoints and the arcs are every matched triple in input order, conflicting ones included |
| ArcParserSpec.StepLinesPrefix | Practice/nntask1.py:18-46 | reading more lines only appends to the errors and to the arcs |
| ArcParserSpec.StepLinesMalformed | Practice/nntask1.py:44-45 | a malformed fragment on line `i + 1` is among the errors with that line number |
| ArcParserSpec.ErrorFreeIffConsistent | Practice/nntask1.py:18-46 | no error is reported exactly when every fragment is well formed, no two arcs into one target share an ordinal, and no source/target pair has two ordinals |
| ArcParser.Parser.RecordArc | Practice/nntask1.py:27-42 | the parser state after one matched arc is `StepArc` of the state before; the arc is appended and its endpoints join the vertex set |
| ArcParser.Parser.ProcessFragment | Practice/nntask1.py:21-45 | one fragment performs `StepFragment`; an empty fragment changes nothing; a malformed one only appends its error |
| ArcParser.Parser.ProcessLine | Practice/nntask1.py:20-45 | a line is normalised, split on `),(`, and its fragments are processed in order, as `StepFragments` |
| ArcParser.ReadArcs | Practice/nntask1.py:8-46 | the result is `StepLines` of the numbered lines; the vertices are the endpoints of the arcs; the arcs are the accepted triples in order; no error exactly when all fragments are well formed and the arcs consistent |
| GraphBuilder.EndpointSeqElems | Practice/nntask1.py:53-59 | the scanned endpoints, source before target, are exactly the arc endpoints |
| GraphBuilder.FirstOccurrencesSpec | Practice/nntask1.py:50-59 | dropping repeats leaves every scanned vertex once, no other vertex, in order of first occurrence |
| GraphBuilder.CanonicalRecord | Practice/nntask1.py:50-69 | the vertex list is the first occurrences of the scanned endpoints: no duplicates, exactly the arc endpoints, in order of first appearance; the arc list is the input unchanged |
| Sorting.SortBySorted | Practice/nntask2.py:82 | sorting by an integer key gives a list ordered by the key that is a permutation of the input |
| Sorting.SortByStable | Practice/nntask2.py:82 | the sort is stable: elements with equal keys keep their relative order |
| Sorting.SortByIdentity | Practice/nntask2.py:82 | a list already ordered by the key is left unchanged |
| GraphLoader.Insert | Practice/nntask2.py:27 | inserting into a list sorted by `(ord, from)` gives a sorted list holding the old elements and the new one |
| GraphLoader.SortEntries | Practice/nntask2.py:27 | sorting one child list gives a sorted permutation of it |
| GraphLoader.SortedUnique | Practice/nntask2.py:26-27 | two sorted lists with the same elements are equal, so a sorted child list does not depend on the arc order |
| GraphLoader.OutCountZero | Practice/nntask2.py:24 | a vertex has out-degree 0 exactly when no arc leaves it |
| GraphLoader.InvertStep | Practice/nntask2.py:22-24 | one arc appends its `(ord, from)` pair to its target's list and adds one to its source's out-degree |
| GraphLoader.InvertArcs | Practice/nntask2.py:18-24 | the keys are exactly the targets; each list holds the pairs of the arcs into it, in arc order; every out-degree counts the arcs leaving the vertex |
| GraphLoader.SortChildLists | Practice/nntask2.py:26-27 | the keys are unchanged and each list becomes a sorted permutation of itself |
| GraphLoader.Load | Practice/nntask2.py:5-30 | the vertices are those of the record; only targets are keys; each child list is the sorted permutation of the pairs into its target; out-degrees count outgoing arcs |
| CycleDetector.FinishOrderAcyclic | Practice/nntask2.py:54-57 | if every key has finished and finishing times decrease along every edge, there is no cycle |
| CycleDetector.Search.Push | Practice/nntask2.py:46-47 | the vertex becomes visited and goes onto the stack; the search invariant is kept |
| CycleDetector.Search.Pop | Practice/nntask2.py:51 | a vertex whose children have all finished leaves the stack and gets the next finishing time; the invariant is kept |
| CycleDetector.Search.Visit | Practice/nntask2.py:39-52 | `true` only when the graph has a cycle; `false` leaves the stack as it was, keeps every earlier finishing time and finishes the vertex |
| CycleDetector.Search.VisitChildren | Practice/nntask2.py:48-50 | stops with `true` only on a cycle; otherwise every child has finished and the vertex is still on the stack |
| CycleDetector.DetectCycle | Practice/nntask2.py:33-57 | the result is `true` exactly when the child map has a cycle |
| Reach.Counter.Count | Practice/nntask2.py:59-70 | the count is the number of vertices this call adds to the shared visited set; the vertex is visited afterwards |
| Reach.Counter.CountChildren | Practice/nntask2.py:66-68 | every child ends up visited, and the sum is the number of vertices added on the way |
| Reach.Counter.CountChild | Practice/nntask2.py:67-68 | a child not yet visited is counted; the child is visited afterwards |
| Reach.CountReachable | Practice/nntask2.py:59-70 | with a fresh visited set the count is the number of distinct vertices reachable from the vertex, itself included, and at least 1 |
| FunctionText.ByOrdEdges | Practice/nntask2.py:82 | every entry of the sorted child list is an edge out of the vertex |
| FunctionText.LoadedListInOrder | Practice/nntask2.py:82 | a child list as loaded is already in ordinal order, so sorting it again by ordinal changes nothing |
| FunctionText.ParseShow | Practice/nntask2.py:85 | the printed form `name(arg, ...)` of a tree with word names reads back as that tree, whatever follows it |
| FunctionText.ReprShowsTree | Practice/nntask2.py:73-85 | `bldr` prints exactly the expression tree of the vertex: its name, then the trees of its children in ordinal order |
| FunctionText.ReprParses | Practice/nntask2.py:73-85 | the text `bldr` builds reads back as exactly the expression tree of the vertex |
| FunctionText.Roots | Practice/nntask2.py:95 | a vertex is a root exactly when it is listed and has out-degree 0 |
| FunctionText.RootsEmpty | Practice/nntask2.py:97-98 | there is no root exactly when every vertex has an outgoing arc |
| FunctionText.RankedOrder | Practice/nntask2.py:103 | the ranked roots are a permutation of the roots by non-increasing reach; roots with equal reach keep their order |
| FunctionText.CountedKey | Practice/nntask2.py:103 | sorting by the counted reach sizes is sorting by the sizes of the reach sets |
| FunctionText.CountAll | Practice/nntask2.py:103 | every root gets its key, the number of vertices it reaches |
| FunctionText.PrintAll | Practice/nntask2.py:103-104 | the texts are the `bldr` texts of the roots, in order |
| FunctionText.ToFun | Practice/nntask2.py:87-113 | the cycle error exactly when there is a cycle; otherwise the no-root error exactly when every vertex has outgoing arcs; otherwise the root texts, largest reach first, joined by `, ` |
| Operations.OperationLineOf | Practice/nntask3.py:16-18 | a line written as name, blanks, colon, blanks, token is read as exactly that name and token |
| Operations.OperationLineShape | Practice/nntask3.py:16-18 | conversely, every line that matches is its name, blanks, a colon, blanks and its token, followed by nothing or by whitespace: the name is a run of word characters and the token a run of non-blank characters, each as long as it can be |
| Operations.ReadOperations | Practice/nntask3.py:10-22 | the result is the table the lines between the first and the last describe, or the first malformed line |
| Operations.TableErr | Practice/nntask3.py:14-21 | reading fails exactly when some line is malformed, and then it names the first such line, stripped |
| Operations.TableKeys | Practice/nntask3.py:14-19 | with every line well formed, the vertices of the table are exactly the names on the lines |
| Operations.TableLastWins | Practice/nntask3.py:19 | a vertex maps to the token of the last line naming it |
| Operations.NumberShape | Practice/nntask3.py:31 | a token counts as a number exactly when it is all digits, or digits with one point and at least one digit |
| Operations.PointOfNumber | Practice/nntask3.py:31 | a numeric token that is not all digits has its single point at its first `.` |
| Operations.NumberOfPoint | Practice/nntask3.py:31 | digits, one point, digits, with at least one digit, pass the number test |
| Evaluator.Apply | Practice/nntask3.py:39-47 | only `+`, `*` and `exp` give an outcome other than "no value" |
| Evaluator.NoChildren | Practice/nntask3.py:39-44 | without children, `+` gives 0, `*` gives 1 and `exp` gives 1 |
| Evaluator.ExpFirstChild | Practice/nntask3.py:43-44 | `exp` depends only on its first child: the value is `exp` of that child's value |
| Evaluator.ChildRaises | Practice/nntask3.py:36-38 | a child that raises makes every operator vertex above it raise, whatever its token, since the children are evaluated before the token is looked at |
| Evaluator.ArithmeticNeedsValues | Practice/nntask3.py:38-42 | a `+` or `*` vertex raises exactly when some child raises or has no value |
| Evaluator.CleanHasValue | Practice/nntask3.py:24-49 | a vertex whose evaluation reports no error has a value |
| Evaluator.Evaluation.Calculate | Practice/nntask3.py:24-49 | the outcome is the value of the vertex whatever is cached. A cached vertex changes nothing. Otherwise the missing operation and the constant with children are each reported as their own error, and an unknown operator is reported last. The cache only grows, only on success, only with vertices the vertex reaches. Starting clean, it ends clean exactly when the vertex is clean |
| Evaluator.Evaluation.CalculateOperator | Practice/nntask3.py:36-49 | the children are evaluated first, then the operator is applied; an unknown operator is reported after the children's errors; the outcome is the vertex's value |
| Evaluator.Evaluation.CalculateAll | Practice/nntask3.py:37-38 | the children's outcomes in ordinal order, stopping at the first that raises; starting clean, no error exactly when every child is clean |
| Evaluator.EvaluateRoots | Practice/nntask3.py:60-62 | crashes exactly when some root raises; otherwise gives every root's outcome, with no error exactly when every root is clean |
| Evaluator.ProcessGraph | Practice/nntask3.py:52-70 | a malformed operation line comes first, then the cycle error exactly on a cycle, then the no-root error exactly when every vertex has an outgoing arc; after that a crash exactly when some root raises, failure with errors exactly when some root is not clean, and otherwise the values of all roots, each root clean |

## Left out

- File and XML input and output are not modelled:
  - `open`, `readlines`, `ElementTree` parsing and `minidom` pretty-printing;
  - the `.xml` and `.txt` files that are written;
  - `print`;
  - the `main` functions and their `argv` handling.

  The inputs are passed as sequences of lines or as a `Record`, and the
  results are returned values.
- In `to_xml`, only the order of the vertices and of the arcs in the document
  is modelled, not its text.
- In `process_graph`, the file write of `results[0]` and the printed message
  are left out. The result carries all root values or the error list.
- Error messages, with their Russian wording, are datatypes carrying the same
  fields. The `'; '`-joined text of `process_graph` is not built.
- Reals stand for floats:
  - `float(token)` is the exact decimal value;
  - `sum` and `math.prod` are exact sums and products;
  - `math.exp` is the parameter `exp`.

  Rounding, overflow and infinities are not modelled.
- `sum([])`, `math.prod([])` and `exp` without children give the Python
  integers `0`, `1` and `1`, not floats. The model gives the reals `0.0`,
  `1.0` and `1.0`, so it does not show that a written result would read `1`
  rather than `1.0`.
- `read_operations` raises `ValueError` on a malformed line. Here that is the
  result `Err(line)` and `ProcessGraph`'s `BadOperationLine`.
- The `TypeError` that `sum`, `math.prod` or `math.exp` raise on a child
  without a value is the outcome `Raised`. It ends the evaluation as the
  uncaught exception does.
- Python's iteration order over the vertex set is not known. It is the
  parameter `order`, required to list exactly the vertex set, each vertex once, and roots are
  taken in that order.
- `detect_cycle` starts from the dictionary keys in insertion order, that
  is, the targets in the order their first arc was read (Python 3.7 and later
  keep dictionaries in insertion order). The model's child map has no order,
  so it takes the keys in any order. Its result does not depend on that
  order.
- Character classes are ASCII only:
  - `\w`, `\d` and `\s` of the regular expressions;
  - `str.strip()`, `str.isdigit()`.

  The regular-expression engine is modelled only for the two patterns used,
  as hand-written matchers.
- `bldr`'s `path` argument is built but never read, so it is not modelled.
- Values that are computed but never used are not modelled: `vrtcs` in
  `to_xml`, and `in_edgs` in `read_xml`.
- Evaluator.Evaluation.Calculate: does not say which errors the children of
  a vertex add. It says only that the error list grows, and that, starting
  clean, it stays empty exactly when the vertex is clean.
- Evaluator.Evaluation.CalculateOperator: does not say which errors the
  children add, only where the unknown-operator error goes.
- Evaluator.Evaluation.CalculateAll: does not say which errors the children
  add, only that there are none exactly when every child is clean.
- Evaluator.EvaluateRoots: does not say which errors the roots add, only
  that there are none exactly when every root is clean.
- Evaluator.ProcessGraph: does not say which errors a failed run lists, only
  that the list is not empty.
- Python's recursion limit (1000 frames by default) is not modelled. `visit`
  in `detect_cycle`, `count_reachable`, `bldr` and `calculate` recurse once
  per vertex on the current path, so on a long enough path the program
  stops with a `RecursionError`. The model has no such limit: it gives the
  result that unbounded recursion would give.
