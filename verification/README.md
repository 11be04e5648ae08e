# react-spreadsheet engine core in Dafny

This project models the computational core of react-spreadsheet, the part
that tracks which cells reference which other cells and keeps the evaluated
sheet up to date:

- the point hash (`src/engine/point-hash.ts`): the `"row,column"` strings that
  key every set and map of the engine, with its decoder;
- the immutable point set (`src/engine/point-set.ts`);
- the sparse matrix of cells (`src/core/matrix.ts`): rows that may be holes,
  the first row's length as the column count, copy-on-write updates, the
  batched `setMultiple`, padding, slicing, mapping, flattening and joining;
- the reference graph (`src/engine/point-graph.ts`): forward edges from a
  formula cell to the cells it refers to, the lazily built backwards cache,
  the transitive dependents, circular-dependency detection, and the
  dependency-ordered traversal;
- the engine (`src/engine/engine.ts`): the `Model` of raw data, reference
  graph and evaluated data, building the graph and the evaluated data from a
  sheet, and the incremental `updateCellValue` with its circular and acyclic
  branches.

One Dafny module per source file: `PointHash`, `PointSets`, `Matrix`,
`PointGraphs`, `Engine`, plus `Wrappers` for `Option`. Pure code is written as
functions and lemmas. The loops of the source are methods with loop
invariants, each proved against a specification function. The graph's
backwards cache, which the source fills in place, is a field of the class
`PointGraph` that its methods update under `modifies`. `Model` is a class
whose constructor builds what it is not given.

The formula module (`src/engine/formula.ts`) and the third-party formula
parser are not part of this model. They are abstracted as a `Formulas`
record: a predicate telling formulas apart, a function giving a formula's
references, an evaluation that returns a value or throws, and the
reference-error value. A formula parser bound to a data snapshot is
identified with that snapshot.

### Where the code departs from its own documentation

- The doc comment of `slice` (`src/core/matrix.ts:28`) says the end point is
  excluded. The loops run up to and including it. `Matrix.Slice` follows the
  loops.
- In the error-marking walk of a circular write (`src/engine/engine.ts:85-100`)
  the `visited` set starts with the written point, and the transitive
  dependents it iterates are distinct. So the guard can only ever see the
  written point repeat, and its `break` then leaves every dependent listed
  after it with a stale value, although those dependents depend on the cycle
  too. `Engine.MarkDependents` models the `break`. The walk that skips the
  repeat and goes on is `Engine.MarkDependentsFixed` (see Findings).
- `hasCircularDependency` (`src/engine/point-graph.ts:99-127`) is documented
  as detecting a circular dependency, but it keeps one visited set for the
  whole depth-first search. So it also answers true when two paths from the
  start reach the same cell, with no cycle at all. The model keeps this
  behaviour and proves it on a diamond (`PointGraphs.DiamondReported`).

## Model

| member | source | states |
|---|---|---|
| PointHash.NatToDecimal | src/engine/point-hash.ts:8 | a natural number prints as a non-empty run of digits with no leading zero |
| PointHash.IntToDecimal | src/engine/point-hash.ts:8 | a coordinate prints without a comma, so the comma of the hash separates the two coordinates |
| PointHash.IndexOf | src/engine/point-hash.ts:16 | `indexOf`: the first index of the character, or -1 exactly when it does not occur |
| PointHash.Substring | src/engine/point-hash.ts:18-19 | `substring` with in-range, ordered bounds is the plain slice |
| PointHash.DigitPrefixLength | src/engine/point-hash.ts:18-19 | the run `parseInt` reads is all digits and ends at the first non-digit |
| PointHash.ParseIntOfDecimal | src/engine/point-hash.ts:8 | `parseInt` reads back every integer a template literal prints, negative ones included |
| PointHash.ToStringShape | src/engine/point-hash.ts:7-9 | the hash holds exactly one comma, with the row's digits before it and the column's after it |
| PointHash.FromStringSplitsAtFirstComma | src/engine/point-hash.ts:15-21 | the decoder parses the text before the first comma as the row and the rest as the column |
| PointHash.FromStringWithoutComma | src/engine/point-hash.ts:16-18 | a hash without a comma decodes to a NaN row, because `substring(0, -1)` is empty |
| PointHash.RoundTrip | src/engine/point-hash.ts:7-21 | `fromString(toString(p)) == p` for every point |
| PointHash.Injective | src/engine/point-hash.ts:7-9 | distinct points have distinct hashes, so sets of hashes and sets of points determine each other |
| PointSets.DistinctCardinality | src/engine/point-set.ts:11-17 | a list without repeats is as long as the set of its points |
| PointSets.DistinctBound | src/engine/point-set.ts:11-17 | a list without repeats drawn from a set is no longer than that set |
| PointSets.From | src/engine/point-set.ts:11-17 | `from`: holds exactly the listed points; its size is at most the list length, and equal to it when the list has no repeats |
| PointSets.PointSet.Add | src/engine/point-set.ts:40-48 | `add`: the point is present and no other membership changes; the receiver is returned unchanged when the point was already there; the size grows by one exactly when it was absent |
| PointSets.PointSet.Delete | src/engine/point-set.ts:51-59 | `delete`: the point is absent and no other membership changes; the receiver is returned when the point was absent; the size shrinks by one exactly when it was present |
| PointSets.PointSet.Difference | src/engine/point-set.ts:62-77 | `difference`: exactly the points not in the other set; the receiver itself when the other set is empty or disjoint |
| PointSets.PointSet.Union | src/engine/point-set.ts:80-96 | `union`: exactly the points of either set; the receiver when the other adds nothing; the other set when the receiver is empty |
| PointSets.PointSet.Elements | src/engine/point-set.ts:99-103 | iteration yields every member exactly once |
| Matrix.Holes | src/core/matrix.ts:13-15 | `Array(n)`: n empty slots |
| Matrix.Assign | src/core/matrix.ts:62 | writing index `i` of an array overwrites in place, or grows the array to `i + 1` with holes between |
| Matrix.Has | src/core/matrix.ts:277-290 | `has`: true exactly for non-negative points inside the row count and row 0's length |
| Matrix.MaxPoint | src/core/matrix.ts:406-409 | `maxPoint` bounds every point the matrix has, and the matrix has it exactly when it is non-empty in both directions |
| Matrix.CreateEmpty | src/core/matrix.ts:12-18 | `createEmpty`: the given number of rows, each of the given width, every cell empty |
| Matrix.Set | src/core/matrix.ts:51-71 | `set`: the value is at the point, every other point keeps its value, row 0 is widened to cover the column, and other rows are shared |
| Matrix.MutableMatrix.constructor | src/core/matrix.ts:74-78 | the mutable matrix holds the given rows |
| Matrix.MutableSet | src/core/matrix.ts:74-93 | `mutableSet`: the rows of the given matrix become exactly what `set` would return (rows shared with other matrices are not modelled) |
| Matrix.Unset | src/core/matrix.ts:174-186 | `unset`: the matrix itself when it lacks the point; otherwise the point is emptied, the size is kept, and every other point is unchanged |
| Matrix.MaxColumn | src/core/matrix.ts:105-117 | the column count `setMultiple` grows to: above every written column, and either the original count or one past some written column |
| Matrix.MaxRow | src/core/matrix.ts:106-120 | the row count `setMultiple` grows to, stated the same way for rows |
| Matrix.SetEachContents | src/core/matrix.ts:99-170 | writing the entries one by one with `set` yields the overlay of the entries (the last write per point wins) and the grown size |
| Matrix.ApplyChanges | src/core/matrix.ts:141-145 | applying one row's changes writes each changed column and keeps every other cell of the row |
| Matrix.CollectStep | src/core/matrix.ts:108-114 | recording one entry keeps the change map equal to the last write per point of the entries seen |
| Matrix.CollectChanges | src/core/matrix.ts:103-121 | the first pass of `setMultiple` collects the last write per point and the grown row and column counts |
| Matrix.NextFirstRow | src/core/matrix.ts:130-151 | row 0 is stretched to the grown width and carries row 0's changes |
| Matrix.ChangesBounded | src/core/matrix.ts:103-121 | every collected change lies inside the grown size |
| Matrix.BuildRows | src/core/matrix.ts:127-168 | every row holds its changes over the original row; untouched rows are shared, and missing rows become empty rows |
| Matrix.NoChangesIffNoEntries | src/core/matrix.ts:123-125 | the change map is empty exactly when there are no entries |
| Matrix.SetMultiple | src/core/matrix.ts:99-170 | `setMultiple`: the matrix itself for no entries; otherwise every point shows its last written value over the original, with the grown size and the untouched rows shared |
| Matrix.OverlayFromRows | src/core/matrix.ts:153-170 | rows built from the change map show the overlay of the entries |
| Matrix.PadRows | src/core/matrix.ts:325-336 | `padRows`: the matrix itself when it is tall enough; otherwise empty rows are appended up to the total; no cell changes |
| Matrix.Pad | src/core/matrix.ts:344-373 | `pad`: the matrix itself when it is large enough; otherwise the row count is the larger of both, the column count is the larger of both when there is at least one row and 0 when there is none, and no cell changes |
| Matrix.Widen | src/core/matrix.ts:358-364 | padding columns lengthens every row by the same amount and changes no cell |
| Matrix.Slice | src/core/matrix.ts:30-48 | `slice`: a dense block from the start point to the end point, both included, holding the matrix's cells at the shifted points |
| Matrix.SliceRow | src/core/matrix.ts:39-45 | one sliced row holds the row's cells from the start column to the end column |
| Matrix.Map | src/core/matrix.ts:189-211 | `map`: same row count, every row as wide as row 0, and each cell the function of the old cell and its point |
| Matrix.RowEntries | src/core/matrix.ts:217-220 | the entries of one row: each column with its point and value |
| Matrix.EntriesOfCells | src/core/matrix.ts:213-223 | `entries` yields each cell of each row once, with its own value, in row-major order |
| Matrix.Entries | src/core/matrix.ts:213-223 | the iterating loop yields exactly the row-major entries |
| Matrix.ToArray | src/core/matrix.ts:390-403 | `toArray`: one transformed value per cell, in row-major order |
| Matrix.SplitJoin | src/core/matrix.ts:246-248 | splitting a joined list at a separator no part contains gives back the parts |
| Matrix.RowTexts | src/core/matrix.ts:240-245 | a row's texts: as many as row 0 is wide, the empty string for a missing cell |
| Matrix.Lines | src/core/matrix.ts:238-247 | one line per row: its cell texts joined by the horizontal separator |
| Matrix.Join | src/core/matrix.ts:228-249 | `join`: the empty string for an empty matrix, otherwise the lines joined by the vertical separator |
| Matrix.JoinSplits | src/core/matrix.ts:228-249 | when no cell text holds either separator, splitting the joined text gives back the lines, and splitting a line gives back the row's texts |
| Matrix.JoinAvoids | src/core/matrix.ts:246-248 | joining keeps out a character absent from the parts and the separator |
| PointGraphs.TargetsFrom | src/engine/point-graph.ts:55-65 | the edge targets of the given keys |
| PointGraphs.ReferrersFrom | src/engine/point-graph.ts:55-65 | the given keys that have an edge to the point |
| PointGraphs.ReverseIndex | src/engine/point-graph.ts:50-76 | the backwards cache has a key for each edge target, and `a` is in the entry of `b` exactly when `b` is an edge of `a` |
| PointGraphs.PointGraph.constructor | src/engine/point-graph.ts:18-24 | a graph over the given edges, with the backwards cache not yet built |
| PointGraphs.PointGraph.From | src/engine/point-graph.ts:27-33 | `PointGraph.from`: a graph whose keys are exactly the listed points, each with the set listed last for it |
| PointGraphs.PointGraph.Set | src/engine/point-graph.ts:35-43 | `set`: a new graph in which `get(node)` is the given edges, the entry is dropped when they are empty, and every other point keeps its edges |
| PointGraphs.PointGraph.BuildBackwardsCache | src/engine/point-graph.ts:50-76 | builds the cache once, and it equals the reverse index of the forward edges |
| PointGraphs.PointGraph.GetBackwards | src/engine/point-graph.ts:78-81 | `getBackwards(b)` holds exactly the points with an edge to `b` |
| PointGraphs.PointGraph.GetBackwardsRecursive | src/engine/point-graph.ts:83-97 | every result depends on the node; from an empty visited set, every point that depends on the node is in the result |
| PointGraphs.PointGraph.HasCircularDependency | src/engine/point-graph.ts:100-127 | true exactly when the depth-first search from the start pops some point twice |
| PointGraphs.PointGraph.Pairs | src/engine/point-graph.ts:129-145 | the iterator yields every node exactly once (keys and edge targets), each with its own edges |
| PointGraphs.Sources | src/engine/point-graph.ts:157-162 | the seed queue holds exactly the nodes without dependencies, each once |
| PointGraphs.SourcesQueued | src/engine/point-graph.ts:157-162 | the seed queue is a valid start: every queued node's dependencies are queued before it |
| PointGraphs.PointGraph.Release | src/engine/point-graph.ts:179-196 | releasing a dequeued point's dependents queues each one whose dependencies are all visited, and keeps the queue valid |
| PointGraphs.PointGraph.Drain | src/engine/point-graph.ts:164-197 | the queue loop ends with every node whose dependencies were all yielded yielded too |
| PointGraphs.DrainStep | src/engine/point-graph.ts:166-196 | one dequeue step preserves the loop's state |
| PointGraphs.ReleaseCovers | src/engine/point-graph.ts:179-196 | after releasing, every node whose dependencies were all dequeued is visited |
| PointGraphs.TraversalEnds | src/engine/point-graph.ts:148-198 | the final queue is dependency-ordered, and every node left out has a dependency left out |
| PointGraphs.PointGraph.TraverseBFSBackwards | src/engine/point-graph.ts:148-198 | `traverseBFSBackwards` yields graph nodes without repeats, each after all of its dependencies, and every node it leaves out has a dependency left out |
| PointGraphs.ReverseEdges | src/engine/point-graph.ts:54-65 | the first loop of the cache build maps each edge target to the keys with an edge to it |
| PointGraphs.AllIn | src/engine/point-graph.ts:183-190 | the inner check answers whether every dependency is visited |
| PointGraphs.SearchExpands | src/engine/point-graph.ts:104-124 | one pop of a point not yet visited keeps the invariant of the depth-first search |
| PointGraphs.SearchRepeats | src/engine/point-graph.ts:108-111 | popping a visited point means the start reaches some point twice |
| PointGraphs.SearchEnds | src/engine/point-graph.ts:104-126 | an emptied stack means no point is reached twice |
| PointGraphs.CycleReported | src/engine/point-graph.ts:100-127 | a cycle reachable from the start is reported |
| PointGraphs.RankedAcyclic | src/engine/point-graph.ts:100-127 | a graph whose edges decrease a rank has no cycle |
| PointGraphs.DiamondReported | src/engine/point-graph.ts:100-127 | the detection answers true on an acyclic diamond |
| PointGraphs.ChainNotReported | src/engine/point-graph.test.ts:234-242 | the detection answers false on the chain from its second cell |
| PointGraphs.CoversAllDependents | src/engine/point-graph.ts:83-97 | a result closed under the walk from an empty visited set holds every dependent |
| PointGraphs.DependsOnThrough | src/engine/point-graph.ts:87-94 | depending on a referrer of a node means depending on the node |
| PointGraphs.DependencyEarlier | src/engine/point-graph.ts:148-198 | in a dependency-ordered list, whatever a listed node depends on comes earlier |
| PointGraphs.TraversalSkipsCycles | src/engine/point-graph.ts:148-198 | the traversal never yields a node that depends on itself |
| PointGraphs.LeftOutPath | src/engine/point-graph.ts:148-198 | from a node the traversal leaves out there are paths of any length through left-out nodes |
| PointGraphs.RepeatIsCycle | src/engine/point-graph.ts:148-198 | a path that revisits a point closes a cycle |
| PointGraphs.TraversalComplete | src/engine/point-graph.ts:148-198 | on a graph without cycles the traversal yields every node |
| Engine.ComputedValue | src/engine/engine.ts:200-211 | `getFormulaComputedValue`: the evaluated value, or the reference error when evaluation throws |
| Engine.CreateReferenceGraph | src/engine/engine.ts:137-152 | `createReferenceGraph`: exactly the formula cells are keys, each mapped to its own references |
| Engine.FormulaCellsOf | src/engine/engine.ts:160-166 | the filter keeps exactly the formula cells of the traversal, with their cells, in order and without repeats |
| Engine.SelectFormulaCells | src/engine/engine.ts:160-166 | the filtering loop collects the formula cells of the traversal |
| Engine.EvaluateInOrder | src/engine/engine.ts:176-194 | the evaluation loop sets each formula cell to its value computed against the data holding the results before it |
| Engine.EvaluateAllCells | src/engine/engine.ts:176-194 | each evaluated cell holds its formula computed against the results before it, and every other cell is unchanged |
| Engine.CreateEvaluatedData | src/engine/engine.ts:154-197 | `createEvaluatedData`: the sheet with the formula cells of the traversal evaluated in its order; that order holds graph nodes without repeats, each after its dependencies, and every node it leaves out waits on another node left out (it covers every node only when the graph has no cycle, see `Engine.EvaluatedData`); the data itself when there is no formula cell |
| Engine.FormulaCellsAppend | src/engine/engine.ts:160-166 | the filter distributes over concatenation |
| Engine.EvaluatedData | src/engine/engine.ts:154-197 | exactly the formula cells of the order are evaluated and all else is kept; cells on a cycle keep their raw value; without cycles every formula cell of the graph is evaluated |
| Engine.ReferencesSettled | src/engine/engine.ts:176-194 | when a formula cell is evaluated, each cell it refers to already holds its final evaluated value |
| Engine.SettledBefore | src/engine/engine.ts:176-194 | a cell evaluated before a given point of the order no longer changes afterwards |
| Engine.LaterCellsElsewhere | src/engine/engine.ts:176-194 | evaluating cells at other points leaves a point's cell unchanged |
| Engine.SelfDependentReported | src/engine/engine.ts:80 | a cell that depends on itself takes the circular branch |
| Engine.Walked | src/engine/engine.ts:87-90 | how much of the dependents list the circular walk covers: up to the written point, or all of it |
| Engine.WalkedAt | src/engine/engine.ts:87-90 | the walk stops at the first index of the written point |
| Engine.MarkDependents | src/engine/engine.ts:81-100 | the circular walk lists the reference error for the written point and for each present dependent before the first repeat, and nothing else |
| Engine.BreakSkipsDependent | src/engine/engine.ts:87-90 | on a concrete graph, a dependent listed after the written point is left out of the walk although it depends on the cycle |
| Engine.MarkDependentsFixed | src/engine/engine.ts:81-100 | the walk that skips repeats lists the reference error for the written point and for every present dependent |
| Engine.MarkCircular | src/engine/engine.ts:80-103 | circular branch: the written cell gets the reference error; each other cell is either unchanged or a present dependent marked with the error; when the written cell is not on a cycle, every present dependent is marked |
| Engine.MarkCircularFixed | src/engine/engine.ts:80-103 | corrected circular branch: the written cell and every present dependent get the reference error, and all else keeps its previous evaluated value |
| Engine.Reevaluate | src/engine/engine.ts:105-129 | acyclic branch: the written cell shows its value, every present dependent is re-evaluated, and all else keeps its previous evaluated value |
| Engine.EvaluateCell | src/engine/engine.ts:72-130 | `evaluateCell`: the circular outcome when the detection reports, the acyclic outcome otherwise |
| Engine.EvaluateCellFixed | src/engine/engine.ts:72-130 | `evaluateCell` with the corrected circular walk |
| Engine.Model.constructor | src/engine/engine.ts:15-27 | `Model`: keeps the given graph and evaluated data, and builds the ones not given from the raw data |
| Engine.SelfLoopReported | src/engine/engine.ts:36-41 | a point with an edge to itself is reported circular |
| Engine.NoEdgesNotReported | src/engine/engine.ts:36-41 | a point without edges is not reported circular |
| Engine.UpdateCellValue | src/engine/engine.ts:30-55 | `updateCellValue`: the raw data is written; the graph entry is replaced only for a formula; the evaluated data is the branch outcome; a value written over a self-referring formula shows the reference error |
| Engine.UpdateReferenceGraph | src/engine/engine.ts:57-70 | `updateReferenceGraph`: a new graph whose entry for the point is the formula's references, with every other entry kept |
| Engine.UpdateCellValueFixed | src/engine/engine.ts:30-55 | corrected `updateCellValue`: the graph entry is always replaced (emptied for a value that is no formula), the circular walk skips repeats, and a value always shows itself |

## Left out

- The hash strings themselves: sets and maps are keyed by `Point`. `PointHash.RoundTrip` and `PointHash.Injective` justify this.
- `Number.isInteger` in `has`: coordinates are Dafny integers. `PointHash.RoundTrip` is stated for these unbounded integers; JavaScript prints a number of magnitude 1e21 or more in exponent form, which `parseInt` does not read back.
- Negative coordinates in matrix writes: JavaScript stores them as non-index properties. Writes require non-negative points.
- Inputs on which the source throws, modelled as preconditions: reads of a hole row (`entries`, `toArray`, `unset` of such a row, `pad` with extra columns), and a `slice` with at least one row whose end column lies left of its start column, where `Array(columns)` throws a `RangeError` on the negative width.
- A row slot that exists but holds `undefined`: `set` copies rows with a spread, which turns a hole row into an explicit `undefined` (`src/core/matrix.ts:56`). `mutableSet` then finds the index present, creates no row, and throws a `TypeError` on the write (`src/core/matrix.ts:84-91`). The model does not tell such a slot from a hole, so no precondition can exclude it: `Matrix.MutableSet` creates the row and writes the value there.
- `mutableSet` storing an explicit `undefined` as a value: the model has no separate "present but undefined" cell, so it is the same as a hole.
- `Matrix.Join`: `String(undefined)` for a slot that exists but holds `undefined` prints "undefined". The model prints "" as for a missing slot, and leaves the texts of values to a given function.
- `padRows` and `pad` fill with one shared empty-row array, and `set` and `setMultiple` share untouched rows with the matrix they were given. Rows are values here, so this sharing is not modelled.
- Matrix.MutableSet: states only the new rows of the matrix it is given. In the source the write goes into a row array that may be shared, with other rows of the same matrix (after `padRows` or `pad`) or with another matrix (after `set` or `setMultiple`). Those rows change along with it, and the model does not capture that.
- `split` (CSV parsing with regular expressions) is not part of this model.
- The `toArray` overload without a transform: it is `Matrix.ToArray` with the transform returning the cell.
- Insertion order of JavaScript `Set` and `Map` iteration: iteration order is left open, and every property holds for every order. So the exact BFS order in the traversal tests is not stated, and neither is which dependents come after the written point in the circular walk.
- Engine.MarkCircular: states only that each dependent is either marked or unchanged (with all present dependents marked when the written cell is not on a cycle), because which dependents the early exit skips depends on the iteration order left open above.
- The formula module, the third-party parser and its error values: abstracted as described above. A parser bound to a data snapshot is the snapshot itself.
- Laziness of the generators (`traverseBFSBackwards`, `entries`, the graph iterator): modelled as finished sequences, which is how the engine consumes them.
- Concurrency, React components and state hooks: outside the core.

## Findings

| source | as written | input that shows it | evidently intended | confidence | as-written member | corrected member |
|---|---|---|---|---|---|---|
| src/engine/engine.ts:36-38 | writing a value that is no formula keeps the cell's old forward edges in the reference graph | A1 = "=A1", then A1 := 5: A1 still has an edge to itself, is reported circular, and evaluates to the reference error instead of 5 (likewise A1 = "=B1", B1 = "=A1", then A1 := 5) | a cell without a formula has no references, so its entry is removed and the value shows itself | medium, not executed | Engine.UpdateCellValue, Engine.SelfLoopReported | Engine.UpdateCellValueFixed, Engine.NoEdgesNotReported |
| src/engine/engine.ts:88-90 | the circular error walk stops at the first repeated point, and every dependent after it keeps its old evaluated value | A1 = "=B1", B1 = "=D1", C1 = "=A1", D1 = 5, then B1 := "=A1": the dependents of B1 iterate A1, B1, C1; the walk marks A1 and stops at B1, and C1 keeps 5 although it depends on the cycle | skip the repeated point and continue, so every dependent gets the reference error | medium, not executed | Engine.MarkDependents, Engine.BreakSkipsDependent | Engine.MarkDependentsFixed, Engine.MarkCircularFixed |
