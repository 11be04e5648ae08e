/**
 * The incremental evaluation engine (src/engine/engine.ts).
 *
 * A model holds the raw cells, the graph of references between formula
 * cells, and the evaluated cells. Writing a cell re-evaluates it and every
 * formula cell that depends on it, or marks them all with the reference
 * error when the graph reports a circular dependency.
 *
 * The formula language is not part of this model: recognising a formula,
 * extracting its references and evaluating it are the fields of a
 * `Formulas` value. A formula parser is identified with the data it was
 * created over, so "evaluate against a parser" is "evaluate against data".
 */
module Engine {
  import opened Wrappers
  import opened PointHash
  import opened PointSets
  import opened PointGraphs
  import Matrix

  /** A cell: its value and the rest of its fields, which `{ ...cell, value }` copies unchanged. */
  datatype Cell<V, M> = Cell(value: V, meta: M)

  type Data<V, M> = Matrix.Matrix<Cell<V, M>>

  /** What evaluating a formula does: it returns a value or it throws. */
  datatype Outcome<V> = Returned(v: V) | Thrown

  /**
   * The formula collaborator: `isFormulaValue`, `getReferences` of the
   * extracted formula, `evaluate` of the extracted formula against a parser
   * over the given data, and the value `FormulaError.REF`.
   */
  datatype Formulas<!V, !M> = Formulas(
    isFormula: V -> bool,
    references: (V, Point, Data<V, M>) -> PointSet,
    evaluate: (V, Point, Data<V, M>) -> Outcome<V>,
    refError: V)

  // ---------------------------------------------------------------------------
  // Values of single cells

  /** `getFormulaComputedValue`: the formula's result, or the reference error when evaluation throws. */
  function ComputedValue<V, M>(fs: Formulas<V, M>, value: V, point: Point, parser: Data<V, M>): (r: V)
    ensures fs.evaluate(value, point, parser).Thrown? ==> r == fs.refError
    ensures fs.evaluate(value, point, parser).Returned? ==> r == fs.evaluate(value, point, parser).v
  {
    match fs.evaluate(value, point, parser)
    case Returned(v) => v
    case Thrown => fs.refError
  }

  /** The value a cell shows: a formula's computed value, or the value itself. */
  function ShownValue<V, M>(fs: Formulas<V, M>, value: V, point: Point, parser: Data<V, M>): V {
    if fs.isFormula(value) then ComputedValue(fs, value, point, parser) else value
  }

  /** The references of the formula cell at `p`, or `None` when `p` holds no formula. */
  function FormulaRefs<V, M>(fs: Formulas<V, M>, data: Data<V, M>, p: Point): Option<PointSet> {
    match Matrix.Get(p, data)
    case Some(c) => if fs.isFormula(c.value) then Some(fs.references(c.value, p, data)) else None
    case None => None
  }

  /** A point holding a cell is a valid matrix index. */
  lemma CellIsIndex<T>(p: Point, m: Matrix.Matrix<T>)
    requires Matrix.Get(p, m).Some?
    ensures Matrix.IsIndex(p)
  {
  }

  lemma LastWriteAppend<T>(entries: seq<(Point, T)>, entry: (Point, T), p: Point)
    ensures Matrix.LastWrite(entries + [entry], p) ==
      if entry.0 == p then Some(entry.1) else Matrix.LastWrite(entries, p)
  {
    assert (entries + [entry])[..|entries|] == entries;
  }

  // ---------------------------------------------------------------------------
  // The reference graph

  /** `createReferenceGraph`: one entry per formula cell, holding its references. */
  method CreateReferenceGraph<V, M>(fs: Formulas<V, M>, data: Data<V, M>) returns (g: PointGraph)
    requires Matrix.Dense(data)
    ensures fresh(g) && g.Valid() && !g.backwardsCacheBuilt
    ensures forall p :: p in g.forwards <==> FormulaRefs(fs, data, p).Some?
    ensures forall p :: p in g.forwards ==> FormulaRefs(fs, data, p) == Some(g.forwards[p])
  {
    var all := Matrix.Entries(data);
    Matrix.EntriesOfCells(data);
    var entries: seq<(Point, PointSet)> := [];
    ghost var done: set<Point> := {};
    for i := 0 to |all|
      invariant forall p :: Matrix.LastWrite(entries, p) == if p in done then FormulaRefs(fs, data, p) else None
      invariant forall k :: 0 <= k < i ==> all[k].0 in done
    {
      var (point, cell) := all[i];
      if cell.Some? && fs.isFormula(cell.value.value) {
        var references := fs.references(cell.value.value, point, data);
        forall p
          ensures Matrix.LastWrite(entries + [(point, references)], p) ==
            if point == p then Some(references) else Matrix.LastWrite(entries, p)
        {
          LastWriteAppend(entries, (point, references), p);
        }
        entries := entries + [(point, references)];
      }
      done := done + {point};
    }
    forall p | FormulaRefs(fs, data, p).Some?
      ensures p in done
    {
      assert (p, Matrix.Get(p, data)) in all;
    }
    g := PointGraph.From(entries);
  }

  // ---------------------------------------------------------------------------
  // Evaluating the whole sheet

  /** The formula cells among the points of `order`, in that order. */
  function FormulaCells<V, M>(fs: Formulas<V, M>, order: seq<Point>, data: Data<V, M>): seq<(Point, Cell<V, M>)> {
    if order == [] then []
    else FormulaCells(fs, order[..|order| - 1], data) + FormulaCellAt(fs, order[|order| - 1], data)
  }

  /** The formula cell at `p` as a one-entry list, or nothing. */
  function FormulaCellAt<V, M>(fs: Formulas<V, M>, p: Point, data: Data<V, M>): seq<(Point, Cell<V, M>)> {
    match Matrix.Get(p, data)
    case Some(c) => if fs.isFormula(c.value) then [(p, c)] else []
    case None => []
  }

  /** Every entry of `cells` is a formula cell of `order`, with its own cell. */
  ghost predicate FormulaEntries<V, M>(fs: Formulas<V, M>, order: seq<Point>, data: Data<V, M>, cells: seq<(Point, Cell<V, M>)>) {
    forall k :: 0 <= k < |cells| ==>
      cells[k].0 in order && Matrix.Get(cells[k].0, data) == Some(cells[k].1)
      && fs.isFormula(cells[k].1.value)
  }

  /**
   * `cells` lists exactly the formula cells of `order`, each with its own
   * cell, and lists none twice when `order` has no repeats.
   */
  ghost predicate ListsFormulaCells<V, M>(fs: Formulas<V, M>, order: seq<Point>, data: Data<V, M>, cells: seq<(Point, Cell<V, M>)>) {
    && FormulaEntries(fs, order, data, cells)
    && (forall p :: p in order && FormulaRefs(fs, data, p).Some? ==> p in PointsOf(cells))
    && (Distinct(order) ==> Distinct(PointsOf(cells)))
  }

  /** Every entry of `FormulaCells` is a formula cell of `order`, with its own cell. */
  lemma {:induction false} FormulaCellsSound<V, M>(fs: Formulas<V, M>, order: seq<Point>, data: Data<V, M>)
    ensures FormulaEntries(fs, order, data, FormulaCells(fs, order, data))
  {
    if order != [] {
      var init := order[..|order| - 1];
      FormulaCellsSound(fs, init, data);
      var before := FormulaCells(fs, init, data);
      var cells := FormulaCells(fs, order, data);
      assert FormulaEntries(fs, init, data, before);
      assert cells == before + FormulaCellAt(fs, order[|order| - 1], data);
      forall k | 0 <= k < |cells|
        ensures cells[k].0 in order && Matrix.Get(cells[k].0, data) == Some(cells[k].1)
          && fs.isFormula(cells[k].1.value)
      {
        if k < |before| {
          assert cells[k] == before[k];
          assert before[k].0 in init;
        }
      }
    }
  }

  /** Every formula cell of `order` has an entry in `FormulaCells`. */
  lemma {:induction false} FormulaCellsComplete<V, M>(fs: Formulas<V, M>, order: seq<Point>, data: Data<V, M>)
    ensures forall p :: p in order && FormulaRefs(fs, data, p).Some? ==> p in PointsOf(FormulaCells(fs, order, data))
  {
    if order != [] {
      var init := order[..|order| - 1];
      var p := order[|order| - 1];
      FormulaCellsComplete(fs, init, data);
      var before := FormulaCells(fs, init, data);
      var cells := FormulaCells(fs, order, data);
      forall q | q in order && FormulaRefs(fs, data, q).Some?
        ensures q in PointsOf(cells)
      {
        if q != p {
          assert q in init;
          var k :| 0 <= k < |before| && PointsOf(before)[k] == q;
          assert cells[k] == before[k];
          assert PointsOf(cells)[k] == q;
        } else {
          assert PointsOf(cells)[|cells| - 1] == p;
        }
      }
    }
  }

  /** `FormulaCells` of a list without repeats lists no point twice. */
  lemma {:induction false} FormulaCellsDistinct<V, M>(fs: Formulas<V, M>, order: seq<Point>, data: Data<V, M>)
    requires Distinct(order)
    ensures Distinct(PointsOf(FormulaCells(fs, order, data)))
  {
    if order != [] {
      var init := order[..|order| - 1];
      var p := order[|order| - 1];
      assert Distinct(init);
      FormulaCellsDistinct(fs, init, data);
      FormulaCellsSound(fs, init, data);
      var before := FormulaCells(fs, init, data);
      var cells := FormulaCells(fs, order, data);
      assert FormulaEntries(fs, init, data, before);
      assert cells == before + FormulaCellAt(fs, p, data);
      assert p !in init;
      forall i, j | 0 <= i < j < |cells|
        ensures PointsOf(cells)[i] != PointsOf(cells)[j]
      {
        assert cells[i] == before[i];
        assert PointsOf(before)[i] == cells[i].0;
        if j >= |before| {
          assert cells[i].0 in init;
        } else {
          assert cells[j] == before[j];
          assert PointsOf(before)[j] == cells[j].0;
        }
      }
    }
  }

  lemma FormulaCellsOf<V, M>(fs: Formulas<V, M>, order: seq<Point>, data: Data<V, M>)
    ensures ListsFormulaCells(fs, order, data, FormulaCells(fs, order, data))
  {
    FormulaCellsSound(fs, order, data);
    FormulaCellsComplete(fs, order, data);
    if Distinct(order) {
      FormulaCellsDistinct(fs, order, data);
    }
  }

  /**
   * The data once the formula cells `cells` are evaluated one after another,
   * each against the data that already holds the results before it.
   */
  function EvaluateAll<V, M>(fs: Formulas<V, M>, cells: seq<(Point, Cell<V, M>)>, data: Data<V, M>): Data<V, M>
    requires Matrix.AllIndices(cells)
  {
    if cells == [] then data
    else
      var before := EvaluateAll(fs, cells[..|cells| - 1], data);
      var (p, c) := cells[|cells| - 1];
      Matrix.Set(p, Cell(ComputedValue(fs, c.value, p, before), c.meta), before)
  }

  /** A point none of `cells` names keeps its cell. */
  lemma {:induction false} EvaluateAllKeeps<V, M>(fs: Formulas<V, M>, cells: seq<(Point, Cell<V, M>)>, data: Data<V, M>, q: Point)
    requires Matrix.AllIndices(cells) && q !in PointsOf(cells)
    ensures Matrix.Get(q, EvaluateAll(fs, cells, data)) == Matrix.Get(q, data)
  {
    if cells != [] {
      var n := |cells| - 1;
      assert PointsOf(cells[..n]) == PointsOf(cells)[..n];
      assert q != PointsOf(cells)[n];
      EvaluateAllKeeps(fs, cells[..n], data, q);
    }
  }

  /** Cell `k` holds its formula's value computed against the data holding the results before it. */
  lemma {:induction false} EvaluateAllCell<V, M>(fs: Formulas<V, M>, cells: seq<(Point, Cell<V, M>)>, data: Data<V, M>, k: nat)
    requires Matrix.AllIndices(cells) && k < |cells|
    requires forall i :: 0 <= i < |cells| && i != k ==> cells[i].0 != cells[k].0
    ensures Matrix.Get(cells[k].0, EvaluateAll(fs, cells, data)) ==
            Some(Cell(ComputedValue(fs, cells[k].1.value, cells[k].0, EvaluateAll(fs, cells[..k], data)), cells[k].1.meta))
  {
    var n := |cells| - 1;
    var init := cells[..n];
    var before := EvaluateAll(fs, init, data);
    var (p, c) := cells[n];
    assert EvaluateAll(fs, cells, data) == Matrix.Set(p, Cell(ComputedValue(fs, c.value, p, before), c.meta), before);
    if k < n {
      assert init[k] == cells[k] && init[..k] == cells[..k];
      assert cells[k].0 != p;
      EvaluateAllCell(fs, init, data, k);
    }
  }

  /**
   * Each evaluated cell holds its formula's value computed against the data
   * holding the results before it, and every point not listed keeps its cell.
   */
  lemma EvaluateAllCells<V, M>(fs: Formulas<V, M>, cells: seq<(Point, Cell<V, M>)>, data: Data<V, M>)
    requires Matrix.AllIndices(cells) && Distinct(PointsOf(cells))
    ensures forall k :: 0 <= k < |cells| ==>
              Matrix.Get(cells[k].0, EvaluateAll(fs, cells, data)) ==
              Some(Cell(ComputedValue(fs, cells[k].1.value, cells[k].0, EvaluateAll(fs, cells[..k], data)), cells[k].1.meta))
    ensures forall q :: q !in PointsOf(cells) ==> Matrix.Get(q, EvaluateAll(fs, cells, data)) == Matrix.Get(q, data)
  {
    forall k | 0 <= k < |cells|
      ensures Matrix.Get(cells[k].0, EvaluateAll(fs, cells, data)) ==
              Some(Cell(ComputedValue(fs, cells[k].1.value, cells[k].0, EvaluateAll(fs, cells[..k], data)), cells[k].1.meta))
    {
      assert forall i :: 0 <= i < |cells| && i != k ==> PointsOf(cells)[i] != PointsOf(cells)[k];
      EvaluateAllCell(fs, cells, data, k);
    }
    forall q | q !in PointsOf(cells)
      ensures Matrix.Get(q, EvaluateAll(fs, cells, data)) == Matrix.Get(q, data)
    {
      EvaluateAllKeeps(fs, cells, data, q);
    }
  }

  /** The filtering loop of `createEvaluatedData`: the formula cells among `points`, in order. */
  method SelectFormulaCells<V, M>(fs: Formulas<V, M>, points: seq<Point>, data: Data<V, M>)
    returns (cells: seq<(Point, Cell<V, M>)>)
    ensures cells == FormulaCells(fs, points, data)
  {
    cells := [];
    for i := 0 to |points|
      invariant cells == FormulaCells(fs, points[..i], data)
    {
      assert points[..i + 1][..i] == points[..i];
      var cell := Matrix.Get(points[i], data);
      if cell.Some? && fs.isFormula(cell.value.value) {
        cells := cells + [(points[i], cell.value)];
      }
    }
    assert points[..|points|] == points;
  }

  /** The evaluating loop of `createEvaluatedData`: each cell evaluated against the data holding the earlier results. */
  method EvaluateInOrder<V, M>(fs: Formulas<V, M>, cells: seq<(Point, Cell<V, M>)>, data: Data<V, M>)
    returns (r: Data<V, M>)
    requires Matrix.AllIndices(cells)
    ensures r == EvaluateAll(fs, cells, data)
  {
    r := data;
    for i := 0 to |cells|
      invariant r == EvaluateAll(fs, cells[..i], data)
    {
      assert cells[..i + 1][..i] == cells[..i];
      var (point, cell) := cells[i];
      var evaluatedValue := ComputedValue(fs, cell.value, point, r);
      r := Matrix.Set(point, Cell(evaluatedValue, cell.meta), r);
    }
    assert cells[..|cells|] == cells;
  }

  /**
   * `createEvaluatedData`: the formula cells in the order of
   * `traverseBFSBackwards`, each evaluated against the data holding the
   * earlier results; `data` itself when the traversal meets no formula cell.
   * `order` is the traversal's order.
   */
  method CreateEvaluatedData<V, M>(fs: Formulas<V, M>, data: Data<V, M>, graph: PointGraph)
    returns (r: Data<V, M>, ghost order: seq<Point>)
    requires graph.Valid()
    modifies graph
    ensures graph.Valid()
    ensures Distinct(order) && Topological(graph.forwards, order) && Stuck(graph.forwards, order)
    ensures forall p :: p in order ==> p in Nodes(graph.forwards)
    ensures Matrix.AllIndices(FormulaCells(fs, order, data))
    ensures r == EvaluateAll(fs, FormulaCells(fs, order, data), data)
    ensures FormulaCells(fs, order, data) == [] ==> r == data
  {
    var points := graph.TraverseBFSBackwards();
    order := points;
    var formulaCells := SelectFormulaCells(fs, points, data);
    FormulaCellsOf(fs, points, data);
    forall k | 0 <= k < |formulaCells|
      ensures Matrix.IsIndex(formulaCells[k].0)
    {
      CellIsIndex(formulaCells[k].0, data);
    }
    if |formulaCells| == 0 {
      return data, order;
    }
    r := EvaluateInOrder(fs, formulaCells, data);
  }

  // ---------------------------------------------------------------------------
  // What the whole-sheet evaluation computes

  lemma {:induction false} FormulaCellsAppend<V, M>(fs: Formulas<V, M>, a: seq<Point>, b: seq<Point>, data: Data<V, M>)
    ensures FormulaCells(fs, a + b, data) == FormulaCells(fs, a, data) + FormulaCells(fs, b, data)
  {
    if b != [] {
      var init, last := b[..|b| - 1], b[|b| - 1];
      assert (a + b)[..|a + b| - 1] == a + init;
      assert (a + b)[|a + b| - 1] == last;
      FormulaCellsAppend(fs, a, init, data);
      var tail := FormulaCellAt(fs, last, data);
      assert FormulaCells(fs, b, data) == FormulaCells(fs, init, data) + tail;
      assert FormulaCells(fs, a + b, data) == FormulaCells(fs, a + init, data) + tail;
    } else {
      assert a + b == a;
    }
  }

  /**
   * The evaluated data of a traversal `order`: the formula cells it meets
   * are evaluated (each against the data holding the results before it),
   * every other cell is kept, a cell that depends on itself keeps its raw
   * value, and on a graph without cycles every formula cell in the graph is
   * evaluated.
   */
  lemma EvaluatedData<V, M>(fs: Formulas<V, M>, data: Data<V, M>, f: Edges, order: seq<Point>)
    requires Distinct(order) && Topological(f, order) && Stuck(f, order)
    requires Matrix.AllIndices(FormulaCells(fs, order, data))
    ensures var cells := FormulaCells(fs, order, data);
            var r := EvaluateAll(fs, cells, data);
            && (forall q :: q in PointsOf(cells) <==> q in order && FormulaRefs(fs, data, q).Some?)
            && (forall k :: 0 <= k < |cells| ==>
                  Matrix.Get(cells[k].0, r) ==
                  Some(Cell(ComputedValue(fs, cells[k].1.value, cells[k].0, EvaluateAll(fs, cells[..k], data)), cells[k].1.meta)))
            && (forall q :: q !in PointsOf(cells) ==> Matrix.Get(q, r) == Matrix.Get(q, data))
            && (forall q :: DependsOn(f, q, q) ==> Matrix.Get(q, r) == Matrix.Get(q, data))
            && (!HasCycle(f) ==> forall q :: q in Nodes(f) && FormulaRefs(fs, data, q).Some? ==> q in PointsOf(cells))
  {
    var cells := FormulaCells(fs, order, data);
    FormulaCellsOf(fs, order, data);
    EvaluateAllCells(fs, cells, data);
    var r := EvaluateAll(fs, cells, data);
    forall q | q in PointsOf(cells)
      ensures q in order && FormulaRefs(fs, data, q).Some?
    {
      var k :| 0 <= k < |cells| && PointsOf(cells)[k] == q;
    }
    TraversalSkipsCycles(f, order);
    forall q | DependsOn(f, q, q)
      ensures Matrix.Get(q, r) == Matrix.Get(q, data)
    {
      assert q !in order;
      assert q !in PointsOf(cells);
    }
    if !HasCycle(f) {
      TraversalComplete(f, order);
    }
  }

  /** The formula cells of `order` split at the formula cell `order[i]`: those met before it, then it. */
  lemma FormulaCellsSplit<V, M>(fs: Formulas<V, M>, order: seq<Point>, data: Data<V, M>, i: nat)
    requires i < |order| && FormulaRefs(fs, data, order[i]).Some?
    ensures var cells := FormulaCells(fs, order, data);
            var pre := FormulaCells(fs, order[..i], data);
            |pre| < |cells| && cells[..|pre|] == pre && cells[|pre|].0 == order[i]
  {
    assert order == order[..i] + ([order[i]] + order[i + 1..]);
    FormulaCellsAppend(fs, order[..i], [order[i]] + order[i + 1..], data);
    FormulaCellsAppend(fs, [order[i]], order[i + 1..], data);
    assert [order[i]][..0] == [];
    assert |FormulaCells(fs, [order[i]], data)| == 1;
  }

  /**
   * Dependency order pays off: when a formula cell is evaluated, every cell
   * it refers to in the graph already holds its final evaluated value.
   */
  lemma ReferencesSettled<V, M>(fs: Formulas<V, M>, data: Data<V, M>, f: Edges, order: seq<Point>, k: nat, d: Point)
    requires Distinct(order) && Topological(f, order)
    requires Matrix.AllIndices(FormulaCells(fs, order, data))
    requires k < |FormulaCells(fs, order, data)|
    requires GetIn(f, FormulaCells(fs, order, data)[k].0).Has(d)
    ensures var cells := FormulaCells(fs, order, data);
            Matrix.Get(d, EvaluateAll(fs, cells[..k], data)) == Matrix.Get(d, EvaluateAll(fs, cells, data))
  {
    var cells := FormulaCells(fs, order, data);
    FormulaCellsOf(fs, order, data);
    assert ListsFormulaCells(fs, order, data, cells);
    var q := cells[k].0;
    assert FormulaRefs(fs, data, q).Some?;
    var i :| 0 <= i < |order| && order[i] == q;
    assert d in order[..i];
    var pre := FormulaCells(fs, order[..i], data);
    FormulaCellsSplit(fs, order, data, i);
    assert PointsOf(cells)[|pre|] == PointsOf(cells)[k];
    assert cells[..k] == pre;
    SettledBefore(fs, data, order, i, d);
  }

  /** A point of `order[..i]` holds the same cell after the formula cells of `order[..i]` as after all of them. */
  lemma SettledBefore<V, M>(fs: Formulas<V, M>, data: Data<V, M>, order: seq<Point>, i: nat, d: Point)
    requires Distinct(order) && i <= |order| && d in order[..i]
    requires Matrix.AllIndices(FormulaCells(fs, order, data))
    requires var cells := FormulaCells(fs, order, data);
             var pre := FormulaCells(fs, order[..i], data);
             |pre| <= |cells| && cells[..|pre|] == pre
    ensures var cells := FormulaCells(fs, order, data);
            var pre := FormulaCells(fs, order[..i], data);
            Matrix.Get(d, EvaluateAll(fs, pre, data)) == Matrix.Get(d, EvaluateAll(fs, cells, data))
  {
    var cells := FormulaCells(fs, order, data);
    var pre := FormulaCells(fs, order[..i], data);
    FormulaCellsOf(fs, order, data);
    assert Distinct(order[..i]);
    FormulaCellsOf(fs, order[..i], data);
    assert ListsFormulaCells(fs, order[..i], data, pre);
    forall k | |pre| <= k < |cells|
      ensures cells[k].0 != d
    {
      if d in PointsOf(pre) {
        var j :| 0 <= j < |pre| && PointsOf(pre)[j] == d;
        assert PointsOf(cells)[j] == d && PointsOf(cells)[k] == cells[k].0;
      } else {
        assert FormulaRefs(fs, data, d).None?;
        assert FormulaRefs(fs, data, cells[k].0).Some?;
      }
    }
    assert cells[..|pre|] == pre;
    LaterCellsElsewhere(fs, cells, data, |pre|, d);
  }

  /** Evaluating more cells leaves a point alone when none of them is at that point. */
  lemma {:induction false} LaterCellsElsewhere<V, M>(fs: Formulas<V, M>, cells: seq<(Point, Cell<V, M>)>, data: Data<V, M>, n: nat, q: Point)
    requires Matrix.AllIndices(cells) && n <= |cells|
    requires forall k :: n <= k < |cells| ==> cells[k].0 != q
    ensures Matrix.Get(q, EvaluateAll(fs, cells[..n], data)) == Matrix.Get(q, EvaluateAll(fs, cells, data))
    decreases |cells|
  {
    if |cells| > n {
      var init := cells[..|cells| - 1];
      assert init[..n] == cells[..n];
      LaterCellsElsewhere(fs, init, data, n, q);
    } else {
      assert cells[..n] == cells;
    }
  }

  // ---------------------------------------------------------------------------
  // Evaluating after a single write

  /** The cell of `data` at `q` carrying the reference error. */
  function Marked<V, M>(fs: Formulas<V, M>, data: Data<V, M>, q: Point): Option<Cell<V, M>> {
    match Matrix.Get(q, data)
    case Some(c) => Some(Cell(fs.refError, c.meta))
    case None => None
  }

  /** The cell of `data` at `q` showing its value against `parser`. */
  function Reevaluated<V, M>(fs: Formulas<V, M>, data: Data<V, M>, parser: Data<V, M>, q: Point): Option<Cell<V, M>> {
    match Matrix.Get(q, data)
    case Some(c) => Some(Cell(ShownValue(fs, c.value, q, parser), c.meta))
    case None => None
  }

  /**
   * The outcome of a write into a circular dependency: the written cell
   * carries the reference error; every other cell either keeps its previous
   * evaluated value or is a dependent of `point` that carries the error; and
   * unless `point` itself lies on a cycle, every dependent present in `data`
   * carries it.
   */
  ghost predicate CircularResult<V, M>(fs: Formulas<V, M>, prev: Data<V, M>, data: Data<V, M>, f: Edges,
                                       point: Point, cell: Cell<V, M>, r: Data<V, M>) {
    && Matrix.Get(point, r) == Some(Cell(fs.refError, cell.meta))
    && (forall q :: q != point ==>
          || Matrix.Get(q, r) == Matrix.Get(q, prev)
          || (DependsOn(f, q, point) && Matrix.Get(q, data).Some? && Matrix.Get(q, r) == Marked(fs, data, q)))
    && (!DependsOn(f, point, point) ==>
          forall q :: DependsOn(f, q, point) && Matrix.Get(q, data).Some? ==> Matrix.Get(q, r) == Marked(fs, data, q))
  }

  /**
   * The outcome of a write outside any circular dependency: the written cell
   * shows its value, every dependent present in `data` is re-evaluated, and
   * every other cell keeps its previous evaluated value.
   */
  ghost predicate AcyclicResult<V, M>(fs: Formulas<V, M>, prev: Data<V, M>, data: Data<V, M>, f: Edges,
                                      point: Point, cell: Cell<V, M>, parser: Data<V, M>, r: Data<V, M>) {
    && Matrix.Get(point, r) == Some(Cell(ShownValue(fs, cell.value, point, parser), cell.meta))
    && forall q :: q != point ==>
         Matrix.Get(q, r) ==
         if DependsOn(f, q, point) && Matrix.Get(q, data).Some? then Reevaluated(fs, data, parser, q)
         else Matrix.Get(q, prev)
  }

  lemma DistinctNotEarlier(s: seq<Point>, i: nat)
    requires Distinct(s) && i < |s|
    ensures s[i] !in s[..i]
  {
  }

  /** A point that depends on itself is reported by the detection started from it. */
  lemma SelfDependentReported(f: Edges, p: Point)
    ensures DependsOn(f, p, p) ==> ReachedTwice(f, p)
  {
    if DependsOn(f, p, p) {
      ReachesSelf(f, p);
      CycleReported(f, p, p);
    }
  }

  /** What the walk has written for `q` once it has gone over `walked`. */
  function MarkedUpTo<V, M>(fs: Formulas<V, M>, data: Data<V, M>, point: Point, cell: Cell<V, M>,
                            walked: seq<Point>, q: Point): Option<Cell<V, M>> {
    if q == point then Some(Cell(fs.refError, cell.meta))
    else if q in walked then Marked(fs, data, q)
    else None
  }

  /** One step of the walk: `referrer`'s error cell is listed when it is present in `data`. */
  lemma MarkStep<V, M>(fs: Formulas<V, M>, data: Data<V, M>, point: Point, cell: Cell<V, M>,
                       walked: seq<Point>, updates: seq<(Point, Cell<V, M>)>, referrer: Point)
    requires referrer != point
    requires Matrix.AllIndices(updates)
    requires forall q :: Matrix.LastWrite(updates, q) == MarkedUpTo(fs, data, point, cell, walked, q)
    ensures var next := match Matrix.Get(referrer, data)
                        case Some(c) => updates + [(referrer, Cell(fs.refError, c.meta))]
                        case None => updates;
            && Matrix.AllIndices(next)
            && forall q :: Matrix.LastWrite(next, q) == MarkedUpTo(fs, data, point, cell, walked + [referrer], q)
  {
    var referrerCell := Matrix.Get(referrer, data);
    if referrerCell.Some? {
      CellIsIndex(referrer, data);
      forall q {
        LastWriteAppend(updates, (referrer, Cell(fs.refError, referrerCell.value.meta)), q);
      }
    }
  }

  /** Going over a point visited before writes nothing new. */
  lemma MarkSkip<V, M>(fs: Formulas<V, M>, data: Data<V, M>, point: Point, cell: Cell<V, M>,
                       walked: seq<Point>, referrer: Point)
    requires referrer == point || referrer in walked
    ensures forall q :: MarkedUpTo(fs, data, point, cell, walked + [referrer], q) == MarkedUpTo(fs, data, point, cell, walked, q)
  {
    forall q
      ensures MarkedUpTo(fs, data, point, cell, walked + [referrer], q) == MarkedUpTo(fs, data, point, cell, walked, q)
    {
      assert q in walked + [referrer] <==> q in walked || q == referrer;
    }
  }

  /**
   * How many of `list` the walk of the circular branch of `evaluateCell`
   * goes over: all of them, or those before `point` when `point` is listed.
   */
  function Walked(point: Point, list: seq<Point>): (n: nat)
    ensures n <= |list| && point !in list[..n]
    ensures n < |list| ==> list[n] == point
  {
    if list == [] then 0
    else if list[0] == point then 0
    else
      var n := Walked(point, list[1..]);
      assert list[..n + 1] == [list[0]] + list[1..][..n];
      n + 1
  }

  /** `Walked` is the first index holding `point`, or the length of the list. */
  lemma {:induction false} WalkedAt(point: Point, list: seq<Point>, i: nat)
    requires i <= |list| && point !in list[..i] && (i == |list| || list[i] == point)
    ensures Walked(point, list) == i
  {
    if 0 < i {
      assert list[..i] == [list[0]] + list[1..][..i - 1];
    }
    if list != [] && list[0] != point {
      WalkedAt(point, list[1..], i - 1);
    }
  }

  /**
   * The walk of the circular branch of `evaluateCell` over the dependents
   * `list`: it stops at the first point visited before, which can only be
   * `point`, and lists the error cell of each dependent walked over that is
   * present in `data`.
   */
  method MarkDependents<V, M>(fs: Formulas<V, M>, data: Data<V, M>, point: Point, cell: Cell<V, M>, list: seq<Point>)
    returns (updates: seq<(Point, Cell<V, M>)>, ghost n: nat)
    requires Matrix.IsIndex(point) && Distinct(list)
    ensures n == Walked(point, list)
    ensures Matrix.AllIndices(updates)
    ensures forall q ::
      Matrix.LastWrite(updates, q) ==
        (if q == point then Some(Cell(fs.refError, cell.meta))
         else if q in list[..n] then Marked(fs, data, q)
         else None)
  {
    updates := [(point, Cell(fs.refError, cell.meta))];
    var visited := PointSets.From([point]);
    forall p
      ensures p in visited.elems <==> p == point
    {
      assert visited.Has(p) <==> p in [point];
    }
    assert list[..0] == [];
    var i := 0;
    while i < |list|
      invariant 0 <= i <= |list|
      invariant forall p :: visited.Has(p) <==> p == point || p in list[..i]
      invariant point !in list[..i]
      invariant Matrix.AllIndices(updates)
      invariant forall q :: Matrix.LastWrite(updates, q) == MarkedUpTo(fs, data, point, cell, list[..i], q)
    {
      var referrer := list[i];
      DistinctNotEarlier(list, i);
      if visited.Has(referrer) {
        break;
      }
      MarkStep(fs, data, point, cell, list[..i], updates, referrer);
      visited := visited.Add(referrer);
      var referrerCell := Matrix.Get(referrer, data);
      if referrerCell.Some? {
        updates := updates + [(referrer, Cell(fs.refError, referrerCell.value.meta))];
      }
      assert list[..i + 1] == list[..i] + [referrer];
      i := i + 1;
    }
    WalkedAt(point, list, i);
    n := i;
  }

  /**
   * The walk skips every dependent listed after `point`. On the graph of
   * `BreakScenario`, where B1 lies on a cycle and C1 depends on it, a walk
   * over A1, B1, C1 from B1 stops at B1 and C1 is left out.
   */
  lemma BreakSkipsDependent()
    ensures var f := BreakScenario();
            var a1, b1, c1 := Point(0, 0), Point(0, 1), Point(0, 2);
            && DependsOn(f, c1, b1) && DependsOn(f, b1, b1)
            && Walked(b1, [a1, b1, c1]) == 1 && c1 !in [a1, b1, c1][..1]
  {
    var f := BreakScenario();
    var a1, b1, c1 := Point(0, 0), Point(0, 1), Point(0, 2);
    assert IsPath(f, [c1, a1, b1]);
    assert IsPath(f, [b1, a1, b1]);
    WalkedAt(b1, [a1, b1, c1], 1);
  }

  /** A1 refers to B1, B1 to A1 and C1 to A1 (B1 having just been rewritten to refer to A1). */
  function BreakScenario(): Edges {
    map[Point(0, 0) := PointSet({Point(0, 1)}),
        Point(0, 1) := PointSet({Point(0, 0)}),
        Point(0, 2) := PointSet({Point(0, 0)})]
  }

  /**
   * The walk with a repeated point skipped rather than ending it: the error
   * cell of every dependent in `list` present in `data`.
   */
  method MarkDependentsFixed<V, M>(fs: Formulas<V, M>, data: Data<V, M>, point: Point, cell: Cell<V, M>, list: seq<Point>)
    returns (updates: seq<(Point, Cell<V, M>)>)
    requires Matrix.IsIndex(point)
    ensures Matrix.AllIndices(updates)
    ensures forall q ::
      Matrix.LastWrite(updates, q) ==
        (if q == point then Some(Cell(fs.refError, cell.meta))
         else if q in list then Marked(fs, data, q)
         else None)
  {
    updates := [(point, Cell(fs.refError, cell.meta))];
    var visited := PointSets.From([point]);
    forall p
      ensures p in visited.elems <==> p == point
    {
      assert visited.Has(p) <==> p in [point];
    }
    assert list[..0] == [];
    for i := 0 to |list|
      invariant forall p :: visited.Has(p) <==> p == point || p in list[..i]
      invariant Matrix.AllIndices(updates)
      invariant forall q :: Matrix.LastWrite(updates, q) == MarkedUpTo(fs, data, point, cell, list[..i], q)
    {
      var referrer := list[i];
      assert list[..i + 1] == list[..i] + [referrer];
      if visited.Has(referrer) {
        MarkSkip(fs, data, point, cell, list[..i], referrer);
        continue;
      }
      MarkStep(fs, data, point, cell, list[..i], updates, referrer);
      visited := visited.Add(referrer);
      var referrerCell := Matrix.Get(referrer, data);
      if referrerCell.Some? {
        updates := updates + [(referrer, Cell(fs.refError, referrerCell.value.meta))];
      }
    }
    assert list[..|list|] == list;
  }

  /** The circular branch of `evaluateCell`. */
  method MarkCircular<V, M>(fs: Formulas<V, M>, prev: Data<V, M>, data: Data<V, M>, graph: PointGraph,
                            point: Point, cell: Cell<V, M>) returns (r: Data<V, M>)
    requires graph.Valid() && Matrix.IsIndex(point)
    modifies graph
    ensures graph.Valid()
    ensures CircularResult(fs, prev, data, graph.forwards, point, cell, r)
  {
    var referrers := graph.GetBackwardsRecursive(point, Empty);
    var list := referrers.Elements();
    var updates, n := MarkDependents(fs, data, point, cell, list);
    r := Matrix.SetMultiple(updates, prev);
    assert Walked(point, list) == |list| || point in referrers.elems;
    assert list[..|list|] == list;
  }

  /**
   * The outcome of a write into a circular dependency once the walk skips
   * repeated points: the written cell and every dependent present in `data`
   * carry the reference error, and every other cell keeps its previous
   * evaluated value.
   */
  ghost predicate CircularResultFixed<V, M>(fs: Formulas<V, M>, prev: Data<V, M>, data: Data<V, M>, f: Edges,
                                            point: Point, cell: Cell<V, M>, r: Data<V, M>) {
    && Matrix.Get(point, r) == Some(Cell(fs.refError, cell.meta))
    && forall q :: q != point ==>
         Matrix.Get(q, r) ==
         if DependsOn(f, q, point) && Matrix.Get(q, data).Some? then Marked(fs, data, q)
         else Matrix.Get(q, prev)
  }

  /** The circular branch of `evaluateCell` with the corrected walk. */
  method MarkCircularFixed<V, M>(fs: Formulas<V, M>, prev: Data<V, M>, data: Data<V, M>, graph: PointGraph,
                                 point: Point, cell: Cell<V, M>) returns (r: Data<V, M>)
    requires graph.Valid() && Matrix.IsIndex(point)
    modifies graph
    ensures graph.Valid()
    ensures CircularResultFixed(fs, prev, data, graph.forwards, point, cell, r)
  {
    var referrers := graph.GetBackwardsRecursive(point, Empty);
    var list := referrers.Elements();
    var updates := MarkDependentsFixed(fs, data, point, cell, list);
    r := Matrix.SetMultiple(updates, prev);
  }

  /** What the re-evaluation has written for `q` once it has gone over `walked`. */
  function ReevaluatedUpTo<V, M>(fs: Formulas<V, M>, data: Data<V, M>, parser: Data<V, M>, point: Point, first: Cell<V, M>,
                                 walked: seq<Point>, q: Point): Option<Cell<V, M>> {
    if q in walked then Reevaluated(fs, data, parser, q)
    else if q == point then Some(first)
    else None
  }

  /** One step of the re-evaluation: `referrer`'s cell is listed, showing its value, when it is present in `data`. */
  lemma ReevaluateStep<V, M>(fs: Formulas<V, M>, data: Data<V, M>, parser: Data<V, M>, point: Point, first: Cell<V, M>,
                             walked: seq<Point>, updates: seq<(Point, Cell<V, M>)>, referrer: Point)
    requires referrer != point
    requires Matrix.AllIndices(updates)
    requires forall q :: Matrix.LastWrite(updates, q) == ReevaluatedUpTo(fs, data, parser, point, first, walked, q)
    ensures var next := match Matrix.Get(referrer, data)
                        case Some(c) => updates + [(referrer, Cell(ShownValue(fs, c.value, referrer, parser), c.meta))]
                        case None => updates;
            && Matrix.AllIndices(next)
            && forall q :: Matrix.LastWrite(next, q) == ReevaluatedUpTo(fs, data, parser, point, first, walked + [referrer], q)
  {
    var referrerCell := Matrix.Get(referrer, data);
    if referrerCell.Some? {
      CellIsIndex(referrer, data);
      var c := referrerCell.value;
      forall q {
        LastWriteAppend(updates, (referrer, Cell(ShownValue(fs, c.value, referrer, parser), c.meta)), q);
      }
    }
  }

  /** The acyclic branch of `evaluateCell`: `point` and each of its dependents present in `data`, evaluated against `parser`. */
  method Reevaluate<V, M>(fs: Formulas<V, M>, prev: Data<V, M>, data: Data<V, M>, graph: PointGraph,
                          point: Point, cell: Cell<V, M>, parser: Data<V, M>) returns (r: Data<V, M>)
    requires graph.Valid() && Matrix.IsIndex(point) && !ReachedTwice(graph.forwards, point)
    modifies graph
    ensures graph.Valid()
    ensures AcyclicResult(fs, prev, data, graph.forwards, point, cell, parser, r)
  {
    SelfDependentReported(graph.forwards, point);
    var evaluatedValue := ShownValue(fs, cell.value, point, parser);
    var first := Cell(evaluatedValue, cell.meta);
    var updates := [(point, first)];
    var referrers := graph.GetBackwardsRecursive(point, Empty);
    var list := referrers.Elements();
    assert point !in list;
    for i := 0 to |list|
      invariant Matrix.AllIndices(updates)
      invariant graph.Valid()
      invariant forall q :: Matrix.LastWrite(updates, q) == ReevaluatedUpTo(fs, data, parser, point, first, list[..i], q)
    {
      var referrer := list[i];
      ReevaluateStep(fs, data, parser, point, first, list[..i], updates, referrer);
      assert list[..i + 1] == list[..i] + [referrer];
      var referrerCell := Matrix.Get(referrer, data);
      if referrerCell.None? {
        continue;
      }
      var value := ShownValue(fs, referrerCell.value.value, referrer, parser);
      updates := updates + [(referrer, Cell(value, referrerCell.value.meta))];
    }
    r := Matrix.SetMultiple(updates, prev);
    assert list[..|list|] == list;
  }

  /**
   * `evaluateCell`: after `point` was written with `cell`, the previous
   * evaluated data with `point` and its dependents brought up to date, or
   * marked with the reference error when the detection reports a circular
   * dependency from `point`.
   */
  method EvaluateCell<V, M>(fs: Formulas<V, M>, prevEvaluatedData: Data<V, M>, data: Data<V, M>, graph: PointGraph,
                            point: Point, cell: Cell<V, M>, parser: Data<V, M>) returns (r: Data<V, M>)
    requires graph.Valid() && Matrix.IsIndex(point)
    modifies graph
    ensures graph.Valid()
    ensures ReachedTwice(graph.forwards, point) ==> CircularResult(fs, prevEvaluatedData, data, graph.forwards, point, cell, r)
    ensures !ReachedTwice(graph.forwards, point) ==>
      AcyclicResult(fs, prevEvaluatedData, data, graph.forwards, point, cell, parser, r)
  {
    var circular := graph.HasCircularDependency(point);
    if circular {
      r := MarkCircular(fs, prevEvaluatedData, data, graph, point, cell);
    } else {
      r := Reevaluate(fs, prevEvaluatedData, data, graph, point, cell, parser);
    }
  }

  /** `evaluateCell` with the corrected walk in its circular branch. */
  method EvaluateCellFixed<V, M>(fs: Formulas<V, M>, prevEvaluatedData: Data<V, M>, data: Data<V, M>, graph: PointGraph,
                                 point: Point, cell: Cell<V, M>, parser: Data<V, M>) returns (r: Data<V, M>)
    requires graph.Valid() && Matrix.IsIndex(point)
    modifies graph
    ensures graph.Valid()
    ensures ReachedTwice(graph.forwards, point) ==>
      CircularResultFixed(fs, prevEvaluatedData, data, graph.forwards, point, cell, r)
    ensures !ReachedTwice(graph.forwards, point) ==>
      AcyclicResult(fs, prevEvaluatedData, data, graph.forwards, point, cell, parser, r)
  {
    var circular := graph.HasCircularDependency(point);
    if circular {
      r := MarkCircularFixed(fs, prevEvaluatedData, data, graph, point, cell);
    } else {
      r := Reevaluate(fs, prevEvaluatedData, data, graph, point, cell, parser);
    }
  }

  // ---------------------------------------------------------------------------
  // The model

  /** The sheet after evaluation along some traversal `order` of the graph `f` (what `createEvaluatedData` yields). */
  ghost predicate EvaluatedAlong<V, M>(fs: Formulas<V, M>, data: Data<V, M>, f: Edges, order: seq<Point>, evaluated: Data<V, M>) {
    && Distinct(order) && Topological(f, order) && Stuck(f, order)
    && (forall p :: p in order ==> p in Nodes(f))
    && Matrix.AllIndices(FormulaCells(fs, order, data))
    && evaluated == EvaluateAll(fs, FormulaCells(fs, order, data), data)
  }

  /** `Model`: the raw cells, the reference graph and the evaluated cells. */
  class Model<V, M> {
    const formulas: Formulas<V, M>
    const data: Data<V, M>
    const referenceGraph: PointGraph
    const evaluatedData: Data<V, M>

    ghost predicate Valid()
      reads this, referenceGraph
    {
      referenceGraph.Valid()
    }

    /** The graph and the evaluated data are built from `data` unless they are given. */
    constructor (fs: Formulas<V, M>, data: Data<V, M>, referenceGraph: Option<PointGraph>, evaluatedData: Option<Data<V, M>>)
      requires referenceGraph.None? ==> Matrix.Dense(data)
      requires referenceGraph.Some? ==> referenceGraph.value.Valid()
      modifies if referenceGraph.Some? then {referenceGraph.value} else {}
      ensures Valid() && formulas == fs && this.data == data
      ensures referenceGraph.Some? ==> this.referenceGraph == referenceGraph.value
      ensures referenceGraph.None? ==> fresh(this.referenceGraph)
      ensures referenceGraph.None? ==>
        forall p :: p in this.referenceGraph.forwards <==> FormulaRefs(fs, data, p).Some?
      ensures referenceGraph.None? ==>
        forall p :: p in this.referenceGraph.forwards ==> FormulaRefs(fs, data, p) == Some(this.referenceGraph.forwards[p])
      ensures evaluatedData.Some? ==> this.evaluatedData == evaluatedData.value
      ensures evaluatedData.None? ==>
        exists order :: EvaluatedAlong(fs, data, this.referenceGraph.forwards, order, this.evaluatedData)
    {
      var graph: PointGraph;
      if referenceGraph.Some? {
        graph := referenceGraph.value;
      } else {
        graph := CreateReferenceGraph(fs, data);
      }
      var evaluated: Data<V, M>;
      if evaluatedData.Some? {
        evaluated := evaluatedData.value;
      } else {
        ghost var order;
        evaluated, order := CreateEvaluatedData(fs, data, graph);
        assert EvaluatedAlong(fs, data, graph.forwards, order, evaluated);
      }
      this.formulas := fs;
      this.data := data;
      this.referenceGraph := graph;
      this.evaluatedData := evaluated;
    }
  }

  /** A point with an edge to itself is reported by the detection started from it. */
  lemma SelfLoopReported(f: Edges, p: Point)
    requires GetIn(f, p).Has(p)
    ensures ReachedTwice(f, p)
  {
    ReachesSelf(f, p);
  }

  /** A point without edges is never reported by the detection started from it. */
  lemma NoEdgesNotReported(f: Edges, p: Point)
    requires GetIn(f, p).Size() == 0
    ensures !ReachedTwice(f, p)
  {
    var closed := {p};
    forall y | Reaches(f, p, y)
      ensures y == p
    {
      var path :| IsPath(f, path) && path[0] == p && path[|path| - 1] == y;
      ClosedContainsPath(f, closed, path);
    }
  }

  /**
   * `updateCellValue`: the cell is written into the data; a formula also
   * replaces the point's entry in the graph by its references against the
   * new data, while any other value leaves the graph as it was; then the
   * point and its dependents are evaluated against the new data.
   */
  method UpdateCellValue<V, M>(model: Model<V, M>, point: Point, cell: Cell<V, M>) returns (next: Model<V, M>)
    requires model.Valid() && Matrix.IsIndex(point)
    modifies model.referenceGraph
    ensures fresh(next) && next.Valid()
    ensures next.formulas == model.formulas && next.data == Matrix.Set(point, cell, model.data)
    ensures model.formulas.isFormula(cell.value) ==>
      && fresh(next.referenceGraph)
      && next.referenceGraph.Get(point) == model.formulas.references(cell.value, point, next.data)
      && forall q :: q != point ==> next.referenceGraph.Get(q) == model.referenceGraph.Get(q)
    ensures !model.formulas.isFormula(cell.value) ==> next.referenceGraph == model.referenceGraph
    ensures ReachedTwice(next.referenceGraph.forwards, point) ==>
      CircularResult(model.formulas, model.evaluatedData, next.data, next.referenceGraph.forwards, point, cell, next.evaluatedData)
    ensures !ReachedTwice(next.referenceGraph.forwards, point) ==>
      AcyclicResult(model.formulas, model.evaluatedData, next.data, next.referenceGraph.forwards, point, cell, next.data,
                    next.evaluatedData)
    // A value that is no formula, written over a formula that referred to its own cell, shows the reference error.
    ensures !model.formulas.isFormula(cell.value) && model.referenceGraph.Get(point).Has(point) ==>
      Matrix.Get(point, next.evaluatedData) == Some(Cell(model.formulas.refError, cell.meta))
  {
    var fs := model.formulas;
    var nextData := Matrix.Set(point, cell, model.data);
    var nextReferenceGraph := model.referenceGraph;
    if fs.isFormula(cell.value) {
      nextReferenceGraph := UpdateReferenceGraph(fs, model.referenceGraph, point, cell, nextData);
    }
    var nextEvaluatedData := EvaluateCell(fs, model.evaluatedData, nextData, nextReferenceGraph, point, cell, nextData);
    if !fs.isFormula(cell.value) && model.referenceGraph.Get(point).Has(point) {
      SelfLoopReported(nextReferenceGraph.forwards, point);
    }
    next := new Model(fs, nextData, Some(nextReferenceGraph), Some(nextEvaluatedData));
  }

  /** `updateReferenceGraph`: the graph with the point's entry replaced by the formula's references against `data`. */
  method UpdateReferenceGraph<V, M>(fs: Formulas<V, M>, graph: PointGraph, point: Point, cell: Cell<V, M>, data: Data<V, M>)
    returns (next: PointGraph)
    ensures fresh(next) && next.Valid()
    ensures next.Get(point) == fs.references(cell.value, point, data)
    ensures forall q :: q != point ==> next.Get(q) == graph.Get(q)
  {
    var references := fs.references(cell.value, point, data);
    next := graph.Set(point, references);
  }

  /**
   * `updateCellValue` with the graph kept in step with the data: a value
   * that is no formula has no references, so its entry is removed.
   */
  method UpdateCellValueFixed<V, M>(model: Model<V, M>, point: Point, cell: Cell<V, M>) returns (next: Model<V, M>)
    requires model.Valid() && Matrix.IsIndex(point)
    ensures fresh(next) && fresh(next.referenceGraph) && next.Valid()
    ensures next.formulas == model.formulas && next.data == Matrix.Set(point, cell, model.data)
    ensures next.referenceGraph.Get(point) ==
      if model.formulas.isFormula(cell.value) then model.formulas.references(cell.value, point, next.data) else Empty
    ensures forall q :: q != point ==> next.referenceGraph.Get(q) == model.referenceGraph.Get(q)
    ensures ReachedTwice(next.referenceGraph.forwards, point) ==>
      CircularResultFixed(model.formulas, model.evaluatedData, next.data, next.referenceGraph.forwards, point, cell,
                          next.evaluatedData)
    ensures !ReachedTwice(next.referenceGraph.forwards, point) ==>
      AcyclicResult(model.formulas, model.evaluatedData, next.data, next.referenceGraph.forwards, point, cell, next.data,
                    next.evaluatedData)
    // A value that is no formula always shows itself.
    ensures !model.formulas.isFormula(cell.value) ==> Matrix.Get(point, next.evaluatedData) == Some(cell)
  {
    var fs := model.formulas;
    var nextData := Matrix.Set(point, cell, model.data);
    var references := if fs.isFormula(cell.value) then fs.references(cell.value, point, nextData) else Empty;
    var nextReferenceGraph := model.referenceGraph.Set(point, references);
    var nextEvaluatedData := EvaluateCellFixed(fs, model.evaluatedData, nextData, nextReferenceGraph, point, cell, nextData);
    if !fs.isFormula(cell.value) {
      NoEdgesNotReported(nextReferenceGraph.forwards, point);
    }
    next := new Model(fs, nextData, Some(nextReferenceGraph), Some(nextEvaluatedData));
  }
}
