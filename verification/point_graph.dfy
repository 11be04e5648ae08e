/**
 * The dependency graph of formula cells (class PointGraph,
 * src/engine/point-graph.ts).
 *
 * `forwards` maps a formula cell to the set of cells its formula references.
 * The reverse index (who references a cell) is built lazily on first use and
 * cached in the object; `Valid` says the cache, once built, is exactly the
 * reverse of `forwards`. The source's maps are keyed by hash strings; by
 * PointHash.RoundTrip and PointHash.Injective that is the same as keying them
 * by points, which is what the model does.
 */
module PointGraphs {
  import opened Wrappers
  import opened PointHash
  import opened PointSets
  import Matrix

  type Edges = map<Point, PointSet>

  // ---------------------------------------------------------------------------
  // The graph as a value

  /** `get`: the edges of `node`, or the empty set when it has no entry. */
  function GetIn(forwards: Edges, node: Point): PointSet {
    if node in forwards then forwards[node] else Empty
  }

  /** The edge targets of the entries whose keys are in `keys`. */
  function TargetsFrom(forwards: Edges, keys: set<Point>): (r: set<Point>)
    ensures forall b :: b in r <==> exists a :: a in keys && a in forwards && b in forwards[a].elems
  {
    set a, b | a in keys && a in forwards && b in forwards[a].elems :: b
  }

  /** The keys among `keys` whose edges reach `b`. */
  function ReferrersFrom(forwards: Edges, keys: set<Point>, b: Point): (r: set<Point>)
    ensures forall a :: a in r <==> a in keys && a in forwards && b in forwards[a].elems
  {
    set a | a in keys && a in forwards && b in forwards[a].elems
  }

  /** All edge targets. */
  function Targets(forwards: Edges): set<Point> {
    TargetsFrom(forwards, forwards.Keys)
  }

  /** The points with an edge to `b`. */
  function Referrers(forwards: Edges, b: Point): set<Point> {
    ReferrersFrom(forwards, forwards.Keys, b)
  }

  /** The points the graph's iterator yields: its keys and the targets of its edges. */
  function Nodes(forwards: Edges): set<Point> {
    forwards.Keys + Targets(forwards)
  }

  /**
   * The reverse index the cache holds: a key for each edge target, mapped to
   * the points with an edge to it. `a` is in the entry of `b` exactly when
   * `b` is among the edges of `a`.
   */
  function ReverseIndex(forwards: Edges): (r: Edges)
    ensures r.Keys == Targets(forwards)
    ensures forall a, b :: (b in r && a in r[b].elems) <==> (a in forwards && b in forwards[a].elems)
  {
    map b | b in Targets(forwards) :: PointSet(Referrers(forwards, b))
  }

  /** Consecutive points of `path` are joined by forward edges. */
  ghost predicate IsPath(forwards: Edges, path: seq<Point>) {
    |path| >= 1 && forall i :: 0 <= i < |path| - 1 ==> GetIn(forwards, path[i]).Has(path[i + 1])
  }

  /** `b` is reached from `a` along zero or more forward edges. */
  ghost predicate Reaches(forwards: Edges, a: Point, b: Point) {
    exists path :: IsPath(forwards, path) && path[0] == a && path[|path| - 1] == b
  }

  /** `a` depends on `b`: `b` is reached from `a` along one or more forward edges. */
  ghost predicate DependsOn(forwards: Edges, a: Point, b: Point) {
    exists path :: IsPath(forwards, path) && |path| >= 2 && path[0] == a && path[|path| - 1] == b
  }

  /** Some point depends on itself. */
  ghost predicate HasCycle(forwards: Edges) {
    exists p :: DependsOn(forwards, p, p)
  }

  /**
   * What the depth-first search of `hasCircularDependency` detects: a point
   * pushed twice. The start is pushed once up front and every point reached
   * from it pushes each of its edges once, so this holds when the start is
   * an edge target of a point it reaches, or when two distinct points it
   * reaches share an edge target.
   */
  ghost predicate ReachedTwice(forwards: Edges, start: Point) {
    || (exists y :: Reaches(forwards, start, y) && GetIn(forwards, y).Has(start))
    || (exists y1, y2, z :: y1 != y2 && Reaches(forwards, start, y1) && Reaches(forwards, start, y2)
                           && GetIn(forwards, y1).Has(z) && GetIn(forwards, y2).Has(z))
  }

  // ---------------------------------------------------------------------------
  // The object

  class PointGraph {
    const forwards: Edges
    var backwards: Edges
    var backwardsCacheBuilt: bool

    /** The cache is empty until built, and then it is the reverse index of `forwards`. */
    ghost predicate Valid()
      reads this
    {
      if backwardsCacheBuilt then backwards == ReverseIndex(forwards) else backwards == map[]
    }

    constructor (forwards: Edges)
      ensures this.forwards == forwards && !backwardsCacheBuilt && Valid()
    {
      this.forwards := forwards;
      this.backwards := map[];
      this.backwardsCacheBuilt := false;
    }

    /** `PointGraph.from`: one entry per distinct point; a point given twice keeps its last set, even an empty one. */
    static method From(pairs: seq<(Point, PointSet)>) returns (g: PointGraph)
      ensures fresh(g) && g.Valid() && !g.backwardsCacheBuilt
      ensures forall p :: p in g.forwards <==> Matrix.LastWrite(pairs, p).Some?
      ensures forall p :: p in g.forwards ==> Matrix.LastWrite(pairs, p) == Some(g.forwards[p])
    {
      var forwards: Edges := map[];
      for i := 0 to |pairs|
        invariant forall p :: p in forwards <==> Matrix.LastWrite(pairs[..i], p).Some?
        invariant forall p :: p in forwards ==> Matrix.LastWrite(pairs[..i], p) == Some(forwards[p])
      {
        forall p
          ensures Matrix.LastWrite(pairs[..i + 1], p) ==
            if pairs[i].0 == p then Some(pairs[i].1) else Matrix.LastWrite(pairs[..i], p)
        {
          Matrix.LastWriteSnoc(pairs, i, p);
        }
        forwards := forwards[pairs[i].0 := pairs[i].1];
      }
      assert pairs[..|pairs|] == pairs;
      g := new PointGraph(forwards);
    }

    /** `get`. */
    function Get(node: Point): PointSet {
      GetIn(forwards, node)
    }

    /**
     * `set`: a new graph whose entry for `node` is `edges`, or which has no
     * entry for `node` when `edges` is empty. Either way `get(node)` is
     * `edges` and every other point keeps its edges.
     */
    method Set(node: Point, edges: PointSet) returns (g: PointGraph)
      ensures fresh(g) && g.Valid() && !g.backwardsCacheBuilt
      ensures g.forwards == if edges.Size() == 0 then forwards - {node} else forwards[node := edges]
      ensures g.Get(node) == edges
      ensures forall q :: q != node ==> g.Get(q) == Get(q)
    {
      if edges.Size() == 0 {
        g := new PointGraph(forwards - {node});
        return;
      }
      g := new PointGraph(forwards[node := edges]);
    }

    /** `buildBackwardsCache`: fills the cache with the reverse index, once. */
    method BuildBackwardsCache() returns (r: Edges)
      requires Valid()
      modifies this
      ensures Valid() && backwardsCacheBuilt
      ensures r == backwards == ReverseIndex(forwards)
    {
      if backwardsCacheBuilt {
        return backwards;
      }
      var index := ReverseEdges(forwards);
      var targets := index.Keys;
      while targets != {}
        invariant targets <= index.Keys
        invariant backwards.Keys == index.Keys - targets
        invariant forall b :: b in backwards ==> backwards[b] == PointSet(index[b])
        decreases targets
      {
        var target :| target in targets;
        var points := PointSet(index[target]).Elements();
        var referrers := PointSets.From(points);
        assert referrers.elems == index[target];
        backwards := backwards[target := referrers];
        targets := targets - {target};
      }
      backwardsCacheBuilt := true;
      r := backwards;
    }

    /** `getBackwards`: the points with an edge to `node`, from the cache. */
    method GetBackwards(node: Point) returns (r: PointSet)
      requires Valid()
      modifies this
      ensures Valid() && backwardsCacheBuilt
      ensures r == PointSet(Referrers(forwards, node))
      ensures forall a :: r.Has(a) <==> Get(a).Has(node)
    {
      var index := BuildBackwardsCache();
      r := if node in index then index[node] else Empty;
    }

    /**
     * `getBackwardsRecursive`: the points that depend on `node`, found by
     * recursing into each referrer not yet in `visited`. It terminates on
     * cyclic graphs because every recursive call marks one more key visited.
     */
    method GetBackwardsRecursive(node: Point, visited: PointSet) returns (result: PointSet)
      requires Valid()
      modifies this
      ensures Valid() && backwardsCacheBuilt
      ensures Referrers(forwards, node) <= result.elems <= forwards.Keys
      ensures forall a :: result.Has(a) ==> DependsOn(forwards, a, node)
      ensures Covers(forwards, result.elems, node, visited.elems)
      ensures visited.elems == {} ==> forall a :: DependsOn(forwards, a, node) ==> result.Has(a)
      decreases forwards.Keys - visited.elems
    {
      result := GetBackwards(node);
      var direct := result;
      ReferrersDependOn(forwards, node);
      var newVisited := visited;
      var rest := direct.elems;
      while rest != {}
        invariant rest <= direct.elems
        invariant visited.elems <= newVisited.elems <= visited.elems + (direct.elems - rest)
        invariant Valid() && backwardsCacheBuilt
        invariant direct.elems <= result.elems <= forwards.Keys
        invariant forall a :: result.Has(a) ==> DependsOn(forwards, a, node)
        invariant forall r :: r in direct.elems - rest && r !in visited.elems ==>
                    Covers(forwards, result.elems, r, visited.elems + direct.elems)
        decreases rest
      {
        var point :| point in rest;
        rest := rest - {point};
        if newVisited.Has(point) {
          continue;
        }
        newVisited := newVisited.Add(point);
        var further := GetBackwardsRecursive(point, newVisited);
        forall a | further.Has(a)
          ensures DependsOn(forwards, a, node)
        {
          DependsOnThrough(forwards, a, point, node);
        }
        ghost var before := result.elems;
        result := result.Union(further);
        forall r | r in direct.elems - rest && r !in visited.elems
          ensures Covers(forwards, result.elems, r, visited.elems + direct.elems)
        {
          if r == point {
            CoversWeaken(forwards, further.elems, result.elems, r, newVisited.elems, visited.elems + direct.elems);
          } else {
            CoversWeaken(forwards, before, result.elems, r, visited.elems + direct.elems, visited.elems + direct.elems);
          }
        }
      }
      CoversFromReferrers(forwards, node, visited.elems, result.elems);
      if visited.elems == {} {
        CoversAllDependents(forwards, result.elems, node);
      }
    }

    /**
     * `hasCircularDependency`: a depth-first search from `start` with one
     * visited set for the whole search, which answers true as soon as it
     * pops a point it has already visited.
     */
    method HasCircularDependency(start: Point) returns (b: bool)
      ensures b <==> ReachedTwice(forwards, start)
    {
      var visited: set<Point> := {};
      var stack: seq<Point> := [start];
      SearchStarts(forwards, start);
      while |stack| > 0
        invariant SearchState(forwards, start, stack, visited)
        decreases ({start} + Targets(forwards)) - visited
      {
        var current := stack[|stack| - 1];
        var rest := stack[..|stack| - 1];
        assert stack == rest + [current];
        stack := rest;
        if current in visited {
          SearchRepeats(forwards, start, rest, visited, current);
          return true;
        }
        var dependents := Get(current);
        if dependents.Size() == 0 {
          SearchExpands(forwards, start, rest, visited, current, []);
          visited := visited + {current};
          continue;
        }
        var list := dependents.Elements();
        SearchExpands(forwards, start, rest, visited, current, list);
        visited := visited + {current};
        stack := stack + list;
      }
      SearchEnds(forwards, start, visited);
      return false;
    }

    /**
     * The iterator: every key with its edges, then, after each key, those of
     * its edge targets that are neither keys nor yielded before, each with the
     * empty set. Every node is yielded exactly once, with its own edges.
     */
    method Pairs() returns (pairs: seq<(Point, PointSet)>)
      ensures Distinct(PointsOf(pairs))
      ensures ToSet(PointsOf(pairs)) == Nodes(forwards)
      ensures forall k :: 0 <= k < |pairs| ==> pairs[k].1 == Get(pairs[k].0)
    {
      pairs := [];
      var visitedHashes: set<Point> := {};
      var keys := forwards.Keys;
      while keys != {}
        invariant keys <= forwards.Keys
        invariant visitedHashes == ToSet(PointsOf(pairs))
        invariant visitedHashes == (forwards.Keys - keys) + (TargetsFrom(forwards, forwards.Keys - keys) - forwards.Keys)
        invariant Distinct(PointsOf(pairs))
        invariant forall k :: 0 <= k < |pairs| ==> pairs[k].1 == Get(pairs[k].0)
        decreases keys
      {
        var key :| key in keys;
        ghost var done := forwards.Keys - keys;
        var values := forwards[key];
        visitedHashes := visitedHashes + {key};
        PointsOfSnoc(pairs, (key, values));
        pairs := pairs + [(key, values)];
        var rest := values.elems;
        while rest != {}
          invariant rest <= values.elems
          invariant visitedHashes == ToSet(PointsOf(pairs))
          invariant visitedHashes == done + {key} + (TargetsFrom(forwards, done) - forwards.Keys)
                                     + ((values.elems - rest) - forwards.Keys)
          invariant Distinct(PointsOf(pairs))
          invariant forall k :: 0 <= k < |pairs| ==> pairs[k].1 == Get(pairs[k].0)
          decreases rest
        {
          var value :| value in rest;
          rest := rest - {value};
          if value !in visitedHashes && value !in forwards {
            visitedHashes := visitedHashes + {value};
            PointsOfSnoc(pairs, (value, Empty));
            pairs := pairs + [(value, Empty)];
          }
        }
        keys := keys - {key};
        assert forwards.Keys - keys == done + {key};
      }
      assert forwards.Keys - keys == forwards.Keys;
    }

    /**
     * `traverseBFSBackwards`, run to the end: the points with no edges first,
     * then each point once all of its edge targets have been queued. Each
     * point comes at most once and after all of its dependencies, and a point
     * left out always has a dependency that is left out too.
     */
    method TraverseBFSBackwards() returns (order: seq<Point>)
      requires Valid()
      modifies this
      ensures Valid()
      ensures Distinct(order)
      ensures forall i :: 0 <= i < |order| ==> order[i] in Nodes(forwards)
      ensures forall i, d :: 0 <= i < |order| && Get(order[i]).Has(d) ==> d in order[..i]
      ensures forall n :: n in Nodes(forwards) && n !in order ==> exists d :: Get(n).Has(d) && d !in order
    {
      var pairs := Pairs();
      var queue := Sources(pairs);
      SourcesQueued(forwards, pairs, queue);
      order := Drain(queue);
      TraversalEnds(forwards, order, ToSet(order));
    }

    /**
     * The main loop of `traverseBFSBackwards`: dequeue a point, yield it and
     * queue those of its dependents whose dependencies are all visited, until
     * the queue is exhausted. The yielded points are the final queue.
     */
    method Drain(queue: seq<Point>) returns (order: seq<Point>)
      requires Valid()
      requires Queued(forwards, queue, ToSet(queue)) && Covered(forwards, [], ToSet(queue))
      requires |queue| <= |Nodes(forwards)|
      modifies this
      ensures Valid()
      ensures Queued(forwards, order, ToSet(order)) && Covered(forwards, order, ToSet(order))
    {
      var queue := queue;
      var visited := ToSet(queue);
      order := [];
      var queueIndex := 0;
      while queueIndex < |queue|
        invariant Valid()
        invariant Draining(forwards, queue, queueIndex, order, visited)
        decreases |Nodes(forwards)| - queueIndex
      {
        var point := queue[queueIndex];
        DrainNext(forwards, queue, queueIndex, order, visited);
        var dependents := GetBackwards(point);
        var queue', visited' := Release(dependents.elems, queue, visited, order + [point]);
        DrainStep(forwards, queue, queueIndex, order, visited, dependents.elems, queue', visited');
        queueIndex := queueIndex + 1;
        order := order + [point];
        queue, visited := queue', visited';
      }
      assert queue[..queueIndex] == queue;
    }

    /**
     * The inner loop of `traverseBFSBackwards`: each dependent not yet
     * visited whose dependencies are all visited is queued and visited.
     */
    method Release(dependents: set<Point>, queue: seq<Point>, visited: set<Point>, order: seq<Point>)
      returns (queue': seq<Point>, visited': set<Point>)
      requires dependents <= forwards.Keys
      requires Queued(forwards, queue, visited)
      requires ToSet(order) <= visited
      ensures Queued(forwards, queue', visited')
      ensures |queue| <= |queue'| && queue'[..|queue|] == queue
      ensures visited <= visited'
      ensures forall n :: n in dependents && Get(n).elems <= ToSet(order) ==> n in visited'
    {
      queue', visited' := queue, visited;
      var rest := dependents;
      while rest != {}
        invariant rest <= dependents
        invariant Queued(forwards, queue', visited')
        invariant |queue| <= |queue'| && queue'[..|queue|] == queue
        invariant visited <= visited'
        invariant forall n :: n in dependents - rest && Get(n).elems <= ToSet(order) ==> n in visited'
        decreases rest
      {
        var dependent :| dependent in rest;
        rest := rest - {dependent};
        if dependent !in visited' {
          var allDepsVisited := AllIn(Get(dependent), visited');
          if allDepsVisited {
            QueuedGrows(forwards, queue', visited', dependent);
            queue' := queue' + [dependent];
            visited' := visited' + {dependent};
          }
        }
      }
    }
  }

  /** The first loop of `traverseBFSBackwards`: the points of the pairs with an empty set, in order. */
  method Sources(pairs: seq<(Point, PointSet)>) returns (queue: seq<Point>)
    requires Distinct(PointsOf(pairs))
    ensures Distinct(queue)
    ensures forall p :: p in queue ==> p in PointsOf(pairs)
    ensures forall k :: 0 <= k < |pairs| ==> (pairs[k].0 in queue <==> pairs[k].1.Size() == 0)
  {
    queue := [];
    for k := 0 to |pairs|
      invariant Distinct(queue)
      invariant forall p :: p in queue ==> p in PointsOf(pairs)
      invariant forall j :: 0 <= j < |pairs| ==> (pairs[j].0 in queue <==> j < k && pairs[j].1.Size() == 0)
    {
      var (point, values) := pairs[k];
      forall j | 0 <= j < |pairs| && j != k
        ensures pairs[j].0 != point
      {
        assert PointsOf(pairs)[j] != PointsOf(pairs)[k];
      }
      if values.Size() == 0 {
        assert PointsOf(pairs)[k] == point;
        queue := queue + [point];
      }
    }
  }

  /** The source points start a valid queue that holds every node without edges. */
  lemma SourcesQueued(f: Edges, pairs: seq<(Point, PointSet)>, queue: seq<Point>)
    requires ToSet(PointsOf(pairs)) == Nodes(f)
    requires forall k :: 0 <= k < |pairs| ==> pairs[k].1 == GetIn(f, pairs[k].0)
    requires Distinct(queue)
    requires forall p :: p in queue ==> p in PointsOf(pairs)
    requires forall k :: 0 <= k < |pairs| ==> (pairs[k].0 in queue <==> pairs[k].1.Size() == 0)
    ensures Queued(f, queue, ToSet(queue))
    ensures |queue| <= |Nodes(f)|
    ensures Covered(f, [], ToSet(queue))
  {
    forall i | 0 <= i < |queue|
      ensures queue[i] in Nodes(f) && GetIn(f, queue[i]).elems == {}
    {
      assert queue[i] in PointsOf(pairs);
      var k :| 0 <= k < |pairs| && PointsOf(pairs)[k] == queue[i];
    }
    forall n | n in Nodes(f) && GetIn(f, n).elems <= ToSet([])
      ensures n in ToSet(queue)
    {
      assert n in ToSet(PointsOf(pairs));
      var k :| 0 <= k < |pairs| && PointsOf(pairs)[k] == n;
    }
    DistinctBound(queue, Nodes(f));
  }

  /** The state of the main loop: `order` is the dequeued prefix of a valid queue covering every node whose dependencies it holds. */
  ghost predicate Draining(f: Edges, queue: seq<Point>, queueIndex: nat, order: seq<Point>, visited: set<Point>) {
    && queueIndex <= |queue| <= |Nodes(f)|
    && order == queue[..queueIndex]
    && Queued(f, queue, visited)
    && Covered(f, order, visited)
  }

  lemma DrainNext(f: Edges, queue: seq<Point>, queueIndex: nat, order: seq<Point>, visited: set<Point>)
    requires Draining(f, queue, queueIndex, order, visited) && queueIndex < |queue|
    ensures ToSet(order + [queue[queueIndex]]) <= visited
  {
  }

  /** Dequeuing the next point and releasing its dependents keeps the state of the main loop. */
  lemma DrainStep(f: Edges, queue: seq<Point>, queueIndex: nat, order: seq<Point>, visited: set<Point>,
                  dependents: set<Point>, queue': seq<Point>, visited': set<Point>)
    requires Draining(f, queue, queueIndex, order, visited) && queueIndex < |queue|
    requires dependents == Referrers(f, queue[queueIndex])
    requires Queued(f, queue', visited') && |queue| <= |queue'| && queue'[..|queue|] == queue
    requires visited <= visited'
    requires forall n :: n in dependents && GetIn(f, n).elems <= ToSet(order + [queue[queueIndex]]) ==> n in visited'
    ensures Draining(f, queue', queueIndex + 1, order + [queue[queueIndex]], visited')
  {
    var point := queue[queueIndex];
    assert order + [point] == queue'[..queueIndex + 1] by {
      assert queue'[..queueIndex + 1] == queue[..queueIndex + 1] == queue[..queueIndex] + [point];
    }
    ReleaseCovers(f, order, point, visited, visited', dependents);
    QueuedBound(f, queue', visited');
  }

  /** A queue lists each node at most once, so it is no longer than the graph is large. */
  lemma QueuedBound(f: Edges, queue: seq<Point>, visited: set<Point>)
    requires Queued(f, queue, visited)
    ensures |queue| <= |Nodes(f)|
  {
    forall p | p in queue
      ensures p in Nodes(f)
    {
      var i :| 0 <= i < |queue| && queue[i] == p;
    }
    DistinctBound(queue, Nodes(f));
  }

  /** Every node whose dependencies have all been dequeued is visited. */
  ghost predicate Covered(f: Edges, order: seq<Point>, visited: set<Point>) {
    forall n :: n in Nodes(f) && GetIn(f, n).elems <= ToSet(order) ==> n in visited
  }

  /** Dequeuing `point` and releasing its dependents keeps every node whose dependencies were dequeued visited. */
  lemma ReleaseCovers(f: Edges, order: seq<Point>, point: Point, visited: set<Point>, visited': set<Point>,
                      dependents: set<Point>)
    requires Covered(f, order, visited)
    requires visited <= visited'
    requires forall n :: n in dependents && GetIn(f, n).elems <= ToSet(order + [point]) ==> n in visited'
    requires forall a :: a in dependents <==> GetIn(f, a).Has(point)
    ensures Covered(f, order + [point], visited')
  {
    forall n | n in Nodes(f) && GetIn(f, n).elems <= ToSet(order + [point])
      ensures n in visited'
    {
      if !GetIn(f, n).Has(point) {
        assert GetIn(f, n).elems <= ToSet(order);
      }
    }
  }

  /**
   * The queue of the breadth-first traversal: no point twice, `visited` is
   * the set of its points, all nodes, each after all of its dependencies.
   */
  ghost predicate Queued(f: Edges, queue: seq<Point>, visited: set<Point>) {
    && visited == ToSet(queue)
    && Distinct(queue)
    && (forall i :: 0 <= i < |queue| ==> queue[i] in Nodes(f))
    && (forall i, d :: 0 <= i < |queue| && GetIn(f, queue[i]).Has(d) ==> d in queue[..i])
  }

  /** A queue every node of which was dequeued and which covers all nodes gives the traversal's guarantees. */
  lemma TraversalEnds(f: Edges, queue: seq<Point>, visited: set<Point>)
    requires Queued(f, queue, visited) && Covered(f, queue, visited)
    ensures Distinct(queue)
    ensures forall i :: 0 <= i < |queue| ==> queue[i] in Nodes(f)
    ensures forall i, d :: 0 <= i < |queue| && GetIn(f, queue[i]).Has(d) ==> d in queue[..i]
    ensures forall n :: n in Nodes(f) && n !in queue ==> exists d :: GetIn(f, n).Has(d) && d !in queue
  {
    forall n | n in Nodes(f) && n !in queue
      ensures exists d :: GetIn(f, n).Has(d) && d !in queue
    {
    }
  }

  lemma QueuedGrows(f: Edges, queue: seq<Point>, visited: set<Point>, p: Point)
    requires Queued(f, queue, visited)
    requires p !in visited && p in Nodes(f)
    requires GetIn(f, p).elems <= visited
    ensures Queued(f, queue + [p], visited + {p})
  {
    var q := queue + [p];
    assert q[..|queue|] == queue;
    forall i, d | 0 <= i < |q| && GetIn(f, q[i]).Has(d)
      ensures d in q[..i]
    {
      assert q[..i] == if i < |queue| then queue[..i] else queue;
    }
  }

  // ---------------------------------------------------------------------------
  // Helpers of the loops
  /** The first loop of `buildBackwardsCache`: for each edge target, the keys whose edges hold it. */
  method ReverseEdges(forwards: Edges) returns (index: map<Point, set<Point>>)
    ensures index.Keys == Targets(forwards)
    ensures forall b :: b in index ==> index[b] == Referrers(forwards, b)
  {
    index := map[];
    var keys := forwards.Keys;
    while keys != {}
      invariant keys <= forwards.Keys
      invariant index.Keys == TargetsFrom(forwards, forwards.Keys - keys)
      invariant forall b :: b in index ==> index[b] == ReferrersFrom(forwards, forwards.Keys - keys, b)
      decreases keys
    {
      var key :| key in keys;
      ghost var done := forwards.Keys - keys;
      index := AddReverseEdges(index, key, forwards[key].elems);
      keys := keys - {key};
      assert forwards.Keys - keys == done + {key};
      FromOneMore(forwards, done, key);
    }
    assert forwards.Keys - keys == forwards.Keys;
  }

  /** The inner loop: `key` joins the entry of each of its edge targets. */
  method AddReverseEdges(index: map<Point, set<Point>>, key: Point, edges: set<Point>)
    returns (r: map<Point, set<Point>>)
    ensures r.Keys == index.Keys + edges
    ensures forall b :: b in r ==>
              r[b] == (if b in index then index[b] else {}) + (if b in edges then {key} else {})
  {
    r := index;
    var rest := edges;
    while rest != {}
      invariant rest <= edges
      invariant r.Keys == index.Keys + (edges - rest)
      invariant forall b :: b in r ==>
                  r[b] == (if b in index then index[b] else {}) + (if b in edges - rest then {key} else {})
      decreases rest
    {
      var edge :| edge in rest;
      var referrers := if edge in r then r[edge] else {};
      r := r[edge := referrers + {key}];
      rest := rest - {edge};
    }
  }

  /** Adding a key to those considered adds its edges to the targets and itself to their referrers. */
  lemma FromOneMore(forwards: Edges, done: set<Point>, key: Point)
    requires key in forwards
    ensures TargetsFrom(forwards, done + {key}) == TargetsFrom(forwards, done) + forwards[key].elems
    ensures forall b :: ReferrersFrom(forwards, done + {key}, b) ==
              ReferrersFrom(forwards, done, b) + (if b in forwards[key].elems then {key} else {})
  {
  }


  /** The points of a list of entries. */
  function PointsOf<X>(entries: seq<(Point, X)>): (r: seq<Point>)
    ensures |r| == |entries| && forall k :: 0 <= k < |entries| ==> r[k] == entries[k].0
  {
    seq(|entries|, k requires 0 <= k < |entries| => entries[k].0)
  }

  lemma PointsOfSnoc<X>(entries: seq<(Point, X)>, entry: (Point, X))
    ensures PointsOf(entries + [entry]) == PointsOf(entries) + [entry.0]
  {
  }

  /** Whether every member of `deps` is in `visited`; stops at the first one that is not. */
  method AllIn(deps: PointSet, visited: set<Point>) returns (all: bool)
    ensures all <==> deps.elems <= visited
  {
    var rest := deps.elems;
    while rest != {}
      invariant rest <= deps.elems
      invariant deps.elems - rest <= visited
      decreases rest
    {
      var dep :| dep in rest;
      if dep !in visited {
        return false;
      }
      rest := rest - {dep};
    }
    return true;
  }

  /** How often the search from `start` has pushed `z` once it has expanded the points of `visited`. */
  ghost function Pushes(f: Edges, start: Point, visited: set<Point>, z: Point): nat {
    (if z == start then 1 else 0) + |set y | y in visited && GetIn(f, y).Has(z)|
  }

  lemma PushesGrow(f: Edges, start: Point, visited: set<Point>, current: Point)
    requires current !in visited
    ensures forall z ::
              Pushes(f, start, visited + {current}, z) == Pushes(f, start, visited, z) + (if GetIn(f, current).Has(z) then 1 else 0)
  {
    forall z
      ensures Pushes(f, start, visited + {current}, z) ==
        Pushes(f, start, visited, z) + (if GetIn(f, current).Has(z) then 1 else 0)
    {
      var before := set y | y in visited && GetIn(f, y).Has(z);
      var after := set y | y in visited + {current} && GetIn(f, y).Has(z);
      if GetIn(f, current).Has(z) {
        assert after == before + {current};
      } else {
        assert after == before;
      }
    }
  }

  /** A list without repetitions holds each of its points once. */
  lemma {:induction false} DistinctMultiplicity(s: seq<Point>)
    requires Distinct(s)
    ensures forall z :: multiset(s)[z] == if z in s then 1 else 0
  {
    if s != [] {
      var init := s[..|s| - 1];
      assert s == init + [s[|s| - 1]];
      assert Distinct(init);
      DistinctMultiplicity(init);
    }
  }

  lemma ReachesSelf(f: Edges, a: Point)
    ensures Reaches(f, a, a)
  {
    assert IsPath(f, [a]);
  }

  lemma ReachesStep(f: Edges, a: Point, b: Point, c: Point)
    requires Reaches(f, a, b) && GetIn(f, b).Has(c)
    ensures Reaches(f, a, c)
  {
    var path :| IsPath(f, path) && path[0] == a && path[|path| - 1] == b;
    assert IsPath(f, path + [c]);
  }

  /** A point reached from `start` is `start` itself or an edge target. */
  lemma ReachedIsNode(f: Edges, start: Point, y: Point)
    requires Reaches(f, start, y)
    ensures y in {start} + Targets(f)
  {
    var path :| IsPath(f, path) && path[0] == start && path[|path| - 1] == y;
    if |path| > 1 {
      var x := path[|path| - 2];
      assert GetIn(f, x).Has(y);
    }
  }

  /**
   * The state of the search: the visited points and the stacked points are
   * reached from `start`, and each point sits in the stack or in the visited
   * set as often as it has been pushed.
   */
  ghost predicate SearchState(f: Edges, start: Point, stack: seq<Point>, visited: set<Point>) {
    && visited <= {start} + Targets(f)
    && (forall y :: y in visited ==> Reaches(f, start, y))
    && (forall i :: 0 <= i < |stack| ==> Reaches(f, start, stack[i]))
    && (forall z :: multiset(stack)[z] + (if z in visited then 1 else 0) == Pushes(f, start, visited, z))
  }

  lemma SearchStarts(f: Edges, start: Point)
    ensures SearchState(f, start, [start], {})
  {
    ReachesSelf(f, start);
    forall z
      ensures multiset([start])[z] == Pushes(f, start, {}, z)
    {
      assert (set y | y in {} && GetIn(f, y).Has(z)) == {};
    }
  }

  /** Popping a new point and pushing its edges keeps the state. */
  lemma SearchExpands(f: Edges, start: Point, rest: seq<Point>, visited: set<Point>, current: Point, list: seq<Point>)
    requires SearchState(f, start, rest + [current], visited)
    requires current !in visited
    requires Distinct(list) && ToSet(list) == GetIn(f, current).elems
    ensures SearchState(f, start, rest + list, visited + {current})
  {
    assert Reaches(f, start, (rest + [current])[|rest|]);
    ReachedIsNode(f, start, current);
    PushesGrow(f, start, visited, current);
    DistinctMultiplicity(list);
    forall i | 0 <= i < |rest + list|
      ensures Reaches(f, start, (rest + list)[i])
    {
      if i < |rest| {
        assert (rest + list)[i] == (rest + [current])[i];
      } else {
        ReachesStep(f, start, current, list[i - |rest|]);
      }
    }
    forall z
      ensures multiset(rest + list)[z] + (if z in visited + {current} then 1 else 0)
           == Pushes(f, start, visited + {current}, z)
    {
      assert multiset(rest + [current])[z] + (if z in visited then 1 else 0) == Pushes(f, start, visited, z);
    }
  }

  /** Popping a point already visited means some point was pushed twice. */
  lemma SearchRepeats(f: Edges, start: Point, rest: seq<Point>, visited: set<Point>, current: Point)
    requires SearchState(f, start, rest + [current], visited)
    requires current in visited
    ensures ReachedTwice(f, start)
  {
    assert multiset(rest + [current])[current] >= 1;
    var preds := set y | y in visited && GetIn(f, y).Has(current);
    assert Pushes(f, start, visited, current) >= 2;
    if current == start {
      assert |preds| >= 1;
      var y :| y in preds;
    } else {
      assert |preds| >= 2;
      var y1 :| y1 in preds;
      assert |preds - {y1}| == |preds| - 1;
      var y2 :| y2 in preds - {y1};
      assert y1 != y2 && Reaches(f, start, y1) && Reaches(f, start, y2);
    }
  }

  /**
   * When the stack runs empty, the visited points are closed under edges,
   * hence hold every point reached, and no point was pushed twice.
   */
  lemma SearchEnds(f: Edges, start: Point, visited: set<Point>)
    requires SearchState(f, start, [], visited)
    ensures !ReachedTwice(f, start)
  {
    forall z
      ensures Pushes(f, start, visited, z) <= 1
      ensures Pushes(f, start, visited, z) >= 1 ==> z in visited
    {
      var none: seq<Point> := [];
      assert multiset(none)[z] == 0;
    }
    SearchEndsReachesVisited(f, start, visited);
    if exists y :: Reaches(f, start, y) && GetIn(f, y).Has(start) {
      var y :| Reaches(f, start, y) && GetIn(f, y).Has(start);
      OnePusher(f, start, visited, start, y, y);
    }
    if exists y1, y2, z :: y1 != y2 && Reaches(f, start, y1) && Reaches(f, start, y2)
                          && GetIn(f, y1).Has(z) && GetIn(f, y2).Has(z) {
      var y1, y2, z :| y1 != y2 && Reaches(f, start, y1) && Reaches(f, start, y2)
                      && GetIn(f, y1).Has(z) && GetIn(f, y2).Has(z);
      OnePusher(f, start, visited, z, y1, y2);
    }
  }

  /** Each point reached is visited once the counts say every pushed point is visited. */
  lemma SearchEndsReachesVisited(f: Edges, start: Point, visited: set<Point>)
    requires forall z :: Pushes(f, start, visited, z) >= 1 ==> z in visited
    ensures forall y :: Reaches(f, start, y) ==> y in visited
  {
    assert Pushes(f, start, visited, start) >= 1;
    forall y, z | y in visited && GetIn(f, y).Has(z)
      ensures z in visited
    {
      var preds := set y' | y' in visited && GetIn(f, y').Has(z);
      assert y in preds;
      assert Pushes(f, start, visited, z) >= 1;
    }
    forall y | Reaches(f, start, y)
      ensures y in visited
    {
      var path :| IsPath(f, path) && path[0] == start && path[|path| - 1] == y;
      ClosedContainsPath(f, visited, path);
    }
  }

  /** A point pushed at most once has at most one visited point with an edge to it, and none if it is the start. */
  lemma OnePusher(f: Edges, start: Point, visited: set<Point>, z: Point, y1: Point, y2: Point)
    requires Pushes(f, start, visited, z) <= 1
    requires y1 in visited && y2 in visited && GetIn(f, y1).Has(z) && GetIn(f, y2).Has(z)
    ensures z != start && y1 == y2
  {
    var preds := set y | y in visited && GetIn(f, y).Has(z);
    AtLeastTwo(preds, y1, y2);
  }

  lemma AtLeastTwo(s: set<Point>, a: Point, b: Point)
    requires a in s && b in s
    ensures |s| >= if a == b then 1 else 2
  {
    if a != b {
      assert b in s - {a};
      assert |s - {a}| == |s| - 1;
    }
  }

  /** A path that starts in a set closed under edges stays in it. */
  lemma {:induction false} ClosedContainsPath(f: Edges, closed: set<Point>, path: seq<Point>)
    requires IsPath(f, path) && path[0] in closed
    requires forall y, z :: y in closed && GetIn(f, y).Has(z) ==> z in closed
    ensures path[|path| - 1] in closed
  {
    if |path| > 1 {
      var init := path[..|path| - 1];
      assert IsPath(f, init);
      ClosedContainsPath(f, closed, init);
      assert GetIn(f, path[|path| - 2]).Has(path[|path| - 1]);
    }
  }

  /** Each referrer of `node` depends on it. */
  lemma ReferrersDependOn(f: Edges, node: Point)
    ensures forall a :: a in Referrers(f, node) ==> DependsOn(f, a, node)
  {
    forall a | a in Referrers(f, node)
      ensures DependsOn(f, a, node)
    {
      assert IsPath(f, [a, node]);
    }
  }

  /** No point of `path` before its last is in `excluded`. */
  ghost predicate AvoidsBefore(path: seq<Point>, excluded: set<Point>) {
    forall i :: 0 <= i < |path| - 1 ==> path[i] !in excluded
  }

  /**
   * `found` holds the start of every path of at least one edge into `target`
   * that passes no point of `excluded` before reaching `target`.
   */
  ghost predicate Covers(f: Edges, found: set<Point>, target: Point, excluded: set<Point>) {
    forall q :: IsPath(f, q) && |q| >= 2 && q[|q| - 1] == target && AvoidsBefore(q, excluded) ==> q[0] in found
  }

  lemma CoversWeaken(f: Edges, found: set<Point>, found': set<Point>, target: Point,
                     excluded: set<Point>, excluded': set<Point>)
    requires Covers(f, found, target, excluded) && found <= found' && excluded <= excluded'
    ensures Covers(f, found', target, excluded')
  {
  }

  /** The first index of `path` at a point of `s`, given that `path[last]` is one. */
  lemma FirstIn(path: seq<Point>, s: set<Point>, last: nat) returns (j: nat)
    requires last < |path| && path[last] in s
    ensures j <= last && path[j] in s && forall i :: 0 <= i < j ==> path[i] !in s
  {
    j := 0;
    while path[j] !in s
      invariant j <= last && forall i :: 0 <= i < j ==> path[i] !in s
      decreases last - j
    {
      j := j + 1;
    }
  }

  /**
   * A path into `node` that avoids `visited` first meets the referrers of
   * `node` at some referrer outside `visited`; when the search from each
   * such referrer covers the paths that avoid `visited` and the referrers,
   * the search from `node` covers the paths that avoid `visited`.
   */
  lemma CoversFromReferrers(f: Edges, node: Point, visited: set<Point>, found: set<Point>)
    requires Referrers(f, node) <= found
    requires forall r :: r in Referrers(f, node) && r !in visited ==>
               Covers(f, found, r, visited + Referrers(f, node))
    ensures Covers(f, found, node, visited)
  {
    var refs := Referrers(f, node);
    forall q | IsPath(f, q) && |q| >= 2 && q[|q| - 1] == node && AvoidsBefore(q, visited)
      ensures q[0] in found
    {
      var last := |q| - 2;
      assert GetIn(f, q[last]).Has(q[last + 1]);
      assert q[last] in refs;
      var j := FirstIn(q, refs, last);
      if j > 0 {
        var head := q[..j + 1];
        assert IsPath(f, head);
        assert AvoidsBefore(head, visited + refs);
        assert q[j] !in visited;
      }
    }
  }

  /** With nothing visited up front, covering is finding every dependent. */
  lemma CoversAllDependents(f: Edges, found: set<Point>, node: Point)
    requires Covers(f, found, node, {})
    ensures forall a :: DependsOn(f, a, node) ==> a in found
  {
    forall a | DependsOn(f, a, node)
      ensures a in found
    {
      var q :| IsPath(f, q) && |q| >= 2 && q[0] == a && q[|q| - 1] == node;
      assert AvoidsBefore(q, {});
    }
  }

  /** Depending on a referrer of `node` is depending on `node`. */
  lemma DependsOnThrough(f: Edges, a: Point, b: Point, node: Point)
    requires DependsOn(f, a, b) && GetIn(f, b).Has(node)
    ensures DependsOn(f, a, node)
  {
    var path :| IsPath(f, path) && |path| >= 2 && path[0] == a && path[|path| - 1] == b;
    assert IsPath(f, path + [node]);
  }

  // ---------------------------------------------------------------------------
  // What the detection and the traversal guarantee

  /** Joining two paths that meet at a point gives a path. */
  lemma JoinPaths(f: Edges, p: seq<Point>, q: seq<Point>)
    requires IsPath(f, p) && IsPath(f, q) && p[|p| - 1] == q[0]
    ensures IsPath(f, p + q[1..]) && (p + q[1..])[0] == p[0] && (p + q[1..])[|p + q[1..]| - 1] == q[|q| - 1]
  {
    var w := p + q[1..];
    forall i | 0 <= i < |w| - 1
      ensures GetIn(f, w[i]).Has(w[i + 1])
    {
      if i < |p| - 1 {
        assert w[i] == p[i] && w[i + 1] == p[i + 1];
      } else {
        assert w[i] == q[i - |p| + 1] && w[i + 1] == q[i - |p| + 2];
      }
    }
  }

  /**
   * A cycle through the end of a path from `start` makes the search push
   * some point twice: walking back along the path, the first point where
   * the path and the cycle come in from different points is pushed by both.
   */
  lemma {:induction false} CycleAfterPath(f: Edges, path: seq<Point>, cycle: seq<Point>)
    requires IsPath(f, path) && IsPath(f, cycle) && |cycle| >= 2
    requires cycle[0] == path[|path| - 1] && cycle[|cycle| - 1] == cycle[0]
    ensures ReachedTwice(f, path[0])
    decreases |path|
  {
    var start := path[0];
    var c := path[|path| - 1];
    var back := cycle[|cycle| - 2];
    assert GetIn(f, back).Has(c);
    assert Reaches(f, start, back) by {
      var toBack := cycle[..|cycle| - 1];
      assert IsPath(f, toBack);
      JoinPaths(f, path, toBack);
    }
    if |path| > 1 {
      var init := path[..|path| - 1];
      var prev := init[|init| - 1];
      assert IsPath(f, init) && GetIn(f, prev).Has(c);
      assert Reaches(f, start, prev);
      if prev == back {
        var rotated := [prev] + cycle[..|cycle| - 1];
        assert IsPath(f, rotated);
        CycleAfterPath(f, init, rotated);
      }
    }
  }

  /** The search reports every cycle it can reach from its start. */
  lemma CycleReported(f: Edges, start: Point, c: Point)
    requires Reaches(f, start, c) && DependsOn(f, c, c)
    ensures ReachedTwice(f, start)
  {
    var path :| IsPath(f, path) && path[0] == start && path[|path| - 1] == c;
    var cycle :| IsPath(f, cycle) && |cycle| >= 2 && cycle[0] == c && cycle[|cycle| - 1] == c;
    CycleAfterPath(f, path, cycle);
  }

  /** A graph whose every edge goes to a point of lower rank has no cycle. */
  lemma RankedAcyclic(f: Edges, rank: Point -> int)
    requires forall a, b :: GetIn(f, a).Has(b) ==> rank(b) < rank(a)
    ensures !HasCycle(f)
  {
    forall p | DependsOn(f, p, p)
      ensures false
    {
      var path :| IsPath(f, path) && |path| >= 2 && path[0] == p && path[|path| - 1] == p;
      RankFalls(f, rank, path);
    }
  }

  lemma {:induction false} RankFalls(f: Edges, rank: Point -> int, path: seq<Point>)
    requires forall a, b :: GetIn(f, a).Has(b) ==> rank(b) < rank(a)
    requires IsPath(f, path)
    ensures rank(path[|path| - 1]) <= rank(path[0]) - (|path| - 1)
  {
    if |path| > 1 {
      var init := path[..|path| - 1];
      assert IsPath(f, init);
      RankFalls(f, rank, init);
      assert GetIn(f, path[|path| - 2]).Has(path[|path| - 1]);
    }
  }

  /** The cells of the diamond: A1 references B1 and A2, both of which reference B2. */
  function Diamond(): Edges {
    map[Point(0, 0) := PointSet({Point(0, 1), Point(1, 0)}),
        Point(0, 1) := PointSet({Point(1, 1)}),
        Point(1, 0) := PointSet({Point(1, 1)})]
  }

  /**
   * The detection answers true on the diamond although it has no cycle:
   * the shared dependency is pushed once from each side and popped twice.
   */
  lemma DiamondReported()
    ensures !HasCycle(Diamond())
    ensures ReachedTwice(Diamond(), Point(0, 0))
  {
    var f := Diamond();
    RankedAcyclic(f, (p: Point) => -(p.row + p.column));
    assert IsPath(f, [Point(0, 0), Point(0, 1)]);
    assert IsPath(f, [Point(0, 0), Point(1, 0)]);
    assert GetIn(f, Point(0, 1)).Has(Point(1, 1)) && GetIn(f, Point(1, 0)).Has(Point(1, 1));
  }

  /** The chain of "no circular dependency": each cell references the one to its left. */
  function Chain(): Edges {
    map[Point(0, 1) := PointSet({Point(0, 0)}),
        Point(0, 2) := PointSet({Point(0, 1)}),
        Point(0, 3) := PointSet({Point(0, 2)}),
        Point(0, 4) := PointSet({Point(0, 3)})]
  }

  /** The detection answers false on the chain from its second cell. */
  lemma ChainNotReported()
    ensures !ReachedTwice(Chain(), Point(0, 1))
  {
    var f := Chain();
    var closed := {Point(0, 1), Point(0, 0)};
    assert GetIn(f, Point(0, 0)) == Empty;
    forall y | Reaches(f, Point(0, 1), y)
      ensures y in closed
    {
      var path :| IsPath(f, path) && path[0] == Point(0, 1) && path[|path| - 1] == y;
      ClosedContainsPath(f, closed, path);
    }
  }

  /** A sequence in which every point comes after all of its edge targets. */
  ghost predicate Topological(f: Edges, order: seq<Point>) {
    forall i, d :: 0 <= i < |order| && GetIn(f, order[i]).Has(d) ==> d in order[..i]
  }

  /** In a topological order, whatever a point depends on comes strictly before it. */
  lemma {:induction false} DependencyEarlier(f: Edges, order: seq<Point>, path: seq<Point>, i: nat)
    requires Topological(f, order)
    requires IsPath(f, path) && |path| >= 2 && i < |order| && order[i] == path[0]
    ensures exists j :: 0 <= j < i && order[j] == path[|path| - 1]
    decreases |path|
  {
    assert GetIn(f, path[0]).Has(path[1]);
    assert path[1] in order[..i];
    var j :| 0 <= j < i && order[j] == path[1];
    if |path| > 2 {
      var tail := path[1..];
      assert IsPath(f, tail);
      DependencyEarlier(f, order, tail, j);
    }
  }

  /** The traversal never yields a point that depends on itself. */
  lemma TraversalSkipsCycles(f: Edges, order: seq<Point>)
    requires Distinct(order) && Topological(f, order)
    ensures forall i :: 0 <= i < |order| ==> !DependsOn(f, order[i], order[i])
  {
    forall i | 0 <= i < |order| && DependsOn(f, order[i], order[i])
      ensures false
    {
      var path :| IsPath(f, path) && |path| >= 2 && path[0] == order[i] && path[|path| - 1] == order[i];
      DependencyEarlier(f, order, path, i);
    }
  }

  /** A node of the graph that `order` leaves out. */
  ghost predicate LeftOut(f: Edges, order: seq<Point>, m: Point) {
    m in Nodes(f) && m !in order
  }

  /** Every node left out of `order` has an edge target left out too. */
  ghost predicate Stuck(f: Edges, order: seq<Point>) {
    forall m {:trigger LeftOut(f, order, m)} :: LeftOut(f, order, m) ==> exists d :: GetIn(f, m).Has(d) && d !in order
  }

  /** From a node left out, a path of `k` edges through nodes left out. */
  lemma {:induction false} LeftOutPath(f: Edges, order: seq<Point>, n: Point, k: nat) returns (path: seq<Point>)
    requires LeftOut(f, order, n)
    requires Stuck(f, order)
    ensures IsPath(f, path) && |path| == k + 1 && path[0] == n
    ensures forall i :: 0 <= i < |path| ==> LeftOut(f, order, path[i])
  {
    if k == 0 {
      path := [n];
    } else {
      var p := LeftOutPath(f, order, n, k - 1);
      var m := p[|p| - 1];
      assert LeftOut(f, order, m);
      var d :| GetIn(f, m).Has(d) && d !in order;
      EdgeTargetIsNode(f, m, d);
      PathSnoc(f, p, d);
      path := p + [d];
      assert path[0] == p[0];
      forall i | 0 <= i < |path|
        ensures LeftOut(f, order, path[i])
      {
        if i < |p| {
          assert path[i] == p[i];
        }
      }
    }
  }

  lemma EdgeTargetIsNode(f: Edges, m: Point, d: Point)
    requires GetIn(f, m).Has(d)
    ensures m in f && d in Nodes(f)
  {
  }

  lemma PathSnoc(f: Edges, p: seq<Point>, d: Point)
    requires IsPath(f, p) && GetIn(f, p[|p| - 1]).Has(d)
    ensures IsPath(f, p + [d])
  {
    var w := p + [d];
    forall i | 0 <= i < |w| - 1
      ensures GetIn(f, w[i]).Has(w[i + 1])
    {
      if i < |p| - 1 {
        assert w[i] == p[i] && w[i + 1] == p[i + 1];
      }
    }
  }

  /** A path that comes back to a point it passed closes a cycle through that point. */
  lemma RepeatIsCycle(f: Edges, path: seq<Point>, i: nat, j: nat)
    requires IsPath(f, path) && i < j < |path| && path[i] == path[j]
    ensures DependsOn(f, path[i], path[i])
  {
    var cycle := path[i..j + 1];
    forall k | 0 <= k < |cycle| - 1
      ensures GetIn(f, cycle[k]).Has(cycle[k + 1])
    {
      assert cycle[k] == path[i + k] && cycle[k + 1] == path[i + k + 1];
    }
    assert IsPath(f, cycle);
  }

  /** On a graph without cycles the traversal yields every node. */
  lemma TraversalComplete(f: Edges, order: seq<Point>)
    requires !HasCycle(f)
    requires Stuck(f, order)
    ensures forall n :: n in Nodes(f) ==> n in order
  {
    forall n | n in Nodes(f) && n !in order
      ensures false
    {
      var path := LeftOutPath(f, order, n, |Nodes(f)|);
      assert forall i :: 0 <= i < |path| ==> LeftOut(f, order, path[i]);
      if Distinct(path) {
        DistinctBound(path, Nodes(f));
      } else {
        var i, j :| 0 <= i < j < |path| && path[i] == path[j];
        RepeatIsCycle(f, path, i, j);
      }
    }
  }
}
