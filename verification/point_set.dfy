/**
 * Immutable sets of points (class PointSet, src/engine/point-set.ts).
 *
 * The source keeps the hash strings of its points in a native Set. By
 * PointHash.RoundTrip and PointHash.Injective a set of hashes and the set of
 * points they decode to determine each other, so the model keeps the points.
 * Instances are values: where the source returns its receiver (or the other
 * operand of `union`), the model returns that same value.
 */
module PointSets {
  import opened PointHash

  /** A sequence without repeated points. */
  predicate Distinct(s: seq<Point>) {
    forall i, j :: 0 <= i < j < |s| ==> s[i] != s[j]
  }

  /** The points a sequence lists. */
  function ToSet(s: seq<Point>): (r: set<Point>)
    ensures forall p :: p in r <==> p in s
  {
    set p | p in s
  }

  /** A list without repetitions is as long as the set of its points. */
  lemma {:induction false} DistinctCardinality(s: seq<Point>)
    requires Distinct(s)
    ensures |ToSet(s)| == |s|
  {
    if s != [] {
      var last := s[|s| - 1];
      var init := s[..|s| - 1];
      assert Distinct(init);
      DistinctCardinality(init);
      assert last !in ToSet(init);
      assert ToSet(s) == ToSet(init) + {last};
    }
  }

  /** A list without repetitions drawn from `universe` is no longer than `universe` is large. */
  lemma DistinctBound(s: seq<Point>, universe: set<Point>)
    requires Distinct(s)
    requires forall p :: p in s ==> p in universe
    ensures |s| <= |universe|
  {
    DistinctCardinality(s);
    var listed := ToSet(s);
    assert universe == listed + (universe - listed);
  }

  /** A set of points; `Has`, `Size`, `Add` and `Delete` are the source's members of the same names. */
  datatype PointSet = PointSet(elems: set<Point>) {

    predicate Has(p: Point) {
      p in elems
    }

    function Size(): nat {
      |elems|
    }

    /** `add`: the receiver itself when `p` is already present, else a copy holding `p` too. */
    function Add(p: Point): (r: PointSet)
      ensures r.Has(p)
      ensures forall q :: q != p ==> (r.Has(q) <==> Has(q))
      ensures Has(p) ==> r == this
      ensures r.Size() == if Has(p) then Size() else Size() + 1
    {
      if p in elems then this else PointSet(elems + {p})
    }

    /** `delete`: the receiver itself when `p` is absent, else a copy without `p`. */
    function Delete(p: Point): (r: PointSet)
      ensures !r.Has(p)
      ensures forall q :: q != p ==> (r.Has(q) <==> Has(q))
      ensures !Has(p) ==> r == this
      ensures r.Size() == if Has(p) then Size() - 1 else Size()
    {
      if p !in elems then this else PointSet(elems - {p})
    }

    /**
     * `difference`: the points of the receiver that are not in `other`. The
     * receiver is returned when `other` is empty or when the filtered copy has
     * lost nothing.
     */
    method Difference(other: PointSet) returns (r: PointSet)
      ensures r.elems == elems - other.elems
      ensures other.Size() == 0 ==> r == this
      ensures elems !! other.elems ==> r == this
    {
      if other.Size() == 0 {
        return this;
      }
      var newSet: set<Point> := {};
      var rest := elems;
      while rest != {}
        invariant rest <= elems
        invariant newSet == (elems - rest) - other.elems
        decreases rest
      {
        var p :| p in rest;
        if p !in other.elems {
          newSet := newSet + {p};
        }
        rest := rest - {p};
      }
      if |newSet| == |elems| {
        assert newSet == elems;
        return this;
      }
      return PointSet(newSet);
    }

    /**
     * `union`: all points of both sets. The receiver is returned when `other`
     * is empty or adds nothing, and `other` when the receiver is empty.
     */
    method Union(other: PointSet) returns (r: PointSet)
      ensures r.elems == elems + other.elems
      ensures other.elems <= elems ==> r == this
      ensures Size() == 0 ==> r == other
    {
      if other.Size() == 0 {
        return this;
      }
      if Size() == 0 {
        return other;
      }
      var newSet := elems;
      var changed := false;
      var rest := other.elems;
      while rest != {}
        invariant rest <= other.elems
        invariant newSet == elems + (other.elems - rest)
        invariant changed <==> !(other.elems - rest <= elems)
        decreases rest
      {
        var p :| p in rest;
        if p !in newSet {
          newSet := newSet + {p};
          changed := true;
        }
        rest := rest - {p};
      }
      r := if changed then PointSet(newSet) else this;
    }

    /** The iterator: every member exactly once, in an order the model leaves open. */
    method Elements() returns (s: seq<Point>)
      ensures ToSet(s) == elems
      ensures Distinct(s)
      ensures |s| == Size()
    {
      s := [];
      var rest := elems;
      while rest != {}
        invariant rest <= elems
        invariant ToSet(s) == elems - rest
        invariant Distinct(s)
        invariant |s| + |rest| == |elems|
        decreases rest
      {
        var p :| p in rest;
        s := s + [p];
        rest := rest - {p};
      }
    }
  }

  /** The empty set every lookup of a missing key returns. */
  const Empty: PointSet := PointSet({})

  /** `PointSet.from`: a set holding exactly the listed points, each once. */
  method From(points: seq<Point>) returns (r: PointSet)
    ensures forall p :: r.Has(p) <==> p in points
    ensures r.Size() <= |points|
    ensures Distinct(points) ==> r.Size() == |points|
  {
    var s: set<Point> := {};
    for i := 0 to |points|
      invariant s == ToSet(points[..i])
      invariant |s| <= i
    {
      assert points[..i + 1] == points[..i] + [points[i]];
      s := s + {points[i]};
    }
    assert points[..|points|] == points;
    r := PointSet(s);
    if Distinct(points) {
      DistinctCardinality(points);
    }
  }
}
