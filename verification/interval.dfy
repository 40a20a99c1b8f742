/** An immutable inclusive integer range a..b with relational predicates and
    set-like operations.

    The constructor accepts any pair of bounds, so an interval with b < a can be
    built; it holds no element. Most element-level properties therefore carry a
    well-formedness side condition a <= b. Integers are unbounded here: the
    32-bit wrap-around of `b+1` and `a-1` is not modelled. */
module Intervals {

  import opened Wrappers

  datatype Interval = Interval(a: int, b: int)

  function Min(p: int, q: int): int { if p <= q then p else q }

  function Max(p: int, q: int): int { if p >= q then p else q }

  /** The interval holds at least one element. */
  predicate WellFormed(x: Interval) { x.a <= x.b }

  /** n is an element of x. */
  predicate Contains(x: Interval, n: int) { x.a <= n <= x.b }

  /** No integer is an element of both intervals. */
  ghost predicate NoCommonElement(x: Interval, y: Interval) {
    forall n :: !(Contains(x, n) && Contains(y, n))
  }

  /** Every element of x is smaller than every element of y. */
  ghost predicate AllBelow(x: Interval, y: Interval) {
    forall n, m :: Contains(x, n) && Contains(y, m) ==> n < m
  }

  /** Every element of inner is an element of outer. */
  ghost predicate Within(inner: Interval, outer: Interval) {
    forall n :: Contains(inner, n) ==> Contains(outer, n)
  }

  // ---------------------------------------------------------------------------
  // Relational predicates
  // ---------------------------------------------------------------------------

  /** Structural equality: both endpoints coincide. */
  function Equals(x: Interval, y: Interval): (r: bool)
    ensures r <==> x == y
  {
    x.a == y.a && x.b == y.b
  }

  /** x lies completely before y: no overlap, x first. */
  function StartsBeforeDisjoint(x: Interval, y: Interval): (r: bool)
    ensures r ==> AllBelow(x, y)
  {
    x.a < y.a && x.b < y.a
  }

  /** x starts at or before y and reaches y's first bound: y.a is an element of x. */
  function StartsBeforeNonDisjoint(x: Interval, y: Interval): (r: bool)
    ensures r <==> Contains(x, y.a)
    ensures r && WellFormed(y) ==> !NoCommonElement(x, y)
  {
    x.a <= y.a && x.b >= y.a
  }

  /** Compares the lower bounds only: x.a > y.a. The upper bound of y plays no part. */
  function StartsAfter(x: Interval, y: Interval): (r: bool)
    ensures r ==> !StartsBeforeNonDisjoint(x, y)
    ensures r ==> !Equals(x, y)
  {
    x.a > y.a
  }

  /** x lies completely after y: no overlap, y first. */
  function StartsAfterDisjoint(x: Interval, y: Interval): (r: bool)
    ensures r ==> AllBelow(y, x)
  {
    x.a > y.b
  }

  /** x starts strictly after y starts, at an element of y. */
  function StartsAfterNonDisjoint(x: Interval, y: Interval): (r: bool)
    ensures r <==> StartsAfter(x, y) && Contains(y, x.a)
    ensures r && WellFormed(x) ==> !NoCommonElement(x, y)
  {
    x.a > y.a && x.a <= y.b
  }

  /** No overlap: x lies completely before or completely after y. */
  function Disjoint(x: Interval, y: Interval): (r: bool)
    ensures r ==> NoCommonElement(x, y)
  {
    StartsBeforeDisjoint(x, y) || StartsAfterDisjoint(x, y)
  }

  /** x starts right after y ends, or ends right before y starts. */
  function Adjacent(x: Interval, y: Interval): (r: bool)
    ensures r && WellFormed(x) ==> Disjoint(x, y)
  {
    x.a == y.b + 1 || x.b == y.a - 1
  }

  /** y's bounds lie within x's bounds (equal intervals included). */
  function ProperlyContains(x: Interval, y: Interval): (r: bool)
    ensures r ==> Within(y, x)
  {
    y.a >= x.a && y.b <= x.b
  }

  // ---------------------------------------------------------------------------
  // Set-like operations
  // ---------------------------------------------------------------------------

  /** The smallest interval whose bounds enclose both operands. */
  function Union(x: Interval, y: Interval): (r: Interval)
    ensures ProperlyContains(r, x) && ProperlyContains(r, y)
    ensures forall z :: ProperlyContains(z, x) && ProperlyContains(z, y) ==> ProperlyContains(z, r)
    ensures WellFormed(x) || WellFormed(y) ==> WellFormed(r)
  {
    Interval(Min(x.a, y.a), Max(x.b, y.b))
  }

  /** The largest interval whose bounds lie within both operands. */
  function Intersection(x: Interval, y: Interval): (r: Interval)
    ensures ProperlyContains(x, r) && ProperlyContains(y, r)
    ensures forall z :: ProperlyContains(x, z) && ProperlyContains(y, z) ==> ProperlyContains(r, z)
    ensures forall n :: Contains(r, n) <==> Contains(x, n) && Contains(y, n)
  {
    Interval(Max(x.a, y.a), Min(x.b, y.b))
  }

  /** The part of x that is not in y, when y does not cut x in two. None (the
      source's null) when y neither starts at or before x.a reaching it, nor
      starts inside x after x.a. */
  function DifferenceNotProperlyContained(x: Interval, y: Interval): (r: Option<Interval>)
    ensures WellFormed(x) && WellFormed(y) ==> (r.None? <==> Disjoint(x, y))
    ensures r.Some? ==> ProperlyContains(x, r.value) && Disjoint(r.value, y)
    ensures r.Some? && !ProperlyContains(x, y) ==>
              forall n :: Contains(r.value, n) <==> Contains(x, n) && !Contains(y, n)
  {
    if StartsBeforeNonDisjoint(y, x) then
      // y starts at or before x.a: keep what lies above y.b
      Some(Interval(Max(x.a, y.b + 1), x.b))
    else if StartsAfterNonDisjoint(y, x) then
      // y starts inside x: keep what lies below y.a
      Some(Interval(x.a, y.a - 1))
    else
      None
  }

  // ---------------------------------------------------------------------------
  // Lemmas
  // ---------------------------------------------------------------------------

  /** Equals is an equivalence relation. */
  lemma EqualsIsEquivalence(x: Interval, y: Interval, z: Interval)
    ensures Equals(x, x)
    ensures Equals(x, y) ==> Equals(y, x)
    ensures Equals(x, y) && Equals(y, z) ==> Equals(x, z)
  {
  }

  /** For well-formed intervals, StartsBeforeDisjoint means exactly that all of x lies below all of y. */
  lemma StartsBeforeDisjointIff(x: Interval, y: Interval)
    requires WellFormed(x) && WellFormed(y)
    ensures StartsBeforeDisjoint(x, y) <==> AllBelow(x, y)
  {
    if AllBelow(x, y) {
      assert Contains(x, x.b) && Contains(y, y.a);
    }
  }

  /** For well-formed intervals, StartsAfterDisjoint means exactly that all of y lies below all of x. */
  lemma StartsAfterDisjointIff(x: Interval, y: Interval)
    requires WellFormed(x) && WellFormed(y)
    ensures StartsAfterDisjoint(x, y) <==> AllBelow(y, x)
  {
    if AllBelow(y, x) {
      assert Contains(y, y.b) && Contains(x, x.a);
    }
  }

  /** StartsAfter compares lower bounds only: it can hold although x.a is not past y.b. */
  lemma StartsAfterIgnoresUpperBound()
    ensures exists x, y :: StartsAfter(x, y) && WellFormed(x) && WellFormed(y) && x.a <= y.b
  {
    var x, y := Interval(5, 6), Interval(0, 10);
    assert StartsAfter(x, y) && WellFormed(x) && WellFormed(y) && x.a <= y.b;
  }

  /** StartsAfter is a strict order on lower bounds. */
  lemma StartsAfterIsStrictOrder(x: Interval, y: Interval, z: Interval)
    ensures !StartsAfter(x, x)
    ensures StartsAfter(x, y) ==> !StartsAfter(y, x)
    ensures StartsAfter(x, y) && StartsAfter(y, z) ==> StartsAfter(x, z)
    ensures StartsAfter(x, y) || StartsAfter(y, x) || x.a == y.a
  {
  }

  /** StartsAfterNonDisjoint says nothing about the upper bounds: x may end before y does. */
  lemma StartsAfterNonDisjointDoesNotBoundEnd()
    ensures exists x, y :: StartsAfterNonDisjoint(x, y) && WellFormed(x) && WellFormed(y) && x.b < y.b
  {
    var x, y := Interval(2, 3), Interval(0, 10);
    assert StartsAfterNonDisjoint(x, y) && WellFormed(x) && WellFormed(y) && x.b < y.b;
  }

  /** For well-formed intervals, Disjoint holds exactly when no integer lies in both. */
  lemma DisjointIff(x: Interval, y: Interval)
    requires WellFormed(x) && WellFormed(y)
    ensures Disjoint(x, y) <==> NoCommonElement(x, y)
  {
    if !Disjoint(x, y) {
      var n := Max(x.a, y.a);
      assert Contains(x, n) && Contains(y, n);
    }
  }

  /** For well-formed intervals, Disjoint is symmetric. */
  lemma DisjointSymmetric(x: Interval, y: Interval)
    requires WellFormed(x) && WellFormed(y)
    ensures Disjoint(x, y) <==> Disjoint(y, x)
  {
  }

  /** Without well-formedness, Disjoint is not symmetric. */
  lemma DisjointAsymmetricWhenIllFormed()
    ensures exists x, y :: Disjoint(x, y) && !Disjoint(y, x) && WellFormed(x) && !WellFormed(y)
  {
    var x, y := Interval(3, 10), Interval(5, 2);
    assert Disjoint(x, y) && !Disjoint(y, x) && WellFormed(x) && !WellFormed(y);
  }

  /** Adjacent is symmetric, and 0..41 is adjacent to 42..42. */
  lemma AdjacentSymmetric(x: Interval, y: Interval)
    ensures Adjacent(x, y) <==> Adjacent(y, x)
    ensures Adjacent(Interval(0, 41), Interval(42, 42))
  {
  }

  /** Two adjacent well-formed intervals leave no gap: their union holds exactly their elements. */
  lemma AdjacentUnionHasNoGap(x: Interval, y: Interval)
    requires WellFormed(x) && WellFormed(y) && Adjacent(x, y)
    ensures forall n :: Contains(Union(x, y), n) <==> Contains(x, n) || Contains(y, n)
  {
  }

  /** For well-formed y, ProperlyContains(x, y) holds exactly when every element of y is in x. */
  lemma ProperlyContainsIff(x: Interval, y: Interval)
    requires WellFormed(y)
    ensures ProperlyContains(x, y) <==> Within(y, x)
  {
    if Within(y, x) {
      assert Contains(y, y.a) && Contains(y, y.b);
    }
  }

  /** ProperlyContains is reflexive (equal intervals count), transitive and antisymmetric. */
  lemma ProperlyContainsIsPartialOrder(x: Interval, y: Interval, z: Interval)
    ensures ProperlyContains(x, x)
    ensures ProperlyContains(x, y) && ProperlyContains(y, z) ==> ProperlyContains(x, z)
    ensures ProperlyContains(x, y) && ProperlyContains(y, x) ==> x == y
  {
  }

  /** Union is commutative and idempotent. */
  lemma UnionCommutativeIdempotent(x: Interval, y: Interval)
    ensures Union(x, y) == Union(y, x)
    ensures Union(x, x) == x
  {
  }

  /** Intersection is commutative; for well-formed operands it is well-formed exactly when they overlap. */
  lemma IntersectionCommutative(x: Interval, y: Interval)
    ensures Intersection(x, y) == Intersection(y, x)
    ensures WellFormed(x) && WellFormed(y) ==> (WellFormed(Intersection(x, y)) <==> !Disjoint(x, y))
  {
  }

  /** When y is properly contained in x with room on both sides, the single interval
      returned loses the part of x above y. */
  lemma DifferenceLosesUpperPartWhenEnclosed()
    ensures exists x, y, n :: ProperlyContains(x, y) && DifferenceNotProperlyContained(x, y).Some?
                && Contains(x, n) && !Contains(y, n) && !Contains(DifferenceNotProperlyContained(x, y).value, n)
  {
    var x, y := Interval(0, 10), Interval(3, 5);
    var n := 6;
    assert DifferenceNotProperlyContained(x, y) == Some(Interval(0, 2));
    assert ProperlyContains(x, y) && DifferenceNotProperlyContained(x, y).Some?
      && Contains(x, n) && !Contains(y, n) && !Contains(DifferenceNotProperlyContained(x, y).value, n);
  }
}
