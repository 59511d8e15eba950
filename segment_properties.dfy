/** What the segment operations of CustomLine promise, proved about the Geometry model. */
module SegmentProperties {
  import opened Wrappers
  import opened Geometry

  // ---------------------------------------------------------------------------
  // Lengths and distances

  /** The squared length is never negative, and zero exactly for a segment whose end points coincide. */
  lemma LengthSqZero(a: Segment)
    ensures a.LengthSq() >= 0.0
    ensures a.start == a.end <==> a.LengthSq() == 0.0
  {
    var dx, dz := a.end.x - a.start.x, a.end.z - a.start.z;
    SumOfSquaresNonNegative(dx, dz);
    if a.start != a.end {
      SumOfSquaresPositive(dx, dz);
    }
  }

  lemma MulPositive(u: real, v: real)
    requires u > 0.0 && v > 0.0
    ensures u * v > 0.0
  {
  }

  lemma MulNegative(u: real, v: real)
    requires u < 0.0 && v < 0.0
    ensures u * v > 0.0
  {
  }

  lemma SquarePositive(d: real)
    requires d != 0.0
    ensures d * d > 0.0
  {
    if d > 0.0 {
      MulPositive(d, d);
    } else {
      MulNegative(d, d);
    }
  }

  lemma MulNonNegative(u: real, v: real)
    requires u >= 0.0 && v >= 0.0
    ensures u * v >= 0.0
  {
    if u > 0.0 && v > 0.0 {
      MulPositive(u, v);
    }
  }

  lemma SquareNonNegative(d: real)
    ensures d * d >= 0.0
  {
    if d != 0.0 {
      SquarePositive(d);
    }
  }

  lemma SumOfSquaresNonNegative(u: real, v: real)
    ensures SumOfSquares(u, v) >= 0.0
  {
    calc {
      SumOfSquares(u, v);
      == u * u + v * v;
      >= { SquareNonNegative(u); SquareNonNegative(v); } 0.0;
    }
  }

  lemma SumOfSquaresPositive(u: real, v: real)
    requires u != 0.0 || v != 0.0
    ensures SumOfSquares(u, v) > 0.0
  {
    calc {
      SumOfSquares(u, v);
      == u * u + v * v;
      > { SquareNonNegative(u); SquareNonNegative(v); if u != 0.0 { SquarePositive(u); } else { SquarePositive(v); } }
        0.0;
    }
  }

  lemma SquareBelow(t: real, b: real)
    requires 0.0 <= t < b
    ensures t * t < b * b
  {
    calc {
      t * t;
      == t * b - t * (b - t);
      <= { MulNonNegative(t, b - t); } t * b;
      == b * b - (b - t) * b;
      < { MulPositive(b - t, b); } b * b;
    }
  }

  lemma ToleranceSqNonNegative()
    ensures Tolerance * Tolerance >= 0.0
  {
    SquareNonNegative(Tolerance);
  }

  /** The distance numerator is the line equation's residual: on the line exactly when it is zero. */
  lemma OnLineIffCrossZero(a: Segment, p: Point)
    ensures a.Cross(p) == a.DeltaZ() * p.x + a.DeltaX() * p.z - a.Equation()
    ensures a.OnLine(p) <==> a.Cross(p) == 0.0
  {
  }

  /** A point on the line of a segment of positive length is within every tolerance of it. */
  lemma OnLineWithinTolerance(a: Segment, p: Point)
    requires a.start != a.end && a.OnLine(p)
    ensures a.WithinTolerance(p)
  {
    LengthSqZero(a);
    OnLineIffCrossZero(a, p);
    ToleranceSqNonNegative();
    MulNonNegative(Tolerance * Tolerance, a.LengthSq());
  }

  /** A zero-length segment contains no point: its distance test divides zero by zero. */
  lemma ZeroLengthContainsNothing(a: Segment, p: Point)
    requires a.start == a.end
    ensures !a.ContainsPoint(p)
  {
    LengthSqZero(a);
  }

  /** The start point, the end point and the midpoint lie on the segment. */
  lemma {:induction false} ContainsOwnPoints(a: Segment)
    requires a.start != a.end
    ensures a.ContainsPoints([a.start, a.end, a.MiddlePoint()])
  {
    var m := a.MiddlePoint();
    assert a.OnLine(a.start) && a.OnLine(a.end);
    assert a.Cross(m) == 0.0;
    OnLineIffCrossZero(a, m);
    OnLineWithinTolerance(a, a.start);
    OnLineWithinTolerance(a, a.end);
    OnLineWithinTolerance(a, m);
    assert a.IsPointInBounds(m);
  }

  // ---------------------------------------------------------------------------
  // Parallelism and intersection

  lemma DeterminantAntisymmetric(a: Segment, b: Segment)
    ensures b.Determinant(a) == -a.Determinant(b)
  {
  }

  lemma ParallelReflexive(a: Segment)
    ensures a.ParallelTo(a)
  {
  }

  lemma ParallelSymmetric(a: Segment, b: Segment)
    ensures a.ParallelTo(b) <==> b.ParallelTo(a)
  {
    DeterminantAntisymmetric(a, b);
  }

  /** A zero determinant means no intersection, so in particular a segment never intersects itself. */
  lemma ParallelNeverIntersects(a: Segment, b: Segment)
    ensures a.ParallelTo(b) ==> a.Intersects(b) == None
    ensures a.Intersects(a) == None
  {
    ParallelReflexive(a);
  }

  /**
    Intersects finds `p` exactly when the lines are not parallel, `p` solves both line
    equations and both segments contain it.
  */
  lemma IntersectsIff(a: Segment, b: Segment, p: Point)
    ensures a.Intersects(b) == Some(p) <==>
            !a.ParallelTo(b) && a.OnLine(p) && b.OnLine(p) && a.ContainsPoint(p) && b.ContainsPoint(p)
  {
    if !a.ParallelTo(b) {
      var q := a.CramerPoint(b);
      IntersectsAtCramer(a, b);
      if a.OnLine(p) && b.OnLine(p) {
        CramerUnique(a, b, p);
      }
    }
  }

  /** Cramer's point is the only point on both lines. */
  lemma CramerUnique(a: Segment, b: Segment, p: Point)
    requires !a.ParallelTo(b) && a.OnLine(p) && b.OnLine(p)
    ensures p == a.CramerPoint(b)
  {
    var q := a.CramerPoint(b);
    a.CramerSolves(b);
    var u, v := p.x - q.x, p.z - q.z;
    assert a.DeltaZ() * u + a.DeltaX() * v == 0.0;
    assert b.DeltaZ() * u + b.DeltaX() * v == 0.0;
    HomogeneousZero(a.DeltaZ(), a.DeltaX(), b.DeltaZ(), b.DeltaX(), u, v);
  }

  /** A 2x2 homogeneous system with non-zero determinant has only the zero solution. */
  lemma HomogeneousZero(a1: real, b1: real, a2: real, b2: real, u: real, v: real)
    requires a1 * b2 - a2 * b1 != 0.0
    requires a1 * u + b1 * v == 0.0 && a2 * u + b2 * v == 0.0
    ensures u == 0.0 && v == 0.0
  {
    var det := a1 * b2 - a2 * b1;
    calc {
      u * det;
      == b2 * (a1 * u + b1 * v) - b1 * (a2 * u + b2 * v);
      == 0.0;
    }
    calc {
      v * det;
      == a1 * (a2 * u + b2 * v) - a2 * (a1 * u + b1 * v);
      == 0.0;
    }
    Cancel(u, 0.0, det);
    Cancel(v, 0.0, det);
  }

  /** When the lines are not parallel, Intersects is Cramer's point exactly when both segments contain it. */
  lemma IntersectsAtCramer(a: Segment, b: Segment)
    requires !a.ParallelTo(b)
    ensures var q := a.CramerPoint(b);
            a.OnLine(q) && b.OnLine(q) &&
            a.Intersects(b) == (if a.ContainsPoint(q) && b.ContainsPoint(q) then Some(q) else None)
  {
    a.CramerSolves(b);
  }

  /** Swapping the segments negates the determinant and both numerators: the same answer. */
  lemma IntersectsSymmetric(a: Segment, b: Segment)
    ensures a.Intersects(b) == b.Intersects(a)
  {
    DeterminantAntisymmetric(a, b);
    if !a.ParallelTo(b) {
      var p := a.CramerPoint(b);
      a.CramerSolves(b);
      ParallelSymmetric(a, b);
      CramerUnique(b, a, p);
      IntersectsAtCramer(a, b);
      IntersectsAtCramer(b, a);
    }
  }

  /** A point found by Intersects lies within the tolerance of both segments at distance exactly zero. */
  lemma IntersectionAtZeroDistance(a: Segment, b: Segment)
    requires a.Intersects(b).Some?
    ensures a.Cross(a.Intersects(b).value) == 0.0 && b.Cross(a.Intersects(b).value) == 0.0
  {
    var p := a.Intersects(b).value;
    OnLineIffCrossZero(a, p);
    OnLineIffCrossZero(b, p);
  }

  // ---------------------------------------------------------------------------
  // Equality

  lemma EqualsReflexive(a: Segment)
    ensures a.Equals(a)
  {
  }

  lemma EqualsSymmetric(a: Segment, b: Segment)
    ensures a.Equals(b) <==> b.Equals(a)
  {
  }

  /** Equals is the same segment, or its reversal when the reversal carries the other direction tag. */
  lemma EqualsIff(a: Segment, b: Segment)
    ensures a.Equals(b) <==> a == b || (b == a.Reversed() && a.GetDirection() != b.GetDirection())
  {
  }

  lemma {:induction false} EqualsTransitive(a: Segment, b: Segment, c: Segment)
    requires a.Equals(b) && b.Equals(c)
    ensures a.Equals(c)
  {
    EqualsIff(a, b);
    EqualsIff(b, c);
    EqualsIff(a, c);
  }

  /** Reversal does not flip the direction tag in general, so a reversed segment need not be equal. */
  lemma ReversedNotAlwaysEqual()
    ensures var s := Segment(Origin, Point(1.0, 0.0));
            s.GetDirection() == s.Reversed().GetDirection() && !s.Equals(s.Reversed())
  {
  }

  // ---------------------------------------------------------------------------
  // Split

  /**
    Cut at a point of both segments, every piece is one of the two halves of `a` or
    one of the two halves of `b`, and lies on the segment it was cut from.
  */
  lemma SplitPiecesInside(a: Segment, b: Segment, p: Point)
    requires a.ContainsPoint(p) && b.ContainsPoint(p)
    ensures forall i :: 0 <= i < |a.SplitAt(b, p)| ==>
              var s := a.SplitAt(b, p)[i];
              && (s == Segment(a.start, p) || s == Segment(p, a.end) || s == Segment(b.start, p) || s == Segment(p, b.end))
              && (s == Segment(a.start, p) || s == Segment(p, a.end) ==> a.ContainsPoints([s.start, s.end]))
              && (s == Segment(b.start, p) || s == Segment(p, b.end) ==> b.ContainsPoints([s.start, s.end]))
  {
    var cs := a.SplitCandidates(b, p);
    CandidatesInside(a, b, p);
    var r := a.SplitAt(b, p);
    forall i | 0 <= i < |r|
      ensures r[i] == cs[0] || r[i] == cs[1] || r[i] == cs[2] || r[i] == cs[3]
    {
      assert r[i] in cs;
    }
  }

  /** The first two candidates are the halves of `a` and lie on it, the last two those of `b`. */
  lemma CandidatesInside(a: Segment, b: Segment, p: Point)
    requires a.ContainsPoint(p) && b.ContainsPoint(p)
    ensures var cs := a.SplitCandidates(b, p);
            && a.ContainsPoints([cs[0].start, cs[0].end]) && a.ContainsPoints([cs[1].start, cs[1].end])
            && b.ContainsPoints([cs[2].start, cs[2].end]) && b.ContainsPoints([cs[3].start, cs[3].end])
  {
    LengthSqZero(a);
    LengthSqZero(b);
    OwnEnds(a);
    OwnEnds(b);
    ContainsPair(a, a.start, p);
    ContainsPair(a, p, a.end);
    ContainsPair(b, b.start, p);
    ContainsPair(b, p, b.end);
  }

  lemma OwnEnds(a: Segment)
    requires a.start != a.end
    ensures a.ContainsPoint(a.start) && a.ContainsPoint(a.end)
  {
    ContainsOwnPoints(a);
    assert [a.start, a.end, a.MiddlePoint()][0] == a.start;
    assert [a.start, a.end, a.MiddlePoint()][1] == a.end;
  }

  lemma ContainsPair(s: Segment, x: Point, y: Point)
    requires s.ContainsPoint(x) && s.ContainsPoint(y)
    ensures s.ContainsPoints([x, y])
  {
  }

  /**
    Where along `a` the point `p` lies: the t with p = start + t * (end - start), read
    off the x coordinates, or off the z coordinates when the segment does not move in x.
  */
  function Fraction(a: Segment, p: Point): real {
    if a.end.x != a.start.x then (p.x - a.start.x) / (a.end.x - a.start.x)
    else if a.end.z != a.start.z then (p.z - a.start.z) / (a.end.z - a.start.z)
    else 0.0
  }

  /** t * d == n with n between 0 and d puts t between 0 and 1. */
  lemma FractionBounds(t: real, d: real, n: real)
    requires d != 0.0 && t * d == n && ((0.0 <= n <= d) || (d <= n <= 0.0))
    ensures 0.0 <= t <= 1.0
  {
    if d > 0.0 {
      if t < 0.0 {
        MulPositive(-t, d);
      } else if t > 1.0 {
        MulPositive(t - 1.0, d);
      }
    } else {
      if t < 0.0 {
        MulNegative(t, d);
      } else if t > 1.0 {
        MulPositive(t - 1.0, -d);
      }
    }
  }

  /** A point on the line of a segment and inside its bounding box is start + t * (end - start) with t in [0, 1]. */
  lemma OnSegmentAtFraction(a: Segment, p: Point)
    requires a.start != a.end && a.OnLine(p) && a.IsPointInBounds(p)
    ensures var t := Fraction(a, p);
            && 0.0 <= t <= 1.0
            && p.x - a.start.x == t * (a.end.x - a.start.x)
            && p.z - a.start.z == t * (a.end.z - a.start.z)
  {
    var dx, dz := a.end.x - a.start.x, a.end.z - a.start.z;
    var t := Fraction(a, p);
    OnLineIffCrossZero(a, p);
    assert (p.x - a.start.x) * dz == (p.z - a.start.z) * dx;
    if dx != 0.0 {
      DivMul(p.x - a.start.x, dx);
      FractionBounds(t, dx, p.x - a.start.x);
      assert (t * dz) * dx == (p.z - a.start.z) * dx;
      Cancel(t * dz, p.z - a.start.z, dx);
    } else {
      assert dz != 0.0;
      DivMul(p.z - a.start.z, dz);
      FractionBounds(t, dz, p.z - a.start.z);
    }
  }

  lemma ScaledSumOfSquares(t: real, u: real, v: real)
    ensures SumOfSquares(t * u, t * v) == t * t * SumOfSquares(u, v)
  {
  }

  /**
    Cut at a point it contains and whose line it solves, a segment falls into two
    pieces of lengths t * L and (1 - t) * L for its length L and a t in [0, 1], so
    their lengths add up to L (stated on squared lengths, as everywhere in this model).
  */
  lemma CutLengths(a: Segment, p: Point)
    requires a.ContainsPoint(p) && a.OnLine(p)
    ensures var t := Fraction(a, p);
            && 0.0 <= t <= 1.0
            && Segment(a.start, p).LengthSq() == t * t * a.LengthSq()
            && Segment(p, a.end).LengthSq() == (1.0 - t) * (1.0 - t) * a.LengthSq()
  {
    var dx, dz := a.end.x - a.start.x, a.end.z - a.start.z;
    var t := Fraction(a, p);
    LengthSqZero(a);
    OnSegmentAtFraction(a, p);
    ScaledSumOfSquares(t, dx, dz);
    assert a.end.x - p.x == (1.0 - t) * dx && a.end.z - p.z == (1.0 - t) * dz;
    ScaledSumOfSquares(1.0 - t, dx, dz);
  }

  /** A crossing lies on both segments and on both lines. */
  lemma CrossingOnBoth(a: Segment, b: Segment, p: Point)
    requires a.Intersects(b) == Some(p)
    ensures a.ContainsPoint(p) && a.OnLine(p) && b.ContainsPoint(p) && b.OnLine(p)
  {
  }

  /**
    Split's candidate pieces at a crossing conserve length: the two pieces of each
    segment have lengths t * L and (1 - t) * L of that segment's length L.
  */
  lemma SplitConservesLength(a: Segment, b: Segment, p: Point)
    requires a.Intersects(b) == Some(p)
    ensures var cs := a.SplitCandidates(b, p);
            var t, u := Fraction(a, p), Fraction(b, p);
            && 0.0 <= t <= 1.0 && 0.0 <= u <= 1.0
            && cs[0].LengthSq() == t * t * a.LengthSq() && cs[1].LengthSq() == (1.0 - t) * (1.0 - t) * a.LengthSq()
            && cs[2].LengthSq() == u * u * b.LengthSq() && cs[3].LengthSq() == (1.0 - u) * (1.0 - u) * b.LengthSq()
  {
    CrossingOnBoth(a, b, p);
    CutLengths(a, p);
    CutLengths(b, p);
  }

  // ---------------------------------------------------------------------------
  // Merge

  /** Merge gives no segment when none of containment, end point on the other, shared end point holds. */
  lemma MergeNoneUnlessApplies(a: Segment, b: Segment)
    ensures !a.MergeApplies(b) ==> a.Merge(b) == None
  {
  }

  /** A merge result comes from one of the relations and has positive length. */
  lemma MergeResult(a: Segment, b: Segment)
    requires a.Merge(b).Some?
    ensures a.MergeApplies(b)
    ensures a.Merge(b).value.start != a.Merge(b).value.end
  {
    LengthSqZero(a.Merge(b).value);
    LengthSqZero(Segment(Origin, Origin));
  }

  /** A segment merged with itself gives itself back (the shared-end case wins). */
  lemma MergeWithItself(a: Segment)
    requires a.start != a.end
    ensures a.Merge(a) == Some(a)
  {
    LengthSqZero(a);
  }

  /**
    When the new segment ends where the other starts, the last `if` decides, whatever
    else holds: the result runs from the new start to the other's far end when the
    direction tags agree, and to the shared point's partner otherwise.
  */
  lemma MergeEndMeetsStart(a: Segment, b: Segment)
    requires a.end == b.start
    ensures var r := if a.GetDirection() == b.GetDirection() then Segment(a.start, b.end) else Segment(a.start, b.start);
            a.Merge(b) == if r.start != r.end then Some(r) else None
  {
    var r := if a.GetDirection() == b.GetDirection() then Segment(a.start, b.end) else Segment(a.start, b.start);
    LengthSqZero(r);
  }

  /**
    With equal direction tags, a segment that starts where `other` ends, and shares no
    other end point with it, merges into one segment from other's start to its end.
  */
  lemma ChainedMergeExtendsUnderEqualTags(a: Segment, b: Segment)
    requires a.start == b.end && a.GetDirection() == b.GetDirection()
    requires a.end != b.start && a.end != b.end && a.start != b.start
    ensures a.Merge(b) == Some(Segment(b.start, a.end))
  {
    LengthSqZero(Segment(b.start, a.end));
  }

  /**
    Chaining (5,0)-(10,0) onto (0,0)-(5,0): the two direction tags differ (Right and Left),
    so the merge keeps only the new segment instead of spanning (0,0)-(10,0).
  */
  lemma ChainedMergeKeepsNewSegment()
    ensures Segment(Point(5.0, 0.0), Point(10.0, 0.0)).Merge(Segment(Origin, Point(5.0, 0.0)))
            == Some(Segment(Point(5.0, 0.0), Point(10.0, 0.0)))
  {
    var a := Segment(Point(5.0, 0.0), Point(10.0, 0.0));
    var b := Segment(Origin, Point(5.0, 0.0));
    assert a.GetDirection() == Right && b.GetDirection() == Left;
    assert a.start == b.end;
    LengthSqZero(a);
  }
}
