/**
  The value part of a CustomLine: a segment of the ground plane given by its two
  end points, and everything the class derives from them (line equation,
  determinant, containment, direction tag, equality, split pieces, merge result).
  Coordinates are exact reals: the points the engine sees are snapped to a grid,
  and Euclidean lengths are compared through their squares, so no square root
  is needed.
*/
module Geometry {
  import opened Wrappers
  import opened Seqs

  /** A point of the ground plane (x, z); the height coordinate is always zero and is not modelled. */
  datatype Point = Point(x: real, z: real)

  /** The coarse orientation tag of a segment. */
  datatype Direction = Left | Right

  type NonNegReal = r: real | r >= 0.0

  /** Constants.FloatingTolerance: its value is not part of this model, only that it is not negative. */
  const Tolerance: NonNegReal

  /** Vector3.zero. */
  const Origin: Point := Point(0.0, 0.0)

  /** A straight piece from `start` to `end`. */
  datatype Segment = Segment(start: Point, end: Point) {

    /** Coefficients of the two-point line equation DeltaZ * x + DeltaX * z == Equation. */
    function DeltaX(): real { start.x - end.x }
    function DeltaZ(): real { end.z - start.z }
    function Equation(): real { DeltaZ() * start.x + DeltaX() * start.z }

    /** `p` satisfies the line equation: it lies on the infinite line through the segment. */
    predicate OnLine(p: Point) {
      DeltaZ() * p.x + DeltaX() * p.z == Equation()
    }

    /** The determinant of the two line equations' coefficient matrix. */
    function Determinant(other: Segment): real {
      DeltaZ() * other.DeltaX() - other.DeltaZ() * DeltaX()
    }

    /** ParallelTo: the determinant is exactly zero (parallel, collinear or degenerate). */
    predicate ParallelTo(other: Segment) {
      Determinant(other) == 0.0
    }

    /** The solution of the two line equations by Cramer's rule. */
    function CramerPoint(other: Segment): Point
      requires !ParallelTo(other)
    {
      var det := Determinant(other);
      Point((other.DeltaX() * Equation() - DeltaX() * other.Equation()) / det,
            (DeltaZ() * other.Equation() - other.DeltaZ() * Equation()) / det)
    }

    lemma CramerSolves(other: Segment)
      requires !ParallelTo(other)
      ensures OnLine(CramerPoint(other)) && other.OnLine(CramerPoint(other))
    {
      var q := CramerPoint(other);
      var det := Determinant(other);
      DivMul(other.DeltaX() * Equation() - DeltaX() * other.Equation(), det);
      DivMul(DeltaZ() * other.Equation() - other.DeltaZ() * Equation(), det);
      SolveTwoByTwo(DeltaZ(), DeltaX(), Equation(), other.DeltaZ(), other.DeltaX(), other.Equation(), q.x, q.z);
    }

    /** Intersects: the crossing point of the two segments, if the lines meet at a point lying on both. */
    function Intersects(other: Segment): (r: Option<Point>)
      ensures r.Some? ==> OnLine(r.value) && other.OnLine(r.value)
    {
      if Determinant(other) == 0.0 then None
      else
        var p := CramerPoint(other);
        CramerSolves(other);
        if ContainsPoint(p) && other.ContainsPoint(p) then Some(p) else None
    }

    /** Squared Length (Vector3.Distance between the end points). */
    function LengthSq(): real {
      SumOfSquares(end.x - start.x, end.z - start.z)
    }

    /** The numerator of DistanceToPoint: (p - start) crossed with the direction vector end - start. */
    function Cross(p: Point): real {
      (p.x - start.x) * (end.z - start.z) - (p.z - start.z) * (end.x - start.x)
    }

    /**
      DistanceToPoint(p) <= Tolerance, that is |Cross(p)| / Length <= Tolerance, squared out.
      On a zero-length segment the source divides 0 by 0; the comparison with NaN is false.
    */
    predicate WithinTolerance(p: Point) {
      LengthSq() > 0.0 && Cross(p) * Cross(p) <= Tolerance * Tolerance * LengthSq()
    }

    /** IsPointInBounds: `p` lies in the closed bounding box of the segment. */
    predicate IsPointInBounds(p: Point) {
      ((p.x >= start.x && p.x <= end.x) || (p.x <= start.x && p.x >= end.x)) &&
      ((p.z >= start.z && p.z <= end.z) || (p.z <= start.z && p.z >= end.z))
    }

    predicate ContainsPoint(p: Point) {
      IsPointInBounds(p) && WithinTolerance(p)
    }

    predicate ContainsPoints(ps: seq<Point>) {
      forall i :: 0 <= i < |ps| ==> ContainsPoint(ps[i])
    }

    function MiddlePoint(): Point {
      Point((start.x + end.x) / 2.0, (start.z + end.z) / 2.0)
    }

    /**
      GetDirection, as the source computes it: the start point's own coordinates are
      combined with the direction vector end - start.
    */
    function GetDirection(): Direction {
      var px := end.x - start.x;
      var pz := end.z - start.z;
      if start.x * px - start.z * pz > 0.0 then Right else Left
    }

    function Reversed(): Segment {
      Segment(end, start)
    }

    /** Equals: the same end points in the same order when the direction tags agree, swapped when they differ. */
    predicate Equals(other: Segment) {
      if GetDirection() == other.GetDirection() then start == other.start && end == other.end
      else start == other.end && end == other.start
    }

    /** Length <= Constants.FloatingTolerance, squared out. */
    predicate TooShort() {
      LengthSq() <= Tolerance * Tolerance
    }

    /** The four pieces Split builds before it drops the short ones. */
    function SplitCandidates(other: Segment, intersection: Point): seq<Segment> {
      [Segment(start, intersection), Segment(intersection, end),
       Segment(other.start, intersection), Segment(intersection, other.end)]
    }

    /** Split: the pieces of both segments cut at `intersection` that are longer than the tolerance. */
    function SplitAt(other: Segment, intersection: Point): (r: seq<Segment>)
      ensures |r| <= 4
      ensures forall i :: 0 <= i < |r| ==>
                !r[i].TooShort() && (r[i].start == intersection || r[i].end == intersection)
      ensures forall i :: 0 <= i < |r| ==> r[i] in SplitCandidates(other, intersection)
      ensures forall c :: c in SplitCandidates(other, intersection) && !c.TooShort() ==> c in r
    {
      Filter(SplitCandidates(other, intersection), (s: Segment) => !s.TooShort())
    }

    /** Some relation Merge looks for holds: containment, an end point on `other`, or a shared end point. */
    predicate MergeApplies(other: Segment) {
      (ContainsPoints([other.start, other.end]) && LengthSq() > other.LengthSq()) ||
      other.ContainsPoint(start) || other.ContainsPoint(end) ||
      start == other.end || start == other.start || end == other.end || end == other.start
    }

    /**
      Merge's result. The source runs six `if`s one after another, each overriding the
      result of the ones before; here they are read from the last back to the first, so
      the last condition that holds decides. A zero-length result means no merge.
    */
    function Merge(other: Segment): Option<Segment> {
      var same := GetDirection() == other.GetDirection();
      var result :=
        if end == other.start then (if same then Segment(start, other.end) else Segment(start, other.start))
        else if end == other.end then (if same then Segment(start, end) else Segment(other.start, start))
        else if start == other.start then (if same then Segment(other.start, end) else Segment(end, other.end))
        else if start == other.end then (if same then Segment(other.start, end) else Segment(start, end))
        else if other.ContainsPoint(start) || other.ContainsPoint(end) then
          (if same then Segment(other.start, end) else Segment(other.end, end))
        else if ContainsPoints([other.start, other.end]) && LengthSq() > other.LengthSq() then Segment(start, end)
        else Segment(Origin, Origin);
      if result.LengthSq() != 0.0 then Some(result) else None
    }
  }

  // ---------------------------------------------------------------------------
  // Arithmetic used by the geometry lemmas.

  /** The squared Euclidean norm of the vector (u, v). */
  function SumOfSquares(u: real, v: real): real {
    u * u + v * v
  }

  lemma Cancel(u: real, v: real, d: real)
    requires d != 0.0 && u * d == v * d
    ensures u == v
  {
    assert (u - v) * d == 0.0;
  }

  lemma DivMul(n: real, d: real)
    requires d != 0.0
    ensures (n / d) * d == n
  {
  }

  /** Cramer's rule: x and z with x * det and z * det the two numerators solve the 2x2 system. */
  lemma SolveTwoByTwo(a1: real, b1: real, c1: real, a2: real, b2: real, c2: real, x: real, z: real)
    requires a1 * b2 - a2 * b1 != 0.0
    requires x * (a1 * b2 - a2 * b1) == b2 * c1 - b1 * c2
    requires z * (a1 * b2 - a2 * b1) == a1 * c2 - a2 * c1
    ensures a1 * x + b1 * z == c1 && a2 * x + b2 * z == c2
  {
    var det := a1 * b2 - a2 * b1;
    calc {
      (a1 * x + b1 * z) * det;
      == a1 * (x * det) + b1 * (z * det);
      == a1 * (b2 * c1 - b1 * c2) + b1 * (a1 * c2 - a2 * c1);
      == c1 * det;
    }
    Cancel(a1 * x + b1 * z, c1, det);
    calc {
      (a2 * x + b2 * z) * det;
      == a2 * (x * det) + b2 * (z * det);
      == a2 * (b2 * c1 - b1 * c2) + b2 * (a1 * c2 - a2 * c1);
      == c2 * det;
    }
    Cancel(a2 * x + b2 * z, c2, det);
  }
}
