/**
  The CustomLine class: a segment value (its end points never change) plus the one
  mutable flag Skip. The geometry is that of Geometry.Segment; this module adds the
  object identity, the flag, and the two operations that allocate new lines.
*/
module CustomLines {
  import opened Wrappers
  import opened Seqs
  import opened Geometry

  class CustomLine {
    /** StartPoint and EndPoint, and everything derived from them. */
    const seg: Segment
    /** Skip: set by MakeSkip, never reset. */
    var skip: bool

    constructor (start: Point, end: Point)
      ensures seg == Segment(start, end) && !skip
    {
      seg := Segment(start, end);
      skip := false;
    }

    /** MakeSkip: marks this line as skipped and returns the same object. */
    method MakeSkip() returns (r: CustomLine)
      modifies this
      ensures r == this && skip
    {
      skip := true;
      r := this;
    }

    /** Equals(CustomLine): never equal to null, otherwise Segment.Equals of the end points. */
    predicate Equals(other: CustomLine?) {
      other != null && seg.Equals(other.seg)
    }

    /**
      Split: builds the four pieces as new lines, then drops those not longer than
      the tolerance (List.RemoveAll). The segments of the result are exactly
      Segment.SplitAt, and every line in it is new and not skipped.
    */
    method Split(line: CustomLine, intersection: Point) returns (lines: seq<CustomLine>)
      ensures Segs(lines) == seg.SplitAt(line.seg, intersection)
      ensures forall i :: 0 <= i < |lines| ==> fresh(lines[i]) && !lines[i].skip
    {
      var first := new CustomLine(seg.start, intersection);
      var second := new CustomLine(intersection, seg.end);
      var third := new CustomLine(line.seg.start, intersection);
      var fourth := new CustomLine(intersection, line.seg.end);
      var all := [first, second, third, fourth];
      assert Segs(all) == seg.SplitCandidates(line.seg, intersection);
      lines := Filter(all, (l: CustomLine) => !l.seg.TooShort());
      MapFilter(all, SegOf, (s: Segment) => !s.TooShort(), (l: CustomLine) => !l.seg.TooShort());
    }

    /**
      Merge: starts from a zero-length line at the origin and lets each of the six
      cases, in source order, replace it; a zero-length outcome means no merge (null).
      The result is Segment.Merge, built as a new line.
    */
    method Merge(line: CustomLine) returns (r: CustomLine?)
      ensures r == null <==> seg.Merge(line.seg).None?
      ensures r != null ==> fresh(r) && !r.skip && r.seg == seg.Merge(line.seg).value
    {
      var mergeResult := new CustomLine(Origin, Origin);
      var otherStart, otherEnd := line.seg.start, line.seg.end;
      var same := seg.GetDirection() == line.seg.GetDirection();
      // the other line lies within this one
      if seg.ContainsPoints([otherStart, otherEnd]) && seg.LengthSq() > line.seg.LengthSq() {
        mergeResult := new CustomLine(seg.start, seg.end);
      }
      // an end point of this line lies on the other one
      if line.seg.ContainsPoint(seg.start) || line.seg.ContainsPoint(seg.end) {
        if same {
          mergeResult := new CustomLine(otherStart, seg.end);
        } else {
          mergeResult := new CustomLine(otherEnd, seg.end);
        }
      }
      if seg.start == otherEnd {
        if same {
          mergeResult := new CustomLine(otherStart, seg.end);
        } else {
          mergeResult := new CustomLine(seg.start, seg.end);
        }
      }
      if seg.start == otherStart {
        if same {
          mergeResult := new CustomLine(otherStart, seg.end);
        } else {
          mergeResult := new CustomLine(seg.end, otherEnd);
        }
      }
      if seg.end == otherEnd {
        if same {
          mergeResult := new CustomLine(seg.start, seg.end);
        } else {
          mergeResult := new CustomLine(otherStart, seg.start);
        }
      }
      if seg.end == otherStart {
        if same {
          mergeResult := new CustomLine(seg.start, otherEnd);
        } else {
          mergeResult := new CustomLine(seg.start, otherStart);
        }
      }
      if mergeResult.seg.LengthSq() != 0.0 {
        r := mergeResult;
      } else {
        r := null;
      }
    }
  }

  function SegOf(l: CustomLine): Segment {
    l.seg
  }

  /** The segments of a list of lines, in order. */
  function Segs(ls: seq<CustomLine>): (r: seq<Segment>)
    ensures |r| == |ls| && forall i :: 0 <= i < |ls| ==> r[i] == ls[i].seg
  {
    Map(ls, SegOf)
  }

  /** No line object occurs twice. */
  predicate Distinct(ls: seq<CustomLine>) {
    forall i, j :: 0 <= i < j < |ls| ==> ls[i] != ls[j]
  }

  /** Dropping lines keeps them distinct. */
  lemma SubseqDistinct(a: seq<CustomLine>, b: seq<CustomLine>)
    requires IsSubseq(a, b) && Distinct(b)
    ensures Distinct(a)
  {
    var same := (x: CustomLine, y: CustomLine) => x == y;
    assert NoEqDup(b, same);
    SubseqNoEqDup(a, b, same);
  }

  lemma EqualsReflexive(a: CustomLine)
    ensures a.Equals(a)
  {
  }

  lemma EqualsSymmetric(a: CustomLine, b: CustomLine)
    ensures a.Equals(b) <==> b.Equals(a)
  {
  }

  lemma NullNeverEqual(a: CustomLine)
    ensures !a.Equals(null)
  {
  }
}
