/**
  The LineHandler class: the intersection registry it owns, and the Split, Merge and
  Combine passes over arrays of line objects. Each pass is proved to compute exactly
  the value-level result defined in HandlerSpec, whose properties are proved in
  HandlerProperties.
*/
module LineHandlers {
  import opened Wrappers
  import opened Seqs
  import opened Geometry
  import opened CustomLines
  import opened HandlerSpec
  import HandlerProperties

  /** How Merge sees each input line before the call: segment, Skip flag, and whether it is the new line. */
  function EntriesOf(ls: seq<CustomLine>, nl: CustomLine): (r: seq<Entry>)
    reads set l | l in ls
    ensures |r| == |ls|
    ensures forall i :: 0 <= i < |ls| ==> r[i] == Entry(ls[i].seg, ls[i].skip, ls[i] == nl)
    decreases |ls|
  {
    if ls == [] then []
    else EntriesOf(ls[..|ls| - 1], nl) + [Entry(ls[|ls| - 1].seg, ls[|ls| - 1].skip, ls[|ls| - 1] == nl)]
  }

  /** The segments of the entries are those of the lines. */
  lemma EntriesSegs(ls: seq<CustomLine>, nl: CustomLine, es: seq<Entry>)
    requires |es| == |ls| && forall i :: 0 <= i < |ls| ==> es[i].seg == ls[i].seg
    ensures EntrySegs(es) == Segs(ls)
  {
  }

  /** Removes, for each element of `toRemove` in order, the first line Equals to it (List.Remove). */
  method RemoveEachLine(ls: seq<CustomLine>, toRemove: seq<CustomLine>) returns (r: seq<CustomLine>)
    ensures Segs(r) == RemoveEach(Segs(ls), Segs(toRemove))
    ensures forall k :: 0 <= k < |r| ==> r[k] in ls
    ensures IsSubseq(r, ls)
  {
    r := ls;
    SubseqRefl(ls);
    for i := 0 to |toRemove|
      invariant Segs(r) == RemoveEach(Segs(ls), Segs(toRemove)[..i])
      invariant IsSubseq(r, ls)
    {
      var t := toRemove[i];
      assert Segs(toRemove)[..i + 1][..i] == Segs(toRemove)[..i];
      MapRemoveFirst(r, SegOf, (l: Segment) => l.Equals(t.seg), (l: CustomLine) => l.Equals(t));
      RemoveFirstSubseq(r, (l: CustomLine) => l.Equals(t));
      SubseqTrans(RemoveFirst(r, (l: CustomLine) => l.Equals(t)), r, ls);
      r := RemoveFirst(r, (l: CustomLine) => l.Equals(t));
    }
    assert Segs(toRemove)[..|toRemove|] == Segs(toRemove);
    SubseqElements(r, ls);
  }

  /**
    The pairing loop of Split (LineHandler.cs, lines 78-96): from the last pair of
    crossings down to the first, every pair the new line goes through replaces the
    created lines through both points by one line connecting them.
  */
  method ConnectLines(created: seq<CustomLine>, pts: seq<Point>, newLine: CustomLine) returns (r: seq<CustomLine>)
    ensures Segs(r) == Connect(Segs(created), pts, newLine.seg, |pts|)
    ensures forall k :: 0 <= k < |r| ==> r[k] in created || (fresh(r[k]) && !r[k].skip)
  {
    r := created;
    var n := |pts|;
    while n > 1
      invariant 0 <= n <= |pts|
      invariant Connect(Segs(r), pts, newLine.seg, n) == Connect(Segs(created), pts, newLine.seg, |pts|)
      invariant forall k :: 0 <= k < |r| ==> r[k] in created || (fresh(r[k]) && !r[k].skip)
      decreases n
    {
      var last, before := pts[n - 1], pts[n - 2];
      n := n - 1;
      if !newLine.seg.ContainsPoints([last, before]) {
        continue;
      }
      r := ConnectPair(r, before, last);
    }
  }

  /**
    One round of the pairing loop that connects: the created lines through both points
    are dropped (RemoveAll) and a new line from `before` to `last` is added.
  */
  method ConnectPair(created: seq<CustomLine>, before: Point, last: Point) returns (r: seq<CustomLine>)
    ensures Segs(r) == ConnectStep(Segs(created), before, last)
    ensures forall k :: 0 <= k < |r| ==> r[k] in created || (fresh(r[k]) && !r[k].skip)
  {
    var through := (l: CustomLine) => !l.seg.ContainsPoints([last, before]);
    MapFilter(created, SegOf, Avoids(last, before), through);
    var connector := new CustomLine(before, last);
    MapAppend(Filter(created, through), [connector], SegOf);
    assert Segs([connector]) == [Segment(before, last)];
    r := Filter(created, through) + [connector];
  }

  /** linesToReturn.AddRange(linesCreated.Where(c => !linesToReturn.Contains(c))), with Contains by Equals. */
  method AppendCreated(kept: seq<CustomLine>, created: seq<CustomLine>) returns (r: seq<CustomLine>)
    ensures Segs(r) == AppendNew(Segs(kept), Segs(created), SegEq)
    ensures forall k :: 0 <= k < |r| ==> r[k] in kept || r[k] in created
    ensures Distinct(kept) ==> Distinct(r)
  {
    var eq := (a: CustomLine, b: CustomLine) => a.Equals(b);
    MapAppendNew(kept, created, SegOf, SegEq, eq);
    AppendNewAdds(kept, created, eq);
    r := AppendNew(kept, created, eq);
    forall k | 0 <= k < |r|
      ensures r[k] in kept || r[k] in created
    {
      if k < |kept| {
        assert r[k] == r[..|kept|][k];
      }
    }
    if Distinct(kept) {
      forall i, j | 0 <= i < j < |r|
        ensures r[i] != r[j]
      {
        if j < |kept| {
          assert r[i] == kept[i] && r[j] == kept[j];
        } else {
          assert !eq(r[i], r[j]);
          EqualsReflexive(r[i]);
        }
      }
    }
  }

  class LineHandler {
    /** _intersections: every crossing Split has recorded, without duplicates. */
    var intersections: seq<Point>
    /** CanMergeWith(newLine, otherLine, registry), which this model leaves abstract. */
    const canMergeWith: MergeGuard

    ghost predicate Valid()
      reads this
    {
      NoDup(intersections)
    }

    constructor (canMerge: MergeGuard)
      ensures intersections == [] && canMergeWith == canMerge && Valid()
    {
      intersections := [];
      canMergeWith := canMerge;
    }

    /** GetIntersections: the registry itself. */
    function GetIntersections(): seq<Point>
      reads this
    {
      intersections
    }

    /** GetIntersections().Clear(), as the controller's reset does it. */
    method ClearIntersections()
      modifies this
      ensures intersections == [] && Valid()
    {
      intersections := [];
    }

    /** SaveIntersection: records `p` unless it is already recorded. */
    method SaveIntersection(p: Point)
      requires Valid()
      modifies this
      ensures Valid()
      ensures intersections == Saved(old(intersections), p)
    {
      if p in intersections {
        return;
      }
      intersections := intersections + [p];
    }

    /**
      One iteration of the scan of Split against `other`: when the lines cross, the
      pieces are appended to `created`; then, unless nothing has been created at all,
      both lines are scheduled for removal and the crossing is saved.
    */
    method ScanOne(newLine: CustomLine, other: CustomLine, created: seq<CustomLine>, toRemove: seq<CustomLine>, found: seq<Point>)
      returns (created': seq<CustomLine>, toRemove': seq<CustomLine>, found': seq<Point>)
      requires Valid()
      modifies this
      ensures Valid()
      ensures ScanState(Segs(created'), Segs(toRemove'), intersections, found')
              == ScanStep(newLine.seg, ScanState(Segs(created), Segs(toRemove), old(intersections), found), other.seg)
      ensures forall k :: 0 <= k < |created'| ==> created'[k] in created || (fresh(created'[k]) && !created'[k].skip)
    {
      created', toRemove', found' := created, toRemove, found;
      match newLine.seg.Intersects(other.seg)
      case None =>
      case Some(p) =>
        var pieces := newLine.Split(other, p);
        MapAppend(created, pieces, SegOf);
        created' := created + pieces;
        if |created'| > 0 {
          MapAppend(toRemove, [other, newLine], SegOf);
          assert Segs([other, newLine]) == [other.seg, newLine.seg];
          toRemove' := toRemove + [other, newLine];
          SaveIntersection(p);
          if p !in found {
            found' := found + [p];
          }
        }
    }

    /**
      The scan of Split (LineHandler.cs, lines 30-63): for every line the new line crosses,
      the pieces are collected and, while anything has been created at all, both lines
      are scheduled for removal and the crossing is recorded in the registry and in the
      per-call list.
    */
    method ScanLines(lines: seq<CustomLine>, newLine: CustomLine)
      returns (created: seq<CustomLine>, toRemove: seq<CustomLine>, found: seq<Point>)
      requires Valid()
      modifies this
      ensures Valid()
      ensures ScanState(Segs(created), Segs(toRemove), intersections, found)
              == SplitScan(Segs(lines), newLine.seg, old(intersections))
      ensures forall k :: 0 <= k < |created| ==> fresh(created[k]) && !created[k].skip
    {
      var nl := newLine.seg;
      found, toRemove, created := [], [], [];
      for i := 0 to |lines|
        invariant ScanState(Segs(created), Segs(toRemove), intersections, found)
                  == Scan(nl, ScanState([], [], old(intersections), []), Segs(lines)[..i])
        invariant Valid()
        invariant forall k :: 0 <= k < |created| ==> fresh(created[k]) && !created[k].skip
      {
        HandlerProperties.ScanSnoc(nl, ScanState([], [], old(intersections), []), Segs(lines), i);
        created, toRemove, found := ScanOne(newLine, lines[i], created, toRemove, found);
      }
      assert Segs(lines)[..|lines|] == Segs(lines);
    }

    /**
      Split: cuts the new line and every line it crosses, records the crossings,
      connects consecutive crossings the new line goes through and appends the created
      lines that are not already present. The result and the registry are SplitLines;
      no existing line object is changed, and every line in the result is an input
      line or a new, unskipped one.
    */
    method Split(lines: seq<CustomLine>, newLine: CustomLine) returns (result: seq<CustomLine>)
      requires Valid()
      modifies this
      ensures Valid()
      ensures var out := SplitLines(Segs(lines), newLine.seg, old(intersections));
              Segs(result) == out.lines && intersections == out.registry
      ensures |lines| <= 1 ==> result == lines && intersections == old(intersections)
      ensures forall k :: 0 <= k < |result| ==> result[k] in lines || (fresh(result[k]) && !result[k].skip)
      ensures Distinct(lines) ==> Distinct(result)
    {
      if |lines| <= 1 {
        return lines;
      }
      var nl := newLine.seg;
      var created, toRemove, found := ScanLines(lines, newLine);
      var kept := RemoveEachLine(lines, toRemove);
      if Distinct(lines) {
        SubseqDistinct(kept, lines);
      }
      var pts := found;
      if |found| > 1 {
        pts := SortXZ(found);
      }
      created := ConnectLines(created, pts, newLine);
      result := AppendCreated(kept, created);
      HandlerProperties.SplitRegistry(Segs(lines), nl, old(intersections));
    }

    /**
      One iteration of Merge's scan against `other`: when `other` is not skipped, the
      guard accepts it and the two lines merge, both are marked Skip and the merge
      result is returned; otherwise nothing changes and the result is null.
    */
    method MergeOne(other: CustomLine, newLine: CustomLine, ghost st: MergeState, ghost e: Entry) returns (m: CustomLine?)
      requires e.seg == other.seg && other.skip == (if e.isNew then st.newSkip else e.skip)
      modifies other, newLine
      ensures m == null ==> other.skip == old(other.skip) && newLine.skip == old(newLine.skip) &&
                            MergeStep(newLine.seg, intersections, canMergeWith, st, e) == st.(marked := st.marked + [false])
      ensures m != null ==> fresh(m) && !m.skip && other.skip && newLine.skip &&
                            MergeStep(newLine.seg, intersections, canMergeWith, st, e)
                            == MergeState(true, st.marked + [true], st.toRemove + [e.seg, newLine.seg], st.created + [m.seg])
    {
      if other.skip || !canMergeWith(newLine.seg, other.seg, intersections) {
        HandlerProperties.MergeStepIdle(newLine.seg, intersections, canMergeWith, st, e);
        return null;
      }
      m := newLine.Merge(other);
      if m == null {
        HandlerProperties.MergeStepIdle(newLine.seg, intersections, canMergeWith, st, e);
        return;
      }
      HandlerProperties.MergeStepMerges(newLine.seg, intersections, canMergeWith, st, e, m.seg);
      var a := other.MakeSkip();
      var b := newLine.MakeSkip();
    }

    /**
      One iteration of Merge's scan, against lines[i]: the scan state afterwards is
      MergeStep of the state before, lines[i] is marked Skip exactly when it merged, and
      no other input line except the new one changes.
    */
    method MergeAt(lines: seq<CustomLine>, i: nat, newLine: CustomLine,
                   toRemove: seq<CustomLine>, created: seq<CustomLine>, ghost marked: seq<bool>, ghost es: seq<Entry>)
      returns (toRemove': seq<CustomLine>, created': seq<CustomLine>, ghost marked': seq<bool>)
      requires Distinct(lines) && i < |lines| && |marked| == i && |es| == |lines|
      requires es[i].seg == lines[i].seg && lines[i].skip == (if es[i].isNew then newLine.skip else es[i].skip)
      requires forall j :: 0 <= j < i && lines[j] != newLine ==> lines[j].skip == (es[j].skip || marked[j])
      requires forall j :: i <= j < |lines| && lines[j] != newLine ==> lines[j].skip == es[j].skip
      modifies lines[i], newLine
      ensures MergeState(newLine.skip, marked', Segs(toRemove'), Segs(created'))
              == MergeStep(newLine.seg, intersections, canMergeWith, MergeState(old(newLine.skip), marked, Segs(toRemove), Segs(created)), es[i])
      ensures |marked'| == i + 1
      ensures forall j :: 0 <= j <= i && lines[j] != newLine ==> lines[j].skip == (es[j].skip || marked'[j])
      ensures forall j :: i < j < |lines| && lines[j] != newLine ==> lines[j].skip == es[j].skip
      ensures forall k :: 0 <= k < |created'| ==> created'[k] in created || (fresh(created'[k]) && !created'[k].skip)
      ensures Distinct(created) ==> Distinct(created')
    {
      var other := lines[i];
      ghost var st := MergeState(newLine.skip, marked, Segs(toRemove), Segs(created));
      var m := MergeOne(other, newLine, st, es[i]);
      if m == null {
        toRemove', created', marked' := toRemove, created, marked + [false];
      } else {
        var merged: CustomLine := m;
        MapAppend(toRemove, [other, newLine], SegOf);
        assert Segs([other, newLine]) == [other.seg, newLine.seg];
        MapAppend(created, [merged], SegOf);
        assert Segs([merged]) == [merged.seg];
        toRemove', created', marked' := toRemove + [other, newLine], created + [merged], marked + [true];
      }
      assert forall j :: 0 <= j < i ==> marked'[j] == marked[j] && lines[j] != other;
    }

    /**
      The scan of Merge (LineHandler.cs, lines 122-145), with the flags each input line
      received: the state it leaves is MergeScanAll of the lines as they were, and every
      line other than the new one ends up skipped exactly when it was, or was merged.
    */
    method MergeScanLines(lines: seq<CustomLine>, newLine: CustomLine)
      returns (toRemove: seq<CustomLine>, created: seq<CustomLine>, ghost marked: seq<bool>)
      requires Distinct(lines)
      modifies lines, newLine
      ensures |marked| == |lines|
      ensures MergeState(newLine.skip, marked, Segs(toRemove), Segs(created))
              == MergeScanAll(old(EntriesOf(lines, newLine)), old(newLine.skip), newLine.seg, intersections, canMergeWith)
      ensures forall j :: 0 <= j < |lines| && lines[j] != newLine ==> lines[j].skip == (old(lines[j].skip) || marked[j])
      ensures forall k :: 0 <= k < |created| ==> fresh(created[k]) && !created[k].skip
      ensures Distinct(created)
    {
      ghost var es := EntriesOf(lines, newLine);
      var nl := newLine.seg;
      var registry := intersections;
      ghost var start := MergeState(newLine.skip, [], [], []);
      marked, toRemove, created := [], [], [];
      for i := 0 to |lines|
        invariant |marked| == i
        invariant MergeState(newLine.skip, marked, Segs(toRemove), Segs(created))
                  == MergeScan(nl, registry, canMergeWith, start, es[..i])
        invariant forall j :: 0 <= j < i && lines[j] != newLine ==> lines[j].skip == (es[j].skip || marked[j])
        invariant forall j :: i <= j < |lines| && lines[j] != newLine ==> lines[j].skip == es[j].skip
        invariant forall k :: 0 <= k < |created| ==> fresh(created[k]) && !created[k].skip
        invariant Distinct(created)
      {
        HandlerProperties.MergeScanSnoc(nl, registry, canMergeWith, start, es, i);
        toRemove, created, marked := MergeAt(lines, i, newLine, toRemove, created, marked, es);
      }
      assert es[..|lines|] == es;
    }

    /**
      Merge: fuses the new line with every eligible line not marked Skip, marks both
      lines of each merged pair Skip, removes them and appends the merge results. The
      result, the new line's flag and every other input line's flag are MergeLines of
      the lines as they were before the call; the registry is not changed.
    */
    method Merge(lines: seq<CustomLine>, newLine: CustomLine) returns (result: seq<CustomLine>)
      requires Distinct(lines)
      modifies lines, newLine
      ensures var out := MergeLines(old(EntriesOf(lines, newLine)), old(newLine.skip), newLine.seg, intersections, canMergeWith);
              Segs(result) == out.lines && newLine.skip == out.newSkip &&
              forall i :: 0 <= i < |lines| && lines[i] != newLine ==> lines[i].skip == out.skips[i]
      ensures |lines| <= 1 ==> result == lines
      ensures forall k :: 0 <= k < |result| ==> result[k] in lines || (fresh(result[k]) && !result[k].skip)
      ensures Distinct(result)
    {
      ghost var es := EntriesOf(lines, newLine);
      EntriesSegs(lines, newLine, es);
      if |lines| <= 1 {
        return lines;
      }
      var nl := newLine.seg;
      ghost var marked;
      var toRemove, created;
      toRemove, created, marked := MergeScanLines(lines, newLine);
      HandlerProperties.MergeLinesOf(es, old(newLine.skip), nl, intersections, canMergeWith,
                                     MergeState(newLine.skip, marked, Segs(toRemove), Segs(created)));
      var kept := RemoveEachLine(lines, toRemove);
      SubseqDistinct(kept, lines);
      MapAppend(kept, created, SegOf);
      result := kept + created;
      assert forall i, j :: 0 <= i < |kept| && 0 <= j < |created| ==> kept[i] != created[j];
    }

    /** Combine: Split of what Merge returns, with the same new line. */
    method Combine(lines: seq<CustomLine>, newLine: CustomLine) returns (result: seq<CustomLine>)
      requires Valid() && Distinct(lines)
      modifies this, lines, newLine
      ensures Valid()
      ensures var out := CombineLines(old(EntriesOf(lines, newLine)), old(newLine.skip), newLine.seg, old(intersections), canMergeWith);
              Segs(result) == out.lines && intersections == out.registry
      ensures var m := MergeLines(old(EntriesOf(lines, newLine)), old(newLine.skip), newLine.seg, old(intersections), canMergeWith);
              newLine.skip == m.newSkip && forall i :: 0 <= i < |lines| && lines[i] != newLine ==> lines[i].skip == m.skips[i]
      ensures Distinct(result)
    {
      var merged := Merge(lines, newLine);
      result := Split(merged, newLine);
    }
  }
}
