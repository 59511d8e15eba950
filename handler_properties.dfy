/** What LineHandler's Split, Merge and Combine promise, proved about the HandlerSpec model. */
module HandlerProperties {
  import opened Wrappers
  import opened Seqs
  import opened Geometry
  import opened SegmentProperties
  import opened HandlerSpec

  // ---------------------------------------------------------------------------
  // The scan of Split

  /** What holds of the scan state after any prefix of the lines. */
  ghost predicate ScanInv(nl: Segment, others: seq<Segment>, registry: seq<Point>, st: ScanState) {
    && |registry| <= |st.registry| && st.registry[..|registry|] == registry
    && (forall k :: |registry| <= k < |st.registry| ==> Crossing(nl, others, st.registry[k]))
    && (NoDup(registry) ==> NoDup(st.registry))
    && NoDup(st.found)
    && (forall k :: 0 <= k < |st.found| ==> st.found[k] in st.registry && Crossing(nl, others, st.found[k]))
    && (forall k :: 0 <= k < |st.created| ==> st.created[k].start in st.found || st.created[k].end in st.found)
    && (forall k :: 0 <= k < |st.toRemove| ==>
          st.toRemove[k] == nl || (st.toRemove[k] in others && nl.Intersects(st.toRemove[k]).Some?))
  }

  lemma {:induction false} CrossingExtends(nl: Segment, others: seq<Segment>, more: seq<Segment>, q: Point)
    requires Crossing(nl, others, q)
    ensures Crossing(nl, others + more, q)
  {
    var j :| 0 <= j < |others| && nl.Intersects(others[j]) == Some(q);
    assert (others + more)[j] == others[j];
  }

  lemma {:induction false} ScanStepInv(nl: Segment, others: seq<Segment>, other: Segment, registry: seq<Point>, st: ScanState)
    requires ScanInv(nl, others, registry, st)
    ensures ScanInv(nl, others + [other], registry, ScanStep(nl, st, other))
  {
    var all := others + [other];
    forall q | Crossing(nl, others, q)
      ensures Crossing(nl, all, q)
    {
      CrossingExtends(nl, others, [other], q);
    }
    match nl.Intersects(other)
    case None =>
    case Some(p) =>
      assert all[|others|] == other;
      assert Crossing(nl, all, p);
      var created := st.created + nl.SplitAt(other, p);
      if |created| > 0 {
        var r := ScanStep(nl, st, other);
        assert r.registry[..|st.registry|] == st.registry;
        assert r.registry[..|registry|] == registry by {
          assert r.registry[..|registry|] == r.registry[..|st.registry|][..|registry|];
        }
        forall k | |registry| <= k < |r.registry|
          ensures Crossing(nl, all, r.registry[k])
        {
          if k < |st.registry| {
            assert r.registry[k] == st.registry[k];
          } else {
            assert r.registry[k] == p;
          }
        }
        forall k | 0 <= k < |r.found|
          ensures r.found[k] in r.registry && Crossing(nl, all, r.found[k])
        {
          if k < |st.found| {
            assert r.found[k] == st.found[k];
            assert st.found[k] in r.registry[..|st.registry|];
          }
        }
        forall k | 0 <= k < |r.created|
          ensures r.created[k].start in r.found || r.created[k].end in r.found
        {
          if k < |st.created| {
            assert r.created[k] == st.created[k];
          } else {
            assert r.created[k] == nl.SplitAt(other, p)[k - |st.created|];
          }
        }
        forall k | 0 <= k < |r.toRemove|
          ensures r.toRemove[k] == nl || (r.toRemove[k] in all && nl.Intersects(r.toRemove[k]).Some?)
        {
          if k < |st.toRemove| {
            assert r.toRemove[k] == st.toRemove[k];
          }
        }
      }
  }

  lemma {:induction false} ScanInvariant(nl: Segment, others: seq<Segment>, registry: seq<Point>)
    ensures ScanInv(nl, others, registry, Scan(nl, ScanState([], [], registry, []), others))
    decreases |others|
  {
    if others != [] {
      var n := |others| - 1;
      ScanInvariant(nl, others[..n], registry);
      ScanStepInv(nl, others[..n], others[n], registry, Scan(nl, ScanState([], [], registry, []), others[..n]));
      assert others[..n] + [others[n]] == others;
    }
  }

  lemma {:induction false} ScanNoCrossing(nl: Segment, st: ScanState, others: seq<Segment>)
    requires forall j :: 0 <= j < |others| ==> nl.Intersects(others[j]).None?
    ensures Scan(nl, st, others) == st
    decreases |others|
  {
    if others != [] {
      ScanNoCrossing(nl, st, others[..|others| - 1]);
    }
  }

  // ---------------------------------------------------------------------------
  // Removal, pairing

  lemma {:induction false} RemoveEachSubseq(ls: seq<Segment>, toRemove: seq<Segment>)
    ensures IsSubseq(RemoveEach(ls, toRemove), ls)
    decreases |toRemove|
  {
    if toRemove == [] {
      SubseqRefl(ls);
    } else {
      var x := toRemove[|toRemove| - 1];
      var before := RemoveEach(ls, toRemove[..|toRemove| - 1]);
      RemoveEachSubseq(ls, toRemove[..|toRemove| - 1]);
      RemoveFirstSubseq(before, (l: Segment) => l.Equals(x));
      SubseqTrans(RemoveEach(ls, toRemove), before, ls);
    }
  }

  /** A line equal to none of the lines to remove survives the removals. */
  lemma {:induction false} RemoveEachKeeps(ls: seq<Segment>, toRemove: seq<Segment>, x: Segment)
    requires x in ls && forall k :: 0 <= k < |toRemove| ==> !x.Equals(toRemove[k])
    ensures x in RemoveEach(ls, toRemove)
    decreases |toRemove|
  {
    if toRemove != [] {
      var t := toRemove[|toRemove| - 1];
      RemoveEachKeeps(ls, toRemove[..|toRemove| - 1], x);
      RemoveFirstKeeps(RemoveEach(ls, toRemove[..|toRemove| - 1]), (l: Segment) => l.Equals(t), x);
    }
  }

  /**
    On lines no two of which are Equals, removing the first line Equals to `x` leaves
    none Equals to it.
  */
  lemma RemoveFirstDropsAll(s: seq<Segment>, x: Segment)
    requires NoEqDup(s, SegEq)
    ensures forall y :: y in RemoveFirst(s, (l: Segment) => l.Equals(x)) ==> !y.Equals(x)
  {
    var isX := (l: Segment) => l.Equals(x);
    var k := FirstIndex(s, isX);
    if k < |s| {
      forall y | y in RemoveFirst(s, isX)
        ensures !y.Equals(x)
      {
        var j :| 0 <= j < |s| && j != k && s[j] == y;
        if y.Equals(x) {
          EqualsSymmetric(s[k], x);
          EqualsTransitive(y, x, s[k]);
          EqualsSymmetric(y, s[k]);
          assert SegEq(s[j], s[k]) && SegEq(s[k], s[j]);
          assert false;
        }
      }
    }
  }

  /**
    On lines no two of which are Equals, the removals take out every line Equals to
    an element of `toRemove`.
  */
  lemma {:induction false} RemoveEachRemoves(ls: seq<Segment>, toRemove: seq<Segment>)
    requires NoEqDup(ls, SegEq)
    ensures forall y, t :: y in RemoveEach(ls, toRemove) && t in toRemove ==> !y.Equals(t)
    decreases |toRemove|
  {
    if toRemove != [] {
      var n := |toRemove| - 1;
      var x := toRemove[n];
      var isX := (l: Segment) => l.Equals(x);
      var before := RemoveEach(ls, toRemove[..n]);
      var after := RemoveFirst(before, isX);
      assert RemoveEach(ls, toRemove) == after;
      RemoveEachRemoves(ls, toRemove[..n]);
      RemoveEachSubseq(ls, toRemove[..n]);
      SubseqNoEqDup(before, ls, SegEq);
      RemoveFirstSubseq(before, isX);
      SubseqElements(after, before);
      RemoveFirstDropsAll(before, x);
      forall y, t | y in after && t in toRemove
        ensures !y.Equals(t)
      {
        var j :| 0 <= j < |toRemove| && toRemove[j] == t;
        if j < n {
          assert toRemove[..n][j] == t;
        }
      }
    }
  }

  /** The pairing loop leaves the created lines it kept and adds only lines between two consecutive crossings. */
  lemma {:induction false} ConnectElements(created: seq<Segment>, pts: seq<Point>, nl: Segment, n: nat)
    requires n <= |pts|
    ensures forall c :: c in Connect(created, pts, nl, n) ==>
              c in created || exists m :: 1 <= m < n && c == Segment(pts[m - 1], pts[m])
    decreases n
  {
    if n > 1 {
      var last, before := pts[n - 1], pts[n - 2];
      if !nl.ContainsPoints([last, before]) {
        ConnectElements(created, pts, nl, n - 1);
      } else {
        var step := ConnectStep(created, before, last);
        ConnectElements(step, pts, nl, n - 1);
        forall c | c in step
          ensures c in created || c == Segment(pts[n - 2], pts[n - 1])
        {
          var k :| 0 <= k < |step| && step[k] == c;
          if k < |step| - 1 {
            assert step[k] in created;
          }
        }
      }
    }
  }

  // ---------------------------------------------------------------------------
  // Split

  /**
    The registry only grows at its end, by crossing points of the new line with
    the input lines, and it stays free of duplicates.
  */
  lemma SplitRegistry(lines: seq<Segment>, nl: Segment, registry: seq<Point>)
    ensures var r := SplitLines(lines, nl, registry).registry;
            && |registry| <= |r| && r[..|registry|] == registry
            && (forall k :: |registry| <= k < |r| ==> Crossing(nl, lines, r[k]))
            && (NoDup(registry) ==> NoDup(r))
    ensures var st := SplitScan(lines, nl, registry);
            (|st.registry| > |registry| || st.found != [] || st.toRemove != []) ==> st.created != []
  {
    ScanInvariant(nl, lines, registry);
    ScanRecordsWithPieces(nl, registry, ScanState([], [], registry, []), lines);
  }

  /**
    Nothing is recorded, collected or scheduled for removal while no piece has been
    created: the scan's emptiness test is on all pieces so far.
  */
  ghost predicate RecordsWithPieces(r0: seq<Point>, st: ScanState) {
    (|st.registry| > |r0| || st.found != [] || st.toRemove != []) ==> st.created != []
  }

  lemma {:induction false} ScanRecordsWithPieces(nl: Segment, r0: seq<Point>, st: ScanState, others: seq<Segment>)
    requires RecordsWithPieces(r0, st)
    ensures RecordsWithPieces(r0, Scan(nl, st, others))
    decreases |others|
  {
    if others != [] {
      ScanRecordsWithPieces(nl, r0, st, others[..|others| - 1]);
    }
  }

  /**
    The crossings of one call (lastIntersections) are distinct, sorted by x then z
    before the pairing loop, recorded in the registry, and all on the new line.
  */
  lemma SplitPointsFacts(lines: seq<Segment>, nl: Segment, registry: seq<Point>)
    ensures var st := SplitScan(lines, nl, registry);
            var pts := SplitPoints(st);
            && SortedXZ(pts) && NoDup(pts) && multiset(pts) == multiset(st.found)
            && forall k :: 0 <= k < |pts| ==>
                 pts[k] in st.registry && Crossing(nl, lines, pts[k]) && nl.ContainsPoint(pts[k])
  {
    var st := SplitScan(lines, nl, registry);
    var pts := SplitPoints(st);
    ScanInvariant(nl, lines, registry);
    NoDupPermutation(st.found, pts);
    forall k | 0 <= k < |pts|
      ensures pts[k] in st.registry && Crossing(nl, lines, pts[k]) && nl.ContainsPoint(pts[k])
    {
      assert pts[k] in multiset(st.found);
      var i :| 0 <= i < |st.found| && st.found[i] == pts[k];
      var j :| 0 <= j < |lines| && nl.Intersects(lines[j]) == Some(pts[k]);
      IntersectsIff(nl, lines[j], pts[k]);
    }
  }

  /** Every line Split creates has an end point at a crossing of this call. */
  lemma SplitCreatedAtCrossings(lines: seq<Segment>, nl: Segment, registry: seq<Point>)
    ensures var pts := SplitPoints(SplitScan(lines, nl, registry));
            forall c :: c in SplitCreated(lines, nl, registry) ==> c.start in pts || c.end in pts
  {
    var st := SplitScan(lines, nl, registry);
    var pts := SplitPoints(st);
    ScanInvariant(nl, lines, registry);
    ConnectElements(st.created, pts, nl, |pts|);
    forall c | c in SplitCreated(lines, nl, registry)
      ensures c.start in pts || c.end in pts
    {
      if c in st.created {
        var k :| 0 <= k < |st.created| && st.created[k] == c;
        assert c.start in multiset(pts) || c.end in multiset(pts);
      }
    }
  }

  /**
    The result of Split is the surviving input lines, in their order, followed by
    created lines, each appended only when no equal line is already there; every
    created line is represented, and a duplicate-free input gives a duplicate-free result.
  */
  lemma SplitShape(lines: seq<Segment>, nl: Segment, registry: seq<Point>)
    requires |lines| > 1
    ensures var kept := SplitKept(lines, nl, registry);
            var created := SplitCreated(lines, nl, registry);
            var r := SplitLines(lines, nl, registry).lines;
            && IsSubseq(kept, lines) && r[..|kept|] == kept
            && (forall k :: |kept| <= k < |r| ==> r[k] in created && forall i :: 0 <= i < k ==> !r[i].Equals(r[k]))
            && (forall k :: 0 <= k < |created| ==> Contains(r, created[k], SegEq))
            && (NoEqDup(lines, SegEq) ==> NoEqDup(r, SegEq))
  {
    var kept := SplitKept(lines, nl, registry);
    RemoveEachSubseq(lines, SplitScan(lines, nl, registry).toRemove);
    AppendShape(lines, kept, SplitCreated(lines, nl, registry));
  }

  lemma AppendShape(lines: seq<Segment>, kept: seq<Segment>, created: seq<Segment>)
    requires IsSubseq(kept, lines)
    ensures var r := AppendNew(kept, created, SegEq);
            && r[..|kept|] == kept
            && (forall k :: |kept| <= k < |r| ==> r[k] in created && forall i :: 0 <= i < k ==> !r[i].Equals(r[k]))
            && (forall k :: 0 <= k < |created| ==> Contains(r, created[k], SegEq))
            && (NoEqDup(lines, SegEq) ==> NoEqDup(r, SegEq))
  {
    AppendNewAdds(kept, created, SegEq);
    AppendNewCovers(kept, created, SegEq);
    if NoEqDup(lines, SegEq) {
      SubseqNoEqDup(kept, lines, SegEq);
      AppendNewNoDup(kept, created, SegEq);
    }
  }

  /**
    Nothing else changes: an input line equal neither to the new line nor to any
    line the new line crosses is still in the result.
  */
  lemma SplitKeepsUnrelated(lines: seq<Segment>, nl: Segment, registry: seq<Point>, x: Segment)
    requires x in lines && !x.Equals(nl)
    requires forall j :: 0 <= j < |lines| && nl.Intersects(lines[j]).Some? ==> !x.Equals(lines[j])
    ensures x in SplitLines(lines, nl, registry).lines
  {
    if |lines| > 1 {
      var st := SplitScan(lines, nl, registry);
      ScanInvariant(nl, lines, registry);
      forall k | 0 <= k < |st.toRemove|
        ensures !x.Equals(st.toRemove[k])
      {
        if st.toRemove[k] != nl {
          var j :| 0 <= j < |lines| && lines[j] == st.toRemove[k];
        }
      }
      RemoveEachKeeps(lines, st.toRemove, x);
      SplitShape(lines, nl, registry);
      var r := SplitLines(lines, nl, registry).lines;
      var kept := SplitKept(lines, nl, registry);
      var i :| 0 <= i < |kept| && kept[i] == x;
      assert r[..|kept|][i] == x;
    }
  }

  /** Whenever any line is scheduled for removal, the last one scheduled is the new line. */
  lemma {:induction false} ScanEndsWithNew(nl: Segment, st: ScanState, others: seq<Segment>)
    requires st.toRemove == [] || st.toRemove[|st.toRemove| - 1] == nl
    ensures var r := Scan(nl, st, others).toRemove; r == [] || r[|r| - 1] == nl
    decreases |others|
  {
    if others != [] {
      ScanEndsWithNew(nl, st, others[..|others| - 1]);
    }
  }

  /**
    When no two input lines are Equals, the lines Split keeps (the front of its
    result) include none Equals to a line it scheduled for removal, and none Equals
    to the new line once anything was scheduled.
  */
  lemma SplitRemoves(lines: seq<Segment>, nl: Segment, registry: seq<Point>)
    requires |lines| > 1 && NoEqDup(lines, SegEq)
    ensures var st := SplitScan(lines, nl, registry);
            var r := SplitLines(lines, nl, registry).lines;
            var n := |SplitKept(lines, nl, registry)|;
            && n <= |r|
            && (forall j, t :: 0 <= j < n && t in st.toRemove ==> !r[j].Equals(t))
            && (st.toRemove != [] ==> forall j :: 0 <= j < n ==> !r[j].Equals(nl))
  {
    var st := SplitScan(lines, nl, registry);
    var kept := SplitKept(lines, nl, registry);
    var r := SplitLines(lines, nl, registry).lines;
    SplitShape(lines, nl, registry);
    RemoveEachRemoves(lines, st.toRemove);
    ScanEndsWithNew(nl, ScanState([], [], registry, []), lines);
    forall j | 0 <= j < |kept|
      ensures r[j] in kept
    {
      assert r[j] == r[..|kept|][j];
    }
  }

  /** A new line that crosses nothing leaves the lines and the registry as they were. */
  lemma SplitNoCrossing(lines: seq<Segment>, nl: Segment, registry: seq<Point>)
    requires forall j :: 0 <= j < |lines| ==> nl.Intersects(lines[j]).None?
    ensures SplitLines(lines, nl, registry) == Outcome(lines, registry)
  {
    ScanNoCrossing(nl, ScanState([], [], registry, []), lines);
  }

  /**
    A new line (5,-5)-(5,5) drawn across (0,0)-(10,0), the new line itself being in the
    list: both are cut at (5,0) into four pieces of length 5, and (5,0) is recorded once.
  */
  lemma SplitCrossingLines(registry: seq<Point>)
    requires Tolerance < 5.0
    ensures var a := Segment(Origin, Point(10.0, 0.0));
            var nl := Segment(Point(5.0, -5.0), Point(5.0, 5.0));
            var p := Point(5.0, 0.0);
            SplitLines([a, nl], nl, registry)
            == Outcome([Segment(Point(5.0, -5.0), p), Segment(p, Point(5.0, 5.0)), Segment(Origin, p), Segment(p, Point(10.0, 0.0))],
                       Saved(registry, p))
  {
    var a := Segment(Origin, Point(10.0, 0.0));
    var nl := Segment(Point(5.0, -5.0), Point(5.0, 5.0));
    var p := Point(5.0, 0.0);
    var pieces := [Segment(Point(5.0, -5.0), p), Segment(p, Point(5.0, 5.0)), Segment(Origin, p), Segment(p, Point(10.0, 0.0))];
    ScanAtFive(registry);
    RemovedBoth(a, nl);
    assert SplitKept([a, nl], nl, registry) == [];
    assert SplitPoints(SplitScan([a, nl], nl, registry)) == [p];
    assert SplitCreated([a, nl], nl, registry) == pieces;
    PiecesAppended();
  }

  lemma ScanAtFive(registry: seq<Point>)
    requires Tolerance < 5.0
    ensures var a := Segment(Origin, Point(10.0, 0.0));
            var nl := Segment(Point(5.0, -5.0), Point(5.0, 5.0));
            var p := Point(5.0, 0.0);
            SplitScan([a, nl], nl, registry)
            == ScanState([Segment(Point(5.0, -5.0), p), Segment(p, Point(5.0, 5.0)), Segment(Origin, p), Segment(p, Point(10.0, 0.0))],
                         [a, nl], Saved(registry, p), [p])
  {
    var nl := Segment(Point(5.0, -5.0), Point(5.0, 5.0));
    var p := Point(5.0, 0.0);
    CrossingAtFive();
    PiecesAtFive();
    ParallelNeverIntersects(nl, nl);
    ScanTwoCrossing(Segment(Origin, Point(10.0, 0.0)), nl, registry, p,
                    [Segment(Point(5.0, -5.0), p), Segment(p, Point(5.0, 5.0)), Segment(Origin, p), Segment(p, Point(10.0, 0.0))]);
  }

  /** The scan over two lines, the new one last, when the first crosses it and yields pieces. */
  lemma ScanTwoCrossing(a: Segment, nl: Segment, registry: seq<Point>, p: Point, pieces: seq<Segment>)
    requires nl.Intersects(a) == Some(p) && nl.SplitAt(a, p) == pieces && pieces != []
    requires nl.Intersects(nl).None?
    ensures SplitScan([a, nl], nl, registry) == ScanState(pieces, [a, nl], Saved(registry, p), [p])
  {
    var st0 := ScanState([], [], registry, []);
    var st1 := ScanState(pieces, [a, nl], Saved(registry, p), [p]);
    ScanStepOnCrossing(nl, st0, a, p, pieces);
    ScanStepNoCrossing(nl, st1, nl);
    ScanPair(nl, st0, a, nl);
  }

  lemma ScanPair(nl: Segment, st: ScanState, x: Segment, y: Segment)
    ensures Scan(nl, st, [x, y]) == ScanStep(nl, ScanStep(nl, st, x), y)
  {
    ScanSnoc(nl, st, [x, y], 0);
    ScanSnoc(nl, st, [x, y], 1);
    assert [x, y][..0] == [] && [x, y][..2] == [x, y];
  }

  /** A scan step at a crossing that yields pieces, from an empty start. */
  lemma ScanStepOnCrossing(nl: Segment, st0: ScanState, other: Segment, p: Point, pieces: seq<Segment>)
    requires st0.created == [] && st0.toRemove == [] && st0.found == []
    requires nl.Intersects(other) == Some(p) && nl.SplitAt(other, p) == pieces && pieces != []
    ensures ScanStep(nl, st0, other) == ScanState(pieces, [other, nl], Saved(st0.registry, p), [p])
  {
  }

  lemma ScanStepNoCrossing(nl: Segment, st: ScanState, other: Segment)
    requires nl.Intersects(other).None?
    ensures ScanStep(nl, st, other) == st
  {
  }

  lemma CrossingAtFive()
    ensures Segment(Point(5.0, -5.0), Point(5.0, 5.0)).Intersects(Segment(Origin, Point(10.0, 0.0))) == Some(Point(5.0, 0.0))
  {
    var a := Segment(Origin, Point(10.0, 0.0));
    var nl := Segment(Point(5.0, -5.0), Point(5.0, 5.0));
    var p := Point(5.0, 0.0);
    assert nl.Determinant(a) == -100.0;
    assert nl.CramerPoint(a) == p;
    OnTheLineAtFive(nl, p);
    OnTheLineAtFive(a, p);
  }

  lemma OnTheLineAtFive(s: Segment, p: Point)
    requires p == Point(5.0, 0.0)
    requires s == Segment(Point(5.0, -5.0), Point(5.0, 5.0)) || s == Segment(Origin, Point(10.0, 0.0))
    ensures s.ContainsPoint(p)
  {
    assert s.Cross(p) == 0.0;
    calc {
      s.LengthSq();
      == SumOfSquares(s.end.x - s.start.x, s.end.z - s.start.z);
      == 100.0;
    }
    ToleranceSqNonNegative();
    MulNonNegative(Tolerance * Tolerance, 100.0);
    assert s.WithinTolerance(p);
  }

  lemma PiecesAtFive()
    requires Tolerance < 5.0
    ensures var p := Point(5.0, 0.0);
            Segment(Point(5.0, -5.0), Point(5.0, 5.0)).SplitAt(Segment(Origin, Point(10.0, 0.0)), p)
            == [Segment(Point(5.0, -5.0), p), Segment(p, Point(5.0, 5.0)), Segment(Origin, p), Segment(p, Point(10.0, 0.0))]
  {
    var p := Point(5.0, 0.0);
    var pieces := [Segment(Point(5.0, -5.0), p), Segment(p, Point(5.0, 5.0)), Segment(Origin, p), Segment(p, Point(10.0, 0.0))];
    SquareBelow(Tolerance, 5.0);
    assert forall k :: 0 <= k < 4 ==> !pieces[k].TooShort();
    var keep := (s: Segment) => !s.TooShort();
    assert Filter(pieces[3..], keep) == [pieces[3]];
    assert pieces[3..][1..] == [];
    assert Filter(pieces[2..], keep) == pieces[2..];
    assert Filter(pieces[1..], keep) == pieces[1..];
    assert Filter(pieces, keep) == pieces;
  }

  /** Removing the two lines of a two-line list, in order, leaves nothing. */
  lemma RemovedBoth(a: Segment, b: Segment)
    ensures RemoveEach([a, b], [a, b]) == []
  {
    EqualsReflexive(a);
    EqualsReflexive(b);
    assert [a, b][..1] == [a];
    assert [a][..0] == [];
    assert RemoveEach([a, b], [a]) == [b];
  }

  lemma PiecesAppended()
    ensures var p := Point(5.0, 0.0);
            var pieces := [Segment(Point(5.0, -5.0), p), Segment(p, Point(5.0, 5.0)), Segment(Origin, p), Segment(p, Point(10.0, 0.0))];
            AppendNew([], pieces, SegEq) == pieces
  {
    var p := Point(5.0, 0.0);
    var pieces := [Segment(Point(5.0, -5.0), p), Segment(p, Point(5.0, 5.0)), Segment(Origin, p), Segment(p, Point(10.0, 0.0))];
    assert pieces[0].GetDirection() == Right && pieces[1].GetDirection() == Left;
    assert pieces[2].GetDirection() == Left && pieces[3].GetDirection() == Right;
    forall i, j | 0 <= i < 4 && 0 <= j < 4 && i != j
      ensures !SegEq(pieces[i], pieces[j])
    {
    }
    AppendNewOneByOne(pieces, 0);
    assert pieces[..0] == [] && pieces[0..] == pieces && pieces[..4] == pieces;
  }

  /** Appending pairwise unequal pieces one at a time keeps them all. */
  lemma {:induction false} AppendNewOneByOne(pieces: seq<Segment>, n: nat)
    requires n <= |pieces|
    requires forall i, j :: 0 <= i < |pieces| && 0 <= j < |pieces| && i != j ==> !SegEq(pieces[i], pieces[j])
    ensures AppendNew(pieces[..n], pieces[n..], SegEq) == pieces
    decreases |pieces| - n
  {
    if n == |pieces| {
      assert pieces[..n] == pieces;
    } else {
      assert !Contains(pieces[..n], pieces[n], SegEq);
      assert pieces[..n] + [pieces[n]] == pieces[..n + 1];
      assert pieces[n..][1..] == pieces[n + 1..];
      AppendNewOneByOne(pieces, n + 1);
    }
  }

  // ---------------------------------------------------------------------------
  // Merge

  /** The segments of the entries whose flag in `marked` is set, in scan order. */
  function Picked(es: seq<Entry>, marked: seq<bool>): (r: seq<Segment>)
    requires |marked| == |es|
    ensures |r| <= |es|
    decreases |es|
  {
    if es == [] then []
    else
      var n := |es| - 1;
      Picked(es[..n], marked[..n]) + (if marked[n] then [es[n].seg] else [])
  }

  /** Each picked segment is that of a marked entry. */
  lemma {:induction false} PickedFrom(es: seq<Entry>, marked: seq<bool>, k: nat)
    requires |marked| == |es| && k < |Picked(es, marked)|
    ensures exists i :: 0 <= i < |es| && marked[i] && es[i].seg == Picked(es, marked)[k]
    decreases |es|
  {
    var n := |es| - 1;
    var front := Picked(es[..n], marked[..n]);
    assert Picked(es, marked) == front + (if marked[n] then [es[n].seg] else []);
    if k < |front| {
      PickedFrom(es[..n], marked[..n], k);
      var i :| 0 <= i < n && marked[..n][i] && es[..n][i].seg == front[k];
      assert marked[i] && es[i].seg == Picked(es, marked)[k];
    } else {
      assert marked[n] && es[n].seg == Picked(es, marked)[k];
    }
  }

  /** Picking over one more entry. */
  lemma PickedSnoc(es: seq<Entry>, marked: seq<bool>, e: Entry, b: bool)
    requires |marked| == |es|
    ensures Picked(es + [e], marked + [b]) == Picked(es, marked) + (if b then [e.seg] else [])
  {
    assert (es + [e])[..|es|] == es && (marked + [b])[..|es|] == marked;
  }

  /** What holds of the merge scan after any prefix of the lines. */
  ghost predicate MergeInv(es: seq<Entry>, newSkip: bool, nl: Segment, registry: seq<Point>, canMerge: MergeGuard, st: MergeState) {
    PairsInv(es, nl, st) && MarksInv(es, newSkip, nl, registry, canMerge, st)
  }

  /** The removals come in pairs (merged line, new line), one pair per merge result, in scan order. */
  ghost predicate PairsInv(es: seq<Entry>, nl: Segment, st: MergeState) {
    && |st.marked| == |es|
    && |st.toRemove| == 2 * |st.created|
    && |Picked(es, st.marked)| == |st.created|
    && (forall k :: 0 <= k < |st.created| ==>
          && st.toRemove[2 * k] == Picked(es, st.marked)[k]
          && st.toRemove[2 * k + 1] == nl
          && nl.Merge(st.toRemove[2 * k]) == Some(st.created[k]))
  }

  /** Only eligible lines are marked, and the new line's flag records whether any was. */
  ghost predicate MarksInv(es: seq<Entry>, newSkip: bool, nl: Segment, registry: seq<Point>, canMerge: MergeGuard, st: MergeState) {
    && |st.marked| == |es|
    && (forall i :: 0 <= i < |es| && st.marked[i] ==>
          && (es[i].isNew || !es[i].skip)
          && canMerge(nl, es[i].seg, registry)
          && nl.Merge(es[i].seg).Some?)
    && (forall i :: 0 <= i < |es| && st.marked[i] && es[i].isNew ==>
          !newSkip && forall j :: 0 <= j < i ==> !st.marked[j])
    && st.newSkip == (newSkip || true in st.marked)
  }

  /** One step of the merge scan keeps MergeInv. */
  lemma MergeStepInv(es: seq<Entry>, newSkip: bool, nl: Segment, registry: seq<Point>, canMerge: MergeGuard)
    requires es != []
    requires MergeInv(es[..|es| - 1], newSkip, nl, registry, canMerge, MergeScanAll(es[..|es| - 1], newSkip, nl, registry, canMerge))
    ensures MergeInv(es, newSkip, nl, registry, canMerge, MergeScanAll(es, newSkip, nl, registry, canMerge))
  {
    var n := |es| - 1;
    var front, e := es[..n], es[n];
    var st := MergeScanAll(front, newSkip, nl, registry, canMerge);
    assert front + [e] == es;
    assert MergeScanAll(es, newSkip, nl, registry, canMerge) == MergeStep(nl, registry, canMerge, st, e);
    if !(if e.isNew then st.newSkip else e.skip) && canMerge(nl, e.seg, registry) && nl.Merge(e.seg).Some? {
      var m := nl.Merge(e.seg).value;
      MergeStepMerges(nl, registry, canMerge, st, e, m);
      MergeInvMerged(front, e, newSkip, nl, registry, canMerge, st, m);
    } else {
      MergeStepIdle(nl, registry, canMerge, st, e);
      MergeInvIdle(front, e, newSkip, nl, registry, canMerge, st);
    }
  }

  lemma MergeInvMerged(es: seq<Entry>, e: Entry, newSkip: bool, nl: Segment, registry: seq<Point>,
                       canMerge: MergeGuard, st: MergeState, m: Segment)
    requires MergeInv(es, newSkip, nl, registry, canMerge, st)
    requires !(if e.isNew then st.newSkip else e.skip) && canMerge(nl, e.seg, registry) && nl.Merge(e.seg) == Some(m)
    ensures MergeInv(es + [e], newSkip, nl, registry, canMerge,
                     MergeState(true, st.marked + [true], st.toRemove + [e.seg, nl], st.created + [m]))
  {
    PairsMerged(es, e, nl, st, m);
    MarksMerged(es, e, newSkip, nl, registry, canMerge, st, m);
  }

  lemma PairsMerged(es: seq<Entry>, e: Entry, nl: Segment, st: MergeState, m: Segment)
    requires PairsInv(es, nl, st) && nl.Merge(e.seg) == Some(m)
    ensures PairsInv(es + [e], nl, MergeState(true, st.marked + [true], st.toRemove + [e.seg, nl], st.created + [m]))
  {
    var r := MergeState(true, st.marked + [true], st.toRemove + [e.seg, nl], st.created + [m]);
    PickedSnoc(es, st.marked, e, true);
    var before := Picked(es, st.marked);
    var picked := Picked(es + [e], r.marked);
    assert picked == before + [e.seg];
    forall k | 0 <= k < |r.created|
      ensures && r.toRemove[2 * k] == picked[k]
              && r.toRemove[2 * k + 1] == nl
              && nl.Merge(r.toRemove[2 * k]) == Some(r.created[k])
    {
      if k < |st.created| {
        assert r.toRemove[2 * k] == st.toRemove[2 * k] && r.toRemove[2 * k + 1] == st.toRemove[2 * k + 1];
        assert r.created[k] == st.created[k] && picked[k] == before[k];
      } else {
        assert k == |st.created| && r.created[k] == m && picked[k] == e.seg;
        assert r.toRemove[2 * k] == e.seg && r.toRemove[2 * k + 1] == nl;
      }
    }
  }

  lemma MarksMerged(es: seq<Entry>, e: Entry, newSkip: bool, nl: Segment, registry: seq<Point>,
                    canMerge: MergeGuard, st: MergeState, m: Segment)
    requires MarksInv(es, newSkip, nl, registry, canMerge, st)
    requires !(if e.isNew then st.newSkip else e.skip) && canMerge(nl, e.seg, registry) && nl.Merge(e.seg) == Some(m)
    ensures MarksInv(es + [e], newSkip, nl, registry, canMerge,
                     MergeState(true, st.marked + [true], st.toRemove + [e.seg, nl], st.created + [m]))
  {
    var all := es + [e];
    var marked := st.marked + [true];
    var n := |es|;
    assert forall i :: 0 <= i < n ==> all[i] == es[i] && marked[i] == st.marked[i];
    assert all[n] == e && marked[n];
    assert true in marked;
  }

  lemma MergeInvIdle(es: seq<Entry>, e: Entry, newSkip: bool, nl: Segment, registry: seq<Point>,
                     canMerge: MergeGuard, st: MergeState)
    requires MergeInv(es, newSkip, nl, registry, canMerge, st)
    ensures MergeInv(es + [e], newSkip, nl, registry, canMerge, st.(marked := st.marked + [false]))
  {
    var all := es + [e];
    var r := st.(marked := st.marked + [false]);
    var n := |es|;
    assert forall i :: 0 <= i < n ==> all[i] == es[i] && r.marked[i] == st.marked[i];
    assert true in r.marked <==> true in st.marked by {
      assert r.marked == st.marked + [false];
    }
    PickedSnoc(es, st.marked, e, false);
  }

  lemma {:induction false} MergeScanInvariant(es: seq<Entry>, newSkip: bool, nl: Segment, registry: seq<Point>, canMerge: MergeGuard)
    ensures MergeInv(es, newSkip, nl, registry, canMerge, MergeScanAll(es, newSkip, nl, registry, canMerge))
    decreases |es|
  {
    if es != [] {
      MergeScanInvariant(es[..|es| - 1], newSkip, nl, registry, canMerge);
      MergeStepInv(es, newSkip, nl, registry, canMerge);
    }
  }

  /**
    Merge considers a line only when its Skip flag is clear and CanMergeWith allows it,
    and marks it only when the two segments merge; the new line itself is considered
    only while no earlier merge of the same scan has set its flag.
  */
  lemma MergeOnlyEligible(es: seq<Entry>, newSkip: bool, nl: Segment, registry: seq<Point>, canMerge: MergeGuard)
    ensures var st := MergeScanAll(es, newSkip, nl, registry, canMerge);
            && (forall i :: 0 <= i < |es| && st.marked[i] ==>
                  (es[i].isNew || !es[i].skip) && canMerge(nl, es[i].seg, registry) && nl.Merge(es[i].seg).Some?)
            && (forall i :: 0 <= i < |es| && st.marked[i] && es[i].isNew ==>
                  !newSkip && forall j :: 0 <= j < i ==> !st.marked[j])
  {
    MergeScanInvariant(es, newSkip, nl, registry, canMerge);
  }

  /**
    Each merge removes the merged line and the new line, in that order, and appends
    the merge result: results follow the scan order of the lines they came from.
  */
  lemma MergePairs(es: seq<Entry>, newSkip: bool, nl: Segment, registry: seq<Point>, canMerge: MergeGuard)
    ensures var st := MergeScanAll(es, newSkip, nl, registry, canMerge);
            var merged := Picked(es, st.marked);
            && |st.toRemove| == 2 * |st.created| && |merged| == |st.created|
            && forall k :: 0 <= k < |st.created| ==>
                 st.toRemove[2 * k] == merged[k] && st.toRemove[2 * k + 1] == nl && nl.Merge(merged[k]) == Some(st.created[k])
  {
    MergeScanInvariant(es, newSkip, nl, registry, canMerge);
  }

  /**
    The surviving lines keep their order and the merge results follow them; every
    merged line and the new line (once any merge happened) end up with Skip set,
    and no other flag changes.
  */
  lemma MergeShape(es: seq<Entry>, newSkip: bool, nl: Segment, registry: seq<Point>, canMerge: MergeGuard)
    requires |es| > 1
    ensures var st := MergeScanAll(es, newSkip, nl, registry, canMerge);
            var out := MergeLines(es, newSkip, nl, registry, canMerge);
            var kept := RemoveEach(EntrySegs(es), st.toRemove);
            && IsSubseq(kept, EntrySegs(es)) && out.lines[..|kept|] == kept && out.lines[|kept|..] == st.created
            && (forall i :: 0 <= i < |es| && !es[i].isNew ==> out.skips[i] == (es[i].skip || st.marked[i]))
            && out.newSkip == (newSkip || true in st.marked)
  {
    var st := MergeScanAll(es, newSkip, nl, registry, canMerge);
    MergeScanInvariant(es, newSkip, nl, registry, canMerge);
    RemoveEachSubseq(EntrySegs(es), st.toRemove);
  }

  /** Every marked entry's segment is among the picked ones. */
  lemma {:induction false} PickedHas(es: seq<Entry>, marked: seq<bool>, i: nat)
    requires |marked| == |es| && i < |es| && marked[i]
    ensures es[i].seg in Picked(es, marked)
    decreases |es|
  {
    var n := |es| - 1;
    assert Picked(es, marked) == Picked(es[..n], marked[..n]) + (if marked[n] then [es[n].seg] else []);
    if i < n {
      assert es[..n][i] == es[i] && marked[..n][i];
      PickedHas(es[..n], marked[..n], i);
    }
  }

  /**
    When no two input lines are Equals, no line Merge keeps (the front of its result)
    is Equals to a line that was merged, nor to the new line once anything merged.
  */
  lemma MergeRemoves(es: seq<Entry>, newSkip: bool, nl: Segment, registry: seq<Point>, canMerge: MergeGuard)
    requires |es| > 1 && NoEqDup(EntrySegs(es), SegEq)
    ensures var st := MergeScanAll(es, newSkip, nl, registry, canMerge);
            var r := MergeLines(es, newSkip, nl, registry, canMerge).lines;
            var n := |r| - |st.created|;
            && 0 <= n
            && (forall j, i :: 0 <= j < n && 0 <= i < |es| && st.marked[i] ==> !r[j].Equals(es[i].seg))
            && (true in st.marked ==> forall j :: 0 <= j < n ==> !r[j].Equals(nl))
  {
    var st := MergeScanAll(es, newSkip, nl, registry, canMerge);
    var r := MergeLines(es, newSkip, nl, registry, canMerge).lines;
    var kept := RemoveEach(EntrySegs(es), st.toRemove);
    MergeShape(es, newSkip, nl, registry, canMerge);
    MergeScanInvariant(es, newSkip, nl, registry, canMerge);
    PairsRemoveMarked(es, nl, st);
    RemoveEachRemoves(EntrySegs(es), st.toRemove);
    assert |r| - |st.created| == |kept|;
    forall j | 0 <= j < |kept|
      ensures r[j] in kept
    {
      assert r[j] == r[..|kept|][j];
    }
  }

  /** Every marked line, and the new line once any was, is among the removals. */
  lemma PairsRemoveMarked(es: seq<Entry>, nl: Segment, st: MergeState)
    requires PairsInv(es, nl, st)
    ensures forall i :: 0 <= i < |es| && st.marked[i] ==> es[i].seg in st.toRemove
    ensures true in st.marked ==> nl in st.toRemove
  {
    forall i | 0 <= i < |es| && st.marked[i]
      ensures es[i].seg in st.toRemove
    {
      PickedHas(es, st.marked, i);
      var h :| 0 <= h < |Picked(es, st.marked)| && Picked(es, st.marked)[h] == es[i].seg;
      assert st.toRemove[2 * h] == es[i].seg;
    }
    if true in st.marked {
      var i :| 0 <= i < |es| && st.marked[i];
      PickedHas(es, st.marked, i);
      assert 0 < |st.created|;
      assert st.toRemove[2 * 0 + 1] == nl;
    }
  }

  lemma {:induction false} MergeScanNoRelation(es: seq<Entry>, newSkip: bool, nl: Segment, registry: seq<Point>, canMerge: MergeGuard)
    requires forall i :: 0 <= i < |es| ==> nl.Merge(es[i].seg).None?
    ensures var st := MergeScanAll(es, newSkip, nl, registry, canMerge);
            st.newSkip == newSkip && st.toRemove == [] && st.created == [] && forall i :: 0 <= i < |es| ==> !st.marked[i]
    decreases |es|
  {
    if es != [] {
      var n := |es| - 1;
      MergeScanNoRelation(es[..n], newSkip, nl, registry, canMerge);
      var st := MergeScanAll(es[..n], newSkip, nl, registry, canMerge);
      assert MergeScanAll(es, newSkip, nl, registry, canMerge) == MergeStep(nl, registry, canMerge, st, es[n]);
    }
  }

  /** When the new line merges with none of the lines, Merge changes nothing. */
  lemma MergeNoRelation(es: seq<Entry>, newSkip: bool, nl: Segment, registry: seq<Point>, canMerge: MergeGuard)
    requires forall i :: 0 <= i < |es| ==> nl.Merge(es[i].seg).None?
    ensures MergeLines(es, newSkip, nl, registry, canMerge)
            == MergeOutcome(EntrySegs(es), seq(|es|, i requires 0 <= i < |es| => if es[i].isNew then newSkip else es[i].skip), newSkip)
  {
    MergeScanNoRelation(es, newSkip, nl, registry, canMerge);
  }

  /**
    Nothing else changes: a line equal neither to the new line nor to any line the
    new line merges with is still in the result.
  */
  lemma MergeKeepsUnrelated(es: seq<Entry>, newSkip: bool, nl: Segment, registry: seq<Point>, canMerge: MergeGuard, x: Segment)
    requires x in EntrySegs(es) && !x.Equals(nl)
    requires forall i :: (0 <= i < |es| && (es[i].isNew || !es[i].skip) && canMerge(nl, es[i].seg, registry) &&
                          nl.Merge(es[i].seg).Some?) ==> !x.Equals(es[i].seg)
    ensures x in MergeLines(es, newSkip, nl, registry, canMerge).lines
  {
    if |es| > 1 {
      var st := MergeScanAll(es, newSkip, nl, registry, canMerge);
      MergeScanInvariant(es, newSkip, nl, registry, canMerge);
      var merged := Picked(es, st.marked);
      forall k | 0 <= k < |st.toRemove|
        ensures !x.Equals(st.toRemove[k])
      {
        var h := k / 2;
        assert k == 2 * h || k == 2 * h + 1;
        if k == 2 * h {
          PickedFrom(es, st.marked, h);
          var i :| 0 <= i < |es| && st.marked[i] && es[i].seg == merged[h];
        }
      }
      RemoveEachKeeps(EntrySegs(es), st.toRemove, x);
    }
  }

  lemma MergeStepMerges(nl: Segment, registry: seq<Point>, canMerge: MergeGuard, st: MergeState, e: Entry, m: Segment)
    requires !(if e.isNew then st.newSkip else e.skip) && canMerge(nl, e.seg, registry) && nl.Merge(e.seg) == Some(m)
    ensures MergeStep(nl, registry, canMerge, st, e) == MergeState(true, st.marked + [true], st.toRemove + [e.seg, nl], st.created + [m])
  {
  }

  /**
    Drawing (5,0)-(10,0) after (0,0)-(5,0): the direction tags differ, so the merge
    result is the new line alone; both inputs are removed, so (0,0)-(5,0) disappears
    from the picture instead of being extended to (0,0)-(10,0).
  */
  lemma MergeChainedLines(registry: seq<Point>, canMerge: MergeGuard)
    requires canMerge(Segment(Point(5.0, 0.0), Point(10.0, 0.0)), Segment(Origin, Point(5.0, 0.0)), registry)
    ensures var a := Segment(Origin, Point(5.0, 0.0));
            var nl := Segment(Point(5.0, 0.0), Point(10.0, 0.0));
            MergeLines([Entry(a, false, false), Entry(nl, false, true)], false, nl, registry, canMerge)
            == MergeOutcome([nl], [true, true], true)
  {
    var a := Segment(Origin, Point(5.0, 0.0));
    var nl := Segment(Point(5.0, 0.0), Point(10.0, 0.0));
    ChainedMergeKeepsNewSegment();
    MergeTwoFirst(a, nl, registry, canMerge, nl);
    RemovedBoth(a, nl);
  }

  /**
    Two lines, the new one last, and the first merges with it: both are removed, the
    result is appended, and the new line's flag blocks the comparison with itself.
  */
  lemma MergeTwoFirst(a: Segment, nl: Segment, registry: seq<Point>, canMerge: MergeGuard, m: Segment)
    requires canMerge(nl, a, registry) && nl.Merge(a) == Some(m)
    ensures MergeLines([Entry(a, false, false), Entry(nl, false, true)], false, nl, registry, canMerge)
            == MergeOutcome(RemoveEach([a, nl], [a, nl]) + [m], [true, true], true)
  {
    var es := [Entry(a, false, false), Entry(nl, false, true)];
    var st0 := MergeState(false, [], [], []);
    MergeStepMerges(nl, registry, canMerge, st0, es[0], m);
    var st1 := MergeState(true, [true], [a, nl], [m]);
    MergeStepIdle(nl, registry, canMerge, st1, es[1]);
    var st2 := MergeState(true, [true, false], [a, nl], [m]);
    MergeScanSnoc(nl, registry, canMerge, st0, es, 0);
    MergeScanSnoc(nl, registry, canMerge, st0, es, 1);
    assert es[..0] == [] && es[..2] == es;
    assert MergeScanAll(es, false, nl, registry, canMerge) == st2;
    MergeLinesOf(es, false, nl, registry, canMerge, st2);
    assert EntrySegs(es) == [a, nl];
    var out := MergeLines(es, false, nl, registry, canMerge);
    assert out.skips == [true, true];
  }

  /**
    Combine with a new line that neither merges with nor crosses any other line, the
    new line being the last one: the lines and the registry are as they were.
  */
  lemma CombineUnrelated(es: seq<Entry>, newSkip: bool, nl: Segment, registry: seq<Point>, canMerge: MergeGuard)
    requires |es| >= 1 && es[|es| - 1] == Entry(nl, newSkip, true)
    requires forall i :: 0 <= i < |es| - 1 ==> nl.Merge(es[i].seg).None? && nl.Intersects(es[i].seg).None?
    ensures CombineLines(es, newSkip, nl, registry, canMerge) == Outcome(EntrySegs(es), registry)
  {
    var n := |es| - 1;
    var segs := EntrySegs(es);
    MergeUnrelated(es, newSkip, nl, registry, canMerge);
    ParallelNeverIntersects(nl, nl);
    SplitNoCrossing(segs, nl, registry);
  }

  lemma MergeUnrelated(es: seq<Entry>, newSkip: bool, nl: Segment, registry: seq<Point>, canMerge: MergeGuard)
    requires |es| >= 1 && es[|es| - 1] == Entry(nl, newSkip, true)
    requires forall i :: 0 <= i < |es| - 1 ==> nl.Merge(es[i].seg).None?
    ensures MergeLines(es, newSkip, nl, registry, canMerge).lines == EntrySegs(es)
  {
    if |es| > 1 {
      var n := |es| - 1;
      var front := es[..n];
      var e := es[n];
      MergeFrontIdle(es, newSkip, nl, registry, canMerge);
      var st := MergeScanAll(front, newSkip, nl, registry, canMerge);
      var last := MergeStep(nl, registry, canMerge, st, e);
      MergeLinesOf(es, newSkip, nl, registry, canMerge, last);
      if !newSkip && canMerge(nl, nl, registry) && nl.Merge(nl).Some? {
        MergeResult(nl, nl);
        MergeWithItself(nl);
        MergeStepMerges(nl, registry, canMerge, st, e, nl);
        assert last.toRemove == [nl, nl] && last.created == [nl];
        forall i | 0 <= i < n
          ensures !EntrySegs(front)[i].Equals(nl)
        {
          assert front[i] == es[i];
          NotEqualWhenNoMerge(nl, front[i].seg);
        }
        RemoveSelfTwice(EntrySegs(front), nl);
      } else {
        MergeStepIdle(nl, registry, canMerge, st, e);
        assert last.toRemove == [] && last.created == [];
      }
    }
  }

  lemma MergeLinesOf(es: seq<Entry>, newSkip: bool, nl: Segment, registry: seq<Point>, canMerge: MergeGuard, st: MergeState)
    requires |es| > 1 && MergeScanAll(es, newSkip, nl, registry, canMerge) == st
    ensures var out := MergeLines(es, newSkip, nl, registry, canMerge);
            out.lines == RemoveEach(EntrySegs(es), st.toRemove) + st.created && out.newSkip == st.newSkip &&
            forall i :: 0 <= i < |es| && !es[i].isNew ==> out.skips[i] == (es[i].skip || st.marked[i])
  {
  }

  /** The scan of Split over a prefix one line longer is one more step. */
  lemma ScanSnoc(nl: Segment, st: ScanState, others: seq<Segment>, i: nat)
    requires i < |others|
    ensures Scan(nl, st, others[..i + 1]) == ScanStep(nl, Scan(nl, st, others[..i]), others[i])
  {
    assert others[..i + 1][..i] == others[..i];
  }

  /** The scan of a prefix one entry longer is one more step. */
  lemma MergeScanSnoc(nl: Segment, registry: seq<Point>, canMerge: MergeGuard, st: MergeState, es: seq<Entry>, i: nat)
    requires i < |es|
    ensures MergeScan(nl, registry, canMerge, st, es[..i + 1])
            == MergeStep(nl, registry, canMerge, MergeScan(nl, registry, canMerge, st, es[..i]), es[i])
  {
    assert es[..i + 1][..i] == es[..i];
  }

  lemma MergeFrontIdle(es: seq<Entry>, newSkip: bool, nl: Segment, registry: seq<Point>, canMerge: MergeGuard)
    requires |es| > 1
    requires forall i :: 0 <= i < |es| - 1 ==> nl.Merge(es[i].seg).None?
    ensures var n := |es| - 1;
            var st := MergeScanAll(es[..n], newSkip, nl, registry, canMerge);
            && st.newSkip == newSkip && st.toRemove == [] && st.created == []
            && MergeScanAll(es, newSkip, nl, registry, canMerge) == MergeStep(nl, registry, canMerge, st, es[n])
            && EntrySegs(es) == EntrySegs(es[..n]) + [es[n].seg]
  {
    var n := |es| - 1;
    var front := es[..n];
    assert forall i :: 0 <= i < n ==> front[i] == es[i];
    MergeScanNoRelation(front, newSkip, nl, registry, canMerge);
  }

  lemma MergeStepIdle(nl: Segment, registry: seq<Point>, canMerge: MergeGuard, st: MergeState, e: Entry)
    requires (if e.isNew then st.newSkip else e.skip) || !canMerge(nl, e.seg, registry) || nl.Merge(e.seg).None?
    ensures MergeStep(nl, registry, canMerge, st, e) == st.(marked := st.marked + [false])
  {
  }

  /** Removing the last line twice, when no earlier line equals it, leaves the earlier lines. */
  lemma RemoveSelfTwice(front: seq<Segment>, nl: Segment)
    requires forall i :: 0 <= i < |front| ==> !front[i].Equals(nl)
    ensures RemoveEach(front + [nl], [nl, nl]) == front
  {
    var m := (l: Segment) => l.Equals(nl);
    EqualsReflexive(nl);
    RemoveFirstNone(front, m);
    RemoveFirstLast(front, nl, m);
    assert [nl][..0] == [];
    assert RemoveEach(front + [nl], [nl]) == front;
    assert [nl, nl][..1] == [nl];
  }

  /** A line equal to a non-degenerate new line always merges with it. */
  lemma NotEqualWhenNoMerge(nl: Segment, o: Segment)
    requires nl.start != nl.end && nl.Merge(o).None?
    ensures !o.Equals(nl)
  {
    EqualsIff(o, nl);
    if o == nl {
      MergeWithItself(nl);
    } else if nl == o.Reversed() && o.GetDirection() != nl.GetDirection() {
      MergeEndMeetsStart(nl, o);
    }
  }
}
