/**
  What LineHandler computes, on segment values: the split pass (crossings,
  intersection registry, removals, pairing of consecutive crossings, duplicate-free
  append) and the merge pass (scan with Skip flags, removals, appended results).
  The methods of the LineHandler class are proved to produce exactly these values.
*/
module HandlerSpec {
  import opened Wrappers
  import opened Seqs
  import opened Geometry

  /** CustomLine.Equals on the segments, as a value for List.Remove and List.Contains. */
  function SegEq(a: Segment, b: Segment): bool {
    a.Equals(b)
  }

  // ---------------------------------------------------------------------------
  // The intersection registry

  /** SaveIntersection: append `p` unless it is already recorded. */
  function Saved(registry: seq<Point>, p: Point): (r: seq<Point>)
    ensures |registry| <= |r| <= |registry| + 1 && r[..|registry|] == registry
    ensures p in r
    ensures forall i :: 0 <= i < |r| ==> r[i] in registry || r[i] == p
    ensures NoDup(registry) ==> NoDup(r)
  {
    if p in registry then registry else registry + [p]
  }

  // ---------------------------------------------------------------------------
  // Split: the scan over the lines

  /** linesCreated, linesToRemove, the registry and lastIntersections during the scan. */
  datatype ScanState = ScanState(created: seq<Segment>, toRemove: seq<Segment>, registry: seq<Point>, found: seq<Point>)

  /** One iteration of the scan of Split against `other`. */
  function ScanStep(nl: Segment, st: ScanState, other: Segment): ScanState {
    match nl.Intersects(other)
    case None => st
    case Some(p) =>
      var created := st.created + nl.SplitAt(other, p);
      // the emptiness test is on everything created so far, not on this split
      if |created| <= 0 then st.(created := created)
      else
        ScanState(created, st.toRemove + [other, nl], Saved(st.registry, p),
                  if p in st.found then st.found else st.found + [p])
  }

  /** The scan over `others`, in order. */
  function Scan(nl: Segment, st: ScanState, others: seq<Segment>): ScanState
    decreases |others|
  {
    if others == [] then st
    else ScanStep(nl, Scan(nl, st, others[..|others| - 1]), others[|others| - 1])
  }

  /** `q` is where `nl` crosses one of `others`. */
  ghost predicate Crossing(nl: Segment, others: seq<Segment>, q: Point) {
    exists j :: 0 <= j < |others| && nl.Intersects(others[j]) == Some(q)
  }

  /** Every line whose segment is `eq` to an element of `toRemove`, one removal per element, in order. */
  function RemoveEach(ls: seq<Segment>, toRemove: seq<Segment>): (r: seq<Segment>)
    ensures |ls| - |toRemove| <= |r| <= |ls|
    decreases |toRemove|
  {
    if toRemove == [] then ls
    else
      var x := toRemove[|toRemove| - 1];
      RemoveFirst(RemoveEach(ls, toRemove[..|toRemove| - 1]), (l: Segment) => l.Equals(x))
  }

  // ---------------------------------------------------------------------------
  // Split: ordering the crossings (OrderBy x, then z)

  predicate AtMostXZ(a: Point, b: Point) {
    a.x < b.x || (a.x == b.x && a.z <= b.z)
  }

  predicate SortedXZ(s: seq<Point>) {
    forall i, j :: 0 <= i < j < |s| ==> AtMostXZ(s[i], s[j])
  }

  /** Inserts `p` before the first element it is at most. */
  function InsertXZ(p: Point, s: seq<Point>): (r: seq<Point>)
    ensures multiset(r) == multiset(s) + multiset{p}
    decreases |s|
  {
    if s == [] then [p]
    else if AtMostXZ(p, s[0]) then [p] + s
    else
      assert s == [s[0]] + s[1..];
      [s[0]] + InsertXZ(p, s[1..])
  }

  /** Insertion keeps a sorted sequence sorted. */
  lemma {:induction false} InsertSorted(p: Point, s: seq<Point>)
    requires SortedXZ(s)
    ensures SortedXZ(InsertXZ(p, s))
    decreases |s|
  {
    if s != [] && !AtMostXZ(p, s[0]) {
      var t := InsertXZ(p, s[1..]);
      InsertSorted(p, s[1..]);
      forall i | 0 <= i < |t|
        ensures AtMostXZ(s[0], t[i])
      {
        assert t[i] in multiset(t);
        if t[i] != p {
          assert t[i] in multiset(s[1..]);
        }
      }
    }
  }

  /** lastIntersections ordered by x and then by z. */
  function SortXZ(s: seq<Point>): (r: seq<Point>)
    ensures SortedXZ(r) && multiset(r) == multiset(s)
    decreases |s|
  {
    if s == [] then []
    else
      var t := SortXZ(s[1..]);
      InsertSorted(s[0], t);
      assert s == [s[0]] + s[1..];
      InsertXZ(s[0], t)
  }

  // ---------------------------------------------------------------------------
  // Split: the pairing of consecutive crossings

  /** The condition of the RemoveAll in the pairing loop, negated: the line does not go through both points. */
  function Avoids(last: Point, before: Point): Segment -> bool {
    (l: Segment) => !l.ContainsPoints([last, before])
  }

  /**
    One iteration of the pairing loop for the pair (before, last): the created lines
    going through both points are dropped and the connecting line is appended, so
    afterwards it is the only one left through both.
  */
  function ConnectStep(created: seq<Segment>, before: Point, last: Point): (r: seq<Segment>)
    ensures 1 <= |r| <= |created| + 1 && r[|r| - 1] == Segment(before, last)
    ensures forall k :: 0 <= k < |r| - 1 ==> r[k] in created && !r[k].ContainsPoints([last, before])
    ensures forall k :: 0 <= k < |created| && !created[k].ContainsPoints([last, before]) ==> created[k] in r
  {
    Filter(created, Avoids(last, before)) + [Segment(before, last)]
  }

  /**
    The pairing loop, from the last pair of `pts[..n]` down to the first; the pairs are
    (pts[n - 2], pts[n - 1]), and only those the new line goes through are connected.
  */
  function Connect(created: seq<Segment>, pts: seq<Point>, nl: Segment, n: nat): seq<Segment>
    requires n <= |pts|
    decreases n
  {
    if n <= 1 then created
    else
      var last, before := pts[n - 1], pts[n - 2];
      if !nl.ContainsPoints([last, before]) then Connect(created, pts, nl, n - 1)
      else Connect(ConnectStep(created, before, last), pts, nl, n - 1)
  }

  // ---------------------------------------------------------------------------
  // Split

  datatype Outcome = Outcome(lines: seq<Segment>, registry: seq<Point>)

  function SplitScan(lines: seq<Segment>, nl: Segment, registry: seq<Point>): ScanState {
    Scan(nl, ScanState([], [], registry, []), lines)
  }

  /** The crossings of this call, sorted when there are at least two. */
  function SplitPoints(st: ScanState): seq<Point> {
    if |st.found| > 1 then SortXZ(st.found) else st.found
  }

  /** The lines of the input that survive the removals. */
  function SplitKept(lines: seq<Segment>, nl: Segment, registry: seq<Point>): seq<Segment> {
    RemoveEach(lines, SplitScan(lines, nl, registry).toRemove)
  }

  /** The created lines after the pairing loop. */
  function SplitCreated(lines: seq<Segment>, nl: Segment, registry: seq<Point>): seq<Segment> {
    var st := SplitScan(lines, nl, registry);
    var pts := SplitPoints(st);
    Connect(st.created, pts, nl, |pts|)
  }

  /** LineHandler.Split on segment values: the resulting lines and the new registry. */
  function SplitLines(lines: seq<Segment>, nl: Segment, registry: seq<Point>): Outcome {
    if |lines| <= 1 then Outcome(lines, registry)
    else
      Outcome(AppendNew(SplitKept(lines, nl, registry), SplitCreated(lines, nl, registry), SegEq),
              SplitScan(lines, nl, registry).registry)
  }

  // ---------------------------------------------------------------------------
  // Merge

  /** A line of the input as Merge sees it: its segment, its Skip flag, and whether it is the new line itself. */
  datatype Entry = Entry(seg: Segment, skip: bool, isNew: bool)

  /**
    newLine's Skip flag, which input lines were marked (one flag per line scanned so far),
    linesToRemove and linesCreated.
  */
  datatype MergeState = MergeState(newSkip: bool, marked: seq<bool>, toRemove: seq<Segment>, created: seq<Segment>)

  /** CanMergeWith(newLine, otherLine, registry), which this model leaves abstract. */
  type MergeGuard = (Segment, Segment, seq<Point>) -> bool

  function EntrySegs(es: seq<Entry>): (r: seq<Segment>)
    ensures |r| == |es| && forall i :: 0 <= i < |es| ==> r[i] == es[i].seg
  {
    seq(|es|, i requires 0 <= i < |es| => es[i].seg)
  }

  /**
    One iteration of the scan of Merge. The new line's flag is read as it is now:
    an earlier merge in the same scan has already set it.
  */
  function MergeStep(nl: Segment, registry: seq<Point>, canMerge: MergeGuard, st: MergeState, e: Entry): MergeState {
    var otherSkip := if e.isNew then st.newSkip else e.skip;
    if otherSkip || !canMerge(nl, e.seg, registry) then st.(marked := st.marked + [false])
    else
      match nl.Merge(e.seg)
      case None => st.(marked := st.marked + [false])
      case Some(m) => MergeState(true, st.marked + [true], st.toRemove + [e.seg, nl], st.created + [m])
  }

  function MergeScan(nl: Segment, registry: seq<Point>, canMerge: MergeGuard, st: MergeState, es: seq<Entry>): (r: MergeState)
    ensures |r.marked| == |st.marked| + |es|
    decreases |es|
  {
    if es == [] then st
    else MergeStep(nl, registry, canMerge, MergeScan(nl, registry, canMerge, st, es[..|es| - 1]), es[|es| - 1])
  }

  function MergeScanAll(es: seq<Entry>, newSkip: bool, nl: Segment, registry: seq<Point>, canMerge: MergeGuard): MergeState {
    MergeScan(nl, registry, canMerge, MergeState(newSkip, [], [], []), es)
  }

  /** The resulting lines, every input line's Skip flag afterwards, and the new line's. */
  datatype MergeOutcome = MergeOutcome(lines: seq<Segment>, skips: seq<bool>, newSkip: bool)

  /** LineHandler.Merge on segment values. */
  function MergeLines(es: seq<Entry>, newSkip: bool, nl: Segment, registry: seq<Point>, canMerge: MergeGuard): MergeOutcome {
    if |es| <= 1 then MergeOutcome(EntrySegs(es), seq(|es|, i requires 0 <= i < |es| => if es[i].isNew then newSkip else es[i].skip), newSkip)
    else
      var st := MergeScanAll(es, newSkip, nl, registry, canMerge);
      MergeOutcome(RemoveEach(EntrySegs(es), st.toRemove) + st.created,
                   seq(|es|, i requires 0 <= i < |es| => if es[i].isNew then st.newSkip else es[i].skip || st.marked[i]),
                   st.newSkip)
  }

  /** Combine: Merge, then Split of what Merge returned. */
  function CombineLines(es: seq<Entry>, newSkip: bool, nl: Segment, registry: seq<Point>, canMerge: MergeGuard): Outcome {
    SplitLines(MergeLines(es, newSkip, nl, registry, canMerge).lines, nl, registry)
  }
}
