# Segment algebra of the line drawing engine

This project models the engine that keeps a set of line segments on the ground
plane free of redundancy while the user draws new segments. It has two parts.

- **CustomLine** is a segment between two grid points. It has these operations:
  - the crossing point of two segments, from the two-point line equation and
    Cramer's rule;
  - a parallelism test, which checks for a zero determinant;
  - a point-on-segment test, made of a closed bounding box plus a perpendicular
    distance within the floating tolerance;
  - a coarse `Direction` tag;
  - Split at a crossing into at most four pieces;
  - a case-by-case Merge;
  - an equality that depends on the direction tag;
  - one mutable `Skip` flag.
- **LineHandler** owns the registry of crossings. It has these operations:
  - Split cuts the new line and every line it crosses, records the crossings,
    and joins consecutive crossings the new line goes through;
  - Merge fuses the new line with every eligible line;
  - Combine runs Merge and then Split.

Coordinates are exact reals. Euclidean lengths and distances are compared
through their squares, so no square root appears.

The project has these layers:
- Values:
  - `Geometry` holds the segment value and every pure operation of CustomLine.
  - `HandlerSpec` states what the handler's passes compute, on segment values.
- Objects:
  - `CustomLines` is the `CustomLine` class: an immutable segment plus the
    `skip` field.
  - `LineHandlers` is the `LineHandler` class. It has the `intersections`
    field, and its loops are written as the source writes them.
  - Each method there is proved to produce exactly the `HandlerSpec` value of
    its input.
- Properties:
  - `SegmentProperties` and `HandlerProperties` prove what those values promise.
- Helpers:
  - `Seqs` holds list helpers: `Map`, `Filter`, `List.Remove`,
    `AddRange(Where(!Contains))`, and subsequences.
  - `Wrappers` holds `Option`.

Where the intended behaviour and the code disagree, the model follows the code.

- **Chained lines.** The intended behaviour is that a chained line extends the
  earlier one: a new line (5,0)-(10,0), drawn after (0,0)-(5,0), should merge
  with it into one line (0,0)-(10,0). The code keeps only the new line.
  - The direction tag is computed from the absolute start coordinates.
  - So (5,0)-(10,0) is tagged Right and (0,0)-(5,0) is tagged Left.
  - The new line starts where the other ends (CustomLine.cs:201-205). With
    different tags that case builds (5,0)-(10,0), the new line itself.
  - Merge then removes both inputs and appends that result.
  - So (0,0)-(5,0) disappears instead of being extended.
  - `HandlerProperties.MergeChainedLines` and
    `SegmentProperties.ChainedMergeKeepsNewSegment` prove this.
  - With equal tags the same case does extend the earlier line
    (`SegmentProperties.ChainedMergeExtendsUnderEqualTags`), so the direction tag
    is the only cause of the difference.
- **Equality.** Equality is not the plain comparison of end points.
  - With equal direction tags it compares end points in order.
  - With different tags it compares them crosswise.
  - A reversed segment does not in general get the opposite tag, so it need not
    be equal to the original (`SegmentProperties.ReversedNotAlwaysEqual`).
- **The emptiness test.** Split's `linesCreated.Count <= 0` test is made on the
  list of everything created so far in the call, not on this split's pieces.
  The model keeps it that way (`HandlerSpec.ScanStep`).
- **Mismatched revision.** The handler calls three members that the
  `CustomLine.cs` of this revision does not have:
  - `Intersection` is modelled as `Intersects`. The model answers `None` where
    the code throws `InvalidIntersectionException` and skips the line.
  - `CanMergeWith` is an abstract predicate of the new segment, the other
    segment and the registry: the `canMergeWith` constant of `LineHandler`.
  - `RecentlyMerged` does not exist in this revision of `CustomLine.cs`, so no
    line can carry it. The filter at LineHandler.cs:99-100 therefore removes
    nothing and is modelled as the identity.

## Model

| member | source | states |
|---|---|---|
| Geometry.Segment.Intersects | Assets/Scripts/Lines/Other/CustomLine.cs:40-75 | a crossing point returned satisfies both line equations |
| SegmentProperties.IntersectsIff | Assets/Scripts/Lines/Other/CustomLine.cs:49-75 | Intersects gives `p` exactly when the determinant is non-zero, `p` is on both lines and both segments contain `p` (both directions) |
| SegmentProperties.CramerUnique | Assets/Scripts/Lines/Other/CustomLine.cs:58-66 | with a non-zero determinant, Cramer's point is the only point on both lines |
| SegmentProperties.IntersectsAtCramer | Assets/Scripts/Lines/Other/CustomLine.cs:64-74 | for non-parallel lines the answer is Cramer's point when both segments contain it, and none otherwise |
| SegmentProperties.IntersectsSymmetric | Assets/Scripts/Lines/Other/CustomLine.cs:49-74 | `a.Intersects(b) == b.Intersects(a)` |
| SegmentProperties.IntersectionAtZeroDistance | Assets/Scripts/Lines/Other/CustomLine.cs:64-71 | a returned crossing is at distance exactly zero from both segments |
| SegmentProperties.ParallelNeverIntersects | Assets/Scripts/Lines/Other/CustomLine.cs:58-62 | a zero determinant gives no crossing; a segment never crosses itself |
| SegmentProperties.ParallelReflexive | Assets/Scripts/Lines/Other/CustomLine.cs:78-91 | every segment is parallel to itself |
| SegmentProperties.ParallelSymmetric | Assets/Scripts/Lines/Other/CustomLine.cs:78-91 | ParallelTo is symmetric |
| SegmentProperties.DeterminantAntisymmetric | Assets/Scripts/Lines/Other/CustomLine.cs:89 | swapping the segments negates the determinant |
| SegmentProperties.OnLineIffCrossZero | Assets/Scripts/Lines/Other/CustomLine.cs:94-97 | the distance numerator is the line equation's residual, zero exactly on the line |
| SegmentProperties.OnLineWithinTolerance | Assets/Scripts/Lines/Other/CustomLine.cs:94-103 | a point on the line of a segment of positive length passes the distance test |
| SegmentProperties.ZeroLengthContainsNothing | Assets/Scripts/Lines/Other/CustomLine.cs:94-103 | a zero-length segment contains no point (0/0 is NaN and fails the comparison) |
| SegmentProperties.ContainsOwnPoints | Assets/Scripts/Lines/Other/CustomLine.cs:100-125 | a segment of positive length contains its start point, its end point and its midpoint |
| SegmentProperties.LengthSqZero | Assets/Scripts/Lines/Other/CustomLine.cs:148-151 | the squared length is never negative, and is zero exactly when the end points coincide |
| Geometry.Segment.SplitAt | Assets/Scripts/Lines/Other/CustomLine.cs:154-176 | at most four pieces; each is longer than the tolerance, has the crossing as an end point and is one of the four candidates; every long enough candidate is kept |
| Geometry.Segment.ParallelTo | Assets/Scripts/Lines/Other/CustomLine.cs:78-91 | definition: the determinant of the two line equations is exactly zero; properties in `ParallelReflexive`, `ParallelSymmetric`, `ParallelNeverIntersects` |
| Geometry.Segment.WithinTolerance | Assets/Scripts/Lines/Other/CustomLine.cs:94-103 | definition: the distance test squared out, false on a zero-length segment; properties in `OnLineWithinTolerance`, `ZeroLengthContainsNothing` |
| Geometry.Segment.IsPointInBounds | Assets/Scripts/Lines/Other/CustomLine.cs:111-117 | definition: the closed bounding box test; properties in `ContainsOwnPoints`, `OnSegmentAtFraction` |
| Geometry.Segment.ContainsPoint | Assets/Scripts/Lines/Other/CustomLine.cs:99-103 | definition: in bounds and within tolerance; properties in `ContainsOwnPoints`, `IntersectsIff` |
| Geometry.Segment.ContainsPoints | Assets/Scripts/Lines/Other/CustomLine.cs:106-109 | definition: every given point passes `ContainsPoint`; properties in `SegmentProperties.ContainsPair`, `SegmentProperties.SplitPiecesInside`, `HandlerSpec.ConnectStep` |
| Geometry.Segment.MiddlePoint | Assets/Scripts/Lines/Other/CustomLine.cs:119-125 | definition: the average of the end points; property in `ContainsOwnPoints` |
| Geometry.Segment.GetDirection | Assets/Scripts/Lines/Other/CustomLine.cs:132-146 | definition: Right when `start.x * dx - start.z * dz` is positive, Left otherwise; properties in `ReversedNotAlwaysEqual`, `ChainedMergeKeepsNewSegment` |
| Geometry.Segment.Equals | Assets/Scripts/Lines/Other/CustomLine.cs:231-239 | definition: end points in order under equal tags, crosswise otherwise; properties in `EqualsIff`, `EqualsReflexive`, `EqualsSymmetric`, `EqualsTransitive` |
| Geometry.Segment.Merge | Assets/Scripts/Lines/Other/CustomLine.cs:179-229 | definition: the value the six `if`s leave, read from the last one to the first; properties in `MergeResult`, `MergeNoneUnlessApplies`, `MergeEndMeetsStart`, `MergeWithItself` |
| SegmentProperties.Fraction | Assets/Scripts/Lines/Other/CustomLine.cs:154-176 | definition: where along a segment a point lies, as the t with p = start + t * (end - start); properties in `OnSegmentAtFraction`, `CutLengths` |
| SegmentProperties.OnSegmentAtFraction | Assets/Scripts/Lines/Other/CustomLine.cs:94-117 | a point on the line of a segment of positive length and inside its bounding box is start + t * (end - start) for a t in [0, 1] |
| SegmentProperties.CutLengths | Assets/Scripts/Lines/Other/CustomLine.cs:154-176 | cut at such a point, the two pieces have squared lengths t² * L² and (1 - t)² * L², so their lengths t * L and (1 - t) * L add up to the length L |
| SegmentProperties.SplitConservesLength | Assets/Scripts/Lines/Other/CustomLine.cs:154-176 | at a crossing, the two candidate pieces of each segment have lengths adding up to that segment's length |
| SegmentProperties.SplitPiecesInside | Assets/Scripts/Lines/Other/CustomLine.cs:154-176 | cut at a point of both segments, each piece is a half of one of them (start to crossing, or crossing to end) and lies on the segment it was cut from |
| CustomLines.CustomLine.Split | Assets/Scripts/Lines/Other/CustomLine.cs:154-176 | the pieces built and filtered in place are exactly `SplitAt`, all new and not skipped |
| SegmentProperties.MergeNoneUnlessApplies | Assets/Scripts/Lines/Other/CustomLine.cs:181-228 | no result unless containment, an end point on the other line or a shared end point holds |
| SegmentProperties.MergeResult | Assets/Scripts/Lines/Other/CustomLine.cs:181-228 | a merge result comes from one of those relations and has positive length |
| SegmentProperties.MergeEndMeetsStart | Assets/Scripts/Lines/Other/CustomLine.cs:222-228 | when `end == other.start` the last `if` decides: the result is the one built at lines 224-225 |
| SegmentProperties.ChainedMergeExtendsUnderEqualTags | Assets/Scripts/Lines/Other/CustomLine.cs:199-204 | when the direction tags agree and the new segment starts where the other ends (and no later case applies), Merge spans from the other's start to the new end: the chained extension, which only the tag prevents in the (0,0)-(5,0), (5,0)-(10,0) example |
| SegmentProperties.MergeWithItself | Assets/Scripts/Lines/Other/CustomLine.cs:215-228 | a segment of positive length merged with itself gives itself |
| SegmentProperties.ChainedMergeKeepsNewSegment | Assets/Scripts/Lines/Other/CustomLine.cs:201-205 | (5,0)-(10,0) merged with (0,0)-(5,0) gives (5,0)-(10,0): the start meets the other's end and the direction tags differ |
| CustomLines.CustomLine.Merge | Assets/Scripts/Lines/Other/CustomLine.cs:179-229 | the six overriding `if`s on a zero-length start value give null exactly when `Segment.Merge` gives none, and otherwise a new, unskipped line with that segment |
| SegmentProperties.EqualsReflexive | Assets/Scripts/Lines/Other/CustomLine.cs:231-239 | Equals is reflexive on segments |
| SegmentProperties.EqualsSymmetric | Assets/Scripts/Lines/Other/CustomLine.cs:231-239 | Equals is symmetric on segments |
| SegmentProperties.EqualsIff | Assets/Scripts/Lines/Other/CustomLine.cs:231-239 | equal means the same segment, or its reversal carrying the other direction tag |
| SegmentProperties.EqualsTransitive | Assets/Scripts/Lines/Other/CustomLine.cs:231-239 | Equals is transitive |
| SegmentProperties.ReversedNotAlwaysEqual | Assets/Scripts/Lines/Other/CustomLine.cs:132-146 | (0,0)-(1,0) and its reversal carry the same tag and are not equal |
| CustomLines.CustomLine.Equals | Assets/Scripts/Lines/Other/CustomLine.cs:231-239 | definition: false for null, otherwise `Segment.Equals` of the two segments; properties in `CustomLines.EqualsReflexive`, `CustomLines.EqualsSymmetric`, `CustomLines.NullNeverEqual`, and through the segments in `SegmentProperties.EqualsIff` and `SegmentProperties.EqualsTransitive` |
| CustomLines.EqualsReflexive | Assets/Scripts/Lines/Other/CustomLine.cs:231-239 | every line object equals itself |
| CustomLines.EqualsSymmetric | Assets/Scripts/Lines/Other/CustomLine.cs:231-239 | Equals between line objects is symmetric |
| CustomLines.NullNeverEqual | Assets/Scripts/Lines/Other/CustomLine.cs:233 | no line equals null |
| CustomLines.CustomLine.MakeSkip | Assets/Scripts/Lines/Other/CustomLine.cs:33-37 | sets Skip, returns the same object and changes nothing else (`modifies this`, the segment is constant) |
| CustomLines.CustomLine.constructor | Assets/Scripts/Lines/Other/CustomLine.cs:20-31 | the segment is given by the two points, and Skip is clear |
| HandlerSpec.Saved | Assets/Scripts/Lines/Handler/LineHandler.cs:165-172 | the old registry is a prefix, the registry grows by at most one, it contains the point, it adds nothing else and it stays duplicate-free |
| LineHandlers.LineHandler.SaveIntersection | Assets/Scripts/Lines/Handler/LineHandler.cs:165-172 | the new registry is `Saved` of the old one |
| LineHandlers.LineHandler.GetIntersections | Assets/Scripts/Lines/Handler/LineHandler.cs:174-177 | definition: the registry, read as a value; Merge passes it to `CanMergeWith`, and its properties are those of `Saved`, `SplitRegistry` and `Valid` |
| LineHandlers.LineHandler.ClearIntersections | Assets/Scripts/Lines/LineController.cs:35 | the registry is empty afterwards |
| LineHandlers.LineHandler.constructor | Assets/Scripts/Lines/Handler/LineHandler.cs:12 | the registry starts empty |
| HandlerSpec.SortXZ | Assets/Scripts/Lines/Handler/LineHandler.cs:70-75 | the result is sorted by x and then z, and is a permutation of the input |
| HandlerSpec.InsertSorted | Assets/Scripts/Lines/Handler/LineHandler.cs:74 | inserting into a sorted list keeps it sorted |
| HandlerSpec.ConnectStep | Assets/Scripts/Lines/Handler/LineHandler.cs:91-95 | the created lines through both points are dropped, the others are kept, and the connecting line from the earlier point to the later one is appended last |
| HandlerProperties.ConnectElements | Assets/Scripts/Lines/Handler/LineHandler.cs:78-96 | after the pairing loop every created line is an old one or joins two consecutive sorted crossings |
| LineHandlers.ConnectLines | Assets/Scripts/Lines/Handler/LineHandler.cs:78-96 | the while loop, which decrements the count every round, computes `Connect`; its new lines are fresh and not skipped |
| LineHandlers.ConnectPair | Assets/Scripts/Lines/Handler/LineHandler.cs:91-95 | one connecting round: `ConnectStep` of the created lines, with the connecting line new and not skipped |
| LineHandlers.RemoveEachLine | Assets/Scripts/Lines/Handler/LineHandler.cs:65-68 | one `List.Remove` by Equals per scheduled line, in order: `RemoveEach` on the segments; the survivors are a subsequence of the input |
| LineHandlers.AppendCreated | Assets/Scripts/Lines/Handler/LineHandler.cs:103 | appending the created lines not already present (tested against the growing list) is `AppendNew`; distinct kept objects give a result without repeated objects |
| HandlerProperties.AppendShape | Assets/Scripts/Lines/Handler/LineHandler.cs:103 | the kept lines stay a prefix; each appended line is created and unequal to every earlier one; every created line is represented; no duplicates appear |
| HandlerSpec.ScanStep | Assets/Scripts/Lines/Handler/LineHandler.cs:33-62 | definition: one scan iteration of Split on values; properties in `ScanInvariant`, `ScanRecordsWithPieces`, `ScanEndsWithNew` |
| HandlerSpec.RemoveEach | Assets/Scripts/Lines/Handler/LineHandler.cs:65-68 | definition: one `List.Remove` by Equals per scheduled line, in order; properties in `RemoveEachSubseq`, `RemoveEachKeeps`, `RemoveEachRemoves` |
| HandlerSpec.Connect | Assets/Scripts/Lines/Handler/LineHandler.cs:78-96 | definition: the pairing loop on values; property in `ConnectElements` |
| HandlerSpec.SplitLines | Assets/Scripts/Lines/Handler/LineHandler.cs:14-106 | definition: Split on values; properties in `SplitRegistry`, `SplitShape`, `SplitRemoves`, `SplitKeepsUnrelated`, `SplitNoCrossing` |
| HandlerSpec.MergeStep | Assets/Scripts/Lines/Handler/LineHandler.cs:124-144 | definition: one scan iteration of Merge on values; properties in `MergeOnlyEligible`, `MergePairs` |
| HandlerSpec.MergeLines | Assets/Scripts/Lines/Handler/LineHandler.cs:108-157 | definition: Merge on values; properties in `MergeShape`, `MergeRemoves`, `MergeKeepsUnrelated`, `MergeNoRelation` |
| HandlerSpec.CombineLines | Assets/Scripts/Lines/Handler/LineHandler.cs:160-163 | definition: Split of what Merge returns; property in `CombineUnrelated` |
| HandlerProperties.ScanRecordsWithPieces | Assets/Scripts/Lines/Handler/LineHandler.cs:44-62 | nothing is recorded, collected or scheduled for removal while no piece has been created in the call (the cumulative emptiness test) |
| HandlerProperties.ScanEndsWithNew | Assets/Scripts/Lines/Handler/LineHandler.cs:53 | the lines scheduled for removal end with the new line whenever there are any |
| HandlerProperties.RemoveFirstDropsAll | Assets/Scripts/Lines/Handler/LineHandler.cs:65-68 | on lines no two of which are Equals, one `List.Remove` leaves no line Equals to the removed one |
| HandlerProperties.RemoveEachRemoves | Assets/Scripts/Lines/Handler/LineHandler.cs:65-68 | on lines no two of which are Equals, no surviving line is Equals to any scheduled line |
| HandlerProperties.SplitRemoves | Assets/Scripts/Lines/Handler/LineHandler.cs:44-68 | on such lines, the kept front of Split's result has no line Equals to a scheduled line, nor to the new line once anything was scheduled |
| HandlerProperties.PairsRemoveMarked | Assets/Scripts/Lines/Handler/LineHandler.cs:143-151 | every merged line, and the new line once any merge happened, is scheduled for removal |
| HandlerProperties.MergeRemoves | Assets/Scripts/Lines/Handler/LineHandler.cs:143-154 | on lines no two of which are Equals, the kept front of Merge's result has no line Equals to a merged line, nor to the new line once anything merged |
| LineHandlers.LineHandler.ScanOne | Assets/Scripts/Lines/Handler/LineHandler.cs:33-62 | one scan iteration is `ScanStep` of the state before, with the registry updated in place |
| LineHandlers.LineHandler.ScanLines | Assets/Scripts/Lines/Handler/LineHandler.cs:30-63 | the foreach loop computes `SplitScan` and keeps the registry duplicate-free |
| HandlerProperties.ScanInvariant | Assets/Scripts/Lines/Handler/LineHandler.cs:30-63 | after the scan: the registry has only grown, by crossings of the new line; the per-call crossings are distinct, recorded and crossings; created lines touch a crossing; only crossed lines and the new line are scheduled for removal |
| HandlerProperties.ScanNoCrossing | Assets/Scripts/Lines/Handler/LineHandler.cs:30-63 | a scan over lines the new line does not cross changes nothing |
| LineHandlers.LineHandler.Split | Assets/Scripts/Lines/Handler/LineHandler.cs:14-106 | the result's segments and the registry are `SplitLines`; with at most one line the same list and registry come back; the result holds only input lines and new, unskipped ones, and no object twice when the input has none twice |
| HandlerProperties.SplitRegistry | Assets/Scripts/Lines/Handler/LineHandler.cs:44-62 | Split only appends to the registry, only crossings of the new line with the input, and keeps it duplicate-free; nothing is recorded, collected or scheduled unless some piece was created |
| HandlerProperties.SplitPointsFacts | Assets/Scripts/Lines/Handler/LineHandler.cs:58-75 | the per-call crossings are distinct, sorted by x then z before the pairing, a permutation of those found, in the registry and on the new line |
| HandlerProperties.SplitCreatedAtCrossings | Assets/Scripts/Lines/Handler/LineHandler.cs:44-96 | every created line has an end point at a crossing of this call |
| HandlerProperties.SplitShape | Assets/Scripts/Lines/Handler/LineHandler.cs:65-103 | surviving input lines keep their order ahead of the created ones; a created line is appended only when no equal line is there; every created line is represented; a duplicate-free input stays so |
| HandlerProperties.SplitKeepsUnrelated | Assets/Scripts/Lines/Handler/LineHandler.cs:30-68 | an input line equal neither to the new line nor to any crossed line is still in the result |
| HandlerProperties.SplitNoCrossing | Assets/Scripts/Lines/Handler/LineHandler.cs:14-106 | a new line that crosses nothing leaves the lines and the registry as they were |
| HandlerProperties.SplitCrossingLines | Assets/Scripts/Lines/Handler/LineHandler.cs:14-106 | (5,-5)-(5,5) across (0,0)-(10,0): both are replaced by the four halves, and (5,0) is recorded once |
| LineHandlers.LineHandler.MergeOne | Assets/Scripts/Lines/Handler/LineHandler.cs:124-144 | a skipped or refused line, or one that does not merge, gives null and changes nothing; otherwise both lines are marked Skip and the result is `MergeStep`'s |
| LineHandlers.LineHandler.MergeAt | Assets/Scripts/Lines/Handler/LineHandler.cs:122-145 | one iteration is `MergeStep`; only the current line and the new line can change flag; the merge results stay distinct objects |
| LineHandlers.LineHandler.MergeScanLines | Assets/Scripts/Lines/Handler/LineHandler.cs:122-145 | the foreach loop computes `MergeScanAll` of the lines as they were; each other line is skipped afterwards exactly when it was before or was merged; the merge results are new, unskipped and distinct |
| LineHandlers.LineHandler.Merge | Assets/Scripts/Lines/Handler/LineHandler.cs:108-157 | the result, the new line's flag and every other line's flag are `MergeLines` of the lines before the call; with at most one line the same list comes back; no object is in the result twice; the registry is not in the frame, so it does not change |
| HandlerProperties.MergeOnlyEligible | Assets/Scripts/Lines/Handler/LineHandler.cs:124-133 | a merged line was not skipped, was accepted by CanMergeWith and merges; the new line merges with itself only when no earlier merge set its flag |
| HandlerProperties.MergePairs | Assets/Scripts/Lines/Handler/LineHandler.cs:143-144 | the removals are pairs (merged line, new line), one pair per result, and the results follow the scan order of the lines they came from |
| HandlerProperties.MergeShape | Assets/Scripts/Lines/Handler/LineHandler.cs:143-154 | the surviving lines keep their order and the results follow them; merged lines and, after any merge, the new line are skipped; no other flag changes |
| HandlerProperties.MergeNoRelation | Assets/Scripts/Lines/Handler/LineHandler.cs:122-157 | when the new line merges with no line, Merge changes nothing |
| HandlerProperties.MergeKeepsUnrelated | Assets/Scripts/Lines/Handler/LineHandler.cs:122-154 | a line equal neither to the new line nor to any line that is eligible (not skipped, accepted by CanMergeWith) and merges with it is still in the result |
| HandlerProperties.MergeChainedLines | Assets/Scripts/Lines/Handler/LineHandler.cs:108-157 | drawing (5,0)-(10,0) after (0,0)-(5,0): the result is the new line alone, and both lines end up skipped |
| HandlerProperties.MergeUnrelated | Assets/Scripts/Lines/Handler/LineHandler.cs:108-157 | with the new line last and merging with no other line, Merge returns the lines unchanged, whether or not the new line merges with itself |
| LineHandlers.LineHandler.Combine | Assets/Scripts/Lines/Handler/LineHandler.cs:160-163 | the result and the registry are those of Split applied to Merge's result (`CombineLines`); the new line's flag and every other line's flag are those `MergeLines` gives; no object is in the result twice |
| HandlerProperties.CombineUnrelated | Assets/Scripts/Lines/Handler/LineHandler.cs:160-163 | a new line (last in the list, as the controller passes it) that neither merges with nor crosses any other line leaves the lines and the registry unchanged |
| Seqs.AppendNewAdds | Assets/Scripts/Lines/Handler/LineHandler.cs:103 | what `AddRange(Where(!Contains))` appends comes from the candidates, and each appended line is unequal to every earlier line |
| Seqs.AppendNewCovers | Assets/Scripts/Lines/Handler/LineHandler.cs:103 | with a reflexive equality, every candidate is represented in the result |
| Seqs.AppendNewNoDup | Assets/Scripts/Lines/Handler/LineHandler.cs:103 | a duplicate-free target stays duplicate-free |

## Left out

- Floating point is not modelled. Coordinates are exact reals (the engine sees
  grid-snapped points). Three things follow:
  - `Mathf.Abs`, the square root inside `Length` and the division in
    `DistanceToPoint` are replaced by comparisons of squares.
  - The approximate `Vector3 ==` of the engine is exact equality here.
  - A zero-length segment gives 0/0 in `DistanceToPoint`. The model treats the
    resulting NaN comparison as false.
- The value of `Constants.FloatingTolerance` is not part of the model. It is a
  constant that is only known not to be negative.
- `CanMergeWith` is not in this revision of `CustomLine.cs`. It is an abstract predicate that sees
  the two segments and the registry, not the line objects.
- `RecentlyMerged`, `ResetMerge` and `ContainsLine` are not in this revision of `CustomLine.cs`.
  The filter that uses them is the identity.
- `GetHashCode` and `ToString`: no logic of the engine depends on them. The hash
  does not agree with Equals for swapped end points, and no such agreement is
  claimed.
- `LineHandlers.LineHandler.GetIntersections` returns the registry as a value.
  The source returns the live list, through which callers can modify it. Only the
  controller's `Clear` through it is modelled (`ClearIntersections`).
- `LineHandlers.LineHandler.Merge` requires that no line object appear twice in
  the input. Each line's flag is then stated by its index. The controller never
  puts one object into the list twice.
- `LineHandlers.LineHandler.Combine` has the same requirement, for the same
  reason: it passes its input to `Merge`.
- The controller, the grid and the camera are reading input, drawing and
  moving the camera: LineController.cs, GridGenerator.cs, CameraController.cs.
  - The controller's rule that lines shorter than the grid size are rejected is
    not modelled.
  - Its three-argument `Combine` and `Split` calls do not match the handler's
    two-argument methods. The two-argument versions are modelled.
- ILineHandler.cs declares the handler's signatures only.
- Combine is not claimed idempotent, and its result is not claimed free of
  Equals-duplicates (it is free of repeated objects). The source promises
  neither. `SplitShape` proves that Split keeps an input without Equals-duplicates
  so. Merge appends its results without a duplicate test.
- Lengths are conserved only in the squared form of `CutLengths`: the square
  roots of `Length` are not modelled, so `t * L + (1 - t) * L == L` is read off
  the squared lengths rather than stated on `Length` itself.
