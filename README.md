# Truchet hexagon strands: grouping and colouring engine

This project models the integer core of the Truchet-Hexagon generator. Each hexagonal tile,
keyed by `(id_x, id_y)`, carries three curve segments. A segment joins two of the tile's six
edges. The core does five things:

- It chooses a tile's edge pairs from one of five patterns, rotated by an offset and shuffled.
- It classifies each pair by the distance between its two edges.
- It groups the segments of a grid into strands: chains of segments that continue each other
  across shared edges.
- It merges strands whose open ends meet.
- It colours the strands first-fit, so that no colour holds two strands through the same
  hexagon. It then merges colours down to a requested count and writes each segment's colour.

The modules follow the source files:

| module | file | what it holds |
|---|---|---|
| `Adjacency` | adjacency.dfy | hexagon ids and the row-parity neighbour table of `_Group.test_segment` |
| `Tiles` | tiles.dfy | the five pattern tables, rotation by the offset, the shuffle, the curve-class dispatch of `draw_curve` |
| `Segments` | segment.dfy | `_Segment`: its id, edge pair, curve kind and `colour_group` |
| `Hexagons` | hexagon.dfy | `_Hexagon`: offset and pattern choice, the segment creation loop, `get_curve_all`, `get_curve_colour` |
| `HexStructure` | hex_structure.dfy | the stand-alone `Hexagon`: its offset rule, its table and `draw_curve_all` |
| `Groups` | group.dfy | `_Group`: segment and border sets changed in place, `test_segment`, `calculate_intersection` |
| `ColouringSpec` | colouring_spec.dfy | partitions of the grid's segments, the first-fit colouring as a function, merging two parts |
| `PassRecords` | pass_record.dfy | the record of one pass of `merge_groups`, shared by both detectors: the groups kept, in order, and what each absorbed at its turn |
| `ColouringSteps` | colouring_steps.dfy | the steps of `_Colouring` on values and on group objects: the builder's search, the state and record of a merge pass, the colour searches |
| `Colourings` | colouring.dfy | `_Colouring`: the builder, `merge_groups`, `groups_colouring`, the colour reduction, `assign_colour_group` |
| `Sorting` | sorting.dfy | Python's stable `sorted`/`list.sort` by key, on list positions |
| `LineDetection` | line_detection.dfy | the older `line_detection.py` detector, with `Line` open ends kept in lists and a neighbour table without row parity |
| `Wrappers` | wrappers.dfy | `Option`, `Result` and the error kinds (`ValueError` on a bad pattern or equal edges, and so on) |

Objects that the source changes in place are classes whose methods state their new state:
`_Group`, `_Colouring`, `_Segment` (its `colour_group`), `_Hexagon` (its segment list), and the
legacy `Group` and `detection_connected`. Groups and segments compare by identity, as in Python.
A colour bucket is the very group object that opened it, so growing the bucket grows that group
too. Values that never change are datatypes: hexagon ids, edge pairs, the legacy `Line` and
`Segment`, and the deep copies of legacy groups. Random draws are parameters.

## Model

| member | source | states |
|---|---|---|
| Adjacency.Opposite | Group.py:71-165 | the edge of the neighbour that touches edge `e` is `(e+3)%6`; it differs from `e`, and stepping it by 3 again gives back `e` |
| Adjacency.Step | Group.py:71-165 | every direction of the table changes the row, by at most 2 rows |
| Adjacency.NeighbourInjective | Group.py:71-165 | in either row parity, the six edges of a hexagon lead to six different neighbours |
| Adjacency.NeighbourInverse | Group.py:71-165 | stepping across edge `e`, then back across `(e+3)%6` from the neighbour, returns to the start, for odd and even rows alike |
| Adjacency.NeighbourSymmetric | Group.py:71-165 | if `n` is across `e` from `h`, then `h` is across `(e+3)%6` from `n` |
| Tiles.Rotate | hexagon.py:40-49 | a rotated edge `(k + offset) % 6` is again an edge 0..5 |
| Tiles.ConnectionTable | hexagon.py:40-51 | a table of three pairs exactly for patterns 1..5; any other pattern raises ValueError |
| Tiles.RotateByResidue | hexagon.py:40-49 | the rotation depends only on `offset % 6` |
| Tiles.RotationPermutes | hexagon.py:40-49 | rotation by any offset maps the six edges one-to-one onto the six edges, with an explicit inverse |
| Tiles.RotatedMatching | hexagon.py:40-49 | rotating three pairs that use each edge once gives three pairs that use each edge once |
| Tiles.BaseTable | hexagon.py:41-49 | the unrotated tables of patterns 1..5 are the five literal pair lists |
| Tiles.BaseMatching | hexagon.py:41-49 | each unrotated table splits the six edges into three pairs, each edge used once |
| Tiles.TableIsRotated | hexagon.py:40-49 | the table at any offset is the offset-0 table with every edge rotated |
| Tiles.ConnectionTableIsMatching | hexagon.py:40-49 | for every pattern 1..5 and every offset, the table is three pairs that together use each edge 0..5 exactly once |
| Tiles.ShuffleCases | hexagon.py:53 | the shuffled table is one of the six orders of the three pairs |
| Tiles.ShuffleIsPermutation | hexagon.py:53 | shuffling keeps the pairs, with multiplicity: only their order changes |
| Tiles.ShuffleKeepsMatching | hexagon.py:53 | a shuffled perfect matching is still a perfect matching |
| Tiles.SelectPattern | hexagon.py:35-38 | a falsy pattern argument draws a pattern in 1..5; a truthy one is used as given |
| Tiles.DrawCurve | Segment.py:34-43 | class `(c0-c1)%6` of 1 or 5 gives the neighbouring-edge curve, 2 or 4 the distant-edge curve, 3 the opposite-edge curve; class 0 raises ValueError; each case holds in both directions |
| Tiles.DrawCurveSwap | Segment.py:35-41 | swapping the two edges of a pair does not change its classification |
| Tiles.ProperPairDrawable | Segment.py:35-43 | a pair of two different edges in 0..5 never raises |
| Tiles.TablePairsDrawable | hexagon.py:57-60 | no pair of any pattern table raises in `draw_curve`, so building a tile's segments never fails |
| Segments.Segment.constructor | Segment.py:8-25 | a segment keeps the given id, edge pair and curve, and starts with `colour_group == 0` |
| Segments.NewSegment | Segment.py:8-43 | construction fails with ValueError exactly when the edge pair has class 0; otherwise it returns a new segment with the id, the pair, the curve `draw_curve` chose and colour 0 |
| Hexagons.SelectOffset | hexagon.py:23-26 | a falsy offset argument draws an offset in 0..5; any truthy argument gives offset 0 |
| Hexagons.Hexagon.constructor | hexagon.py:55-60 | one new, distinct segment per pair, in pair order, each with the hexagon's id, its pair, its curve and colour 0 |
| Hexagons.Hexagon.GetCurveAll | hexagon.py:79-84 | the curves of all segments, one per segment, in segment order |
| Hexagons.Hexagon.GetCurveColour | hexagon.py:86-92 | the curves of exactly the segments whose `colour_group` equals the given id, in segment order |
| Hexagons.CurvesOf | hexagon.py:79-84 | one curve per segment |
| Hexagons.CurvesOfAt | hexagon.py:79-84 | entry `i` of `get_curve_all` is the curve of segment `i` |
| Hexagons.ColourCurvesSound | hexagon.py:86-92 | every curve returned for a colour belongs to a segment of that colour |
| Hexagons.ColourCurvesComplete | hexagon.py:86-92 | the curve of every segment of that colour is returned |
| Hexagons.ColourCurvesAllOneColour | hexagon.py:86-92 | when every segment has the colour, `get_curve_colour` equals `get_curve_all` |
| Hexagons.ColourCurvesNone | hexagon.py:86-92 | when no segment has the colour, the result is empty |
| Hexagons.ShuffledMatching | hexagon.py:53 | a shuffled matching keeps its pairs, stays a matching, and every pair is drawable |
| Hexagons.ShuffledTable | hexagon.py:40-53 | for patterns 1..5, the shuffled table holds the table's pairs, uses each edge once, and every pair is drawable |
| Hexagons.NewHexagon | hexagon.py:13-60 | ValueError exactly for a truthy pattern outside 1..5; otherwise a new tile with the chosen offset and pattern, the shuffled table, which uses each edge once, and three distinct new segments, one per pair in order |
| HexStructure.SelectOffset | hex_structure.py:37-40 | a falsy offset argument draws an offset in 0..5; a truthy one is kept as given |
| HexStructure.NewHexagon | hex_structure.py:37-67 | ValueError exactly for a truthy pattern outside 1..5; otherwise the tile has the chosen offset and pattern |
| HexStructure.NewHexagonMatching | hex_structure.py:54-67 | every tile built holds, in some order, exactly the pairs of its rotated table; they use each edge once, and each is drawable |
| HexStructure.DrawCurveAll | hex_structure.py:81-98 | one curve per pair, in pair order, each the classification of its pair; ValueError exactly when some pair has class 0 |
| HexStructure.OffsetRulesAgreeIffFalsy | hex_structure.py:37-40 | the two tile classes choose the same offset exactly when the offset argument is falsy |
| HexStructure.TruthyOffsetSameTable | hex_structure.py:37-63 | for a truthy offset argument, the two classes build the same table exactly when the argument is a multiple of 6 |
| Groups.ChainIsContinues | Group.py:67-166 | the twelve-branch `if`/`elif` chain of `test_segment`, as written, accepts a candidate exactly when it lies across one of the border segment's two edges `e` and has edge `(e+3)%6` |
| Groups.JoinsSymmetric | Group.py:67-166 | if a segment continues a border segment, the border segment continues it back |
| Groups.AddSegmentBorderSize | Group.py:19-25 | after `add_segment` on a border of one or two segments, the border has two; the old end survives exactly when the border had one |
| Groups.MergedBorderShape | Group.py:27-44 | for two disjoint borders of one or two segments, `add_group` never reaches its ValueError, and the new border has one or two segments from the union |
| Groups.IntersectionSymmetric | Group.py:58-65 | `calculate_intersection` is symmetric |
| Groups.IntersectionZeroIff | Group.py:58-65 | the intersection is 0 exactly when the two groups share no hexagon id |
| Groups.IntersectionBound | Group.py:58-65 | the intersection is at most the product of the two group sizes |
| Groups.Group.constructor | Group.py:10-17 | a new group's `segments` and `border_segments` are both exactly `{segment}` |
| Groups.Group.RemoveOldEnd | Group.py:51-56 | a one-segment border is left unchanged; otherwise the end is discarded, with no change if it is absent |
| Groups.Group.AddSegment | Group.py:19-25 | `segments` gains the segment; the border becomes `remove_old_end` of the old border, plus the segment |
| Groups.Group.AddSegmentToGroup | Group.py:46-49 | `segments` becomes the union with the given set; the border is untouched |
| Groups.Group.AddGroup | Group.py:27-44 | both sets become unions; then the 4 / 2 / 1 border-size rule drops the connecting ends, and any other size raises ValueError (`ok` false) |
| Groups.Group.CalculateIntersection | Group.py:58-65 | the count of pairs `(s, o)` from the two groups with `s.id == o.id` |
| Groups.Group.TestSegment | Group.py:67-166 | returns a border segment that the candidate continues, or none exactly when no border segment is continued |
| Sorting.StableSortIndices | Colouring.py:186 | the positions, listed once each, in ascending key order, with ties kept in original order |
| Sorting.FirstTwoOfSorted | Colouring.py:186-190 | `sorted(...)[0]` comes before every other group, and `sorted(...)[1]` before every group but the first |
| Sorting.StableOrderUnique | line_detection.py:157-159 | there is exactly one stably sorted listing of the positions |
| ColouringSpec.PartitionMerge | Colouring.py:77 | merging one group's segments into another, and dropping the absorbed group, keeps a partition of the segments |
| ColouringSpec.FirstFree | Colouring.py:107-124 | the first colour group sharing no hexagon id with the group; every earlier one shares an id |
| ColouringSpec.FirstFitCorrect | Colouring.py:97-128 | first-fit places every group in exactly one bucket. No two groups in a bucket share a hexagon id. Each group goes to the first bucket it fits, or opens a new one when none fits |
| ColouringSpec.FirstFitPartition | Colouring.py:97-128 | the buckets split the segments exactly as the groups do: every segment is in exactly one bucket |
| ColouringSpec.SameBucketSameGroup | Colouring.py:97-128 | two segments of one hexagon in one bucket come from one group |
| ColouringSpec.RemoveAt | Colouring.py:174 | removing position `b` shifts later entries down by one and keeps earlier ones |
| ColouringSpec.MergePartsPartition | Colouring.py:173-174 | merging two colour groups keeps a partition of the segments and removes one colour |
| ColouringSpec.LastIndex | Colouring.py:133-138 | the last colour group holding the segment (the one whose write `assign_colour_group` leaves), or -1 |
| ColouringSpec.PartitionColour | Colouring.py:133-138 | under a partition, each segment lies in exactly one colour group, which is its last one |
| ColouringSteps.CanMergeSymmetric | Colouring.py:141-153 | whether two groups can be merged does not depend on which is tested first |
| ColouringSteps.IndexOf | Colouring.py:138 | `list.index`: the first position holding the object |
| ColouringSteps.FindGroupFor | Colouring.py:26-34 | the first group with a border segment that the new segment continues, or none when no group has one |
| ColouringSteps.Overlaps | Colouring.py:112-118 | the overlap flag is set exactly when the two groups share a hexagon id |
| ColouringSteps.FindColourFor | Colouring.py:107-124 | the first colour group sharing no hexagon id with the group, or the end of the list |
| ColouringSteps.FindSmallestPair | Colouring.py:161-171 | the pair of different colour groups with the strictly smallest intersection below 10000000, the first such pair in row-major order; none exactly when every pair reaches that limit |
| ColouringSteps.AbsorbGroup | Colouring.py:77 | `add_group` in a merge pass: the absorber's segments become the union, and the segment partition is kept |
| ColouringSteps.PartnerTurn | Colouring.py:72-85 | the partner search's report, read against the borders the pass started with, is a turn: the partner comes later, the two ends continue each other, and no unabsorbed group between them has a border that meets |
| ColouringSteps.PassStart | Colouring.py:62-66 | a pass starts with every group alive, nothing checked, an empty new list and nothing merged |
| ColouringSteps.PassEnd | Colouring.py:87-93 | after the last turn the new list splits the segments and holds groups of the old list; it is shorter by the number of absorbed groups, which is at most its length; with no merge it is the old list |
| ColouringSteps.TracedOutcome | Colouring.py:68-93 | after the last turn, the new list's segment and border sets are the pass's outcome from those it started with |
| ColouringSteps.OutcomeKeepsSegments | Colouring.py:77 | a pass keeps every segment: the kept groups together hold exactly the segments all groups held before it |
| ColouringSteps.StageTraceExtend | Colouring.py:57-93 | a pass from the last stage extends the trace of passes of `merge_groups` |
| ColouringSteps.SettledStep | Colouring.py:87-90 | a group kept alone extends the prefix of groups that can merge with no later group |
| ColouringSteps.ColourRecordTurn | Colouring.py:68-90 | a group not absorbed before its turn is recorded with its turn, and its partner, if any, joins the taken positions |
| PassRecords.TakenAppend | Colouring.py:81-82 | a new turn adds its partner, if any, to the taken positions and keeps the earlier turns |
| PassRecords.ShapeSkip | Colouring.py:70 | a position absorbed before its turn is passed over and not kept |
| PassRecords.ShapeTurn | Colouring.py:68-90 | a position not absorbed before its turn is kept, and the record stays well ordered: positions increase, and each absorbs a later one at most once |
| Colourings.Colouring.constructor | Colouring.py:13-44 | the strands split the grid's segments; no two merged groups can still be merged; the colour groups are the first-fit buckets of the strands, each the group that opened its bucket |
| Colourings.Colouring.Build | Colouring.py:21-40 | after the builder every segment of every hexagon is in exactly one group, and the group ids are 0, 1, 2, … in creation order |
| Colourings.Colouring.PlaceHexagon | Colouring.py:21-40 | after one hexagon's segments the groups split exactly the segments of the hexagons up to and including it; the list holds only old or new groups |
| Colourings.Colouring.PlaceSegment | Colouring.py:22-40 | the segment joins the first group with a border segment it continues: that group gains the segment, and its border drops that end and gains the segment. With no such group, a new group holding only the segment is appended. Every other border is unchanged, and the partition of the segments seen so far is kept |
| Colourings.Colouring.JoinGroup | Colouring.py:28-34 | group `k` gains the segment; its border drops the continued end and gains the segment; every other border is unchanged |
| Colourings.Colouring.AddToGroup | Colouring.py:32 | `add_segment` on group `k`: its segments gain the segment, its border drops the old end and gains the segment, and every other border is unchanged |
| Colourings.Colouring.StartGroup | Colouring.py:37-40 | a segment that continues no group opens a new group holding only it, appended to the list |
| Colourings.Colouring.TestMerge | Colouring.py:141-153 | returns a border of each group where the second continues the first, or none exactly when the groups cannot be merged |
| Colourings.Colouring.FindPartner | Colouring.py:72-85 | the first other unchecked group that the group can merge with, with the connecting borders |
| Colourings.Colouring.MergePass | Colouring.py:62-93 | the pass is recorded from the old groups' segment and border sets to the new ones. Each kept group, in list order, either stays as it was or absorbed the first later unabsorbed group whose border meets its own, at two continuing ends; its segments are then the union and its border what `add_group` leaves. Every other group was absorbed by exactly one kept group. The partition is kept and the list shrinks by the number of merges, at most the new length. With no merge the list is unchanged and no two groups can be merged |
| Colourings.Colouring.CheckGroups | Colouring.py:68-93 | the loop of a pass over `U`, against the sets `U` had at its start: the same record as `MergePass` leads to the new list. The new list is `U` at the kept positions and splits the segments, and it is shorter by one group per merge. With no merge it equals `U` and no two groups of `U` can be merged |
| Colourings.Colouring.CheckAll | Colouring.py:68-90 | the `for group in unchecked_groups` loop takes the pass state from its start to after the last group |
| Colourings.Colouring.CheckGroup | Colouring.py:68-90 | one group's turn keeps the pass state: the record of the turns so far, the new list as those turns left it, the later groups as the pass found them, and the segments split among the live groups |
| Colourings.Colouring.SkipTurn | Colouring.py:68-70 | a group absorbed earlier in the pass is passed over: the pass state holds one position further, with nothing recorded |
| Colourings.Colouring.KeepTurn | Colouring.py:87-90 | a group that can merge with no unchecked group is kept unchanged, recorded as absorbing nothing, appended to the new list and checked |
| Colourings.Colouring.AbsorbTurn | Colouring.py:74-85 | a merge at group `a`'s turn is recorded as taking `c` at the two connecting ends. Group `a` is kept and `c` is taken; `a`'s segments become the union and its border what `add_group` leaves; the pass state holds with `merged` set |
| Colourings.Colouring.AbsorbRecord | Colouring.py:72-85 | absorbing `c`, the first unchecked group whose border meets `a`'s, is recorded as `a`'s turn, and `c` joins the taken positions |
| Colourings.Colouring.AbsorbTraced | Colouring.py:77-78 | `add_group` on `a`: the segment map folds `c`'s part into `a`'s and still splits the segments; the later groups are untouched; `a` joins the new list as its turn leaves it |
| Colourings.Colouring.MergeGroups | Colouring.py:52-93 | passes repeat until one merges nothing; afterwards the groups still partition the segments and no two can be merged |
| Colourings.Colouring.MergeAndColour | Colouring.py:43-44 | returns the stages and passes of `merge_groups`: the first stage is the built list, each next stage is one merge pass of the one before, and the last stage holds the strands. After `merge_groups` and `groups_colouring` the groups come from the old list, the strands split the segments, no two groups can be merged, and the colour groups are the first-fit buckets of the strands |
| Colourings.Colouring.ColourStrands | Colouring.py:44 | the strands are the merged groups' segment sets; the colour groups are the first-fit buckets of the strands; no border changes |
| Colourings.Colouring.GroupsColouring | Colouring.py:97-128 | the colour groups are the first-fit buckets of the strands, each the group that opened it (aliased); groups that opened no bucket keep their segments |
| Colourings.Colouring.ColourGroup | Colouring.py:104-128 | one group is placed by first fit: it grows the first bucket it fits, or becomes a new bucket itself |
| Colourings.Colouring.JoinColourGroup | Colouring.py:121-124 | the bucket's segments become the union with the group's; its border is untouched |
| Colourings.Colouring.MergeColourGroupsWithSmallestIntersection | Colouring.py:155-174 | with fewer than 2 buckets nothing changes. Otherwise the pair with the strictly smallest intersection, the first in row-major order, is merged, and the second bucket is removed. When no pair is below 10000000 the source fails, and nothing changes |
| Colourings.Colouring.MergeColourGroups | Colouring.py:173-174 | the first bucket absorbs the second, and the second is removed from the list |
| Colourings.Colouring.MergeSmallestColourGroup | Colouring.py:179-196 | with fewer than 2 buckets nothing changes. Otherwise the second bucket in stable size order is merged into the first and removed |
| Colourings.Colouring.Reduce | Colouring.py:47-48 | returns the trace of colour partitions, from the first-fit buckets to the final colour groups; each step is the smallest-intersection merge (`CheapestMerge`) of the pair it names. It ends with `min(initial, colour_count)` buckets that still partition the segments, changes nothing when no reduction is needed, and fails only when every pair of buckets reaches the 10000000 limit |
| Colourings.Colouring.ReduceStep | Colouring.py:155-174 | one turn of the reduction returns the pair `(a, b)` it merged: no pair of colour groups has a smaller intersection, no pair before it in scan order has an equal one, group `a` takes `b`'s segments and `b` is removed (`CheapestMerge`). When no pair is below 10000000, nothing changes and the grid is large enough for the limit |
| ColouringSteps.CheapestFromCandidates | Colouring.py:161-174 | minimality over the ordered candidate pairs the scan visits is minimality over all pairs of distinct colour groups |
| ColouringSteps.ReduceTraceExtend | Colouring.py:47-48 | one more smallest-intersection merge extends the reduction trace |
| ColouringSteps.ReduceTracePartition | Colouring.py:47-48 | along a reduction trace the colour groups keep partitioning the segments, and each merge removes exactly one colour group |
| Colourings.Colouring.AssignColourGroup | Colouring.py:133-138 | each segment's `colour_group` becomes the position of its bucket |
| Colourings.NoCheapPair | Colouring.py:161-173 | when no pair of buckets has an intersection below 10000000, the grid has at least √10000000 segments |
| Colourings.NewColouring | Colouring.py:13-49 | strands and buckets partition the grid's segments; the bucket count is `min(first-fit count, colour_count)`; the returned reduction trace links the first-fit buckets to the final colour groups by smallest-intersection merges; each segment's colour is the position of its bucket, in range; failure only on the 10000000 limit |
| Colourings.ColoursNumbered | Colouring.py:133-138 | after assignment each segment's colour lies in `[0, len(coloured_groups))` and names the bucket holding it |
| Colourings.FirstFitColoursFollowStrands | Colouring.py:97-138 | without reduction, two segments of one hexagon with one colour lie on one strand |
| LineDetection.NewSegment | line_detection.py:21-30 | a segment has the given id and pair and exactly two lines, one per edge |
| LineDetection.LegacyNeighbourAgreement | line_detection.py:74-108 | the legacy table is the parity table of odd rows; in even rows it agrees only across edges 1 and 4 |
| LineDetection.LegacyReturn | line_detection.py:74-108 | stepping across `e` and back across `(e+3)%6` with the legacy table returns home exactly for edges 1 and 4 |
| LineDetection.LegacyStepNotReversible | line_detection.py:74-92 | from (0,0) across edge 0 lands on (1,1), and back across edge 3 lands on (1,0) |
| LineDetection.Continuation | line_detection.py:72-108 | a segment continues an open end exactly when it lies across the end's edge `e` and has edge `(e+3)%6`; the new end is its other line |
| LineDetection.ContinuationMeets | line_detection.py:271-282 | `test_segment` accepts a segment exactly when one of its lines meets the open end under the `can_merge` rule |
| LineDetection.EndsMeetNotSymmetric | line_detection.py:271-282 | the `can_merge` rule is not symmetric: (0,0) edge 0 meets (1,1) edge 3, but not the other way round |
| LineDetection.RemoveFirst | line_detection.py:56 | `list.remove` drops one copy of a present element and keeps the rest |
| LineDetection.RemoveFirstSplit | line_detection.py:56 | `list.remove` deletes exactly the first occurrence |
| LineDetection.AddGroupEndsSwap | line_detection.py:59-66 | with both ends given and the old end open, the open-end count is unchanged and the old end is swapped for the new one |
| LineDetection.MergeKeepsJoinedEnd | line_detection.py:59-66 | as written, merging strand (0,0) edges 0-2 with strand (1,1) edges 3-5 at their first meeting ends leaves open ends (0,0) edge 2 and (1,1) edge 3; the partner's free end (1,1) edge 5 is lost |
| LineDetection.JoinedEnds | line_detection.py:59-66 | the intended merge of two open-end lists: each loses one copy of its joined end, and everything else is kept with multiplicity |
| LineDetection.JoinedEndsFree | line_detection.py:59-66 | when each group holds its joined end once and not the other's, neither joined end stays open and every other end of both groups does |
| LineDetection.Group.constructor | line_detection.py:39-47 | with a segment: `[segment]` and its two lines as open ends; without one: both lists empty |
| LineDetection.Group.Copy | line_detection.py:220 | a deep copy has the same id, segments and open ends |
| LineDetection.Group.AddSegment | line_detection.py:52-57 | the segment is appended; ValueError exactly when the old end is not open; otherwise the old end is swapped for the new one, keeping the count |
| LineDetection.Group.AddGroup | line_detection.py:59-66 | the other group's segments are appended, `new_end` is appended if given, and `old_end` is removed if given and present |
| LineDetection.Group.TestSegment | line_detection.py:70-109 | the first open end, in list order, that the segment continues, with the segment's other line; none exactly when no open end is continued |
| LineDetection.FirstEndIs | line_detection.py:70-109 | `FirstEnd` stops at an open end the segment continues, and no earlier end is continued |
| LineDetection.FirstTakerIs | line_detection.py:129-138 | `FirstTaker` stops at the first group with an open end the segment continues; no open end of an earlier group is continued |
| LineDetection.PlaceCopy | line_detection.py:122-144 | one builder step on group values adds at most one group |
| LineDetection.PlaceCopyCount | line_detection.py:127-144 | the step adds a group exactly when no open end of any group continues the segment |
| LineDetection.PlaceCopyJoins | line_detection.py:129-138 | when group `k` is the first with an open end the segment continues, group `k` takes it: the segment is appended, the first continued end is swapped for the new end, and every other group is unchanged |
| LineDetection.PlaceCopyStarts | line_detection.py:141-144 | when no open end continues the segment, it opens a new group with the next id, holding it and its two lines as open ends |
| LineDetection.PlaceCopyBuilt | line_detection.py:122-144 | one step keeps the builder state: ids 0, 1, 2, …, two open ends per group, and exactly the segments placed so far |
| LineDetection.PlaceAllBuilt | line_detection.py:122-144 | the steps over any sequence of segments keep the builder state |
| LineDetection.PlaceGridBuilt | line_detection.py:121-144 | the builder over a whole grid leaves groups with ids 0, 1, 2, …, two open ends each, holding exactly the grid's segments |
| LineDetection.SearchIsTurn | line_detection.py:226-253 | the partner search of a copy's turn, read against the pass's input, is the legacy turn: the first later unabsorbed copy `can_merge` accepts, joined at the first meeting ends |
| LineDetection.RecordTurn | line_detection.py:226-257 | a copy not absorbed before its turn is kept in the record, as its turn leaves it |
| LineDetection.PassEndCount | line_detection.py:254-260 | after a pass the list is no longer, at least half as long, and shorter exactly when something merged |
| LineDetection.PassEndQuiet | line_detection.py:213-260 | a pass with no merge leaves the list as it was, and no copy can merge with a later one |
| LineDetection.CanMerge | line_detection.py:266-283 | the first pair `(end1, end2)` in row-major order whose ends meet; none exactly when no pair meets |
| LineDetection.AbsorbBag | line_detection.py:244-253 | absorbing a later group keeps the multiset of segments of the surviving groups |
| LineDetection.FindPartner | line_detection.py:230-253 | the first other unchecked group that the group can merge with, with the meeting ends `can_merge` returns |
| LineDetection.MergePass | line_detection.py:220-260 | the new list is the record of the pass: each kept copy, in order, absorbed at its turn the first later unabsorbed copy `can_merge` accepts, joined at the first meeting ends, as `add_group` leaves it. Every segment is kept, and the list loses one group per merge, at most halving it. Nothing merges exactly when no copy can merge with a later one |
| LineDetection.MergeTurn | line_detection.py:226-257 | one group's turn keeps the pass invariant |
| LineDetection.Materialize | line_detection.py:220 | new, distinct group objects with exactly the given fields |
| LineDetection.OverlapFound | line_detection.py:177-184 | the overlap flag is set exactly when the two segment lists share a hexagon id |
| LineDetection.FirstFree | line_detection.py:175-190 | the first bucket with no shared hexagon id; every earlier one shares an id |
| LineDetection.PlaceBag | line_detection.py:186-196 | placing a group adds exactly its segments to the buckets |
| LineDetection.ColourFitBag | line_detection.py:165-202 | the buckets hold exactly the groups' segments, with multiplicity |
| LineDetection.ColourFitShape | line_detection.py:165-202 | there are at most as many buckets as groups; bucket `i` is `Group(i)` and has no open ends |
| LineDetection.ColourFitHolds | line_detection.py:165-202 | a group's segments stay in the bucket it was placed in while later groups are placed |
| LineDetection.ColourFitApart | line_detection.py:165-202 | two groups placed in the same bucket share no hexagon id |
| LineDetection.DetectionConnected.constructor | line_detection.py:114-144 | after the builder, the groups together hold exactly the grid's segments, with multiplicity. Group ids are 0, 1, 2, … in creation order, and every group has two open ends |
| LineDetection.DetectionConnected.PlaceTile | line_detection.py:121-144 | the groups become the builder's steps over the tile's segments, in connection order; the builder state is kept |
| LineDetection.DetectionConnected.PlaceSegment | line_detection.py:122-144 | the groups become `PlaceCopy` of the old ones: the segment joins the first group with an open end it continues, or opens `Group(group_id, segment)`; the builder state is kept |
| LineDetection.DetectionConnected.JoinGroup | line_detection.py:131-138 | group `k` gets the segment appended, and the continued open end is swapped for the new end; every other group is unchanged |
| LineDetection.DetectionConnected.FindTaker | line_detection.py:129-138 | the first group with an open end the segment continues, with that end and the new end; none exactly when no group has one |
| LineDetection.DetectionConnected.StartGroup | line_detection.py:141-144 | a new group `Group(group_id, segment)` is appended |
| LineDetection.DetectionConnected.OrderGroupsLength | line_detection.py:157-159 | the groups are permuted into non-increasing segment count, keeping the original order among equal counts |
| LineDetection.DetectionConnected.GroupsCollouring | line_detection.py:165-202 | the buckets are first-fit over the groups, created as `Group(i)` |
| LineDetection.DetectionConnected.ColourGroup | line_detection.py:172-196 | one group is added to the first bucket it fits, or to a new bucket |
| LineDetection.DetectionConnected.NewBucket | line_detection.py:194-195 | a new bucket `Group(i)` that has taken the group's segments and has no open ends |
| LineDetection.DetectionConnected.MergeGroups | line_detection.py:205-262 | returns the rounds of the loop: the first is the old list's values and the last the new list's; each round is one deep-copy pass (`PassLeaves`) over the one before; every round but the last shrinks the list, and the last repeats the one before, so the loop stops after a pass that merged nothing. Every segment is kept, the list never grows, and no group can merge with a later one |
| LineDetection.RoundTraceExtend | line_detection.py:213-260 | one more pass over the last round extends the trace of rounds of `merge_groups` |
| LineDetection.RoundsFromNext | line_detection.py:205-262 | after a pass that merged, one more pass extends the rounds: the trace, the shrinking of every pass but the last, the kept segments and, when the new pass merged nothing, the absence of mergeable pairs |
| LineDetection.DetectionConnected.MergeRound | line_detection.py:213-260 | one deep-copy pass: the new groups' values are a pass record over the old ones, as for `MergePass`. Every segment is kept. It merged exactly when the list shrank; otherwise the groups are as they were and no group can merge with a later one |
| LineDetection.NewDetectionConnected | line_detection.py:114-154 | the builder as above; the first-group print raises IndexError exactly when the grid has no segments |

## Left out

- Floating-point geometry is left out, because it is float code drawn with shapely. This covers hexagon corner points, Bézier sampling, `lerp_np`, and clipping the drawing area. A segment's `lines` are modelled as the curve kind `draw_curve` chooses. `draw_area`, `erase_polygon`, centre and size are not modelled.
- Randomness (`random.randint`, `random.choices`, `random.shuffle`) is not drawn: the offset draw, the pattern draw and the shuffle permutation are parameters.
- `order_groups_shuffle` (line_detection.py:161-163) is left out. It only reorders the list by a random draw.
- `print` diagnostics and the iteration counter `x` of `merge_groups` are left out. They have no effect on the result.
- `test_grouping` (Colouring.py:199-211) is left out. It is a debugging helper that recolours the largest group.
- Grid.py, hexagon_obj.py and truchet_tiles().py are not part of this model.
- Groups.Group.TestSegment: Python iterates a set in an unspecified order, so the contract promises some matching border segment rather than a particular one. Colourings.Colouring.TestMerge is specified the same way.
- Colourings.Colouring.Reduce requires `colour_count >= 1`. With `colour_count <= 0` and at least one bucket, the source loop never terminates: the merge returns early with fewer than 2 buckets. Colourings.NewColouring has the same precondition.
- Colourings.NewColouring takes the colour count as a parameter. The default `colour_count=4` of `_Colouring.__init__` (Colouring.py:13) is not modelled; a caller passes 4 to get it.
- Colourings.NewColouring requires that no segment object appears twice in the grid. Each hexagon creates its own segments, so this always holds.
- Colourings.NewColouring returns an error where the source raises `UnboundLocalError`. That happens when every pair of buckets has an intersection of at least 10000000, and the model proves it needs at least 3163 segments.
- Groups.Group.AddGroup reports the ValueError of the size rule as `ok == false` instead of raising. Groups.MergedBorderShape shows that the merge pass never reaches it.
- LineDetection.Group.AddSegment reports the ValueError of `list.remove` as `ok == false`. The segment has already been appended by then, as in the source.
- LineDetection: `Line` and `Segment` never change after construction, so they compare by value rather than by identity. Two lines are equal as values when they have the same hexagon id and edge. So, for hexagons with distinct ids, value comparison of lines agrees with identity only for tiles whose pairs use distinct edges. Every table hex_structure.py builds from has that property (HexStructure.NewHexagonMatching); a tile given by hand with a repeated edge would not.
- LineDetection.DetectionConnected.MergeRound: `copy.deepcopy` is modelled as value copies of each group's id, segments and open ends, turned back into new group objects.
- LineDetection.MergeTurn tests `group not in checked_groups` once per turn. The source repeats the test for every candidate partner, but the group's checked status cannot change before its first merge ends the inner loop.
- LineDetection.DetectionConnected.constructor reads only each tile's `id` and `connection`, as a `Tile` value. hex_structure.py's `Hexagon` gets its `id` from its caller.
- Colourings.Colouring.CheckGroup: declared to modify every group of the list, although only group `a` changes. Its ensures keeps the later groups' segments and borders through the pass state.
- The constructor of `_Colouring` is split into two parts: Colourings.Colouring.constructor covers building, merging and colouring, and Colourings.NewColouring adds the reduction loop and `assign_colour_group`.
- The constructor of `detection_connected` is split into two parts: its builder, and LineDetection.NewDetectionConnected, which adds the IndexError of the first-group print.

## Findings

| source | as written | input that shows it | evidently intended | confidence | as-written member | corrected member |
|---|---|---|---|---|---|---|
| line_detection.py:74-108 | The neighbour table uses the same column step in every row. So stepping across edge `e` and back across `(e+3)%6` need not return to the start, and `can_merge`'s rule (line_detection.py:271-282) is not symmetric. | Hexagon (0,0), edge 0: the table gives (1,1). From (1,1), edge 3 gives (1,0), not (0,0). | A row-parity table in which every step undoes itself. Group.py:71-165 uses one, and the grouping pipeline of this model is built on it. | not executed | LineDetection.LegacyStepNotReversible | Adjacency.NeighbourInverse |
| line_detection.py:59-66 | `add_group`, called by the merge pass at line_detection.py:244, appends the partner's connecting end (`new_end`) to the open ends and removes only the absorber's own end. The merged group keeps an end that is now joined, and the partner's free ends are lost. | Strand (0,0) edges 0-2 merged with strand (1,1) edges 3-5 at (0,0) edge 0 and (1,1) edge 3: the open ends become (0,0) edge 2 and (1,1) edge 3, and (1,1) edge 5 is dropped. | Both joined ends dropped and the partner's free ends kept, as Group.py:27-44 does with borders. LineDetection.JoinedEndsFree proves this of the corrected rule; the legacy pass itself is kept as written, since it is the behaviour of that file. | not executed | LineDetection.MergeKeepsJoinedEnd | LineDetection.JoinedEnds |
