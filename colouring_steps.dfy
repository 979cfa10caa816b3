/**
 * The steps of `_Colouring` (Colouring.py) on values and on group objects: the builder's
 * search for a group, the record of a pass of `merge_groups` and the state it keeps, the
 * borders that decide a merge, and the candidate pairs of the colour reduction. The methods
 * of the `Colouring` class are proved against these.
 */
module ColouringSteps {
  import opened Wrappers
  import opened Segments
  import opened Groups
  import opened Hexagons
  import opened ColouringSpec
  import opened Sorting
  import opened PassRecords

  /** Every segment of every hexagon of the grid. */
  ghost function GridSegments(grid: seq<Hexagon>): set<Segment> {
    set p, q | 0 <= p < |grid| && 0 <= q < |grid[p].segments| :: grid[p].segments[q]
  }

  /** The segments the builder has visited before segment `j` of hexagon `i`. */
  ghost function SegmentsBefore(grid: seq<Hexagon>, i: int, j: int): set<Segment> {
    set p, q | 0 <= p < |grid| && 0 <= q < |grid[p].segments| && (p < i || (p == i && q < j)) :: grid[p].segments[q]
  }

  /** No segment object appears twice in the grid (each hexagon creates its own). */
  predicate DistinctSegments(grid: seq<Hexagon>) {
    forall p, q, p', q' ::
      (0 <= p < |grid| && 0 <= q < |grid[p].segments| && 0 <= p' < |grid| && 0 <= q' < |grid[p'].segments| &&
       grid[p].segments[q] == grid[p'].segments[q']) ==> p == p' && q == q'
  }

  lemma SegmentsBeforeStep(grid: seq<Hexagon>, i: int, j: int)
    requires 0 <= i < |grid| && 0 <= j < |grid[i].segments|
    ensures SegmentsBefore(grid, i, j + 1) == SegmentsBefore(grid, i, j) + {grid[i].segments[j]}
  {
  }

  lemma SegmentsBeforeRow(grid: seq<Hexagon>, i: int)
    requires 0 <= i < |grid|
    ensures SegmentsBefore(grid, i, |grid[i].segments|) == SegmentsBefore(grid, i + 1, 0)
  {
  }

  lemma SegmentsBeforeAll(grid: seq<Hexagon>)
    ensures SegmentsBefore(grid, |grid|, 0) == GridSegments(grid)
  {
  }

  lemma SegmentNotBefore(grid: seq<Hexagon>, i: int, j: int)
    requires DistinctSegments(grid)
    requires 0 <= i < |grid| && 0 <= j < |grid[i].segments|
    ensures grid[i].segments[j] !in SegmentsBefore(grid, i, j)
  {
  }

  /** A segment of border `b2` continues a segment of border `b1`. */
  ghost predicate BordersMeet(b1: set<Segment>, b2: set<Segment>) {
    exists x, y :: x in b1 && y in b2 && Joins(x, y)
  }

  /** `test_merge` succeeds: a border segment of `g2` continues a border segment of `g1`. */
  ghost predicate CanMerge(g1: Group, g2: Group)
    reads g1`borderSegments, g2`borderSegments
  {
    BordersMeet(g1.borderSegments, g2.borderSegments)
  }

  /** Whether two groups can be merged does not depend on which is tested first. */
  lemma CanMergeSymmetric(g1: Group, g2: Group)
    ensures CanMerge(g1, g2) <==> CanMerge(g2, g1)
  {
    forall b1, b2 | b1 in g1.borderSegments && b2 in g2.borderSegments && Joins(b1, b2)
      ensures Joins(b2, b1)
    {
      JoinsSymmetric(b1, b2);
    }
    forall b2, b1 | b2 in g2.borderSegments && b1 in g1.borderSegments && Joins(b2, b1)
      ensures Joins(b1, b2)
    {
      JoinsSymmetric(b2, b1);
    }
  }

  /*
   * The record of a merge pass, on the segment sets `S` and border sets `B` the pass's groups
   * had when it started (see `PassRecords`).
   */

  /**
   * The turn `t` of group `a`, when the positions `taken` were absorbed before it: a partner
   * comes after `a`, is joined through an end of each border where one continues the other,
   * and no group after `a` that was not absorbed, and before the partner if there is one, has
   * a border that meets `a`'s.
   */
  ghost predicate ColourTurn(B: seq<set<Segment>>, a: int, taken: set<int>, t: Turn<Segment>) {
    && 0 <= a < |B|
    && (t.Took? ==>
          && a < t.partner < |B| && t.end in B[a] && t.partnerEnd in B[t.partner]
          && Joins(t.end, t.partnerEnd))
    && forall y :: a < y < |B| && y !in taken && (t.Took? ==> y < t.partner) ==> !BordersMeet(B[a], B[y])
  }

  /** The segments group `a` holds after its turn: its own and its partner's. */
  ghost function SegmentsAfter(S: seq<set<Segment>>, a: int, t: Turn<Segment>): set<Segment>
    requires 0 <= a < |S| && (t.Took? ==> 0 <= t.partner < |S|)
  {
    if t.Took? then S[a] + S[t.partner] else S[a]
  }

  /** The border group `a` has after its turn: `add_group`'s rule on the union of both borders. */
  ghost function BorderAfter(B: seq<set<Segment>>, a: int, t: Turn<Segment>): Option<set<Segment>>
    requires 0 <= a < |B| && (t.Took? ==> 0 <= t.partner < |B|)
  {
    if t.Took? then BorderAfterAddGroup(B[a] + B[t.partner], |B[t.partner]|, t.end, t.partnerEnd)
    else Some(B[a])
  }

  /** The turns of the first `a` groups: the pass's shape, and each turn a `ColourTurn`. */
  ghost predicate ColourRecord(B: seq<set<Segment>>, a: int, pos: seq<int>, turns: seq<Turn<Segment>>) {
    && ShapeUpTo(a, |B|, pos, turns)
    && forall j :: 0 <= j < |pos| ==> ColourTurn(B, pos[j], Taken(turns[..j]), turns[j])
  }

  /**
   * One pass of `merge_groups` over groups with segments `S` and borders `B` left groups with
   * segments `S2` and borders `B2`: the groups at the positions `pos` stay, in order, each as
   * its turn in `turns` left it, and every other group was absorbed by one of them.
   */
  ghost predicate MergeOutcome(S: seq<set<Segment>>, B: seq<set<Segment>>, S2: seq<set<Segment>>,
                               B2: seq<set<Segment>>, pos: seq<int>, turns: seq<Turn<Segment>>)
  {
    && |S| == |B| && ColourRecord(B, |B|, pos, turns) && |S2| == |pos| && |B2| == |pos|
    && forall j :: 0 <= j < |pos| ==>
         S2[j] == SegmentsAfter(S, pos[j], turns[j]) && Some(B2[j]) == BorderAfter(B, pos[j], turns[j])
  }

  /** The segment and border sets of a group list between two passes. */
  datatype Stage = Stage(segments: seq<set<Segment>>, borders: seq<set<Segment>>)

  ghost function StageOf(gs: seq<Group>): Stage
    reads gs
  {
    Stage(Contents(gs), Borders(gs))
  }

  /** The kept positions and the turns of one pass. */
  datatype Pass = Pass(pos: seq<int>, turns: seq<Turn<Segment>>)

  /** The pass `p` leads from stage `s` to stage `s2`. */
  ghost predicate PassMerges(s: Stage, p: Pass, s2: Stage) {
    MergeOutcome(s.segments, s.borders, s2.segments, s2.borders, p.pos, p.turns)
  }

  /** Pass `passes[i]` leads from `stages[i]` to `stages[i + 1]`, for every `i`. */
  ghost predicate StageTrace(stages: seq<Stage>, passes: seq<Pass>)
    decreases |passes|
  {
    && |passes| + 1 == |stages|
    && (passes != [] ==>
          && StageTrace(stages[..|passes|], passes[..|passes| - 1])
          && PassMerges(stages[|passes| - 1], passes[|passes| - 1], stages[|passes|]))
  }

  /** A pass from the last stage extends the trace. */
  lemma StageTraceExtend(stages: seq<Stage>, passes: seq<Pass>, p: Pass, next: Stage)
    requires StageTrace(stages, passes) && PassMerges(stages[|stages| - 1], p, next)
    ensures StageTrace(stages + [next], passes + [p])
  {
    assert (stages + [next])[..|passes| + 1] == stages;
    assert (passes + [p])[..|passes|] == passes;
  }

  /** A group absorbed before its turn leaves the record as it was. */
  lemma ColourRecordSkip(B: seq<set<Segment>>, a: int, pos: seq<int>, turns: seq<Turn<Segment>>)
    requires ColourRecord(B, a, pos, turns) && a < |B| && a in Taken(turns)
    ensures ColourRecord(B, a + 1, pos, turns)
  {
    ShapeSkip(a, |B|, pos, turns);
  }

  /** A group that takes its turn is recorded with it. */
  lemma ColourRecordTurn(B: seq<set<Segment>>, a: int, pos: seq<int>, turns: seq<Turn<Segment>>, t: Turn<Segment>)
    requires ColourRecord(B, a, pos, turns) && a < |B| && a !in Taken(turns)
    requires ColourTurn(B, a, Taken(turns), t) && (t.Took? ==> t.partner !in Taken(turns))
    ensures ColourRecord(B, a + 1, pos + [a], turns + [t])
    ensures Taken(turns + [t]) == Taken(turns) + (if t.Took? then {t.partner} else {})
  {
    ShapeTurn(a, |B|, pos, turns, t);
    var pos', turns' := pos + [a], turns + [t];
    forall j | 0 <= j < |pos'| ensures ColourTurn(B, pos'[j], Taken(turns'[..j]), turns'[j]) {
      if j < |pos| {
        assert pos'[j] == pos[j] && turns'[j] == turns[j] && turns'[..j] == turns[..j];
      } else {
        assert turns'[..j] == turns;
      }
    }
  }

  /**
   * A pass gathers every segment of its groups into the groups it keeps: each absorbed group's
   * segments go to its absorber, and nothing else is added.
   */
  lemma OutcomeKeepsSegments(S: seq<set<Segment>>, B: seq<set<Segment>>, S2: seq<set<Segment>>,
                             B2: seq<set<Segment>>, pos: seq<int>, turns: seq<Turn<Segment>>)
    requires MergeOutcome(S, B, S2, B2, pos, turns)
    ensures SeqUnion(S2) == SeqUnion(S)
  {
    forall x | x in SeqUnion(S) ensures x in SeqUnion(S2) {
      var k :| 0 <= k < |S| && x in S[k];
      if k in pos {
        var j :| 0 <= j < |pos| && pos[j] == k;
        assert x in S2[j];
      } else {
        var j :| 0 <= j < |turns| && turns[j].Took? && turns[j].partner == k;
        assert x in S2[j];
      }
    }
    forall x | x in SeqUnion(S2) ensures x in SeqUnion(S) {
      var j :| 0 <= j < |S2| && x in S2[j];
      assert ColourTurn(B, pos[j], Taken(turns[..j]), turns[j]);
      if turns[j].Took? && x in S[turns[j].partner] {
        assert x in S[turns[j].partner];
      } else {
        assert x in S[pos[j]];
      }
    }
  }

  /** Two positions of the colour list holding different colour groups (Python's `group != other_group`). */
  ghost predicate Candidate(C: seq<Group>, i: int, j: int) {
    0 <= i < |C| && 0 <= j < |C| && C[i] != C[j]
  }

  /** `calculate_intersection` of the colour groups at `i` and `j`, whose segment sets are `P[i]` and `P[j]`. */
  ghost function Cost(P: seq<set<Segment>>, i: int, j: int): nat
    requires 0 <= i < |P| && 0 <= j < |P|
  {
    IntersectionCount(P[i], P[j])
  }

  /** The groups `gs` have, in order, the segment sets `P`. */
  ghost predicate Mirrors(gs: seq<Group>, P: seq<set<Segment>>)
    reads gs
  {
    |gs| == |P| && forall k :: 0 <= k < |gs| ==> gs[k].segments == P[k]
  }

  /** The groups keyed in `m` have the segment sets `m` maps them to, and keep their border shape. */
  ghost predicate Keyed(m: map<Group, set<Segment>>)
    reads m.Keys
  {
    forall g :: g in m ==> g.segments == m[g] && g.WellFormed()
  }

  /** Colour group numbers follow strands: two segments of one hexagon with one colour lie on one strand. */
  ghost predicate ColoursFollowStrands(all: set<Segment>, strands: seq<set<Segment>>)
    reads all
  {
    forall x, y :: x in all && y in all && x.id == y.id && x.colourGroup == y.colourGroup ==>
      exists i :: 0 <= i < |strands| && x in strands[i] && y in strands[i]
  }

  /** `list.index`: the first position holding `x`. */
  method IndexOf(s: seq<Group>, x: Group) returns (i: int)
    requires x in s
    ensures 0 <= i < |s| && s[i] == x
    ensures forall k :: 0 <= k < i ==> s[k] != x
  {
    i := 0;
    while s[i] != x
      invariant 0 <= i < |s|
      invariant forall k :: 0 <= k < i ==> s[k] != x
      invariant x in s[i..]
      decreases |s| - i
    {
      i := i + 1;
    }
  }

  /** The borders of a list with one more group. */
  lemma BordersAppend(gs: seq<Group>, g: Group)
    ensures Borders(gs + [g]) == Borders(gs) + [g.borderSegments]
  {
    assert (gs + [g])[..|gs|] == gs;
  }

  /** Borders that differ from `before` only at group `k`, which is now `x`. */
  lemma BordersSet(gs: seq<Group>, before: seq<set<Segment>>, k: int, x: set<Segment>)
    requires |before| == |gs| && 0 <= k < |gs| && gs[k].borderSegments == x
    requires forall j :: 0 <= j < |gs| && j != k ==> gs[j].borderSegments == before[j]
    ensures Borders(gs) == before[k := x]
  {
  }

  /** No border segment of the first `k` borders of `B` is one that `segment` continues. */
  ghost predicate NoneJoinsBefore(B: seq<set<Segment>>, k: int, segment: Segment) {
    0 <= k <= |B| && forall l, b :: 0 <= l < k && b in B[l] ==> !Joins(b, segment)
  }

  /**
   * The search of the builder loop: the first group of `L` one of whose border segments
   * `segment` continues, with that border segment (`test_segment`'s `old_end`), or `None`
   * when no group has one.
   */
  method FindGroupFor(L: seq<Group>, segment: Segment) returns (k: int, oldEnd: Option<Segment>)
    ensures oldEnd.Some? ==>
      && 0 <= k < |L| && oldEnd.value in L[k].borderSegments && Joins(oldEnd.value, segment)
      && forall l :: 0 <= l < k ==> forall b :: b in L[l].borderSegments ==> !Joins(b, segment)
    ensures oldEnd.None? ==> k == |L| && forall l :: 0 <= l < |L| ==> forall b :: b in L[l].borderSegments ==> !Joins(b, segment)
  {
    k := 0;
    oldEnd := None;
    while k < |L|
      invariant 0 <= k <= |L|
      invariant oldEnd.None?
      invariant forall l :: 0 <= l < k ==> forall b :: b in L[l].borderSegments ==> !Joins(b, segment)
    {
      oldEnd := L[k].TestSegment(segment);
      if oldEnd.Some? {
        return;
      }
      k := k + 1;
    }
  }

  /** The overlap test of `groups_colouring`: do some two segments of `a` and `b` share a hexagon? */
  method Overlaps(a: set<Segment>, b: set<Segment>) returns (found: bool)
    ensures found <==> !(Ids(a) !! Ids(b))
  {
    found := false;
    var restA := a;
    while restA != {}
      invariant restA <= a
      invariant Ids(a - restA) !! Ids(b)
      decreases restA
    {
      var segment :| segment in restA;
      var restB := b;
      while restB != {}
        invariant restB <= b
        invariant forall y :: y in b - restB ==> y.id != segment.id
        decreases restB
      {
        var colourSegment :| colourSegment in restB;
        if segment.id == colourSegment.id {
          assert segment.id in Ids(a) && segment.id in Ids(b);
          return true;
        }
        restB := restB - {colourSegment};
      }
      assert b - restB == b;
      assert segment.id !in Ids(b);
      assert Ids(a - (restA - {segment})) == Ids(a - restA) + {segment.id};
      restA := restA - {segment};
    }
    assert a - restA == a;
  }

  /**
   * The colour-group search of `groups_colouring` for one group: the position of the first
   * colour group none of whose segments shares a hexagon with the group, or `|C|` if every
   * colour group has such a segment.
   */
  method FindColourFor(group: Group, C: seq<Group>) returns (k: int)
    ensures 0 <= k <= |C|
    ensures k < |C| ==> Ids(C[k].segments) !! Ids(group.segments)
    ensures forall j :: 0 <= j < k ==> !(Ids(C[j].segments) !! Ids(group.segments))
  {
    k := 0;
    while k < |C|
      invariant 0 <= k <= |C|
      invariant forall j :: 0 <= j < k ==> !(Ids(C[j].segments) !! Ids(group.segments))
    {
      var overlapFound := Overlaps(group.segments, C[k].segments);
      if !overlapFound {
        return;
      }
      k := k + 1;
    }
  }

  /** A position with the two properties of the first free bucket is the first free bucket. */
  lemma FirstFreeIs(contents: seq<set<Segment>>, s: set<Segment>, k: int)
    requires 0 <= k <= |contents|
    requires k < |contents| ==> Ids(contents[k]) !! Ids(s)
    requires forall j :: 0 <= j < k ==> !(Ids(contents[j]) !! Ids(s))
    ensures FirstFree(contents, s, 0) == k
  {
  }

  /**
   * The scan of `merge_colour_groups_with_smallest_intersection`: the first pair, in the order of
   * its nested loops, of distinct colour groups with the smallest intersection below the 10000000
   * start value; `None` when no pair gets below it (the variables stay unbound in Python).
   */
  method FindSmallestPair(C: seq<Group>, ghost P: seq<set<Segment>>) returns (r: Option<(int, int)>)
    requires Mirrors(C, P)
    ensures r.None? <==> forall i, j :: Candidate(C, i, j) ==> Cost(P, i, j) >= Sentinel
    ensures r.Some? ==>
      && Candidate(C, r.value.0, r.value.1)
      && Cost(P, r.value.0, r.value.1) < Sentinel
      && (forall i, j :: Candidate(C, i, j) ==> Cost(P, i, j) >= Cost(P, r.value.0, r.value.1))
      && (forall i, j :: Candidate(C, i, j) && RowMajorBefore(i, j, r.value.0, r.value.1) ==>
            Cost(P, i, j) > Cost(P, r.value.0, r.value.1))
    ensures r.Some? && Distinct(C) ==> r.value.0 < r.value.1
  {
    var smallestIntersection := Sentinel;
    r := None;
    var i := 0;
    while i < |C|
      invariant 0 <= i <= |C|
      invariant r.None? ==> smallestIntersection == Sentinel
      invariant r.Some? ==> Candidate(C, r.value.0, r.value.1) && r.value.0 < i
      invariant r.Some? ==> smallestIntersection == Cost(P, r.value.0, r.value.1) < Sentinel
      invariant forall x, y :: Candidate(C, x, y) && x < i ==> Cost(P, x, y) >= smallestIntersection
      invariant r.Some? ==> forall x, y :: Candidate(C, x, y) && RowMajorBefore(x, y, r.value.0, r.value.1) ==>
        Cost(P, x, y) > smallestIntersection
    {
      var j := 0;
      while j < |C|
        invariant 0 <= j <= |C|
        invariant r.None? ==> smallestIntersection == Sentinel
        invariant r.Some? ==> Candidate(C, r.value.0, r.value.1) && RowMajorBefore(r.value.0, r.value.1, i, j)
        invariant r.Some? ==> smallestIntersection == Cost(P, r.value.0, r.value.1) < Sentinel
        invariant forall x, y :: Candidate(C, x, y) && RowMajorBefore(x, y, i, j) ==> Cost(P, x, y) >= smallestIntersection
        invariant r.Some? ==> forall x, y :: Candidate(C, x, y) && RowMajorBefore(x, y, r.value.0, r.value.1) ==>
          Cost(P, x, y) > smallestIntersection
      {
        if C[i] != C[j] {
          var intersection := C[i].CalculateIntersection(C[j]);
          if intersection < smallestIntersection {
            smallestIntersection := intersection;
            r := Some((i, j));
          }
        }
        j := j + 1;
      }
      i := i + 1;
    }
    if r.Some? {
      var (a, b) := r.value;
      IntersectionSymmetric(P[a], P[b]);
      if Distinct(C) {
        assert a != b;
        assert Candidate(C, b, a);
      }
    }
  }

  /**
   * `merge_colour_groups_with_smallest_intersection` merged colour groups `a` and `b` of the
   * colour partition `P`, leaving `P'`: their intersection is below 10000000 and no pair of
   * different colour groups has a smaller one, no pair before them in the scan's row-major
   * order has one as small, and `b` was folded into `a` and removed.
   */
  ghost predicate CheapestMerge(P: seq<set<Segment>>, a: int, b: int, P': seq<set<Segment>>) {
    && 0 <= a < b < |P|
    && Cost(P, a, b) < Sentinel
    && (forall i, j :: 0 <= i < |P| && 0 <= j < |P| && i != j ==> Cost(P, i, j) >= Cost(P, a, b))
    && (forall i, j :: 0 <= i < |P| && 0 <= j < |P| && i != j && RowMajorBefore(i, j, a, b) ==> Cost(P, i, j) > Cost(P, a, b))
    && P' == MergeParts(P, a, b)
  }

  /** Over distinct colour groups, the candidate pairs are the pairs of different positions. */
  lemma CheapestFromCandidates(C: seq<Group>, P: seq<set<Segment>>, a: int, b: int, P': seq<set<Segment>>)
    requires Distinct(C) && |C| == |P| && 0 <= a < b < |P| && Cost(P, a, b) < Sentinel
    requires forall i, j :: Candidate(C, i, j) ==> Cost(P, i, j) >= Cost(P, a, b)
    requires forall i, j :: Candidate(C, i, j) && RowMajorBefore(i, j, a, b) ==> Cost(P, i, j) > Cost(P, a, b)
    requires P' == MergeParts(P, a, b)
    ensures CheapestMerge(P, a, b, P')
  {
    forall i, j | 0 <= i < |P| && 0 <= j < |P| && i != j ensures Candidate(C, i, j) {
      if i < j {
        assert C[i] != C[j];
      } else {
        assert C[j] != C[i];
      }
    }
  }

  /**
   * The colour reduction loop went from `trace[0]` to the last entry of `trace`: step `k`
   * merged the pair `pairs[k]` of `trace[k]` as `merge_colour_groups_with_smallest_intersection`
   * does, leaving `trace[k + 1]`.
   */
  ghost predicate ReduceTrace(trace: seq<seq<set<Segment>>>, pairs: seq<(int, int)>) {
    && |trace| == |pairs| + 1
    && forall k :: 0 <= k < |pairs| ==> CheapestMerge(trace[k], pairs[k].0, pairs[k].1, trace[k + 1])
  }

  /** One more smallest-intersection merge extends the trace. */
  lemma ReduceTraceExtend(trace: seq<seq<set<Segment>>>, pairs: seq<(int, int)>, a: int, b: int, next: seq<set<Segment>>)
    requires ReduceTrace(trace, pairs) && CheapestMerge(trace[|trace| - 1], a, b, next)
    ensures ReduceTrace(trace + [next], pairs + [(a, b)])
  {
    var trace', pairs' := trace + [next], pairs + [(a, b)];
    forall k | 0 <= k < |pairs'| ensures CheapestMerge(trace'[k], pairs'[k].0, pairs'[k].1, trace'[k + 1]) {
      if k < |pairs| {
        assert trace'[k] == trace[k] && trace'[k + 1] == trace[k + 1] && pairs'[k] == pairs[k];
      }
    }
  }

  /**
   * The reduction keeps the colour groups a partition of the segments and loses one colour
   * group per merge.
   */
  lemma {:induction false} ReduceTracePartition(trace: seq<seq<set<Segment>>>, pairs: seq<(int, int)>, all: set<Segment>)
    requires ReduceTrace(trace, pairs) && SeqPartition(trace[0], all)
    ensures SeqPartition(trace[|trace| - 1], all)
    ensures |trace[|trace| - 1]| == |trace[0]| - |pairs|
    decreases |pairs|
  {
    if pairs != [] {
      var n := |pairs| - 1;
      assert ReduceTrace(trace[..n + 1], pairs[..n]) by {
        forall k | 0 <= k < n ensures CheapestMerge(trace[..n + 1][k], pairs[..n][k].0, pairs[..n][k].1, trace[..n + 1][k + 1]) {
          assert CheapestMerge(trace[k], pairs[k].0, pairs[k].1, trace[k + 1]);
        }
      }
      ReduceTracePartition(trace[..n + 1], pairs[..n], all);
      assert CheapestMerge(trace[n], pairs[n].0, pairs[n].1, trace[n + 1]);
      MergePartsPartition(trace[n], all, pairs[n].0, pairs[n].1);
    }
  }

  /**
   * `group.add_group(other_group, ...)` in `merge_groups`: `group` takes in `other`'s segments
   * and border through the two connecting ends. The groups keyed in `m` split `all`, so the two
   * borders are disjoint and `add_group` never reaches its ValueError; the keyed parts, with
   * `other`'s folded into `group`'s, still split `all`.
   */
  method AbsorbGroup(group: Group, other: Group, endG1: Segment, endG2: Segment,
                     ghost m: map<Group, set<Segment>>, ghost all: set<Segment>)
    returns (ghost m': map<Group, set<Segment>>)
    requires group in m && other in m && group != other
    requires Keyed(m) && PartitionSets(m, all)
    requires endG1 in group.borderSegments && endG2 in other.borderSegments
    modifies group
    ensures group.segments == old(group.segments) + other.segments
    ensures Some(group.borderSegments) ==
      BorderAfterAddGroup(old(group.borderSegments) + other.borderSegments, |other.borderSegments|, endG1, endG2)
    ensures m' == m[group := m[group] + m[other]] - {other}
    ensures Keyed(m') && PartitionSets(m', all)
  {
    assert KeysApart(m, group, other);
    assert group.WellFormed() && other.WellFormed();
    MergedBorderShape(group.borderSegments, other.borderSegments, endG1, endG2);
    var ok := group.AddGroup(other, endG1, endG2);
    assert ok;
    PartitionMerge(m, all, group, other);
    m' := m[group := m[group] + m[other]] - {other};
    forall g | g in m' ensures g.segments == m'[g] && g.WellFormed() {
      if g != group {
        assert g in m;
      }
    }
  }

  /** The groups from position `a` on still have the segments `S` and borders `B` the pass started with. */
  ghost predicate Untouched(U: seq<Group>, a: int, S: seq<set<Segment>>, B: seq<set<Segment>>)
    reads U
  {
    && |S| == |U| && |B| == |U|
    && (forall k {:trigger S[k]} :: 0 <= a <= k < |U| ==> U[k].segments == S[k])
    && (forall k {:trigger B[k]} :: 0 <= a <= k < |U| ==> U[k].borderSegments == B[k])
  }

  /** Each group of the new list is the group at its kept position `pos[j]`, as its turn left it. */
  ghost predicate Traced(U: seq<Group>, newList: seq<Group>, S: seq<set<Segment>>, B: seq<set<Segment>>,
                         pos: seq<int>, turns: seq<Turn<Segment>>)
    reads newList
  {
    && |S| == |U| && |B| == |U| && |newList| == |pos| == |turns|
    && forall j :: 0 <= j < |pos| ==>
         && 0 <= pos[j] < |U| && newList[j] == U[pos[j]] && (turns[j].Took? ==> 0 <= turns[j].partner < |U|)
         && newList[j].segments == SegmentsAfter(S, pos[j], turns[j])
         && Some(newList[j].borderSegments) == BorderAfter(B, pos[j], turns[j])
  }

  /**
   * What `FindPartner` reports for group `a`, read against the borders the pass started with,
   * is its `ColourTurn`: the groups not checked after `a` are those not absorbed.
   */
  lemma PartnerTurn(U: seq<Group>, a: int, checked: seq<Group>, absorbed: set<int>,
                    S: seq<set<Segment>>, B: seq<set<Segment>>, t: Turn<Segment>)
    requires 0 <= a < |U| && Distinct(U) && CheckedState(U, a, checked, absorbed) && Untouched(U, a, S, B)
    requires t.Took? ==>
      && a < t.partner < |U| && t.partner !in absorbed
      && t.end in U[a].borderSegments && t.partnerEnd in U[t.partner].borderSegments && Joins(t.end, t.partnerEnd)
    requires forall y :: 0 <= y < |U| && (t.Took? ==> y < t.partner) && U[y] != U[a] && U[y] !in checked ==>
      !CanMerge(U[a], U[y])
    ensures ColourTurn(B, a, absorbed, t)
  {
    forall y | a < y < |B| && y !in absorbed && (t.Took? ==> y < t.partner) ensures !BordersMeet(B[a], B[y]) {
      assert U[y] != U[a] && U[y] !in checked;
      assert !CanMerge(U[a], U[y]);
    }
  }

  /** The group at position `a`, as its turn `t` left it, joins the traced new list. */
  lemma TracedAppend(U: seq<Group>, newList: seq<Group>, S: seq<set<Segment>>, B: seq<set<Segment>>,
                     pos: seq<int>, turns: seq<Turn<Segment>>, a: int, t: Turn<Segment>)
    requires Traced(U, newList, S, B, pos, turns) && 0 <= a < |U| && (t.Took? ==> 0 <= t.partner < |U|)
    requires U[a].segments == SegmentsAfter(S, a, t) && Some(U[a].borderSegments) == BorderAfter(B, a, t)
    ensures Traced(U, newList + [U[a]], S, B, pos + [a], turns + [t])
  {
    var newList', pos', turns' := newList + [U[a]], pos + [a], turns + [t];
    forall j | 0 <= j < |pos'|
      ensures && 0 <= pos'[j] < |U| && newList'[j] == U[pos'[j]] && (turns'[j].Took? ==> 0 <= turns'[j].partner < |U|)
              && newList'[j].segments == SegmentsAfter(S, pos'[j], turns'[j])
              && Some(newList'[j].borderSegments) == BorderAfter(B, pos'[j], turns'[j])
    {
      if j < |pos| {
        assert newList'[j] == newList[j] && pos'[j] == pos[j] && turns'[j] == turns[j];
      }
    }
  }

  /** After the last turn, the new list's segment and border sets are the pass's outcome. */
  lemma TracedOutcome(U: seq<Group>, newList: seq<Group>, S: seq<set<Segment>>, B: seq<set<Segment>>,
                      pos: seq<int>, turns: seq<Turn<Segment>>)
    requires ColourRecord(B, |U|, pos, turns) && Traced(U, newList, S, B, pos, turns)
    ensures PassMerges(Stage(S, B), Pass(pos, turns), StageOf(newList))
  {
  }

  /** Some group of the list at or after position `a`, not absorbed, is `g`. */
  ghost predicate Pending(U: seq<Group>, absorbed: set<int>, a: int, g: Group) {
    exists k :: 0 <= k < |U| && a <= k && k !in absorbed && U[k] == g
  }

  /**
   * The state of one pass of `merge_groups` before group `a` of the pass's list `U`: the new
   * list, the checked groups and the groups still alive (keyed in `m`) are as the three
   * predicates below say, and `merged` records whether anything was absorbed.
   */
  ghost predicate MergeState(U: seq<Group>, a: int, checked: seq<Group>, newList: seq<Group>, merged: bool,
                             absorbed: set<int>, m: map<Group, set<Segment>>, all: set<Segment>)
  {
    && 0 <= a <= |U| && Distinct(U)
    && NewListState(U, a, newList, merged, m)
    && CheckedState(U, a, checked, absorbed)
    && AliveState(U, a, newList, absorbed, m, all)
    && (merged <==> absorbed != {})
    && |absorbed| <= |newList|
  }

  /**
   * The new list holds distinct groups from before position `a`, all alive; without a merge it
   * is the prefix of `U`.
   */
  ghost predicate NewListState(U: seq<Group>, a: int, newList: seq<Group>, merged: bool, m: map<Group, set<Segment>>)
    requires 0 <= a <= |U|
  {
    && Distinct(newList)
    && (forall j :: 0 <= j < |newList| ==> newList[j] in U[..a] && newList[j] in m)
    && (!merged ==> newList == U[..a])
  }

  /** The groups before `a` are checked; a later group is checked exactly when it was absorbed. */
  ghost predicate CheckedState(U: seq<Group>, a: int, checked: seq<Group>, absorbed: set<int>)
    requires 0 <= a <= |U|
  {
    && (forall k :: 0 <= k < a ==> U[k] in checked)
    && (forall k :: a <= k < |U| ==> (U[k] in checked <==> k in absorbed))
    && (forall k :: k in absorbed ==> 0 <= k < |U|)
  }

  /**
   * The alive groups are those of the new list and those still to come that were not absorbed;
   * their segment sets split `all`.
   */
  ghost predicate AliveState(U: seq<Group>, a: int, newList: seq<Group>, absorbed: set<int>,
                             m: map<Group, set<Segment>>, all: set<Segment>)
    requires 0 <= a <= |U|
  {
    && (forall k :: k in absorbed ==> 0 <= k < |U| && U[k] !in m)
    && (forall k :: a <= k < |U| && k !in absorbed ==> U[k] in m)
    && (forall g :: g in m ==> g in newList || Pending(U, absorbed, a, g))
    && PartitionSets(m, all)
    && |m| + |absorbed| == |U|
  }

  /** A pass starts from the groups of a partition, each keyed with its segment set. */
  lemma PassStart(U: seq<Group>, all: set<Segment>) returns (m: map<Group, set<Segment>>)
    requires GroupPartition(U, all)
    ensures MergeState(U, 0, [], [], false, {}, m, all) && Keyed(m)
  {
    m := MapOf(U);
    GroupPartitionMap(U, all);
    GroupPartitionDistinct(U, all);
    forall g | g in m ensures g.segments == m[g] && g.WellFormed() {
      var k :| 0 <= k < |U| && U[k] == g;
    }
    MergeStart(U, m, all);
  }

  /**
   * After the pass the new list splits `all`, holds groups of the old list, is shorter after a
   * merge and is the old list without one.
   */
  lemma PassEnd(U: seq<Group>, checked: seq<Group>, newList: seq<Group>, merged: bool,
                absorbed: set<int>, m: map<Group, set<Segment>>, all: set<Segment>)
    requires MergeState(U, |U|, checked, newList, merged, absorbed, m, all) && Keyed(m)
    ensures GroupPartition(newList, all)
    ensures forall k :: 0 <= k < |newList| ==> newList[k] in U
    ensures !merged ==> newList == U
    ensures |newList| + |absorbed| == |U| && |absorbed| <= |newList|
    ensures merged <==> |absorbed| > 0
  {
    MergeEnd(U, checked, newList, merged, absorbed, m, all);
    BridgePartition(newList, m, all);
    assert U[..|U|] == U;
  }

  /** Before the pass every group is alive and still to come. */
  lemma MergeStart(U: seq<Group>, m: map<Group, set<Segment>>, all: set<Segment>)
    requires Distinct(U) && PartitionSets(m, all) && |m| == |U|
    requires forall k :: 0 <= k < |U| ==> U[k] in m
    requires forall g :: g in m ==> g in U
    ensures MergeState(U, 0, [], [], false, {}, m, all)
  {
    forall g | g in m ensures Pending(U, {}, 0, g) {
      var k :| 0 <= k < |U| && U[k] == g;
    }
  }

  /** A group already absorbed this pass is passed over. */
  lemma SkipStep(U: seq<Group>, a: int, checked: seq<Group>, newList: seq<Group>, merged: bool,
                 absorbed: set<int>, m: map<Group, set<Segment>>, all: set<Segment>)
    requires MergeState(U, a, checked, newList, merged, absorbed, m, all) && a < |U| && U[a] in checked
    ensures MergeState(U, a + 1, checked, newList, merged, absorbed, m, all)
  {
    assert a in absorbed;
    SkipList(U, a, newList, m);
    SkipAlive(U, a, newList, absorbed, m, all);
  }

  lemma SkipList(U: seq<Group>, a: int, newList: seq<Group>, m: map<Group, set<Segment>>)
    requires 0 <= a < |U| && NewListState(U, a, newList, true, m)
    ensures NewListState(U, a + 1, newList, true, m)
  {
    forall j | 0 <= j < |newList| ensures newList[j] in U[..a + 1] {
      assert newList[j] in U[..a];
      var k :| 0 <= k < a && U[..a][k] == newList[j];
      assert U[..a + 1][k] == newList[j];
    }
  }

  lemma SkipAlive(U: seq<Group>, a: int, newList: seq<Group>, absorbed: set<int>,
                  m: map<Group, set<Segment>>, all: set<Segment>)
    requires 0 <= a < |U| && a in absorbed && AliveState(U, a, newList, absorbed, m, all)
    ensures AliveState(U, a + 1, newList, absorbed, m, all)
  {
    forall g | g in m ensures g in newList || Pending(U, absorbed, a + 1, g) {
      if g !in newList {
        var k :| 0 <= k < |U| && a <= k && k !in absorbed && U[k] == g;
        assert k != a;
      }
    }
  }

  /** A group that finds no partner goes to the new list unchanged and is checked. */
  lemma KeepStep(U: seq<Group>, a: int, checked: seq<Group>, newList: seq<Group>, merged: bool,
                 absorbed: set<int>, m: map<Group, set<Segment>>, all: set<Segment>)
    requires MergeState(U, a, checked, newList, merged, absorbed, m, all) && a < |U| && U[a] !in checked
    ensures MergeState(U, a + 1, checked + [U[a]], newList + [U[a]], merged, absorbed, m, all)
  {
    KeepChecked(U, a, checked, absorbed);
    KeepAlive(U, a, newList, absorbed, m, all);
    KeepList(U, a, newList, merged, m);
  }

  lemma KeepList(U: seq<Group>, a: int, newList: seq<Group>, merged: bool, m: map<Group, set<Segment>>)
    requires 0 <= a < |U| && Distinct(U) && U[a] in m && NewListState(U, a, newList, merged, m)
    ensures NewListState(U, a + 1, newList + [U[a]], merged, m)
  {
    var g := U[a];
    forall j | 0 <= j < |newList| ensures newList[j] != g {
      assert newList[j] in U[..a];
      var k :| 0 <= k < a && U[..a][k] == newList[j];
    }
    var newList' := newList + [g];
    forall j | 0 <= j < |newList'| ensures newList'[j] in U[..a + 1] {
      if j < |newList| {
        assert newList[j] in U[..a];
        var k :| 0 <= k < a && U[..a][k] == newList[j];
        assert U[..a + 1][k] == newList[j];
      } else {
        assert U[..a + 1][a] == g;
      }
    }
    if !merged {
      assert U[..a + 1] == U[..a] + [g];
    }
  }

  lemma KeepChecked(U: seq<Group>, a: int, checked: seq<Group>, absorbed: set<int>)
    requires 0 <= a < |U| && Distinct(U) && U[a] !in checked && CheckedState(U, a, checked, absorbed)
    ensures a !in absorbed && CheckedState(U, a + 1, checked + [U[a]], absorbed)
  {
    forall k | a + 1 <= k < |U| ensures U[k] in checked + [U[a]] <==> k in absorbed {
      assert U[k] != U[a];
    }
  }

  lemma KeepAlive(U: seq<Group>, a: int, newList: seq<Group>, absorbed: set<int>,
                  m: map<Group, set<Segment>>, all: set<Segment>)
    requires 0 <= a < |U| && a !in absorbed && AliveState(U, a, newList, absorbed, m, all)
    ensures U[a] in m && AliveState(U, a + 1, newList + [U[a]], absorbed, m, all)
  {
    var newList' := newList + [U[a]];
    forall h | h in m ensures h in newList' || Pending(U, absorbed, a + 1, h) {
      if h !in newList' {
        var k :| 0 <= k < |U| && a <= k && k !in absorbed && U[k] == h;
        assert k != a;
      }
    }
  }

  /**
   * Group `a` absorbs the later group `c`: both are checked, `a` goes to the new list, `c` is
   * no longer alive and its part is folded into `a`'s.
   */
  lemma AbsorbStep(U: seq<Group>, a: int, c: int, checked: seq<Group>, newList: seq<Group>, merged: bool,
                   absorbed: set<int>, m: map<Group, set<Segment>>, all: set<Segment>)
    requires MergeState(U, a, checked, newList, merged, absorbed, m, all) && a < |U| && U[a] !in checked
    requires 0 <= c < |U| && U[c] != U[a] && U[c] !in checked
    ensures a < c && U[a] in m && U[c] in m
    ensures MergeState(U, a + 1, checked + [U[c], U[a]], newList + [U[a]], true, absorbed + {c},
                       m[U[a] := m[U[a]] + m[U[c]]] - {U[c]}, all)
  {
    AbsorbChecked(U, a, c, checked, absorbed);
    AbsorbAlive(U, a, c, newList, absorbed, m, all);
    AbsorbList(U, a, c, newList, merged, m);
  }

  lemma AbsorbList(U: seq<Group>, a: int, c: int, newList: seq<Group>, merged: bool, m: map<Group, set<Segment>>)
    requires 0 <= a < c < |U| && Distinct(U) && U[a] in m && U[c] in m && NewListState(U, a, newList, merged, m)
    ensures NewListState(U, a + 1, newList + [U[a]], true, m[U[a] := m[U[a]] + m[U[c]]] - {U[c]})
  {
    var g, h := U[a], U[c];
    var m' := m[g := m[g] + m[h]] - {h};
    var newList' := newList + [g];
    forall j | 0 <= j < |newList| ensures newList[j] != g && newList[j] != h {
      assert newList[j] in U[..a];
      var k :| 0 <= k < a && U[..a][k] == newList[j];
    }
    forall j | 0 <= j < |newList'| ensures newList'[j] in U[..a + 1] && newList'[j] in m' {
      if j < |newList| {
        assert newList[j] in U[..a];
        var k :| 0 <= k < a && U[..a][k] == newList[j];
        assert U[..a + 1][k] == newList[j];
      } else {
        assert U[..a + 1][a] == g;
      }
    }
  }

  lemma AbsorbChecked(U: seq<Group>, a: int, c: int, checked: seq<Group>, absorbed: set<int>)
    requires 0 <= a < |U| && Distinct(U) && U[a] !in checked && CheckedState(U, a, checked, absorbed)
    requires 0 <= c < |U| && U[c] != U[a] && U[c] !in checked
    ensures a < c && a !in absorbed && c !in absorbed
    ensures CheckedState(U, a + 1, checked + [U[c], U[a]], absorbed + {c})
  {
    assert a != c;
    forall k | a + 1 <= k < |U| ensures U[k] in checked + [U[c], U[a]] <==> k in absorbed + {c} {
      assert U[k] != U[a];
      if k != c {
        assert U[k] != U[c];
      }
    }
  }

  lemma AbsorbAlive(U: seq<Group>, a: int, c: int, newList: seq<Group>, absorbed: set<int>,
                    m: map<Group, set<Segment>>, all: set<Segment>)
    requires 0 <= a < c < |U| && Distinct(U) && a !in absorbed && c !in absorbed
    requires AliveState(U, a, newList, absorbed, m, all)
    ensures U[a] in m && U[c] in m
    ensures AliveState(U, a + 1, newList + [U[a]], absorbed + {c}, m[U[a] := m[U[a]] + m[U[c]]] - {U[c]}, all)
  {
    var g, h := U[a], U[c];
    var m' := m[g := m[g] + m[h]] - {h};
    var absorbed' := absorbed + {c};
    var newList' := newList + [g];
    PartitionMerge(m, all, g, h);
    assert m'.Keys == m.Keys - {h};
    forall k | k in absorbed' ensures 0 <= k < |U| && U[k] !in m' {
    }
    forall k | a + 1 <= k < |U| && k !in absorbed' ensures U[k] in m' {
      assert U[k] != h;
    }
    forall p | p in m' ensures p in newList' || Pending(U, absorbed', a + 1, p) {
      if p !in newList' {
        var k :| 0 <= k < |U| && a <= k && k !in absorbed && U[k] == p;
        assert k != a && k != c;
      }
    }
  }

  /** After the pass the alive groups are exactly those of the new list. */
  lemma MergeEnd(U: seq<Group>, checked: seq<Group>, newList: seq<Group>, merged: bool,
                 absorbed: set<int>, m: map<Group, set<Segment>>, all: set<Segment>)
    requires MergeState(U, |U|, checked, newList, merged, absorbed, m, all)
    ensures forall g :: g in m ==> g in newList
    ensures |newList| == |m|
    ensures merged ==> |newList| < |U|
    ensures !merged ==> newList == U
  {
    assert m.Keys == Elems(newList);
    DistinctCard(newList);
    assert U[..|U|] == U;
  }

  /**
   * The state of one pass of `merge_groups` after the turns of the groups before `a`: the pass
   * state, the record of the turns, the groups from `a` on as the pass found them, and, while
   * nothing has been merged, no group before `a` can be merged with a later one.
   */
  ghost predicate TurnsUpTo(U: seq<Group>, a: int, checked: seq<Group>, newList: seq<Group>, merged: bool,
                            absorbed: set<int>, m: map<Group, set<Segment>>, all: set<Segment>,
                            S: seq<set<Segment>>, B: seq<set<Segment>>, pos: seq<int>, turns: seq<Turn<Segment>>)
    reads U, newList
  {
    && MergeState(U, a, checked, newList, merged, absorbed, m, all) && Keyed(m)
    && ColourRecord(B, a, pos, turns) && absorbed == Taken(turns)
    && Untouched(U, a, S, B) && Traced(U, newList, S, B, pos, turns)
    && (!merged ==> SettledBefore(U, a))
  }

  /** No group before position `a` of `U` can be merged with a later one. */
  ghost predicate SettledBefore(U: seq<Group>, a: int)
    reads U
  {
    forall x, y {:trigger CanMerge(U[x], U[y])} :: 0 <= x < a && x < y < |U| ==> !CanMerge(U[x], U[y])
  }

  /** A group that can be merged with no later group extends the settled prefix. */
  lemma SettledStep(U: seq<Group>, a: int, checked: seq<Group>)
    requires SettledBefore(U, a) && 0 <= a < |U| && Distinct(U) && forall k :: a < k < |U| ==> U[k] !in checked
    requires forall y :: 0 <= y < |U| && U[y] != U[a] && U[y] !in checked ==> !CanMerge(U[a], U[y])
    ensures SettledBefore(U, a + 1)
  {
    forall x, y | 0 <= x < a + 1 && x < y < |U| ensures !CanMerge(U[x], U[y]) {
      if x == a {
        assert U[y] != U[a] && U[y] !in checked;
      }
    }
  }
}
