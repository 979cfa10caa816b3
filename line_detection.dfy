/**
 * The legacy strand detector (line_detection.py): the same grouping and colouring idea as
 * `_Group` and `_Colouring`, but open ends are `Line` values kept in lists, groups keep their
 * segments in lists, and the neighbour table ignores the row parity.
 *
 * `Line` and `Segment` are never changed after construction and are compared by value here.
 * In a grid whose hexagon ids are distinct, two lines with equal fields are the same edge of
 * the same hexagon, so value comparison agrees with Python's identity comparison there.
 */
module LineDetection {
  import opened Wrappers
  import opened Adjacency
  import opened Tiles
  import opened Sorting
  import opened PassRecords
  import ColouringSpec

  /** `Line(id, outer_line)`: edge `outerLine` of hexagon `id`, an open end of a strand. */
  datatype Line = Line(id: HexId, outerLine: int)

  /** `Segment(id, connection)`: a curve piece of hexagon `id` with one `Line` per edge it joins. */
  datatype Segment = Segment(id: HexId, connection: Connection, outerLines: seq<Line>)

  /** A tile of the grid the detector reads: its id and its edge pairs. */
  datatype Tile = Tile(id: HexId, connection: seq<Connection>)

  /** `Segment.__init__`: the lines of the two edges of the pair, in pair order. */
  function NewSegment(id: HexId, connection: Connection): (s: Segment)
    ensures TwoLines(s) && s.id == id && s.connection == connection
  {
    Segment(id, connection, [Line(id, connection.0), Line(id, connection.1)])
  }

  /** Every segment built by `NewSegment` has exactly two lines. */
  predicate TwoLines(s: Segment) {
    |s.outerLines| == 2
  }

  /**
   * The neighbour table of `test_segment` and `can_merge`: the hexagon across edge `e` of `h`,
   * with the same column step in every row.
   */
  function LegacyNeighbour(h: HexId, e: Edge): HexId {
    if e == 0 then HexId(h.x + 1, h.y + 1)
    else if e == 1 then HexId(h.x, h.y + 2)
    else if e == 2 then HexId(h.x, h.y + 1)
    else if e == 3 then HexId(h.x, h.y - 1)
    else if e == 4 then HexId(h.x, h.y - 2)
    else HexId(h.x + 1, h.y - 1)
  }

  /**
   * The legacy table is the row-parity table of the odd rows; in an even row it agrees with
   * that table only across the two vertical edges 1 and 4.
   */
  lemma LegacyNeighbourAgreement(h: HexId, e: Edge)
    ensures OddRow(h) ==> LegacyNeighbour(h, e) == Neighbour(h, e)
    ensures !OddRow(h) ==> (LegacyNeighbour(h, e) == Neighbour(h, e) <==> e == 1 || e == 4)
  {
  }

  /**
   * Stepping across edge `e` and back across the touching edge returns to the start only across
   * the vertical edges: the legacy table does not undo itself for the four diagonal edges.
   */
  lemma LegacyReturn(h: HexId, e: Edge)
    ensures LegacyNeighbour(LegacyNeighbour(h, e), Opposite(e)) == h <==> e == 1 || e == 4
  {
  }

  /** From hexagon (0, 0) across edge 0 and back across edge 3 leads to (1, 0). */
  lemma LegacyStepNotReversible()
    ensures LegacyNeighbour(HexId(0, 0), 0) == HexId(1, 1)
    ensures LegacyNeighbour(LegacyNeighbour(HexId(0, 0), 0), Opposite(0)) == HexId(1, 0)
  {
  }

  /**
   * The rule `test_segment` applies to one open end: the segment lies across the end's edge `e`
   * and one of its lines is on edge `(e + 3) % 6`; the result is the segment's other line, the
   * new open end (the first line is tried first).
   */
  function Continuation(end: Line, s: Segment): (r: Option<Line>)
    requires TwoLines(s)
    ensures r.Some? <==>
      && 0 <= end.outerLine < 6 && s.id == LegacyNeighbour(end.id, end.outerLine)
      && (s.outerLines[0].outerLine == Opposite(end.outerLine) || s.outerLines[1].outerLine == Opposite(end.outerLine))
    ensures r.Some? ==> exists i :: 0 <= i < 2 && s.outerLines[i].outerLine == Opposite(end.outerLine) && r.value == s.outerLines[1 - i]
  {
    if 0 <= end.outerLine < 6 && s.id == LegacyNeighbour(end.id, end.outerLine) then
      var o := Opposite(end.outerLine);
      if s.outerLines[0].outerLine == o then Some(s.outerLines[1])
      else if s.outerLines[1].outerLine == o then Some(s.outerLines[0])
      else None
    else None
  }

  /** The rule of `can_merge`: `end2` lies across `end1`'s edge `e`, on edge `(e + 3) % 6`. */
  predicate EndsMeet(end1: Line, end2: Line) {
    0 <= end1.outerLine < 6 && end2.id == LegacyNeighbour(end1.id, end1.outerLine) && end2.outerLine == Opposite(end1.outerLine)
  }

  /**
   * The segment test and the merge test apply one rule: a segment continues an open end exactly
   * when one of its lines meets that end.
   */
  lemma ContinuationMeets(end: Line, id: HexId, connection: Connection)
    ensures var s := NewSegment(id, connection);
      Continuation(end, s).Some? <==> exists i :: 0 <= i < 2 && EndsMeet(end, s.outerLines[i])
  {
    var s := NewSegment(id, connection);
    if Continuation(end, s).Some? {
      if s.outerLines[0].outerLine == Opposite(end.outerLine) {
        assert EndsMeet(end, s.outerLines[0]);
      } else {
        assert EndsMeet(end, s.outerLines[1]);
      }
    }
  }

  /** Two open ends need not meet in both orders: the merge test is not symmetric. */
  lemma EndsMeetNotSymmetric()
    ensures EndsMeet(Line(HexId(0, 0), 0), Line(HexId(1, 1), 3))
    ensures !EndsMeet(Line(HexId(1, 1), 3), Line(HexId(0, 0), 0))
  {
  }

  /** `list.remove(x)`: drop the first occurrence of `x`, which must be present. */
  function RemoveFirst(s: seq<Line>, x: Line): (r: seq<Line>)
    ensures x !in s ==> r == s
    ensures x in s ==> |r| == |s| - 1 && multiset(r) == multiset(s) - multiset{x}
  {
    if s == [] then []
    else if s[0] == x then
      assert s == [s[0]] + s[1..];
      s[1..]
    else
      assert s == [s[0]] + s[1..];
      [s[0]] + RemoveFirst(s[1..], x)
  }

  /** The position of the first occurrence of `x` in `s`. */
  function FirstIndex(s: seq<Line>, x: Line): (i: int)
    requires x in s
    ensures 0 <= i < |s| && s[i] == x
    ensures forall k :: 0 <= k < i ==> s[k] != x
  {
    if s[0] == x then 0
    else
      assert s == [s[0]] + s[1..];
      FirstIndex(s[1..], x) + 1
  }

  /** What `list.remove(x)` removes is the first occurrence: the entries around it stay in order. */
  lemma {:induction false} RemoveFirstSplit(s: seq<Line>, x: Line)
    requires x in s
    ensures RemoveFirst(s, x) == s[..FirstIndex(s, x)] + s[FirstIndex(s, x) + 1..]
  {
    if s[0] != x {
      RemoveFirstStep(s, x);
      RemoveFirstSplit(s[1..], x);
      SplitAfterHead(s, FirstIndex(s, x));
    }
  }

  lemma RemoveFirstStep(s: seq<Line>, x: Line)
    requires x in s && s[0] != x
    ensures x in s[1..]
    ensures RemoveFirst(s, x) == [s[0]] + RemoveFirst(s[1..], x)
    ensures FirstIndex(s, x) == FirstIndex(s[1..], x) + 1
  {
    assert s == [s[0]] + s[1..];
  }

  lemma SplitAfterHead<T>(s: seq<T>, i: int)
    requires 0 < i < |s|
    ensures [s[0]] + (s[1..][..i - 1] + s[1..][i..]) == s[..i] + s[i + 1..]
  {
    assert s[..i] == [s[0]] + s[1..][..i - 1];
    assert s[i + 1..] == s[1..][i..];
  }

  /**
   * The open ends after `add_group(group, old_end, new_end)`: `new_end` is appended if given,
   * then `old_end` is removed if given and present.
   */
  function AddGroupEnds(ends: seq<Line>, oldEnd: Option<Line>, newEnd: Option<Line>): seq<Line> {
    var grown := ends + (if newEnd.Some? then [newEnd.value] else []);
    if oldEnd.Some? && oldEnd.value in grown then RemoveFirst(grown, oldEnd.value) else grown
  }

  /**
   * With both ends given and `old_end` open, `add_group` swaps the one end for the other and
   * keeps the number of open ends.
   */
  lemma AddGroupEndsSwap(ends: seq<Line>, oldEnd: Line, newEnd: Line)
    requires oldEnd in ends
    ensures var r := AddGroupEnds(ends, Some(oldEnd), Some(newEnd));
      |r| == |ends| && multiset(r) == multiset(ends) - multiset{oldEnd} + multiset{newEnd}
  {
    var grown := ends + [newEnd];
    assert oldEnd in grown;
    assert multiset(grown) == multiset(ends) + multiset{newEnd};
  }

  /** Without ends, `add_group` leaves the open ends as they are. */
  lemma AddGroupEndsNone(ends: seq<Line>)
    ensures AddGroupEnds(ends, None, None) == ends
  {
  }

  class Group {
    /** `self.id`. */
    const id: int
    /** `self.segments`. */
    var segments: seq<Segment>
    /** `self.open_ends`. */
    var openEnds: seq<Line>

    /** `Group(id, segment)`: with a segment, it and its two lines; without, nothing. */
    constructor (id: int, segment: Option<Segment>)
      requires segment.Some? ==> TwoLines(segment.value)
      ensures this.id == id
      ensures segment.None? ==> segments == [] && openEnds == []
      ensures segment.Some? ==> segments == [segment.value] && openEnds == segment.value.outerLines
    {
      this.id := id;
      if segment.Some? {
        segments := [segment.value];
        openEnds := [segment.value.outerLines[0], segment.value.outerLines[1]];
      } else {
        segments := [];
        openEnds := [];
      }
    }

    /** `copy.deepcopy(group)`: a new group with the same id, segments and open ends. */
    constructor Copy(c: GroupCopy)
      ensures id == c.id && segments == c.segments && openEnds == c.openEnds
    {
      id := c.id;
      segments := c.segments;
      openEnds := c.openEnds;
    }

    /**
     * `add_segment(segment, new_end, old_end)`: the segment is appended; then `old_end` is
     * removed, which raises ValueError (`ok` false, open ends unchanged) when it is not open,
     * and `new_end` is appended. On success the number of open ends is unchanged.
     */
    method AddSegment(segment: Segment, newEnd: Line, oldEnd: Line) returns (ok: bool)
      modifies this`segments, this`openEnds
      ensures segments == old(segments) + [segment]
      ensures ok <==> oldEnd in old(openEnds)
      ensures ok ==> openEnds == RemoveFirst(old(openEnds), oldEnd) + [newEnd]
      ensures !ok ==> openEnds == old(openEnds)
      ensures ok ==> |openEnds| == |old(openEnds)|
      ensures ok ==> multiset(openEnds) == multiset(old(openEnds)) - multiset{oldEnd} + multiset{newEnd}
    {
      segments := segments + [segment];
      if oldEnd !in openEnds {
        return false;
      }
      openEnds := RemoveFirst(openEnds, oldEnd);
      openEnds := openEnds + [newEnd];
      ok := true;
    }

    /** `add_group(group, old_end, new_end)`: the other group's segments are appended, then the ends updated. */
    method AddGroup(group: Group, oldEnd: Option<Line>, newEnd: Option<Line>)
      modifies this`segments, this`openEnds
      ensures segments == old(segments) + old(group.segments)
      ensures openEnds == AddGroupEnds(old(openEnds), oldEnd, newEnd)
    {
      segments := segments + group.segments;
      if newEnd.Some? {
        openEnds := openEnds + [newEnd.value];
      } else {
        assert openEnds == openEnds + [];
      }
      if oldEnd.Some? && oldEnd.value in openEnds {
        openEnds := RemoveFirst(openEnds, oldEnd.value);
      }
    }

    /**
     * `test_segment(segment)`: the first open end, in list order, that the segment continues,
     * with the segment's other line as the new end; `None` (`(False, False, False)`) when the
     * segment continues no open end.
     */
    method TestSegment(segment: Segment) returns (r: Option<(Line, Line)>)
      requires TwoLines(segment)
      ensures r.None? <==> forall k :: 0 <= k < |openEnds| ==> Continuation(openEnds[k], segment).None?
      ensures r.Some? ==> exists k :: FirstContinued(openEnds, segment, k, r.value.0, r.value.1)
    {
      var k := 0;
      while k < |openEnds|
        invariant 0 <= k <= |openEnds|
        invariant forall j :: 0 <= j < k ==> Continuation(openEnds[j], segment).None?
      {
        var openEnd := openEnds[k];
        var next := Continuation(openEnd, segment);
        if next.Some? {
          assert FirstContinued(openEnds, segment, k, next.value, openEnd);
          return Some((next.value, openEnd));
        }
        k := k + 1;
      }
      return None;
    }
  }

  /** Open end `k` is the first that `segment` continues: it is `openEnd`, with new end `newEnd`. */
  predicate FirstContinued(openEnds: seq<Line>, segment: Segment, k: int, newEnd: Line, openEnd: Line)
    requires TwoLines(segment)
  {
    && 0 <= k < |openEnds| && openEnds[k] == openEnd
    && Continuation(openEnd, segment) == Some(newEnd)
    && forall j :: 0 <= j < k ==> Continuation(openEnds[j], segment).None?
  }

  /** The fields of a group, as `copy.deepcopy` copies them. */
  datatype GroupCopy = GroupCopy(id: int, segments: seq<Segment>, openEnds: seq<Line>)

  /** Pair `(i, j)` of open ends comes before pair `(i2, j2)` in the row-major order of `can_merge`. */
  predicate PairBefore(i: int, j: int, i2: int, j2: int) {
    i < i2 || (i == i2 && j < j2)
  }

  /** Some open end of the first list meets some open end of the second. */
  predicate Meet(ends1: seq<Line>, ends2: seq<Line>) {
    exists i, j :: 0 <= i < |ends1| && 0 <= j < |ends2| && EndsMeet(ends1[i], ends2[j])
  }

  /** `(i, j)` is the first pair, in row-major order, whose ends meet. */
  predicate FirstMeeting(ends1: seq<Line>, ends2: seq<Line>, i: int, j: int) {
    && 0 <= i < |ends1| && 0 <= j < |ends2| && EndsMeet(ends1[i], ends2[j])
    && forall i2, j2 :: 0 <= i2 < |ends1| && 0 <= j2 < |ends2| && PairBefore(i2, j2, i, j) ==> !EndsMeet(ends1[i2], ends2[j2])
  }

  /**
   * `can_merge(group1, group2)` on the two open-end lists: the first meeting pair `(end1, end2)`,
   * or `None` (`(False, False, False)`) when no end of the first meets an end of the second.
   */
  method CanMerge(ends1: seq<Line>, ends2: seq<Line>) returns (r: Option<(Line, Line)>)
    ensures r.None? <==> !Meet(ends1, ends2)
    ensures r.Some? ==> exists i, j :: FirstMeeting(ends1, ends2, i, j) && r.value == (ends1[i], ends2[j])
  {
    var i := 0;
    while i < |ends1|
      invariant 0 <= i <= |ends1|
      invariant forall i2, j2 :: 0 <= i2 < i && 0 <= j2 < |ends2| ==> !EndsMeet(ends1[i2], ends2[j2])
    {
      var j := 0;
      while j < |ends2|
        invariant 0 <= j <= |ends2|
        invariant forall j2 :: 0 <= j2 < j ==> !EndsMeet(ends1[i], ends2[j2])
      {
        if EndsMeet(ends1[i], ends2[j]) {
          assert FirstMeeting(ends1, ends2, i, j);
          return Some((ends1[i], ends2[j]));
        }
        j := j + 1;
      }
      i := i + 1;
    }
    return None;
  }

  /** `can_merge(g1, g2)` succeeds. */
  predicate Mergeable(g1: GroupCopy, g2: GroupCopy) {
    Meet(g1.openEnds, g2.openEnds)
  }

  /** All segments of the groups, in list order. */
  function Flatten(gs: seq<GroupCopy>): seq<Segment> {
    if gs == [] then [] else Flatten(gs[..|gs| - 1]) + gs[|gs| - 1].segments
  }

  lemma FlattenAppend(gs: seq<GroupCopy>, g: GroupCopy)
    ensures Flatten(gs + [g]) == Flatten(gs) + g.segments
  {
    assert (gs + [g])[..|gs|] == gs;
  }

  /** The bag of all segments: those of all groups but the last, and the last group's. */
  lemma FlattenLast(gs: seq<GroupCopy>)
    requires gs != []
    ensures multiset(Flatten(gs)) == multiset(Flatten(gs[..|gs| - 1])) + multiset(gs[|gs| - 1].segments)
  {
  }

  /** Replacing one group replaces its segments in the bag of all segments. */
  lemma FlattenUpdate(gs: seq<GroupCopy>, k: int, g: GroupCopy)
    requires 0 <= k < |gs|
    ensures multiset(Flatten(gs[k := g])) + multiset(gs[k].segments) == multiset(Flatten(gs)) + multiset(g.segments)
  {
    forall x: Segment
      ensures multiset(Flatten(gs[k := g]))[x] + multiset(gs[k].segments)[x] == multiset(Flatten(gs))[x] + multiset(g.segments)[x]
    {
      FlattenUpdateAt(gs, k, g, x);
    }
  }

  lemma {:induction false} FlattenUpdateAt(gs: seq<GroupCopy>, k: int, g: GroupCopy, x: Segment)
    requires 0 <= k < |gs|
    ensures multiset(Flatten(gs[k := g]))[x] + multiset(gs[k].segments)[x] == multiset(Flatten(gs))[x] + multiset(g.segments)[x]
    decreases |gs|
  {
    var n := |gs| - 1;
    var hs := gs[k := g];
    FlattenLast(gs);
    FlattenLast(hs);
    if k == n {
      assert hs[..n] == gs[..n];
    } else {
      assert hs[..n] == gs[..n][k := g];
      FlattenUpdateAt(gs[..n], k, g, x);
    }
  }

  /** `g.add_group(other, old_end, new_end)` on copies. */
  function Absorb(g: GroupCopy, other: GroupCopy, oldEnd: Line, newEnd: Line): GroupCopy {
    GroupCopy(g.id, g.segments + other.segments, AddGroupEnds(g.openEnds, Some(oldEnd), Some(newEnd)))
  }

  /** The copy at position `a` of the pass's input `U` after its turn `t`. */
  function AfterTurn(U: seq<GroupCopy>, a: int, t: Turn<Line>): GroupCopy
    requires 0 <= a < |U| && (t.Took? ==> 0 <= t.partner < |U|)
  {
    if t.Took? then Absorb(U[a], U[t.partner], t.end, t.partnerEnd) else U[a]
  }

  /**
   * A merge as written: strand (0,0) edge 2 to edge 0 meets strand (1,1) edge 3 to edge 5 at
   * its first pair of open ends, and the merged group keeps the joined end (1,1) edge 3 as an
   * open end while the partner's free end (1,1) edge 5 is lost.
   */
  lemma MergeKeepsJoinedEnd()
    ensures var g1 := GroupCopy(0, [NewSegment(HexId(0, 0), (0, 2))], [Line(HexId(0, 0), 0), Line(HexId(0, 0), 2)]);
            var g2 := GroupCopy(1, [NewSegment(HexId(1, 1), (3, 5))], [Line(HexId(1, 1), 3), Line(HexId(1, 1), 5)]);
            && FirstMeeting(g1.openEnds, g2.openEnds, 0, 0)
            && Absorb(g1, g2, g1.openEnds[0], g2.openEnds[0]).openEnds == [Line(HexId(0, 0), 2), Line(HexId(1, 1), 3)]
            && Line(HexId(1, 1), 5) !in Absorb(g1, g2, g1.openEnds[0], g2.openEnds[0]).openEnds
  {
    var e1, e2 := [Line(HexId(0, 0), 0), Line(HexId(0, 0), 2)], [Line(HexId(1, 1), 3), Line(HexId(1, 1), 5)];
    assert EndsMeet(e1[0], e2[0]);
    var grown := e1 + [e2[0]];
    assert grown == [e1[0]] + [e1[1], e2[0]];
    assert RemoveFirst(grown, e1[0]) == [e1[1], e2[0]];
  }

  /**
   * The open ends a merge evidently intends, as the grouping of Group.py keeps them: the ends of
   * both groups without the two that were joined.
   */
  function JoinedEnds(ends1: seq<Line>, end1: Line, ends2: seq<Line>, end2: Line): (r: seq<Line>)
    ensures end1 in ends1 && end2 in ends2 ==>
      && |r| == |ends1| + |ends2| - 2
      && multiset(r) == (multiset(ends1) - multiset{end1}) + (multiset(ends2) - multiset{end2})
  {
    RemoveFirst(ends1, end1) + RemoveFirst(ends2, end2)
  }

  /**
   * When each group holds its joined end once and not the other's, the intended merge leaves
   * neither joined end open and keeps every other end of both groups.
   */
  lemma JoinedEndsFree(ends1: seq<Line>, end1: Line, ends2: seq<Line>, end2: Line)
    requires multiset(ends1)[end1] == 1 && multiset(ends2)[end2] == 1
    requires end1 !in ends2 && end2 !in ends1
    ensures end1 !in JoinedEnds(ends1, end1, ends2, end2) && end2 !in JoinedEnds(ends1, end1, ends2, end2)
    ensures forall x :: x in ends1 + ends2 && x != end1 && x != end2 ==> x in JoinedEnds(ends1, end1, ends2, end2)
  {
    var r := JoinedEnds(ends1, end1, ends2, end2);
    assert end1 in ends1 && end2 in ends2;
    assert multiset(r)[end1] == 0 && multiset(r)[end2] == 0;
    forall x | x in ends1 + ends2 && x != end1 && x != end2 ensures x in r {
      assert x in multiset(ends1) || x in multiset(ends2);
      assert multiset(r)[x] > 0;
    }
  }

  /**
   * Turn `t` of copy `a`, with the positions `taken` absorbed before it, is the turn a pass
   * takes: `a` absorbs the first later copy not yet absorbed that `can_merge` accepts, joined at
   * the first meeting pair of open ends, or absorbs nothing when there is no such copy.
   */
  ghost predicate LegacyTurn(U: seq<GroupCopy>, a: int, taken: set<int>, t: Turn<Line>) {
    && 0 <= a < |U|
    && (t.Took? ==>
          && a < t.partner < |U|
          && exists i, j :: FirstMeeting(U[a].openEnds, U[t.partner].openEnds, i, j) &&
               t.end == U[a].openEnds[i] && t.partnerEnd == U[t.partner].openEnds[j])
    && forall y :: a < y < |U| && y !in taken && (t.Took? ==> y < t.partner) ==> !Mergeable(U[a], U[y])
  }

  /**
   * The pass's record after the turns of the first `a` copies of `U`: `newList` holds the copies
   * kept at `pos`, in order, each as its turn left it, and `A` the positions absorbed.
   */
  ghost predicate PassRecord(U: seq<GroupCopy>, a: int, pos: seq<int>, turns: seq<Turn<Line>>,
                             newList: seq<GroupCopy>, A: set<int>)
  {
    && ShapeUpTo(a, |U|, pos, turns) && A == Taken(turns) && |newList| == |pos|
    && forall j :: 0 <= j < |pos| ==>
         LegacyTurn(U, pos[j], Taken(turns[..j]), turns[j]) && newList[j] == AfterTurn(U, pos[j], turns[j])
  }

  /**
   * A pass of `merge_groups` over `U` leaves `newList`: every copy of `U` is kept or absorbed,
   * never both; the kept ones, at `pos` and in their order, each absorbed at its turn the first
   * later copy not yet absorbed that it can merge with, if any.
   */
  ghost predicate PassResult(U: seq<GroupCopy>, newList: seq<GroupCopy>, pos: seq<int>, turns: seq<Turn<Line>>) {
    PassShape(|U|, pos, turns) && PassRecord(U, |U|, pos, turns, newList, Taken(turns))
  }

  /** Some record of a pass over `U` leaves `newList`. */
  ghost predicate PassLeaves(U: seq<GroupCopy>, newList: seq<GroupCopy>) {
    exists pos, turns :: PassResult(U, newList, pos, turns)
  }

  /** Each round of `merge_groups` is what one pass leaves of the round before it. */
  ghost predicate RoundTrace(rounds: seq<seq<GroupCopy>>) {
    forall i :: 0 <= i < |rounds| - 1 ==> PassLeaves(rounds[i], rounds[i + 1])
  }

  /** A pass from the last round extends the trace. */
  lemma RoundTraceExtend(rounds: seq<seq<GroupCopy>>, next: seq<GroupCopy>)
    requires rounds != [] && RoundTrace(rounds) && PassLeaves(rounds[|rounds| - 1], next)
    ensures RoundTrace(rounds + [next])
  {
    var rounds' := rounds + [next];
    forall i | 0 <= i < |rounds'| - 1 ensures PassLeaves(rounds'[i], rounds'[i + 1]) {
      if i < |rounds| - 1 {
        assert rounds'[i] == rounds[i] && rounds'[i + 1] == rounds[i + 1];
      }
    }
  }

  /**
   * The rounds of `merge_groups` so far, from the group values `start`: each pass led from one
   * round to the next, every pass but the last shrank the list, and `merged` says whether the
   * last pass merged. The segments of `start` are kept, and once a pass merges nothing no group
   * can merge with a later one.
   */
  ghost predicate RoundsFrom(rounds: seq<seq<GroupCopy>>, merged: bool, start: seq<GroupCopy>) {
    && |rounds| >= 2 && rounds[0] == start
    && RoundTrace(rounds)
    && (merged <==> |rounds[|rounds| - 1]| < |rounds[|rounds| - 2]|)
    && (!merged ==> rounds[|rounds| - 2] == rounds[|rounds| - 1])
    && (forall i :: 0 <= i < |rounds| - 2 ==> |rounds[i + 1]| < |rounds[i]|)
    && multiset(Flatten(rounds[|rounds| - 1])) == multiset(Flatten(start))
    && |rounds[|rounds| - 1]| <= |start|
    && (!merged ==> NoMergeablePair(rounds[|rounds| - 1]))
  }

  /** A pass after one that merged extends the rounds. */
  lemma RoundsFromNext(rounds: seq<seq<GroupCopy>>, start: seq<GroupCopy>, next: seq<GroupCopy>, merged: bool)
    requires RoundsFrom(rounds, true, start)
    requires PassLeaves(rounds[|rounds| - 1], next)
    requires multiset(Flatten(next)) == multiset(Flatten(rounds[|rounds| - 1]))
    requires merged <==> |next| < |rounds[|rounds| - 1]|
    requires !merged ==> next == rounds[|rounds| - 1] && NoMergeablePair(next)
    ensures RoundsFrom(rounds + [next], merged, start)
  {
    RoundTraceExtend(rounds, next);
    var rounds' := rounds + [next];
    forall i | 0 <= i < |rounds'| - 2 ensures |rounds'[i + 1]| < |rounds'[i]| {
      if i < |rounds| - 2 {
        assert rounds'[i] == rounds[i] && rounds'[i + 1] == rounds[i + 1];
      }
    }
  }

  /** The search of copy `a`'s turn, read against the pass's input, is a `LegacyTurn`. */
  lemma SearchIsTurn(U: seq<GroupCopy>, W: seq<GroupCopy>, a: int, checked: set<int>, A: set<int>, t: Turn<Line>)
    requires PassIndex(U, W, a, checked, A) && a < |U| && a !in checked
    requires t.Took? ==>
      && 0 <= t.partner < |W| && t.partner != a && t.partner !in checked
      && exists i, j :: FirstMeeting(W[a].openEnds, W[t.partner].openEnds, i, j) &&
           t.end == W[a].openEnds[i] && t.partnerEnd == W[t.partner].openEnds[j]
    requires forall c :: 0 <= c < |W| && c != a && c !in checked && (t.Took? ==> c < t.partner) ==> !Mergeable(W[a], W[c])
    ensures LegacyTurn(U, a, A, t)
    ensures t.Took? ==> t.partner !in A
  {
    forall y | a < y < |U| && y !in A && (t.Took? ==> y < t.partner) ensures !Mergeable(U[a], U[y]) {
      assert y !in checked;
    }
  }

  /** A copy absorbed before its turn leaves the record as it is. */
  lemma RecordSkip(U: seq<GroupCopy>, a: int, pos: seq<int>, turns: seq<Turn<Line>>, newList: seq<GroupCopy>, A: set<int>)
    requires PassRecord(U, a, pos, turns, newList, A) && a < |U| && a in A
    ensures PassRecord(U, a + 1, pos, turns, newList, A)
  {
    ShapeSkip(a, |U|, pos, turns);
  }

  /** A copy not absorbed before its turn joins the record as its turn leaves it. */
  lemma RecordTurn(U: seq<GroupCopy>, a: int, pos: seq<int>, turns: seq<Turn<Line>>, newList: seq<GroupCopy>, A: set<int>,
                   t: Turn<Line>)
    requires PassRecord(U, a, pos, turns, newList, A) && a < |U| && a !in A
    requires LegacyTurn(U, a, A, t) && (t.Took? ==> t.partner !in A)
    ensures PassRecord(U, a + 1, pos + [a], turns + [t], newList + [AfterTurn(U, a, t)], A + (if t.Took? then {t.partner} else {}))
  {
    ShapeTurn(a, |U|, pos, turns, t);
    var pos', turns', newList' := pos + [a], turns + [t], newList + [AfterTurn(U, a, t)];
    forall j | 0 <= j < |pos'|
      ensures LegacyTurn(U, pos'[j], Taken(turns'[..j]), turns'[j]) && newList'[j] == AfterTurn(U, pos'[j], turns'[j])
    {
      if j < |pos| {
        assert turns'[..j] == turns[..j];
      } else {
        assert turns'[..j] == turns;
      }
    }
  }

  /** The copies at positions below `n` that were not absorbed, in order. */
  function Alive(W: seq<GroupCopy>, A: set<int>, n: int): seq<GroupCopy>
    requires 0 <= n <= |W|
  {
    if n == 0 then [] else Alive(W, A, n - 1) + (if n - 1 in A then [] else [W[n - 1]])
  }

  /** The number of positions below `n` not in `A`. */
  function Kept(A: set<int>, n: nat): nat {
    if n == 0 then 0 else Kept(A, n - 1) + (if n - 1 in A then 0 else 1)
  }

  lemma {:induction false} AliveLength(W: seq<GroupCopy>, A: set<int>, n: int)
    requires 0 <= n <= |W|
    ensures |Alive(W, A, n)| == Kept(A, n)
  {
    if n > 0 {
      AliveLength(W, A, n - 1);
    }
  }

  lemma {:induction false} KeptBounds(A: set<int>, n: nat)
    ensures Kept(A, n) <= n
    ensures Kept({}, n) == n
  {
    if n > 0 {
      KeptBounds(A, n - 1);
    }
  }

  /** Absorbing one more position removes it from the count of kept positions. */
  lemma {:induction false} KeptAbsorb(A: set<int>, c: int, n: nat)
    requires 0 <= c < n && c !in A
    ensures Kept(A + {c}, n) + 1 == Kept(A, n)
  {
    if c < n - 1 {
      KeptAbsorb(A, c, n - 1);
    } else {
      KeptSame(A, A + {c}, n - 1);
    }
  }

  lemma {:induction false} KeptSame(A: set<int>, B: set<int>, n: nat)
    requires forall k :: 0 <= k < n ==> (k in A <==> k in B)
    ensures Kept(A, n) == Kept(B, n)
  {
    if n > 0 {
      KeptSame(A, B, n - 1);
    }
  }

  /** Without absorbed positions, the alive copies are the prefix. */
  lemma {:induction false} AliveNone(W: seq<GroupCopy>, n: int)
    requires 0 <= n <= |W|
    ensures Alive(W, {}, n) == W[..n]
  {
    if n > 0 {
      AliveNone(W, n - 1);
      assert W[..n] == W[..n - 1] + [W[n - 1]];
    }
  }

  /** The alive prefix depends only on the copies and the absorbed positions below `n`. */
  lemma {:induction false} AliveFrame(W: seq<GroupCopy>, A: set<int>, W2: seq<GroupCopy>, A2: set<int>, n: int)
    requires 0 <= n <= |W| && n <= |W2|
    requires forall k :: 0 <= k < n ==> W[k] == W2[k] && (k in A <==> k in A2)
    ensures Alive(W, A, n) == Alive(W2, A2, n)
  {
    if n > 0 {
      AliveFrame(W, A, W2, A2, n - 1);
    }
  }

  /** How often segment `x` occurs in the copies alive below `n`. */
  function AliveCount(W: seq<GroupCopy>, A: set<int>, n: int, x: Segment): nat
    requires 0 <= n <= |W|
  {
    if n == 0 then 0 else AliveCount(W, A, n - 1, x) + (if n - 1 in A then 0 else multiset(W[n - 1].segments)[x])
  }

  lemma {:induction false} AliveCountIsFlatten(W: seq<GroupCopy>, A: set<int>, n: int, x: Segment)
    requires 0 <= n <= |W|
    ensures multiset(Flatten(Alive(W, A, n)))[x] == AliveCount(W, A, n, x)
  {
    if n > 0 {
      AliveCountIsFlatten(W, A, n - 1, x);
      var prev := Alive(W, A, n - 1);
      if n - 1 in A {
        assert Alive(W, A, n) == prev;
      } else {
        assert Alive(W, A, n) == prev + [W[n - 1]];
        FlattenAppend(prev, W[n - 1]);
      }
    }
  }

  /**
   * When position `a` absorbs the later position `c`, the segments of `c` move to `a`, and the
   * bag of all alive segments is unchanged.
   */
  lemma AbsorbBag(W: seq<GroupCopy>, A: set<int>, a: int, c: int, g: GroupCopy)
    requires 0 <= a < c < |W| && a !in A && c !in A
    requires g.segments == W[a].segments + W[c].segments
    ensures multiset(Flatten(Alive(W[a := g], A + {c}, |W|))) == multiset(Flatten(Alive(W, A, |W|)))
  {
    forall x: Segment
      ensures multiset(Flatten(Alive(W[a := g], A + {c}, |W|)))[x] == multiset(Flatten(Alive(W, A, |W|)))[x]
    {
      AliveCountIsFlatten(W[a := g], A + {c}, |W|, x);
      AliveCountIsFlatten(W, A, |W|, x);
      AbsorbCount(W, A, a, c, g, x);
    }
  }

  /** `AbsorbBag` for one segment `x`. */
  lemma AbsorbCount(W: seq<GroupCopy>, A: set<int>, a: int, c: int, g: GroupCopy, x: Segment)
    requires 0 <= a < c < |W| && a !in A && c !in A
    requires g.segments == W[a].segments + W[c].segments
    ensures AliveCount(W[a := g], A + {c}, |W|, x) == AliveCount(W, A, |W|, x)
  {
    var W2, A2 := W[a := g], A + {c};
    var moved := multiset(W[c].segments)[x];
    CountsAgree(W, A, W2, A2, 0, a, x, 0);
    CountAtAbsorber(W, A, a, c, g, x);
    CountsAgree(W, A, W2, A2, a + 1, c, x, moved);
    assert AliveCount(W2, A2, c + 1, x) == AliveCount(W2, A2, c, x);
    assert AliveCount(W, A, c + 1, x) == AliveCount(W, A, c, x) + moved;
    CountsAgree(W, A, W2, A2, c + 1, |W|, x, 0);
  }

  lemma CountAtAbsorber(W: seq<GroupCopy>, A: set<int>, a: int, c: int, g: GroupCopy, x: Segment)
    requires 0 <= a < c < |W| && a !in A && c !in A
    requires g.segments == W[a].segments + W[c].segments
    requires AliveCount(W[a := g], A + {c}, a, x) == AliveCount(W, A, a, x)
    ensures AliveCount(W[a := g], A + {c}, a + 1, x) == AliveCount(W, A, a + 1, x) + multiset(W[c].segments)[x]
  {
    assert multiset(g.segments)[x] == multiset(W[a].segments)[x] + multiset(W[c].segments)[x];
  }

  /** Where two states agree from `lo` to `n`, their counts keep the difference they had at `lo`. */
  lemma {:induction false} CountsAgree(W: seq<GroupCopy>, A: set<int>, W2: seq<GroupCopy>, A2: set<int>, lo: int, n: int, x: Segment, d: int)
    requires 0 <= lo <= n <= |W| == |W2|
    requires forall k :: lo <= k < n ==> W[k] == W2[k] && (k in A <==> k in A2)
    requires AliveCount(W2, A2, lo, x) == AliveCount(W, A, lo, x) + d
    ensures AliveCount(W2, A2, n, x) == AliveCount(W, A, n, x) + d
    decreases n
  {
    if lo < n {
      CountsAgree(W, A, W2, A2, lo, n - 1, x, d);
      var m := n - 1;
      assert W[m] == W2[m] && (m in A <==> m in A2);
    }
  }



  /** No group of `U` can merge with a later one: a pass over `U` merges nothing. */
  predicate NoMergeablePair(U: seq<GroupCopy>) {
    forall x, y :: 0 <= x < y < |U| ==> !Mergeable(U[x], U[y])
  }

  /**
   * The inner loop of a `merge_groups` pass for copy `a`: the first other copy not yet checked
   * that `a` can merge with, and the meeting ends `can_merge` returns for the two.
   */
  method FindPartner(W: seq<GroupCopy>, a: int, checked: set<int>) returns (r: Option<(int, Line, Line)>)
    requires 0 <= a < |W|
    ensures r.None? <==> forall c :: 0 <= c < |W| && c != a && c !in checked ==> !Mergeable(W[a], W[c])
    ensures r.Some? ==>
      && 0 <= r.value.0 < |W| && r.value.0 != a && r.value.0 !in checked
      && (exists i, j :: FirstMeeting(W[a].openEnds, W[r.value.0].openEnds, i, j) &&
            r.value.1 == W[a].openEnds[i] && r.value.2 == W[r.value.0].openEnds[j])
      && forall c :: 0 <= c < r.value.0 && c != a && c !in checked ==> !Mergeable(W[a], W[c])
  {
    var c := 0;
    while c < |W|
      invariant 0 <= c <= |W|
      invariant forall c2 :: 0 <= c2 < c && c2 != a && c2 !in checked ==> !Mergeable(W[a], W[c2])
    {
      if c != a && c !in checked {
        var m := CanMerge(W[a].openEnds, W[c].openEnds);
        if m.Some? {
          return Some((c, m.value.0, m.value.1));
        }
      }
      c := c + 1;
    }
    return None;
  }

  /**
   * The bookkeeping of one `merge_groups` pass over the deep copy `U` after the turns of the
   * first `a` copies: `W` holds the copies as changed so far, `A` the absorbed positions,
   * `merges` the number of merges.
   */
  ghost predicate PassState(U: seq<GroupCopy>, W: seq<GroupCopy>, a: int, checked: set<int>, A: set<int>,
                            newList: seq<GroupCopy>, merged: bool, merges: nat)
  {
    && PassIndex(U, W, a, checked, A)
    && newList == Alive(W, A, a)
    && PassBag(U, W, A)
    && PassCount(U, A, newList, merged, merges)
    && PassQuiet(U, W, a, A, merged)
  }

  /** The first `a` copies have had their turn; a copy is checked once its turn is over or once absorbed. */
  ghost predicate PassIndex(U: seq<GroupCopy>, W: seq<GroupCopy>, a: int, checked: set<int>, A: set<int>) {
    && |W| == |U| && 0 <= a <= |U|
    && (forall k :: k in A ==> 0 <= k < |U|)
    && (forall k :: 0 <= k < |U| ==> (k in checked <==> k < a || k in A))
    && (forall k :: a <= k < |U| ==> W[k] == U[k])
  }

  /** The copies not absorbed hold every segment of the pass's input. */
  ghost predicate PassBag(U: seq<GroupCopy>, W: seq<GroupCopy>, A: set<int>)
    requires |W| == |U|
  {
    multiset(Flatten(Alive(W, A, |U|))) == multiset(Flatten(U))
  }

  /** Each merge absorbed one copy and listed its absorber. */
  ghost predicate PassCount(U: seq<GroupCopy>, A: set<int>, newList: seq<GroupCopy>, merged: bool, merges: nat) {
    && Kept(A, |U|) + merges == |U|
    && merges <= |newList|
    && (merged <==> merges > 0)
  }

  /** Without a merge nothing changed, and no copy whose turn is over can merge with a later one. */
  ghost predicate PassQuiet(U: seq<GroupCopy>, W: seq<GroupCopy>, a: int, A: set<int>, merged: bool) {
    && (!merged ==> A == {} && W == U)
    && (!merged ==> forall x, y :: 0 <= x < a && x < y < |U| ==> !Mergeable(U[x], U[y]))
  }

  /**
   * One pass of `merge_groups` over the deep copy `U`: every copy not yet absorbed absorbs the
   * first later unabsorbed copy it can merge with, if any, and joins the new list. The pass
   * keeps every segment, absorbs at most one copy per kept copy, and merges nothing exactly
   * when no copy can merge with a later one.
   */
  method MergePass(U: seq<GroupCopy>) returns (newList: seq<GroupCopy>, merged: bool, ghost pos: seq<int>, ghost turns: seq<Turn<Line>>)
    ensures PassResult(U, newList, pos, turns)
    ensures multiset(Flatten(newList)) == multiset(Flatten(U))
    ensures |newList| <= |U| && 2 * |newList| >= |U|
    ensures merged <==> |newList| < |U|
    ensures !merged ==> newList == U && NoMergeablePair(U)
  {
    var W := U;
    var checked: set<int> := {};
    ghost var A: set<int> := {};
    ghost var merges: nat := 0;
    newList := [];
    merged := false;
    pos, turns := [], [];
    PassStart(U);
    var a := 0;
    while a < |U|
      invariant PassState(U, W, a, checked, A, newList, merged, merges)
      invariant PassRecord(U, a, pos, turns, newList, A)
    {
      W, checked, newList, merged, A, merges, pos, turns := MergeTurn(U, W, a, checked, A, newList, merged, merges, pos, turns);
      a := a + 1;
    }
    PassEndCount(U, W, A, newList, merged, merges);
    PassEndQuiet(U, W, A, newList, merged);
  }

  lemma PassStart(U: seq<GroupCopy>)
    ensures PassState(U, U, 0, {}, {}, [], false, 0)
    ensures PassRecord(U, 0, [], [], [], {})
  {
    ShapeStart<Line>(|U|);
    KeptBounds({}, |U|);
    AliveNone(U, |U|);
    assert U[..|U|] == U;
  }

  lemma PassEndCount(U: seq<GroupCopy>, W: seq<GroupCopy>, A: set<int>, newList: seq<GroupCopy>, merged: bool, merges: nat)
    requires |W| == |U| && newList == Alive(W, A, |U|) && PassCount(U, A, newList, merged, merges)
    ensures |newList| <= |U| && 2 * |newList| >= |U|
    ensures merged <==> |newList| < |U|
  {
    AliveLength(W, A, |U|);
  }

  lemma PassEndQuiet(U: seq<GroupCopy>, W: seq<GroupCopy>, A: set<int>, newList: seq<GroupCopy>, merged: bool)
    requires |W| == |U| && newList == Alive(W, A, |U|) && PassQuiet(U, W, |U|, A, merged)
    ensures !merged ==> newList == U && NoMergeablePair(U)
  {
    if !merged {
      AliveNone(U, |U|);
      assert U[..|U|] == U;
    }
  }

  /** The turn of copy `a` in a `merge_groups` pass. */
  method MergeTurn(U: seq<GroupCopy>, W: seq<GroupCopy>, a: int, checked: set<int>, ghost A: set<int>,
                   newList: seq<GroupCopy>, merged: bool, ghost merges: nat, ghost pos: seq<int>, ghost turns: seq<Turn<Line>>)
    returns (W': seq<GroupCopy>, checked': set<int>, newList': seq<GroupCopy>, merged': bool, ghost A': set<int>, ghost merges': nat,
             ghost pos': seq<int>, ghost turns': seq<Turn<Line>>)
    requires a < |U| && PassState(U, W, a, checked, A, newList, merged, merges)
    requires PassRecord(U, a, pos, turns, newList, A)
    ensures PassState(U, W', a + 1, checked', A', newList', merged', merges')
    ensures PassRecord(U, a + 1, pos', turns', newList', A')
  {
    W', checked', newList', merged', A', merges', pos', turns' := W, checked, newList, merged, A, merges, pos, turns;
    if a in checked {
      // Absorbed by an earlier copy: nothing to do.
      SkipStep(U, W, a, checked, A, newList, merged, merges);
      RecordSkip(U, a, pos, turns, newList, A);
      return;
    }
    var partner := FindPartner(W, a, checked);
    if partner.None? {
      KeepStep(U, W, a, checked, A, newList, merged, merges);
      SearchIsTurn(U, W, a, checked, A, Alone);
      RecordTurn(U, a, pos, turns, newList, A, Alone);
      newList' := newList + [W[a]];
      checked' := checked + {a};
      pos', turns' := pos + [a], turns + [Alone];
      return;
    }
    var (c, end1, end2) := partner.value;
    var g := Absorb(W[a], W[c], end1, end2);
    AbsorbStep(U, W, a, checked, A, newList, merged, merges, c, g);
    SearchIsTurn(U, W, a, checked, A, Took(c, end1, end2));
    RecordTurn(U, a, pos, turns, newList, A, Took(c, end1, end2));
    pos', turns' := pos + [a], turns + [Took(c, end1, end2)];
    W' := W[a := g];
    A' := A + {c};
    newList' := newList + [g];
    checked' := checked + {c, a};
    merges' := merges + 1;
    merged' := true;
  }

  lemma SkipStep(U: seq<GroupCopy>, W: seq<GroupCopy>, a: int, checked: set<int>, A: set<int>,
                 newList: seq<GroupCopy>, merged: bool, merges: nat)
    requires a < |U| && PassState(U, W, a, checked, A, newList, merged, merges) && a in checked
    ensures PassState(U, W, a + 1, checked, A, newList, merged, merges)
  {
    assert a in A;
  }

  lemma KeepStep(U: seq<GroupCopy>, W: seq<GroupCopy>, a: int, checked: set<int>, A: set<int>,
                 newList: seq<GroupCopy>, merged: bool, merges: nat)
    requires a < |U| && PassState(U, W, a, checked, A, newList, merged, merges) && a !in checked
    requires forall c :: 0 <= c < |W| && c != a && c !in checked ==> !Mergeable(W[a], W[c])
    ensures PassState(U, W, a + 1, checked + {a}, A, newList + [W[a]], merged, merges)
  {
    assert a !in A;
  }

  lemma AbsorbStep(U: seq<GroupCopy>, W: seq<GroupCopy>, a: int, checked: set<int>, A: set<int>,
                   newList: seq<GroupCopy>, merged: bool, merges: nat, c: int, g: GroupCopy)
    requires a < |U| && PassState(U, W, a, checked, A, newList, merged, merges) && a !in checked
    requires 0 <= c < |U| && c != a && c !in checked
    requires g.segments == W[a].segments + W[c].segments
    ensures PassState(U, W[a := g], a + 1, checked + {c, a}, A + {c}, newList + [g], true, merges + 1)
  {
    assert a !in A && c !in A && a < c;
    AbsorbIndex(U, W, a, checked, A, c, g);
    AbsorbList(W, a, A, newList, c, g);
    AbsorbKeepsBag(U, W, a, A, c, g);
    KeptAbsorb(A, c, |U|);
  }

  lemma AbsorbIndex(U: seq<GroupCopy>, W: seq<GroupCopy>, a: int, checked: set<int>, A: set<int>, c: int, g: GroupCopy)
    requires a < |U| && PassIndex(U, W, a, checked, A) && a !in checked
    requires 0 <= c < |U| && c != a && c !in checked
    ensures PassIndex(U, W[a := g], a + 1, checked + {c, a}, A + {c})
  {
  }

  lemma AbsorbList(W: seq<GroupCopy>, a: int, A: set<int>, newList: seq<GroupCopy>, c: int, g: GroupCopy)
    requires 0 <= a < c < |W| && a !in A && newList == Alive(W, A, a)
    ensures newList + [g] == Alive(W[a := g], A + {c}, a + 1)
  {
    AliveFrame(W, A, W[a := g], A + {c}, a);
  }

  lemma AbsorbKeepsBag(U: seq<GroupCopy>, W: seq<GroupCopy>, a: int, A: set<int>, c: int, g: GroupCopy)
    requires |W| == |U| && 0 <= a < c < |W| && a !in A && c !in A
    requires g.segments == W[a].segments + W[c].segments
    requires PassBag(U, W, A)
    ensures PassBag(U, W[a := g], A + {c})
  {
    AbsorbBag(W, A, a, c, g);
  }

  /** The fields of group `g`. */
  function Copy(g: Group): GroupCopy
    reads g
  {
    GroupCopy(g.id, g.segments, g.openEnds)
  }

  /** The fields of every group of the list, in order. */
  function Copies(gs: seq<Group>): (r: seq<GroupCopy>)
    reads gs
    ensures |r| == |gs| && forall k :: 0 <= k < |gs| ==> r[k] == Copy(gs[k])
  {
    seq(|gs|, k requires 0 <= k < |gs| reads gs => Copy(gs[k]))
  }

  /** New groups holding the given fields, one per copy: the groups a pass leaves in the list. */
  method Materialize(copies: seq<GroupCopy>) returns (gs: seq<Group>)
    ensures Copies(gs) == copies
    ensures ColouringSpec.Distinct(gs)
    ensures forall k :: 0 <= k < |gs| ==> fresh(gs[k])
  {
    gs := [];
    var i := 0;
    while i < |copies|
      invariant 0 <= i <= |copies| && |gs| == i
      invariant forall k :: 0 <= k < i ==> fresh(gs[k]) && Copy(gs[k]) == copies[k]
      invariant ColouringSpec.Distinct(gs)
    {
      var g := new Group.Copy(copies[i]);
      gs := gs + [g];
      i := i + 1;
    }
  }

  /** The segments of one tile, one per edge pair, in pair order. */
  function TileSegments(t: Tile): seq<Segment> {
    seq(|t.connection|, j requires 0 <= j < |t.connection| => NewSegment(t.id, t.connection[j]))
  }

  lemma TileSegmentsNext(t: Tile, before: seq<Segment>, j: int)
    requires 0 <= j < |t.connection|
    ensures before + TileSegments(t)[..j + 1] == (before + TileSegments(t)[..j]) + [NewSegment(t.id, t.connection[j])]
  {
    assert TileSegments(t)[..j + 1] == TileSegments(t)[..j] + [NewSegment(t.id, t.connection[j])];
  }

  /** The segments of the grid, tile by tile. */
  function AllSegments(grid: seq<Tile>): seq<Segment> {
    if grid == [] then [] else AllSegments(grid[..|grid| - 1]) + TileSegments(grid[|grid| - 1])
  }

  lemma AllSegmentsNext(grid: seq<Tile>, i: int)
    requires 0 <= i < |grid|
    ensures AllSegments(grid[..i + 1]) == AllSegments(grid[..i]) + TileSegments(grid[i])
  {
    assert grid[..i + 1][..i] == grid[..i];
  }

  /** Some segment of `a` lies in the same hexagon as some segment of `b`. */
  predicate Overlap(a: seq<Segment>, b: seq<Segment>) {
    exists i, j :: 0 <= i < |a| && 0 <= j < |b| && a[i].id == b[j].id
  }

  /** The overlap loops of `groups_collouring`: does some segment share a hexagon with some bucket segment? */
  method OverlapFound(segs: seq<Segment>, colourSegs: seq<Segment>) returns (found: bool)
    ensures found <==> Overlap(segs, colourSegs)
  {
    found := false;
    var i := 0;
    while i < |segs|
      invariant 0 <= i <= |segs|
      invariant found <==> exists i2, j :: 0 <= i2 < i && 0 <= j < |colourSegs| && segs[i2].id == colourSegs[j].id
    {
      var j := 0;
      while j < |colourSegs|
        invariant 0 <= j <= |colourSegs|
        invariant found <==> exists i2, j2 :: ((0 <= i2 < i && 0 <= j2 < |colourSegs|) || (i2 == i && 0 <= j2 < j)) && segs[i2].id == colourSegs[j2].id
      {
        if segs[i].id == colourSegs[j].id {
          found := true;
          break;
        }
        j := j + 1;
      }
      i := i + 1;
    }
  }

  /** The first bucket from `k` on whose segments share no hexagon with `segs`, or `|buckets|`. */
  function FirstFree(buckets: seq<GroupCopy>, segs: seq<Segment>, k: nat): (r: nat)
    requires k <= |buckets|
    ensures k <= r <= |buckets|
    ensures r < |buckets| ==> !Overlap(segs, buckets[r].segments)
    ensures forall j :: k <= j < r ==> Overlap(segs, buckets[j].segments)
    decreases |buckets| - k
  {
    if k == |buckets| || !Overlap(segs, buckets[k].segments) then k else FirstFree(buckets, segs, k + 1)
  }

  /** The first free bucket is the only one before which every bucket overlaps. */
  lemma {:induction false} FirstFreeUnique(buckets: seq<GroupCopy>, segs: seq<Segment>, k: nat, r: nat)
    requires k <= r <= |buckets|
    requires r < |buckets| ==> !Overlap(segs, buckets[r].segments)
    requires forall j :: k <= j < r ==> Overlap(segs, buckets[j].segments)
    ensures FirstFree(buckets, segs, k) == r
    decreases r - k
  {
    if k < r {
      FirstFreeUnique(buckets, segs, k + 1, r);
    }
  }

  /**
   * One group of `groups_collouring`: its segments join the first bucket they share no hexagon
   * with, or a new bucket numbered after the others.
   */
  function Place(buckets: seq<GroupCopy>, segs: seq<Segment>): seq<GroupCopy> {
    var k := FirstFree(buckets, segs, 0);
    if k < |buckets| then buckets[k := buckets[k].(segments := buckets[k].segments + segs)]
    else buckets + [GroupCopy(|buckets|, segs, [])]
  }

  /** The buckets `groups_collouring` builds for the groups `gs`, in order. */
  function ColourFit(gs: seq<GroupCopy>): seq<GroupCopy> {
    if gs == [] then [] else Place(ColourFit(gs[..|gs| - 1]), gs[|gs| - 1].segments)
  }

  /** The bucket group `i` joins. */
  function Assigned(gs: seq<GroupCopy>, i: int): nat
    requires 0 <= i < |gs|
  {
    FirstFree(ColourFit(gs[..i]), gs[i].segments, 0)
  }

  /** Placing a group adds its segments to the bag of all bucket segments. */
  lemma PlaceBag(buckets: seq<GroupCopy>, segs: seq<Segment>)
    ensures multiset(Flatten(Place(buckets, segs))) == multiset(Flatten(buckets)) + multiset(segs)
  {
    var k := FirstFree(buckets, segs, 0);
    if k < |buckets| {
      var g := buckets[k].(segments := buckets[k].segments + segs);
      forall x: Segment
        ensures multiset(Flatten(buckets[k := g]))[x] == multiset(Flatten(buckets))[x] + multiset(segs)[x]
      {
        FlattenUpdateAt(buckets, k, g, x);
      }
    } else {
      FlattenAppend(buckets, GroupCopy(|buckets|, segs, []));
    }
  }

  /** The buckets hold exactly the segments of the groups coloured. */
  lemma {:induction false} ColourFitBag(gs: seq<GroupCopy>)
    ensures multiset(Flatten(ColourFit(gs))) == multiset(Flatten(gs))
  {
    if gs != [] {
      ColourFitBag(gs[..|gs| - 1]);
      PlaceBag(ColourFit(gs[..|gs| - 1]), gs[|gs| - 1].segments);
      FlattenLast(gs);
    }
  }

  /** At most one bucket per group; bucket `k` is numbered `k` and has no open ends. */
  lemma {:induction false} ColourFitShape(gs: seq<GroupCopy>)
    ensures |ColourFit(gs)| <= |gs|
    ensures forall k :: 0 <= k < |ColourFit(gs)| ==> ColourFit(gs)[k].id == k && ColourFit(gs)[k].openEnds == []
  {
    if gs != [] {
      ColourFitShape(gs[..|gs| - 1]);
    }
  }

  /** The placed group's segments are in the bucket it joins. */
  lemma PlaceLands(buckets: seq<GroupCopy>, segs: seq<Segment>)
    ensures FirstFree(buckets, segs, 0) < |Place(buckets, segs)|
    ensures forall s :: s in segs ==> s in Place(buckets, segs)[FirstFree(buckets, segs, 0)].segments
  {
  }

  /** Buckets only grow: placing a group keeps every segment of every bucket where it was. */
  lemma PlaceKeeps(buckets: seq<GroupCopy>, segs: seq<Segment>, b: int)
    requires 0 <= b < |buckets|
    ensures b < |Place(buckets, segs)|
    ensures forall s :: s in buckets[b].segments ==> s in Place(buckets, segs)[b].segments
  {
  }

  lemma ColourFitStep(gs: seq<GroupCopy>, j: int)
    requires 0 < j <= |gs|
    ensures ColourFit(gs[..j]) == Place(ColourFit(gs[..j - 1]), gs[j - 1].segments)
  {
    assert gs[..j][..j - 1] == gs[..j - 1];
  }

  /** Group `i`'s segments stay in the bucket it joined while the later groups are placed. */
  lemma {:induction false} ColourFitHolds(gs: seq<GroupCopy>, i: int, j: int)
    requires 0 <= i < j <= |gs|
    ensures Assigned(gs, i) < |ColourFit(gs[..j])|
    ensures forall s :: s in gs[i].segments ==> s in ColourFit(gs[..j])[Assigned(gs, i)].segments
    decreases j
  {
    ColourFitStep(gs, j);
    if j == i + 1 {
      PlaceLands(ColourFit(gs[..i]), gs[i].segments);
    } else {
      ColourFitHolds(gs, i, j - 1);
      PlaceKeeps(ColourFit(gs[..j - 1]), gs[j - 1].segments, Assigned(gs, i));
    }
  }

  /**
   * The promise of `groups_collouring`: two groups that share a hexagon never get the same
   * colour, because a later group only joins a bucket none of whose segments shares its hexagons.
   */
  lemma ColourFitApart(gs: seq<GroupCopy>, i: int, j: int)
    requires 0 <= i < j < |gs|
    requires Assigned(gs, i) == Assigned(gs, j)
    ensures !Overlap(gs[i].segments, gs[j].segments)
  {
    ColourFitHolds(gs, i, j);
    var bucket := ColourFit(gs[..j])[Assigned(gs, i)].segments;
    // Group `j` joined this bucket, so none of its hexagons is in it; group `i`'s segments are.
    assert !Overlap(gs[j].segments, bucket);
    forall x, y | 0 <= x < |gs[i].segments| && 0 <= y < |gs[j].segments|
      ensures gs[i].segments[x].id != gs[j].segments[y].id
    {
      assert gs[i].segments[x] in gs[i].segments;
      var z :| 0 <= z < |bucket| && bucket[z] == gs[i].segments[x];
    }
  }

  /**
   * The groups the builder has made after placing the segments `done`: ids count up from 0,
   * every group holds a segment and two open ends, and the groups hold exactly the segments placed.
   */
  predicate Built(copies: seq<GroupCopy>, done: seq<Segment>) {
    && (forall k :: 0 <= k < |copies| ==> copies[k].id == k && |copies[k].openEnds| == 2 && copies[k].segments != [])
    && multiset(Flatten(copies)) == multiset(done)
  }

  /** Some open end of some group is continued by `segment`. */
  predicate Continues(copies: seq<GroupCopy>, segment: Segment)
    requires TwoLines(segment)
  {
    exists k, e :: 0 <= k < |copies| && 0 <= e < |copies[k].openEnds| && Continuation(copies[k].openEnds[e], segment).Some?
  }

  /** The first open end, from position `e` on, that `segment` continues; `|ends|` when there is none. */
  function FirstEnd(ends: seq<Line>, segment: Segment, e: nat): (r: nat)
    requires TwoLines(segment) && e <= |ends|
    ensures e <= r <= |ends|
    decreases |ends| - e
  {
    if e == |ends| then |ends|
    else if Continuation(ends[e], segment).Some? then e
    else FirstEnd(ends, segment, e + 1)
  }

  /** `FirstEnd` finds an open end the segment continues, and no earlier one from `e` on. */
  lemma {:induction false} FirstEndIs(ends: seq<Line>, segment: Segment, e: nat)
    requires TwoLines(segment) && e <= |ends|
    ensures var r := FirstEnd(ends, segment, e);
      && (r < |ends| ==> Continuation(ends[r], segment).Some?)
      && forall j :: e <= j < r ==> Continuation(ends[j], segment).None?
    decreases |ends| - e
  {
    if e < |ends| && Continuation(ends[e], segment).None? {
      FirstEndIs(ends, segment, e + 1);
    }
  }

  /** The first group, from position `k` on, with an open end `segment` continues; `|C|` when there is none. */
  function FirstTaker(C: seq<GroupCopy>, segment: Segment, k: nat): (r: nat)
    requires TwoLines(segment) && k <= |C|
    ensures k <= r <= |C|
    decreases |C| - k
  {
    if k == |C| then |C|
    else if FirstEnd(C[k].openEnds, segment, 0) < |C[k].openEnds| then k
    else FirstTaker(C, segment, k + 1)
  }

  /**
   * `FirstTaker` finds a group with an open end the segment continues, the first one being
   * where `FirstEnd` stops, and no open end of an earlier group from `k` on is continued.
   */
  lemma {:induction false} FirstTakerIs(C: seq<GroupCopy>, segment: Segment, k: nat)
    requires TwoLines(segment) && k <= |C|
    ensures var r := FirstTaker(C, segment, k);
      && (r < |C| ==> FirstEnd(C[r].openEnds, segment, 0) < |C[r].openEnds|
                      && Continuation(C[r].openEnds[FirstEnd(C[r].openEnds, segment, 0)], segment).Some?)
      && forall l, e :: k <= l < r && 0 <= e < |C[l].openEnds| ==> Continuation(C[l].openEnds[e], segment).None?
    decreases |C| - k
  {
    if k < |C| {
      FirstEndIs(C[k].openEnds, segment, 0);
      if FirstEnd(C[k].openEnds, segment, 0) == |C[k].openEnds| {
        FirstTakerIs(C, segment, k + 1);
      }
    }
  }

  /**
   * The builder's step for one segment, on the groups' fields: the first group with an open
   * end the segment continues takes it and trades that end for the segment's other line;
   * with none, a new group with the next id holds the segment and its two lines.
   */
  function PlaceCopy(C: seq<GroupCopy>, segment: Segment): (r: seq<GroupCopy>)
    requires TwoLines(segment)
    ensures |C| <= |r| <= |C| + 1
  {
    var k := FirstTaker(C, segment, 0);
    FirstTakerIs(C, segment, 0);
    if k < |C| then
      var g := C[k];
      var end := g.openEnds[FirstEnd(g.openEnds, segment, 0)];
      C[k := GroupCopy(g.id, g.segments + [segment], RemoveFirst(g.openEnds, end) + [Continuation(end, segment).value])]
    else
      C + [GroupCopy(|C|, [segment], segment.outerLines)]
  }

  /** The builder's step adds a group exactly when no open end of any group continues the segment. */
  lemma PlaceCopyCount(C: seq<GroupCopy>, segment: Segment)
    requires TwoLines(segment)
    ensures |PlaceCopy(C, segment)| == |C| + (if Continues(C, segment) then 0 else 1)
  {
    FirstTakerIs(C, segment, 0);
  }

  /**
   * When the groups before `k` continue nothing and `openEnd`, at position `e`, is the first
   * open end of group `k` that `segment` continues, group `k` takes the segment.
   */
  lemma PlaceCopyJoins(C: seq<GroupCopy>, segment: Segment, k: int, e: int, newEnd: Line, openEnd: Line)
    requires TwoLines(segment) && 0 <= k < |C|
    requires forall l, e2 :: 0 <= l < k && 0 <= e2 < |C[l].openEnds| ==> Continuation(C[l].openEnds[e2], segment).None?
    requires FirstContinued(C[k].openEnds, segment, e, newEnd, openEnd)
    ensures var g := C[k];
      PlaceCopy(C, segment) == C[k := GroupCopy(g.id, g.segments + [segment], RemoveFirst(g.openEnds, openEnd) + [newEnd])]
  {
    FirstEndIs(C[k].openEnds, segment, 0);
    FirstTakerIs(C, segment, 0);
  }

  /** When no open end continues `segment`, it starts a new group. */
  lemma PlaceCopyStarts(C: seq<GroupCopy>, segment: Segment)
    requires TwoLines(segment)
    requires forall l, e :: 0 <= l < |C| && 0 <= e < |C[l].openEnds| ==> Continuation(C[l].openEnds[e], segment).None?
    ensures PlaceCopy(C, segment) == C + [GroupCopy(|C|, [segment], segment.outerLines)]
  {
    FirstTakerIs(C, segment, 0);
  }

  /** The builder's steps for the segments `segs`, in order. */
  function PlaceAll(C: seq<GroupCopy>, segs: seq<Segment>): seq<GroupCopy>
    requires forall i :: 0 <= i < |segs| ==> TwoLines(segs[i])
  {
    if segs == [] then C else PlaceCopy(PlaceAll(C, segs[..|segs| - 1]), segs[|segs| - 1])
  }

  /** The groups the builder makes from the tiles of `grid`, tile by tile. */
  function PlaceGrid(grid: seq<Tile>): seq<GroupCopy> {
    if grid == [] then [] else PlaceAll(PlaceGrid(grid[..|grid| - 1]), TileSegments(grid[|grid| - 1]))
  }

  /** Placing one more segment of a tile. */
  lemma PlaceTileNext(C: seq<GroupCopy>, t: Tile, j: int, D: seq<GroupCopy>)
    requires 0 <= j < |t.connection|
    requires D == PlaceCopy(PlaceAll(C, TileSegments(t)[..j]), NewSegment(t.id, t.connection[j]))
    ensures D == PlaceAll(C, TileSegments(t)[..j + 1])
  {
    assert TileSegments(t)[..j + 1][..j] == TileSegments(t)[..j];
  }

  /** Placing the segments of one more tile. */
  lemma PlaceGridNext(grid: seq<Tile>, i: int)
    requires 0 <= i < |grid|
    ensures PlaceGrid(grid[..i + 1]) == PlaceAll(PlaceGrid(grid[..i]), TileSegments(grid[i]))
  {
    assert grid[..i + 1][..i] == grid[..i];
  }

  /** The builder's step keeps its state: ids count up, two open ends each, the segments placed. */
  lemma PlaceCopyBuilt(C: seq<GroupCopy>, done: seq<Segment>, segment: Segment)
    requires Built(C, done) && TwoLines(segment)
    ensures Built(PlaceCopy(C, segment), done + [segment])
  {
    var k := FirstTaker(C, segment, 0);
    FirstTakerIs(C, segment, 0);
    if k < |C| {
      var end := C[k].openEnds[FirstEnd(C[k].openEnds, segment, 0)];
      JoinKeepsBuilt(C, done, k, segment, Continuation(end, segment).value, end);
    } else {
      StartKeepsBuilt(C, done, segment);
    }
  }

  /** The builder's steps over any segments keep its state. */
  lemma {:induction false} PlaceAllBuilt(C: seq<GroupCopy>, done: seq<Segment>, segs: seq<Segment>)
    requires Built(C, done) && forall i :: 0 <= i < |segs| ==> TwoLines(segs[i])
    ensures Built(PlaceAll(C, segs), done + segs)
    decreases |segs|
  {
    if segs != [] {
      var init, last := segs[..|segs| - 1], segs[|segs| - 1];
      PlaceAllBuilt(C, done, init);
      PlaceCopyBuilt(PlaceAll(C, init), done + init, last);
      AppendLast(done, segs);
    }
  }

  /** Appending a non-empty sequence is appending all of it but its last element, then that element. */
  lemma AppendLast<T>(a: seq<T>, s: seq<T>)
    requires s != []
    ensures a + s == (a + s[..|s| - 1]) + [s[|s| - 1]]
  {
    assert s == s[..|s| - 1] + [s[|s| - 1]];
  }

  /** The groups built from a grid hold its segments, with ids counting up and two open ends each. */
  lemma {:induction false} PlaceGridBuilt(grid: seq<Tile>)
    ensures Built(PlaceGrid(grid), AllSegments(grid))
    decreases |grid|
  {
    if grid != [] {
      PlaceGridBuilt(grid[..|grid| - 1]);
      PlaceAllBuilt(PlaceGrid(grid[..|grid| - 1]), AllSegments(grid[..|grid| - 1]), TileSegments(grid[|grid| - 1]));
    }
  }

  /** A segment joining group `k` through one of its open ends keeps the builder's state. */
  lemma JoinKeepsBuilt(copies: seq<GroupCopy>, done: seq<Segment>, k: int, segment: Segment, newEnd: Line, openEnd: Line)
    requires Built(copies, done) && 0 <= k < |copies| && openEnd in copies[k].openEnds
    ensures var g := copies[k];
      Built(copies[k := GroupCopy(g.id, g.segments + [segment], RemoveFirst(g.openEnds, openEnd) + [newEnd])], done + [segment])
  {
    var g := copies[k];
    var h := GroupCopy(g.id, g.segments + [segment], RemoveFirst(g.openEnds, openEnd) + [newEnd]);
    assert |h.openEnds| == 2;
    GrowKeepsBag(copies, done, k, h, segment);
  }

  /** Adding one segment to group `k` adds it to the bag of all segments. */
  lemma GrowKeepsBag(copies: seq<GroupCopy>, done: seq<Segment>, k: int, h: GroupCopy, segment: Segment)
    requires 0 <= k < |copies| && multiset(Flatten(copies)) == multiset(done)
    requires h.segments == copies[k].segments + [segment]
    ensures multiset(Flatten(copies[k := h])) == multiset(done + [segment])
  {
    forall x: Segment
      ensures multiset(Flatten(copies[k := h]))[x] == multiset(done + [segment])[x]
    {
      FlattenUpdateAt(copies, k, h, x);
      assert multiset(h.segments)[x] == multiset(copies[k].segments)[x] + multiset{segment}[x];
    }
  }

  /** A segment starting a new group keeps the builder's state. */
  lemma StartKeepsBuilt(copies: seq<GroupCopy>, done: seq<Segment>, segment: Segment)
    requires Built(copies, done) && TwoLines(segment)
    ensures Built(copies + [GroupCopy(|copies|, [segment], segment.outerLines)], done + [segment])
  {
    FlattenAppend(copies, GroupCopy(|copies|, [segment], segment.outerLines));
  }

  class DetectionConnected {
    /** `self.grid`. */
    const grid: seq<Tile>
    /** `self.segment_group_list`. */
    var segmentGroupList: seq<Group>
    /** `self.group_id`: the id the next new group gets. */
    var groupId: int
    /** The fields of the groups of the list, as the builder leaves them. */
    ghost var copies: seq<GroupCopy>

    /** `copies` holds the fields of the groups of the list. */
    ghost predicate Mirrors()
      reads this, segmentGroupList
    {
      |copies| == |segmentGroupList| && forall k :: 0 <= k < |segmentGroupList| ==> Copy(segmentGroupList[k]) == copies[k]
    }

    /** The builder's state after placing the segments `done`. */
    ghost predicate Building(done: seq<Segment>)
      reads this, segmentGroupList
    {
      && groupId == |segmentGroupList|
      && ColouringSpec.Distinct(segmentGroupList)
      && Mirrors()
      && Built(copies, done)
    }

    /**
     * `detection_connected(grid)`: every segment of every tile, in grid order, joins the first
     * group with an open end it continues, or starts a new group. `add_segment` never raises
     * here, and every group ends with two open ends.
     */
    constructor (grid: seq<Tile>)
      ensures this.grid == grid
      ensures copies == PlaceGrid(grid)
      ensures Building(AllSegments(grid))
    {
      this.grid := grid;
      segmentGroupList := [];
      groupId := 0;
      copies := [];
      new;
      var i := 0;
      ghost var done := [];
      while i < |grid|
        // compared with `true` so that the loop state is checked as one fact, not clause by clause
        invariant GridPlaced(grid, i, done) == true
        invariant forall k :: 0 <= k < |segmentGroupList| ==> fresh(segmentGroupList[k])
      {
        done := PlaceGridStep(grid, i, done);
        i := i + 1;
      }
      assert grid[..i] == grid;
    }

    /** The builder has placed the segments `done` of the first `i` tiles of `grid`. */
    ghost predicate GridPlaced(grid: seq<Tile>, i: int, done: seq<Segment>)
      reads this, segmentGroupList
    {
      && 0 <= i <= |grid|
      && done == AllSegments(grid[..i])
      && Building(done)
      && copies == PlaceGrid(grid[..i])
    }

    /** One round of the builder's loop over the tiles: tile `i` is placed. */
    method PlaceGridStep(grid: seq<Tile>, i: int, ghost done: seq<Segment>) returns (ghost done': seq<Segment>)
      requires GridPlaced(grid, i, done) && i < |grid|
      modifies this`segmentGroupList, this`groupId, this`copies, segmentGroupList
      ensures GridPlaced(grid, i + 1, done')
      ensures forall k :: 0 <= k < |segmentGroupList| ==> segmentGroupList[k] in old(segmentGroupList) || fresh(segmentGroupList[k])
    {
      PlaceTile(grid[i], done);
      AllSegmentsNext(grid, i);
      PlaceGridNext(grid, i);
      done' := done + TileSegments(grid[i]);
    }

    /** The builder's loop over the edge pairs of one tile. */
    method PlaceTile(hexagon: Tile, ghost before: seq<Segment>)
      requires Building(before)
      modifies this`segmentGroupList, this`groupId, this`copies, segmentGroupList
      ensures Building(before + TileSegments(hexagon))
      ensures copies == PlaceAll(old(copies), TileSegments(hexagon))
      ensures forall k :: 0 <= k < |segmentGroupList| ==> segmentGroupList[k] in old(segmentGroupList) || fresh(segmentGroupList[k])
    {
      var j := 0;
      assert TileSegments(hexagon)[..0] == [];
      while j < |hexagon.connection|
        // compared with `true` so that the loop state is checked as one fact, not clause by clause
        invariant TilePlaced(hexagon, before, j, old(copies)) == true
        invariant forall k :: 0 <= k < |segmentGroupList| ==> segmentGroupList[k] in old(segmentGroupList) || fresh(segmentGroupList[k])
      {
        PlaceTileStep(hexagon, j, before, old(copies));
        j := j + 1;
      }
      assert TileSegments(hexagon)[..j] == TileSegments(hexagon);
    }

    /** The builder has placed the first `j` edge pairs of `hexagon`, after the segments `before`, starting from the groups `C`. */
    ghost predicate TilePlaced(hexagon: Tile, before: seq<Segment>, j: int, C: seq<GroupCopy>)
      reads this, segmentGroupList
    {
      && 0 <= j <= |hexagon.connection|
      && Building(before + TileSegments(hexagon)[..j])
      && copies == PlaceAll(C, TileSegments(hexagon)[..j])
    }

    /** One round of the builder's loop over the edge pairs of a tile: pair `j` is placed. */
    method PlaceTileStep(hexagon: Tile, j: int, ghost before: seq<Segment>, ghost C: seq<GroupCopy>)
      requires TilePlaced(hexagon, before, j, C) && j < |hexagon.connection|
      modifies this`segmentGroupList, this`groupId, this`copies, segmentGroupList
      ensures TilePlaced(hexagon, before, j + 1, C)
      ensures forall k :: 0 <= k < |segmentGroupList| ==> segmentGroupList[k] in old(segmentGroupList) || fresh(segmentGroupList[k])
    {
      var segment := NewSegment(hexagon.id, hexagon.connection[j]);
      TileSegmentsNext(hexagon, before, j);
      PlaceSegment(segment, before + TileSegments(hexagon)[..j]);
      PlaceTileNext(C, hexagon, j, copies);
    }

    /**
     * The inner loop of the builder for one segment: the first group, in list order, with an
     * open end the segment continues takes it; with none, a new group with the next id does.
     */
    method PlaceSegment(segment: Segment, ghost done: seq<Segment>)
      requires TwoLines(segment) && Building(done)
      modifies this`segmentGroupList, this`groupId, this`copies, segmentGroupList
      ensures Building(done + [segment])
      ensures forall k :: 0 <= k < |segmentGroupList| ==> segmentGroupList[k] in old(segmentGroupList) || fresh(segmentGroupList[k])
      ensures copies == PlaceCopy(old(copies), segment)
    {
      var k, r := FindTaker(segment);
      if r.Some? {
        ghost var e :| FirstContinued(copies[k].openEnds, segment, e, r.value.0, r.value.1);
        PlaceCopyJoins(copies, segment, k, e, r.value.0, r.value.1);
        JoinGroup(k, segment, r.value.0, r.value.1, done);
      } else {
        PlaceCopyStarts(copies, segment);
        StartGroup(segment, done);
      }
    }

    /**
     * The search of the builder's inner loop: group `k` is the first with an open end the
     * segment continues, and `r` is what its `test_segment` answers; `k` is the number of
     * groups, and `r` is `None`, when no group has one.
     */
    method FindTaker(segment: Segment) returns (k: int, r: Option<(Line, Line)>)
      requires TwoLines(segment) && Mirrors()
      ensures 0 <= k <= |copies| && (r.Some? <==> k < |copies|)
      ensures forall l, e :: 0 <= l < k && 0 <= e < |copies[l].openEnds| ==> Continuation(copies[l].openEnds[e], segment).None?
      ensures r.Some? ==> exists e :: FirstContinued(copies[k].openEnds, segment, e, r.value.0, r.value.1)
    {
      k := 0;
      while k < |segmentGroupList|
        invariant 0 <= k <= |segmentGroupList|
        invariant forall l, e :: 0 <= l < k && 0 <= e < |copies[l].openEnds| ==> Continuation(copies[l].openEnds[e], segment).None?
      {
        var group := segmentGroupList[k];
        r := group.TestSegment(segment);
        assert Copy(group) == copies[k];
        if r.Some? {
          return;
        }
        k := k + 1;
      }
      r := None;
    }

    /** `group.add_segment(segment, new_end, old_end)` with the ends `test_segment` returned. */
    method JoinGroup(k: int, segment: Segment, newEnd: Line, openEnd: Line, ghost done: seq<Segment>)
      requires Building(done) && 0 <= k < |segmentGroupList| && openEnd in segmentGroupList[k].openEnds
      modifies this`copies, segmentGroupList[k]
      ensures Building(done + [segment])
      ensures var g := old(copies[k]);
        copies == old(copies)[k := GroupCopy(g.id, g.segments + [segment], RemoveFirst(g.openEnds, openEnd) + [newEnd])]
    {
      var group := segmentGroupList[k];
      JoinKeepsBuilt(copies, done, k, segment, newEnd, openEnd);
      var ok := group.AddSegment(segment, newEnd, openEnd);
      assert ok;
      copies := copies[k := Copy(group)];
    }

    /** `Group(self.group_id, segment)` appended to the list, and the next id. */
    method StartGroup(segment: Segment, ghost done: seq<Segment>)
      requires TwoLines(segment) && Building(done)
      modifies this`segmentGroupList, this`groupId, this`copies
      ensures Building(done + [segment])
      ensures segmentGroupList[..|segmentGroupList| - 1] == old(segmentGroupList) && |segmentGroupList| == |old(segmentGroupList)| + 1
      ensures fresh(segmentGroupList[|segmentGroupList| - 1])
      ensures copies == old(copies) + [GroupCopy(|old(copies)|, [segment], segment.outerLines)]
    {
      StartKeepsBuilt(copies, done, segment);
      var g := new Group(groupId, Some(segment));
      segmentGroupList := segmentGroupList + [g];
      groupId := groupId + 1;
      copies := copies + [Copy(g)];
    }
  
    /**
     * `order_groups_lenght`: the list sorted by segment count, largest first, groups of equal
     * count keeping their order (Python's sort is stable, also with `reverse=True`).
     */
    method OrderGroupsLength() returns (ghost order: seq<int>)
      modifies this`segmentGroupList
      ensures IsIndexPermutation(order, |old(segmentGroupList)|)
      ensures |segmentGroupList| == |order|
      ensures forall k :: 0 <= k < |order| ==> segmentGroupList[k] == old(segmentGroupList)[order[k]]
      ensures forall k, l :: 0 <= k < l < |segmentGroupList| ==> |segmentGroupList[k].segments| >= |segmentGroupList[l].segments|
      ensures forall k, l :: 0 <= k < l < |order| && |segmentGroupList[k].segments| == |segmentGroupList[l].segments| ==> order[k] < order[l]
    {
      var groups := segmentGroupList;
      var keys := seq(|groups|, i requires 0 <= i < |groups| reads groups => -|groups[i].segments|);
      var sorted := StableSortIndices(keys);
      segmentGroupList := seq(|sorted|, k requires 0 <= k < |sorted| => groups[sorted[k]]);
      order := sorted;
      assert forall k, l :: 0 <= k < l < |order| ==> Before(keys, order[k], order[l]);
    }

    /**
     * `groups_collouring`: new colour groups, numbered from 0, each holding the segments of the
     * groups placed in it and no open ends; the groups of the list are left as they are.
     */
    method GroupsCollouring() returns (colouredGroups: seq<Group>)
      ensures Copies(colouredGroups) == ColourFit(Copies(segmentGroupList))
      ensures ColouringSpec.Distinct(colouredGroups)
      ensures forall k :: 0 <= k < |colouredGroups| ==> fresh(colouredGroups[k])
    {
      var groups := segmentGroupList;
      ghost var all := Copies(groups);
      colouredGroups := [];
      var i := 0;
      while i < |groups|
        invariant 0 <= i <= |groups|
        invariant Copies(groups) == all
        invariant Copies(colouredGroups) == ColourFit(all[..i])
        invariant ColouringSpec.Distinct(colouredGroups)
        invariant forall k :: 0 <= k < |colouredGroups| ==> fresh(colouredGroups[k])
      {
        ColourFitStep(all, i + 1);
        colouredGroups := ColourGroup(colouredGroups, groups[i]);
        i := i + 1;
      }
      assert all[..i] == all;
    }

    /** `groups_collouring` for one group: into the first bucket it shares no hexagon with, or a new one. */
    method ColourGroup(coloured: seq<Group>, group: Group) returns (coloured': seq<Group>)
      requires ColouringSpec.Distinct(coloured) && group !in coloured
      modifies coloured
      ensures ColouringSpec.Distinct(coloured')
      ensures forall k :: 0 <= k < |coloured'| ==> coloured'[k] in coloured || fresh(coloured'[k])
      ensures Copies(coloured') == Place(old(Copies(coloured)), group.segments)
    {
      ghost var before := Copies(coloured);
      var k := 0;
      while k < |coloured|
        invariant 0 <= k <= |coloured|
        invariant Copies(coloured) == before
        invariant forall j :: 0 <= j < k ==> Overlap(group.segments, before[j].segments)
      {
        assert before[k] == Copy(coloured[k]);
        var overlap := OverlapFound(group.segments, coloured[k].segments);
        if !overlap {
          break;
        }
        k := k + 1;
      }
      FirstFreeUnique(before, group.segments, 0, k);
      if k < |coloured| {
        var bucket := coloured[k];
        bucket.AddGroup(group, None, None);
        AddGroupEndsNone(before[k].openEnds);
        coloured' := coloured;
        assert Copies(coloured') == before[k := before[k].(segments := before[k].segments + group.segments)];
      } else {
        var bucket := NewBucket(|coloured|, group);
        coloured' := coloured + [bucket];
        assert Copies(coloured') == before + [GroupCopy(|before|, group.segments, [])];
      }
    }

    /** `Group(len(coloured_groups))` with the group's segments added: a new, empty-ended bucket. */
    static method NewBucket(id: int, group: Group) returns (bucket: Group)
      ensures fresh(bucket)
      ensures Copy(bucket) == GroupCopy(id, group.segments, [])
    {
      bucket := new Group(id, None);
      bucket.AddGroup(group, None, None);
      AddGroupEndsNone([]);
    }

    /**
     * `merge_groups`: passes over a deep copy of the list until one merges nothing; each pass's
     * groups replace the list. The ghost `rounds` holds the list's group values before each pass
     * and after the last: every pass leads from one round to the next, every pass but the last
     * shrank the list, and the last changed nothing. The segments are kept, and at the end no
     * group can merge with a later one.
     */
    method MergeGroups() returns (ghost rounds: seq<seq<GroupCopy>>)
      modifies this`segmentGroupList
      ensures |rounds| >= 2 && rounds[0] == old(Copies(segmentGroupList)) && rounds[|rounds| - 1] == Copies(segmentGroupList)
      ensures RoundTrace(rounds)
      ensures rounds[|rounds| - 2] == rounds[|rounds| - 1]
      ensures forall i :: 0 <= i < |rounds| - 2 ==> |rounds[i + 1]| < |rounds[i]|
      ensures multiset(Flatten(Copies(segmentGroupList))) == old(multiset(Flatten(Copies(segmentGroupList))))
      ensures |segmentGroupList| <= old(|segmentGroupList|)
      ensures NoMergeablePair(Copies(segmentGroupList))
      ensures ColouringSpec.Distinct(segmentGroupList)
      ensures forall k :: 0 <= k < |segmentGroupList| ==> fresh(segmentGroupList[k])
    {
      ghost var start := Copies(segmentGroupList);
      var merged;
      merged, rounds := FirstRound(start);
      while merged
        // compared with `true` so that the loop state is checked as one fact, not clause by clause
        invariant Rounds(rounds, merged, start) == true
        invariant forall k :: 0 <= k < |segmentGroupList| ==> fresh(segmentGroupList[k])
        decreases |segmentGroupList| + (if merged then 1 else 0)
      {
        merged, rounds := NextRound(rounds, start);
      }
    }

    /** The state of `merge_groups` after the passes recorded in `rounds`, the last of which is the list now. */
    ghost predicate Rounds(rounds: seq<seq<GroupCopy>>, merged: bool, start: seq<GroupCopy>)
      reads this, segmentGroupList
    {
      && RoundsFrom(rounds, merged, start)
      && rounds[|rounds| - 1] == Copies(segmentGroupList)
      && ColouringSpec.Distinct(segmentGroupList)
    }

    /** The first pass of `merge_groups`. */
    method FirstRound(ghost start: seq<GroupCopy>) returns (merged: bool, ghost rounds: seq<seq<GroupCopy>>)
      requires start == Copies(segmentGroupList)
      modifies this`segmentGroupList
      ensures Rounds(rounds, merged, start)
      ensures forall k :: 0 <= k < |segmentGroupList| ==> fresh(segmentGroupList[k])
    {
      merged := MergeRound();
      rounds := [start, Copies(segmentGroupList)];
    }

    /** One more pass of `merge_groups`, after a pass that merged. */
    method NextRound(ghost rounds: seq<seq<GroupCopy>>, ghost start: seq<GroupCopy>)
      returns (merged: bool, ghost rounds': seq<seq<GroupCopy>>)
      requires Rounds(rounds, true, start)
      modifies this`segmentGroupList
      ensures Rounds(rounds', merged, start)
      ensures |segmentGroupList| + (if merged then 1 else 0) < old(|segmentGroupList|) + 1
      ensures forall k :: 0 <= k < |segmentGroupList| ==> fresh(segmentGroupList[k])
    {
      merged := MergeRound();
      RoundsFromNext(rounds, start, Copies(segmentGroupList), merged);
      rounds' := rounds + [Copies(segmentGroupList)];
    }

    /** One pass of `merge_groups` over a deep copy of the list; its groups replace the list. */
    method MergeRound() returns (merged: bool)
      modifies this`segmentGroupList
      ensures PassLeaves(old(Copies(segmentGroupList)), Copies(segmentGroupList))
      ensures multiset(Flatten(Copies(segmentGroupList))) == old(multiset(Flatten(Copies(segmentGroupList))))
      ensures merged <==> |segmentGroupList| < old(|segmentGroupList|)
      ensures !merged ==> Copies(segmentGroupList) == old(Copies(segmentGroupList)) && NoMergeablePair(Copies(segmentGroupList))
      ensures ColouringSpec.Distinct(segmentGroupList)
      ensures forall k :: 0 <= k < |segmentGroupList| ==> fresh(segmentGroupList[k])
    {
      var unchecked := Copies(segmentGroupList);
      assert unchecked == old(Copies(segmentGroupList));
      var newList;
      ghost var pos, turns;
      newList, merged, pos, turns := MergePass(unchecked);
      segmentGroupList := Materialize(newList);
      assert PassResult(unchecked, newList, pos, turns);
      assert PassLeaves(unchecked, newList);
    }
  }

  /**
   * The builder followed by its first print: `segment_group_list[0]` raises IndexError
   * (`EmptyGrid`) exactly when the grid has no segment.
   */
  method NewDetectionConnected(grid: seq<Tile>) returns (r: Result<DetectionConnected>)
    ensures r.Err? <==> AllSegments(grid) == []
    ensures r.Err? ==> r.error == EmptyGrid
    ensures r.Ok? ==> r.value.grid == grid && r.value.Building(AllSegments(grid))
  {
    var d := new DetectionConnected(grid);
    if |d.segmentGroupList| == 0 {
      assert d.copies == [];
      assert multiset(AllSegments(grid)) == multiset{};
      return Err(EmptyGrid);
    }
    var last := d.copies[|d.copies| - 1];
    assert Flatten(d.copies) == Flatten(d.copies[..|d.copies| - 1]) + last.segments;
    assert last.segments[0] in multiset(AllSegments(grid));
    return Ok(d);
  }
}
