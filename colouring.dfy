/**
 * `_Colouring` (Colouring.py): groups the segments of a grid into strands, merges strands whose
 * open ends meet, colours the strands first-fit so that no colour holds two strands through the
 * same hexagon, merges colours down to `colour_count`, and writes each segment's colour.
 *
 * Python's `in`, `!=`, `list.index` and `list.remove` on groups compare by identity (the group
 * class defines no equality), which is reference equality here. Set iteration order is
 * unspecified and becomes a choice (`:|`).
 */
module Colourings {
  import opened Wrappers
  import opened Segments
  import opened Groups
  import opened Hexagons
  import opened ColouringSpec
  import opened Sorting
  import opened PassRecords
  import opened ColouringSteps

  /**
   * The state of one pass of `merge_groups` after the turns of the groups before `a`: the same
   * fact as `TurnsUpTo`, under a name of this module, so that the methods of the pass exchange
   * it as one fact instead of having the verifier unfold it into its many clauses at every call.
   */
  ghost predicate PassUpTo(U: seq<Group>, a: int, checked: seq<Group>, newList: seq<Group>, merged: bool,
                           absorbed: set<int>, m: map<Group, set<Segment>>, all: set<Segment>,
                           S: seq<set<Segment>>, B: seq<set<Segment>>, pos: seq<int>, turns: seq<Turn<Segment>>)
    reads U, newList
  {
    TurnsUpTo(U, a, checked, newList, merged, absorbed, m, all, S, B, pos, turns)
  }

  /**
   * The groups `U` split the segments `all`: the same fact as `GroupPartition`, named here so
   * that the pass methods exchange it without unfolding it at every call.
   */
  ghost predicate Splits(U: seq<Group>, all: set<Segment>)
    reads U
  {
    GroupPartition(U, all)
  }

  class Colouring {
    /** `self.grid`. */
    const grid: seq<Hexagon>
    /** The segments of the grid, the set every grouping below splits. */
    ghost const all: set<Segment>
    /** `self.segment_group_list`. */
    var segmentGroupList: seq<Group>
    /** `self.group_id`, the next id the builder hands out. */
    var groupId: int
    /** `self.coloured_groups`; each entry is also one of the `segmentGroupList` objects. */
    var colouredGroups: seq<Group>
    /** The segment sets of the merged groups (the strands), before colouring grew some of them. */
    ghost var strands: seq<set<Segment>>
    /** The segment sets of the colour groups, in list order. */
    ghost var colours: seq<set<Segment>>

    /**
     * The groups of the list split the grid's segments: `GroupPartition` of the list, named
     * here so that the methods of the class exchange it as one fact.
     */
    ghost predicate Partitioned()
      reads this`segmentGroupList, segmentGroupList
    {
      GroupPartition(segmentGroupList, all)
    }

    /**
     * `_Colouring(grid)` up to the colour reduction: build the groups, merge them until no two
     * can be merged, and colour them first-fit. The strands split the grid's segments, no two
     * merged groups can still be merged, the colour groups are the groups that opened a
     * first-fit bucket, grown to the bucket's segments, and the other groups are left as
     * they were.
     */
    constructor (grid: seq<Hexagon>)
      requires DistinctSegments(grid)
      ensures this.grid == grid && all == GridSegments(grid)
      ensures SeqPartition(strands, all) && |strands| == |segmentGroupList|
      ensures Distinct(segmentGroupList)
      ensures forall k :: 0 <= k < |segmentGroupList| ==> fresh(segmentGroupList[k])
      ensures forall x, y :: 0 <= x < |segmentGroupList| && 0 <= y < |segmentGroupList| && x != y ==>
        !CanMerge(segmentGroupList[x], segmentGroupList[y])
      ensures var b := FirstFit(strands);
        && colours == b.contents && |colouredGroups| == |b.openers|
        && (forall k :: 0 <= k < |colouredGroups| ==>
              0 <= b.openers[k] < |segmentGroupList| && colouredGroups[k] == segmentGroupList[b.openers[k]])
      ensures forall j :: 0 <= j < |segmentGroupList| && segmentGroupList[j] !in colouredGroups ==>
        segmentGroupList[j].segments == strands[j]
      ensures Mirrors(colouredGroups, colours) && Distinct(colouredGroups) && SeqPartition(colours, all)
    {
      this.grid := grid;
      all := GridSegments(grid);
      new;
      Build();
      ghost var built := segmentGroupList;
      ghost var merging, merges := MergeAndColour();
      forall k | 0 <= k < |segmentGroupList| ensures fresh(segmentGroupList[k]) {
        var i :| 0 <= i < |built| && built[i] == segmentGroupList[k];
      }
    }

    /**
     * The rest of `__init__` after the builder loop: `merge_groups`, then the colouring of
     * the strands it leaves. `merging` and `merges` are the stages and passes of `merge_groups`,
     * from the built list to the strands.
     */
    method MergeAndColour() returns (ghost merging: seq<Stage>, ghost merges: seq<Pass>)
      requires Partitioned()
      modifies this`segmentGroupList, segmentGroupList, this`strands, this`colouredGroups, this`colours
      ensures |merging| >= 2 && merging[0] == old(StageOf(segmentGroupList)) && StageTrace(merging, merges)
      ensures merging[|merging| - 1].segments == strands
      ensures forall k :: 0 <= k < |segmentGroupList| ==> segmentGroupList[k] in old(segmentGroupList)
      ensures SeqPartition(strands, all) && |strands| == |segmentGroupList|
      ensures Distinct(segmentGroupList)
      ensures forall x, y :: 0 <= x < |segmentGroupList| && 0 <= y < |segmentGroupList| && x != y ==>
        !CanMerge(segmentGroupList[x], segmentGroupList[y])
      ensures var b := FirstFit(strands);
        && colours == b.contents && |colouredGroups| == |b.openers|
        && (forall k :: 0 <= k < |colouredGroups| ==>
              0 <= b.openers[k] < |segmentGroupList| && colouredGroups[k] == segmentGroupList[b.openers[k]])
      ensures forall j :: 0 <= j < |segmentGroupList| && segmentGroupList[j] !in colouredGroups ==>
        segmentGroupList[j].segments == strands[j]
      ensures Mirrors(colouredGroups, colours) && Distinct(colouredGroups) && SeqPartition(colours, all)
    {
      merging, merges := MergeGroups();
      ColourStrands();
    }

    /**
     * The strands are the merged groups' segment sets; `groups_colouring` then colours them,
     * and the colour groups split the segments as the strands do.
     */
    method ColourStrands()
      requires Partitioned()
      requires forall x, y :: 0 <= x < |segmentGroupList| && 0 <= y < |segmentGroupList| && x != y ==>
        !CanMerge(segmentGroupList[x], segmentGroupList[y])
      modifies this`strands, this`colouredGroups, this`colours, segmentGroupList
      ensures strands == old(Contents(segmentGroupList))
      ensures forall x, y :: 0 <= x < |segmentGroupList| && 0 <= y < |segmentGroupList| && x != y ==>
        !CanMerge(segmentGroupList[x], segmentGroupList[y])
      ensures SeqPartition(strands, all) && |strands| == |segmentGroupList|
      ensures Distinct(segmentGroupList)
      ensures var b := FirstFit(strands);
        && colours == b.contents && |colouredGroups| == |b.openers|
        && (forall k :: 0 <= k < |colouredGroups| ==>
              0 <= b.openers[k] < |segmentGroupList| && colouredGroups[k] == segmentGroupList[b.openers[k]])
      ensures forall j :: 0 <= j < |segmentGroupList| && segmentGroupList[j] !in colouredGroups ==>
        segmentGroupList[j].segments == strands[j]
      ensures forall j :: 0 <= j < |segmentGroupList| ==>
        segmentGroupList[j].borderSegments == old(segmentGroupList[j].borderSegments)
      ensures Mirrors(colouredGroups, colours) && Distinct(colouredGroups) && SeqPartition(colours, all)
    {
      GroupPartitionDistinct(segmentGroupList, all);
      GroupPartitionSeq(segmentGroupList, all);
      strands := Contents(segmentGroupList);
      assert Mirrors(segmentGroupList, strands);
      GroupsColouring();
      FirstFitPartition(strands, all);
    }

    /**
     * The builder loop of `__init__`: each segment, hexagon by hexagon, joins the first group
     * one of whose border segments it continues, or starts a new group with the next id. The
     * groups split the grid's segments and keep a border of one or two of their segments.
     */
    method Build()
      requires DistinctSegments(grid) && all == GridSegments(grid)
      modifies this`segmentGroupList, this`groupId
      ensures groupId == |segmentGroupList|
      ensures forall k :: 0 <= k < |segmentGroupList| ==> fresh(segmentGroupList[k]) && segmentGroupList[k].id == k
      ensures Partitioned()
    {
      segmentGroupList := [];
      groupId := 0;
      ghost var P: seq<set<Segment>> := [];
      ghost var done: set<Segment> := {};
      var i := 0;
      while i < |grid|
        invariant 0 <= i <= |grid|
        invariant done == SegmentsBefore(grid, i, 0)
        invariant forall k :: 0 <= k < |segmentGroupList| ==> fresh(segmentGroupList[k])
        invariant Building(P, done)
      {
        P := PlaceHexagon(i, P, done);
        SegmentsBeforeRow(grid, i);
        done := SegmentsBefore(grid, i + 1, 0);
        i := i + 1;
      }
      SegmentsBeforeAll(grid);
      SeqToGroupPartition(segmentGroupList, P, all);
    }

    /** The inner builder loop: the segments of hexagon `i`, in order. */
    method PlaceHexagon(i: int, ghost P: seq<set<Segment>>, ghost done: set<Segment>)
      returns (ghost P': seq<set<Segment>>)
      requires DistinctSegments(grid) && 0 <= i < |grid|
      requires done == SegmentsBefore(grid, i, 0) && Building(P, done)
      modifies this`segmentGroupList, this`groupId, segmentGroupList
      ensures Building(P', SegmentsBefore(grid, i, |grid[i].segments|))
      ensures forall k :: 0 <= k < |segmentGroupList| ==> segmentGroupList[k] in old(segmentGroupList) || fresh(segmentGroupList[k])
    {
      var hexagon := grid[i];
      var j := 0;
      P' := P;
      ghost var visited := done;
      while j < |hexagon.segments|
        invariant 0 <= j <= |hexagon.segments|
        invariant visited == SegmentsBefore(grid, i, j)
        invariant forall k :: 0 <= k < |segmentGroupList| ==> segmentGroupList[k] in old(segmentGroupList) || fresh(segmentGroupList[k])
        invariant Building(P', visited)
      {
        var segment := hexagon.segments[j];
        SegmentNotBefore(grid, i, j);
        ghost var taker, oldEnd;
        P', taker, oldEnd := PlaceSegment(segment, P', visited);
        SegmentsBeforeStep(grid, i, j);
        visited := visited + {segment};
        j := j + 1;
      }
    }

    /**
     * The state of the builder loop: `groupId` counts the groups, group `k` has id `k` and
     * segments `P[k]`, the parts `P` split the segments visited so far, and every group keeps a
     * border of one or two of its segments.
     */
    ghost predicate Building(P: seq<set<Segment>>, done: set<Segment>)
      reads this, segmentGroupList
    {
      && groupId == |segmentGroupList| == |P|
      && (forall k :: 0 <= k < |segmentGroupList| ==>
            segmentGroupList[k].id == k && segmentGroupList[k].segments == P[k] && segmentGroupList[k].WellFormed())
      && SeqPartition(P, done)
    }

    /**
     * The body of the builder loop for one segment, on the groups' borders `B` before it: group
     * `k`, the first with a border segment `oldEnd` the segment continues, takes it, and
     * `oldEnd` leaves its border unless it was the only one; with no such group, a new group
     * with the next id holds the segment, which is its border. Either way the builder's state
     * holds with the segment visited.
     */
    method PlaceSegment(segment: Segment, ghost P: seq<set<Segment>>, ghost done: set<Segment>)
      returns (ghost P': seq<set<Segment>>, ghost k: int, ghost oldEnd: Option<Segment>)
      requires Building(P, done) && segment !in done
      modifies this`segmentGroupList, this`groupId, segmentGroupList
      ensures Building(P', done + {segment})
      ensures |old(segmentGroupList)| <= |segmentGroupList|
      ensures forall j :: 0 <= j < |old(segmentGroupList)| ==> segmentGroupList[j] == old(segmentGroupList[j])
      ensures forall j :: |old(segmentGroupList)| <= j < |segmentGroupList| ==> fresh(segmentGroupList[j])
      ensures var B := old(Borders(segmentGroupList));
        && NoneJoinsBefore(B, k, segment) && (oldEnd.Some? <==> k < |B|)
        && (oldEnd.Some? ==>
              && oldEnd.value in B[k] && Joins(oldEnd.value, segment) && P' == P[k := P[k] + {segment}]
              && Borders(segmentGroupList) == B[k := RemoveEnd(B[k], oldEnd.value) + {segment}])
        && (oldEnd.None? ==> P' == P + [{segment}] && Borders(segmentGroupList) == B + [{segment}])
    {
      ghost var B := Borders(segmentGroupList);
      var taker, end := FindGroupFor(segmentGroupList, segment);
      k, oldEnd := taker, end;
      if end.Some? {
        P' := JoinGroup(taker, end.value, segment, P, done);
        assert |segmentGroupList| == |old(segmentGroupList)|;
      } else {
        P' := StartGroup(segment, P, done);
        ghost var n := |old(segmentGroupList)|;
        forall j | n <= j < |segmentGroupList| ensures fresh(segmentGroupList[j]) {
          assert j == n;
        }
      }
    }

    /** `group.add_segment(segment, old_end)` on group `k`, whose border segment `oldEnd` the segment continues. */
    method JoinGroup(k: int, oldEnd: Segment, segment: Segment, ghost P: seq<set<Segment>>, ghost done: set<Segment>)
      returns (ghost P': seq<set<Segment>>)
      requires Building(P, done) && segment !in done
      requires 0 <= k < |segmentGroupList| && oldEnd in segmentGroupList[k].borderSegments
      modifies segmentGroupList[k]
      ensures Building(P', done + {segment})
      ensures P' == P[k := P[k] + {segment}]
      ensures Borders(segmentGroupList) == old(Borders(segmentGroupList))[k := RemoveEnd(old(segmentGroupList[k].borderSegments), oldEnd) + {segment}]
    {
      ghost var before := Borders(segmentGroupList);
      P' := AddToGroup(k, oldEnd, segment, P, done, before);
      BordersSet(segmentGroupList, before, k, RemoveEnd(before[k], oldEnd) + {segment});
    }

    /** The update of `JoinGroup`, group by group: only group `k` changes. */
    method AddToGroup(k: int, oldEnd: Segment, segment: Segment, ghost P: seq<set<Segment>>, ghost done: set<Segment>,
                      ghost before: seq<set<Segment>>)
      returns (ghost P': seq<set<Segment>>)
      requires Building(P, done) && segment !in done && before == Borders(segmentGroupList)
      requires 0 <= k < |segmentGroupList| && oldEnd in segmentGroupList[k].borderSegments
      modifies segmentGroupList[k]
      ensures Building(P', done + {segment})
      ensures P' == P[k := P[k] + {segment}]
      ensures segmentGroupList[k].borderSegments == RemoveEnd(before[k], oldEnd) + {segment}
      ensures forall j :: 0 <= j < |segmentGroupList| && j != k ==> segmentGroupList[j].borderSegments == before[j]
    {
      var group := segmentGroupList[k];
      assert P[k] <= SeqUnion(P);
      AddSegmentBorderSize(group.borderSegments, oldEnd, segment);
      group.AddSegment(segment, oldEnd);
      assert group.WellFormed();
      SeqPartitionGrow(P, done, k, segment);
      P' := P[k := P[k] + {segment}];
      forall j | 0 <= j < |segmentGroupList| && j != k
        ensures segmentGroupList[j].segments == P'[j] && segmentGroupList[j].WellFormed()
        ensures segmentGroupList[j].borderSegments == before[j]
      {
        assert segmentGroupList[j].id != group.id;
      }
    }

    /** `_Group(group_id, segment)` appended to the list, with the id counter moved on. */
    method StartGroup(segment: Segment, ghost P: seq<set<Segment>>, ghost done: set<Segment>)
      returns (ghost P': seq<set<Segment>>)
      requires Building(P, done) && segment !in done
      modifies this`segmentGroupList, this`groupId
      ensures Building(P', done + {segment})
      ensures |segmentGroupList| == |old(segmentGroupList)| + 1
      ensures segmentGroupList[..|old(segmentGroupList)|] == old(segmentGroupList)
      ensures fresh(segmentGroupList[|old(segmentGroupList)|])
      ensures segmentGroupList[|old(segmentGroupList)|].segments == {segment}
      ensures Borders(segmentGroupList) == old(Borders(segmentGroupList)) + [{segment}]
      ensures P' == P + [{segment}]
    {
      ghost var before := segmentGroupList;
      var newGroup := new Group(groupId, segment);
      BordersAppend(before, newGroup);
      SeqPartitionNew(P, done, segment);
      P' := P + [{segment}];
      segmentGroupList := segmentGroupList + [newGroup];
      groupId := groupId + 1;
      forall j | 0 <= j < |segmentGroupList|
        ensures segmentGroupList[j].id == j && segmentGroupList[j].segments == P'[j] && segmentGroupList[j].WellFormed()
      {
        if j < |before| {
          assert segmentGroupList[j] == before[j];
        }
      }
    }

    /**
     * `test_merge(group1, group2)`: a border segment of `group1` and one of `group2` that
     * continues it (Python's set order picks them), or `None` exactly when there is no such pair.
     */
    method TestMerge(group1: Group, group2: Group) returns (r: Option<(Segment, Segment)>)
      ensures r.Some? ==> r.value.0 in group1.borderSegments && r.value.1 in group2.borderSegments
      ensures r.Some? ==> Joins(r.value.0, r.value.1)
      ensures r.None? <==> !CanMerge(group1, group2)
    {
      var unchecked := group2.borderSegments;
      while unchecked != {}
        invariant unchecked <= group2.borderSegments
        invariant forall b1, b2 :: b1 in group1.borderSegments && b2 in group2.borderSegments - unchecked ==> !Joins(b1, b2)
        decreases unchecked
      {
        var borderGroup2 :| borderGroup2 in unchecked;
        var border := group1.TestSegment(borderGroup2);
        if border.Some? {
          return Some((border.value, borderGroup2));
        }
        unchecked := unchecked - {borderGroup2};
      }
      return None;
    }

    /**
     * The inner loop of `merge_groups` for `group`: the first other unchecked group it can be
     * merged with, with the two connecting ends, or `None` when there is none.
     */
    method FindPartner(group: Group, L: seq<Group>, checked: seq<Group>) returns (r: Option<(int, Segment, Segment)>)
      requires group !in checked
      ensures r.Some? ==>
        && 0 <= r.value.0 < |L| && L[r.value.0] != group && L[r.value.0] !in checked
        && r.value.1 in group.borderSegments && r.value.2 in L[r.value.0].borderSegments
        && Joins(r.value.1, r.value.2)
      ensures r.Some? ==> forall y :: 0 <= y < r.value.0 && L[y] != group && L[y] !in checked ==> !CanMerge(group, L[y])
      ensures r.None? ==> forall y :: 0 <= y < |L| && L[y] != group && L[y] !in checked ==> !CanMerge(group, L[y])
    {
      var c := 0;
      while c < |L|
        invariant 0 <= c <= |L|
        invariant forall y :: 0 <= y < c && L[y] != group && L[y] !in checked ==> !CanMerge(group, L[y])
      {
        var otherGroup := L[c];
        if group != otherGroup && otherGroup !in checked && group !in checked {
          var res := TestMerge(group, otherGroup);
          if res.Some? {
            return Some((c, res.value.0, res.value.1));
          }
        }
        c := c + 1;
      }
      return None;
    }

    /**
     * One pass of the `while merged` loop of `merge_groups`: each group not yet checked takes
     * in the first other unchecked group it can be merged with and goes to the new list. The
     * new list still splits the segments; with no merge it is the old list and no group in it
     * can be merged with a later one.
     */
    method MergePass() returns (merged: bool, ghost merges: nat, ghost p: Pass)
      requires Partitioned()
      modifies this`segmentGroupList, segmentGroupList
      ensures PassMerges(old(StageOf(segmentGroupList)), p, StageOf(segmentGroupList))
      ensures |p.pos| == |segmentGroupList|
      ensures forall j :: 0 <= j < |p.pos| ==>
        0 <= p.pos[j] < |old(segmentGroupList)| && segmentGroupList[j] == old(segmentGroupList)[p.pos[j]]
      ensures Partitioned()
      ensures forall k :: 0 <= k < |segmentGroupList| ==> segmentGroupList[k] in old(segmentGroupList)
      ensures |segmentGroupList| + merges == |old(segmentGroupList)| && merges <= |segmentGroupList|
      ensures merged <==> merges > 0
      ensures !merged ==> segmentGroupList == old(segmentGroupList)
      ensures !merged ==> forall x, y :: 0 <= x < y < |segmentGroupList| ==>
        !CanMerge(segmentGroupList[x], segmentGroupList[y])
    {
      ghost var S, B := Contents(segmentGroupList), Borders(segmentGroupList);
      assert old(StageOf(segmentGroupList)) == Stage(S, B);
      var newSegmentGroupList;
      newSegmentGroupList, merged, merges, p := CheckGroups(segmentGroupList, S, B);
      ghost var after := StageOf(newSegmentGroupList);
      segmentGroupList := newSegmentGroupList;
      assert StageOf(segmentGroupList) == after;
    }

    /**
     * The `for group in unchecked_groups` loop of `merge_groups`, one `CheckGroup` per group
     * of the pass's list `U`.
     */
    method CheckGroups(U: seq<Group>, ghost S: seq<set<Segment>>, ghost B: seq<set<Segment>>)
      returns (newList: seq<Group>, merged: bool, ghost merges: nat, ghost p: Pass)
      requires Splits(U, all) && Untouched(U, 0, S, B)
      modifies U
      ensures PassMerges(Stage(S, B), p, StageOf(newList))
      ensures |p.pos| == |newList| && forall j :: 0 <= j < |p.pos| ==> 0 <= p.pos[j] < |U| && newList[j] == U[p.pos[j]]
      ensures Splits(newList, all)
      ensures forall k :: 0 <= k < |newList| ==> newList[k] in U
      ensures |newList| + merges == |U| && merges <= |newList|
      ensures merged <==> merges > 0
      ensures !merged ==> newList == U
      ensures !merged ==> forall x, y :: 0 <= x < y < |U| ==> !CanMerge(U[x], U[y])
    {
      var checked;
      ghost var absorbed, m, pos, turns;
      ghost var m0 := PassStart(U, all);
      ShapeStart<Segment>(|U|);
      checked, newList, merged, absorbed, m, pos, turns := CheckAll(U, m0, S, B);
      PassEnd(U, checked, newList, merged, absorbed, m, all);
      TracedOutcome(U, newList, S, B, pos, turns);
      merges := |absorbed|;
      p := Pass(pos, turns);
    }

    /** The `for group in unchecked_groups` loop of `merge_groups`, turn by turn over the whole list. */
    method CheckAll(U: seq<Group>, ghost m0: map<Group, set<Segment>>, ghost S: seq<set<Segment>>, ghost B: seq<set<Segment>>)
      returns (checked: seq<Group>, newList: seq<Group>, merged: bool, ghost absorbed: set<int>,
               ghost m: map<Group, set<Segment>>, ghost pos: seq<int>, ghost turns: seq<Turn<Segment>>)
      requires PassUpTo(U, 0, [], [], false, {}, m0, all, S, B, [], [])
      modifies U
      ensures PassUpTo(U, |U|, checked, newList, merged, absorbed, m, all, S, B, pos, turns)
    {
      checked, newList, merged := [], [], false;
      absorbed, m, pos, turns := {}, m0, [], [];
      var a := 0;
      while a < |U|
        invariant 0 <= a <= |U|
        // compared with `true` so that the pass state is checked as one fact, not clause by clause
        invariant PassUpTo(U, a, checked, newList, merged, absorbed, m, all, S, B, pos, turns) == true
        decreases |U| - a
      {
        checked, newList, merged, absorbed, m, pos, turns :=
          CheckGroup(U, a, checked, newList, merged, absorbed, m, all, S, B, pos, turns);
        a := a + 1;
      }
    }

    /**
     * One turn of the `for group in unchecked_groups` loop of `merge_groups`: a group already
     * checked is passed over; otherwise it absorbs the first unchecked group it can be merged
     * with, or else goes to the new list as it is. The pass state is kept, and while nothing has
     * been merged no group up to `a` can be merged with a later one.
     */
    method CheckGroup(U: seq<Group>, a: int, checked: seq<Group>, newList: seq<Group>, merged: bool,
                      ghost absorbed: set<int>, ghost m: map<Group, set<Segment>>, ghost all: set<Segment>,
                      ghost S: seq<set<Segment>>, ghost B: seq<set<Segment>>, ghost pos: seq<int>,
                      ghost turns: seq<Turn<Segment>>)
      returns (checked': seq<Group>, newList': seq<Group>, merged': bool,
               ghost absorbed': set<int>, ghost m': map<Group, set<Segment>>,
               ghost pos': seq<int>, ghost turns': seq<Turn<Segment>>)
      requires PassUpTo(U, a, checked, newList, merged, absorbed, m, all, S, B, pos, turns) && a < |U|
      modifies U
      ensures PassUpTo(U, a + 1, checked', newList', merged', absorbed', m', all, S, B, pos', turns')
    {
      var group := U[a];
      checked', newList', merged', absorbed', m', pos', turns' := checked, newList, merged, absorbed, m, pos, turns;
      if group in checked {
        SkipTurn(U, a, checked, newList, merged, absorbed, m, all, S, B, pos, turns);
        return;
      }
      var r := FindPartner(group, U, checked);
      if r.Some? {
        var (c, connectingEndG1, connectingEndG2) := r.value;
        checked', newList', absorbed', m', pos', turns' :=
          AbsorbTurn(U, a, c, connectingEndG1, connectingEndG2, checked, newList, merged, absorbed, m, all, S, B, pos, turns);
        merged' := true;
      } else {
        KeepTurn(U, a, checked, newList, merged, absorbed, m, all, S, B, pos, turns);
        newList' := newList + [group];
        checked' := checked + [group];
        pos', turns' := pos + [a], turns + [Alone];
      }
    }

    /** The turn of group `a` when an earlier group absorbed it: it is passed over. */
    lemma SkipTurn(U: seq<Group>, a: int, checked: seq<Group>, newList: seq<Group>, merged: bool,
                   absorbed: set<int>, m: map<Group, set<Segment>>, all: set<Segment>,
                   S: seq<set<Segment>>, B: seq<set<Segment>>, pos: seq<int>, turns: seq<Turn<Segment>>)
      requires PassUpTo(U, a, checked, newList, merged, absorbed, m, all, S, B, pos, turns) && a < |U| && U[a] in checked
      ensures PassUpTo(U, a + 1, checked, newList, merged, absorbed, m, all, S, B, pos, turns)
    {
      assert a in absorbed;
      SkipStep(U, a, checked, newList, merged, absorbed, m, all);
      ColourRecordSkip(B, a, pos, turns);
    }

    /** The turn of group `a` when it finds no partner: it goes to the new list as it is. */
    lemma KeepTurn(U: seq<Group>, a: int, checked: seq<Group>, newList: seq<Group>, merged: bool,
                   absorbed: set<int>, m: map<Group, set<Segment>>, all: set<Segment>,
                   S: seq<set<Segment>>, B: seq<set<Segment>>, pos: seq<int>, turns: seq<Turn<Segment>>)
      requires PassUpTo(U, a, checked, newList, merged, absorbed, m, all, S, B, pos, turns) && a < |U| && U[a] !in checked
      requires forall y :: 0 <= y < |U| && U[y] != U[a] && U[y] !in checked ==> !CanMerge(U[a], U[y])
      ensures PassUpTo(U, a + 1, checked + [U[a]], newList + [U[a]], merged, absorbed, m, all, S, B, pos + [a], turns + [Alone])
    {
      KeepStep(U, a, checked, newList, merged, absorbed, m, all);
      PartnerTurn(U, a, checked, absorbed, S, B, Alone);
      ColourRecordTurn(B, a, pos, turns, Alone);
      TracedAppend(U, newList, S, B, pos, turns, a, Alone);
      if !merged {
        SettledStep(U, a, checked);
      }
      assert MergeState(U, a + 1, checked + [U[a]], newList + [U[a]], merged, absorbed, m, all);
      assert ColourRecord(B, a + 1, pos + [a], turns + [Alone]) && absorbed == Taken(turns + [Alone]);
      assert Untouched(U, a + 1, S, B) && Traced(U, newList + [U[a]], S, B, pos + [a], turns + [Alone]);
    }

    /** The turn of group `a` when it absorbs group `c`, joined at the given border segments. */
    method AbsorbTurn(U: seq<Group>, a: int, c: int, endG1: Segment, endG2: Segment, checked: seq<Group>,
                      newList: seq<Group>, merged: bool, ghost absorbed: set<int>,
                      ghost m: map<Group, set<Segment>>, ghost all: set<Segment>,
                      ghost S: seq<set<Segment>>, ghost B: seq<set<Segment>>, ghost pos: seq<int>,
                      ghost turns: seq<Turn<Segment>>)
      returns (checked': seq<Group>, newList': seq<Group>, ghost absorbed': set<int>, ghost m': map<Group, set<Segment>>,
               ghost pos': seq<int>, ghost turns': seq<Turn<Segment>>)
      requires PassUpTo(U, a, checked, newList, merged, absorbed, m, all, S, B, pos, turns) && a < |U| && U[a] !in checked
      requires 0 <= c < |U| && U[c] != U[a] && U[c] !in checked
      requires endG1 in U[a].borderSegments && endG2 in U[c].borderSegments && Joins(endG1, endG2)
      requires forall y :: 0 <= y < c && U[y] != U[a] && U[y] !in checked ==> !CanMerge(U[a], U[y])
      modifies U[a]
      ensures PassUpTo(U, a + 1, checked', newList', true, absorbed', m', all, S, B, pos', turns')
      ensures pos' == pos + [a] && turns' == turns + [Took(c, endG1, endG2)]
    {
      var group, otherGroup := U[a], U[c];
      AbsorbStep(U, a, c, checked, newList, merged, absorbed, m, all);
      AbsorbRecord(U, a, c, endG1, endG2, checked, absorbed, S, B, pos, turns);
      m' := AbsorbTraced(U, a, c, endG1, endG2, newList, m, all, S, B, pos, turns);
      newList' := newList + [group];
      checked' := checked + [otherGroup, group];
      absorbed' := absorbed + {c};
      pos', turns' := pos + [a], turns + [Took(c, endG1, endG2)];
    }

    /** The turn of group `a` absorbing group `c` is its `ColourTurn`, recorded after the earlier ones. */
    lemma AbsorbRecord(U: seq<Group>, a: int, c: int, endG1: Segment, endG2: Segment, checked: seq<Group>,
                       absorbed: set<int>, S: seq<set<Segment>>, B: seq<set<Segment>>, pos: seq<int>,
                       turns: seq<Turn<Segment>>)
      requires 0 <= a < c < |U| && Distinct(U) && CheckedState(U, a, checked, absorbed) && c !in absorbed
      requires a !in absorbed && ColourRecord(B, a, pos, turns) && absorbed == Taken(turns) && Untouched(U, a, S, B)
      requires endG1 in U[a].borderSegments && endG2 in U[c].borderSegments && Joins(endG1, endG2)
      requires forall y :: 0 <= y < c && U[y] != U[a] && U[y] !in checked ==> !CanMerge(U[a], U[y])
      ensures ColourRecord(B, a + 1, pos + [a], turns + [Took(c, endG1, endG2)])
      ensures absorbed + {c} == Taken(turns + [Took(c, endG1, endG2)])
    {
      var t := Took(c, endG1, endG2);
      PartnerTurn(U, a, checked, absorbed, S, B, t);
      ColourRecordTurn(B, a, pos, turns, t);
    }

    /**
     * `group.add_group(other_group, ...)` at the turn of group `a`: the groups after `a` are
     * untouched, and `a` joins the traced new list with its partner's segments and the
     * border `add_group` leaves.
     */
    method AbsorbTraced(U: seq<Group>, a: int, c: int, endG1: Segment, endG2: Segment, newList: seq<Group>,
                        ghost m: map<Group, set<Segment>>, ghost all: set<Segment>, ghost S: seq<set<Segment>>,
                        ghost B: seq<set<Segment>>, ghost pos: seq<int>, ghost turns: seq<Turn<Segment>>)
      returns (ghost m': map<Group, set<Segment>>)
      requires 0 <= a < c < |U| && Distinct(U) && U[a] in m && U[c] in m
      requires Keyed(m) && PartitionSets(m, all)
      requires endG1 in U[a].borderSegments && endG2 in U[c].borderSegments
      requires Untouched(U, a, S, B) && Traced(U, newList, S, B, pos, turns)
      requires forall j :: 0 <= j < |pos| ==> pos[j] < a
      modifies U[a]
      ensures m' == m[U[a] := m[U[a]] + m[U[c]]] - {U[c]}
      ensures Keyed(m') && PartitionSets(m', all)
      ensures Untouched(U, a + 1, S, B) && Traced(U, newList + [U[a]], S, B, pos + [a], turns + [Took(c, endG1, endG2)])
    {
      var group := U[a];
      assert forall j :: 0 <= j < |newList| ==> newList[j] != group by {
        forall j | 0 <= j < |newList| ensures newList[j] != group {
          assert pos[j] < a;
        }
      }
      m' := AbsorbGroup(group, U[c], endG1, endG2, m, all);
      assert Traced(U, newList, S, B, pos, turns);
      TracedAppend(U, newList, S, B, pos, turns, a, Took(c, endG1, endG2));
    }

    /**
     * `merge_groups`: merge passes until one merges nothing. The groups still split the
     * segments, and no two of them can be merged in either order.
     */
    method MergeGroups() returns (ghost stages: seq<Stage>, ghost passes: seq<Pass>)
      requires Partitioned()
      modifies this`segmentGroupList, segmentGroupList
      ensures |stages| >= 2 && stages[0] == old(StageOf(segmentGroupList))
      ensures stages[|stages| - 1] == StageOf(segmentGroupList) && StageTrace(stages, passes)
      ensures Partitioned()
      ensures forall k :: 0 <= k < |segmentGroupList| ==> segmentGroupList[k] in old(segmentGroupList)
      ensures forall x, y :: 0 <= x < |segmentGroupList| && 0 <= y < |segmentGroupList| && x != y ==>
        !CanMerge(segmentGroupList[x], segmentGroupList[y])
    {
      ghost var initial := StageOf(segmentGroupList);
      ghost var merges, p;
      var merged;
      merged, merges, p := MergePass();
      stages, passes := [initial, StageOf(segmentGroupList)], [p];
      while merged
        invariant Partitioned()
        invariant forall k :: 0 <= k < |segmentGroupList| ==> segmentGroupList[k] in old(segmentGroupList)
        invariant |stages| >= 2 && stages[0] == initial
        invariant stages[|stages| - 1] == StageOf(segmentGroupList) && StageTrace(stages, passes)
        invariant !merged ==> forall x, y :: 0 <= x < y < |segmentGroupList| ==>
          !CanMerge(segmentGroupList[x], segmentGroupList[y])
        decreases |segmentGroupList| + (if merged then 1 else 0)
      {
        merged, merges, p := MergePass();
        StageTraceExtend(stages, passes, p, StageOf(segmentGroupList));
        stages, passes := stages + [StageOf(segmentGroupList)], passes + [p];
      }
      forall x, y | 0 <= x < |segmentGroupList| && 0 <= y < |segmentGroupList| && x != y
        ensures !CanMerge(segmentGroupList[x], segmentGroupList[y])
      {
        CanMergeSymmetric(segmentGroupList[x], segmentGroupList[y]);
      }
    }

    /**
     * `groups_colouring`: each group, in list order, joins the first colour group none of
     * whose segments shares a hexagon with it, or itself becomes a new colour group. This is
     * the first-fit `FirstFit` of the strands: the colour groups' segment sets are the buckets,
     * colour group `k` is the group that opened bucket `k`, and every other group keeps its
     * segments; no border changes.
     */
    method GroupsColouring()
      requires Distinct(segmentGroupList) && Mirrors(segmentGroupList, strands)
      modifies this`colouredGroups, this`colours, segmentGroupList
      ensures var b := FirstFit(strands);
        && colours == b.contents && |colouredGroups| == |b.openers|
        && (forall k :: 0 <= k < |colouredGroups| ==>
              0 <= b.openers[k] < |segmentGroupList| && colouredGroups[k] == segmentGroupList[b.openers[k]])
      ensures Mirrors(colouredGroups, colours) && Distinct(colouredGroups)
      ensures forall j :: 0 <= j < |segmentGroupList| && segmentGroupList[j] !in colouredGroups ==>
        segmentGroupList[j].segments == strands[j]
      ensures forall j :: 0 <= j < |segmentGroupList| ==>
        segmentGroupList[j].borderSegments == old(segmentGroupList[j].borderSegments)
    {
      colouredGroups := [];
      colours := [];
      var copySegmentGroupList := segmentGroupList;
      ghost var b := Buckets([], [], []);
      var i := 0;
      while i < |copySegmentGroupList|
        invariant ColourState(copySegmentGroupList, i, b)
        invariant forall j :: 0 <= j < |copySegmentGroupList| ==>
          copySegmentGroupList[j].borderSegments == old(copySegmentGroupList[j].borderSegments)
        decreases |copySegmentGroupList| - i
      {
        b := ColourGroup(copySegmentGroupList, i, b);
        i := i + 1;
      }
      assert strands[..i] == strands;
    }

    /**
     * The colouring of `groups_colouring` before group `i` of its list `L`: the colour groups
     * are the first-fit buckets of the strands before `i`, each the group that opened it; the
     * other groups keep their strands, and none from `i` on is a colour group yet.
     */
    ghost predicate ColourState(L: seq<Group>, i: int, b: Buckets)
      reads this, L, colouredGroups
    {
      && 0 <= i <= |L| == |strands| && Distinct(L)
      && b == FirstFit(strands[..i])
      && colours == b.contents && |colouredGroups| == |b.openers|
      && (forall k :: 0 <= k < |b.openers| ==> 0 <= b.openers[k] < i && colouredGroups[k] == L[b.openers[k]])
      && Mirrors(colouredGroups, colours) && Distinct(colouredGroups)
      && (forall j :: 0 <= j < |L| && L[j] !in colouredGroups ==> L[j].segments == strands[j])
      && (forall j :: i <= j < |L| ==> L[j] !in colouredGroups)
    }

    /**
     * One turn of the `groups_colouring` loop: group `i` joins the first colour group it shares
     * no hexagon with, or becomes a colour group itself; this is `Place` on the buckets.
     */
    method ColourGroup(L: seq<Group>, i: int, ghost b: Buckets) returns (ghost b': Buckets)
      requires ColourState(L, i, b) && i < |L|
      modifies this`colouredGroups, this`colours, colouredGroups
      ensures ColourState(L, i + 1, b')
      ensures forall j :: 0 <= j < |L| ==> L[j].borderSegments == old(L[j].borderSegments)
    {
      var group := L[i];
      var k := FindColourFor(group, colouredGroups);
      FirstFreeIs(colours, strands[i], k);
      if k < |colouredGroups| {
        JoinColourGroup(k, group, strands[i]);
      } else {
        colouredGroups := colouredGroups + [group];
        colours := colours + [strands[i]];
      }
      assert strands[..i + 1][..i] == strands[..i];
      b' := Place(b, i, strands[i]);
    }

    /** `colour_group.add_segment_to_group(group.segments)` for colour group `k`. */
    method JoinColourGroup(k: int, group: Group, ghost s: set<Segment>)
      requires Mirrors(colouredGroups, colours) && Distinct(colouredGroups)
      requires 0 <= k < |colouredGroups| && group.segments == s
      modifies this`colours, colouredGroups[k]
      ensures colours == old(colours)[k := old(colours)[k] + s]
      ensures Mirrors(colouredGroups, colours)
      ensures colouredGroups[k].borderSegments == old(colouredGroups[k].borderSegments)
    {
      colouredGroups[k].AddSegmentToGroup(group.segments);
      colours := colours[k := colours[k] + s];
      forall j | 0 <= j < |colouredGroups| && j != k ensures colouredGroups[j].segments == colours[j] {
        assert colouredGroups[j] != colouredGroups[k];
      }
    }

    /**
     * `merge_colour_groups_with_smallest_intersection`: with fewer than two colour groups
     * nothing changes; otherwise the first pair, in scan order, with the smallest intersection
     * below 10000000 is merged (the second into the first) and the second is removed from the
     * list. `ok` is false where no pair gets below that value (Python then fails on an unbound
     * variable).
     */
    method MergeColourGroupsWithSmallestIntersection() returns (ok: bool, ghost a: int, ghost b: int)
      requires Distinct(colouredGroups) && Mirrors(colouredGroups, colours)
      modifies this`colouredGroups, this`colours, colouredGroups
      ensures Distinct(colouredGroups) && Mirrors(colouredGroups, colours)
      ensures forall k :: 0 <= k < |colouredGroups| ==> colouredGroups[k] in old(colouredGroups)
      ensures |old(colours)| < 2 ==> ok && colouredGroups == old(colouredGroups) && colours == old(colours)
      ensures !ok ==> |colours| >= 2 && colouredGroups == old(colouredGroups) && colours == old(colours)
      ensures !ok ==> forall i, j :: Candidate(colouredGroups, i, j) ==> Cost(colours, i, j) >= Sentinel
      ensures ok && |old(colours)| >= 2 ==>
        && 0 <= a < b < |old(colours)|
        && Cost(old(colours), a, b) < Sentinel
        && (forall i, j :: Candidate(old(colouredGroups), i, j) ==> Cost(old(colours), i, j) >= Cost(old(colours), a, b))
        && (forall i, j :: Candidate(old(colouredGroups), i, j) && RowMajorBefore(i, j, a, b) ==>
              Cost(old(colours), i, j) > Cost(old(colours), a, b))
        && colouredGroups == RemoveAt(old(colouredGroups), b)
        && colours == MergeParts(old(colours), a, b)
    {
      a, b := 0, 0;
      if |colouredGroups| < 2 {
        return true, a, b;
      }
      var r := FindSmallestPair(colouredGroups, colours);
      if r.None? {
        return false, a, b;
      }
      var (first, second) := r.value;
      a, b := first, second;
      MergeColourGroups(first, second);
      ok := true;
    }

    /**
     * The common tail of both reduction steps: colour group `second` joins colour group `first`
     * (`add_segment_to_group`) and is then removed from the list (`list.remove`, which finds it
     * at `second` because the colour groups are distinct).
     */
    method MergeColourGroups(first: int, second: int)
      requires Distinct(colouredGroups) && Mirrors(colouredGroups, colours)
      requires 0 <= first < |colouredGroups| && 0 <= second < |colouredGroups| && first != second
      modifies this`colouredGroups, this`colours, colouredGroups[first]
      ensures colouredGroups == RemoveAt(old(colouredGroups), second)
      ensures colours == MergeParts(old(colours), first, second)
      ensures Mirrors(colouredGroups, colours) && Distinct(colouredGroups)
    {
      var C := colouredGroups;
      var smallestGroup := C[first];
      var secondSmallestGroup := C[second];
      smallestGroup.AddSegmentToGroup(secondSmallestGroup.segments);
      var idx := IndexOf(C, secondSmallestGroup);
      assert idx == second;
      colouredGroups := C[..idx] + C[idx + 1..];
      assert colouredGroups == RemoveAt(C, second);
      colours := MergeParts(colours, first, second);
      forall k | 0 <= k < |colouredGroups| ensures colouredGroups[k].segments == colours[k] {
        var i := if k < second then k else k + 1;
        assert colouredGroups[k] == C[i];
        if i != first {
          assert C[i] != smallestGroup;
        }
      }
    }

    /**
     * `merge_smallest_colour_group`: with fewer than two colour groups nothing changes;
     * otherwise the first two colour groups of the stable sort by size are merged (the second
     * into the first) and the second is removed from the list.
     */
    method MergeSmallestColourGroup() returns (ghost a: int, ghost b: int)
      requires Distinct(colouredGroups) && Mirrors(colouredGroups, colours)
      modifies this`colouredGroups, this`colours, colouredGroups
      ensures Distinct(colouredGroups) && Mirrors(colouredGroups, colours)
      ensures |old(colours)| < 2 ==> colouredGroups == old(colouredGroups) && colours == old(colours)
      ensures |old(colours)| >= 2 ==>
        && 0 <= a < |old(colours)| && 0 <= b < |old(colours)| && a != b
        && (forall j :: 0 <= j < |old(colours)| && j != a ==> Before(Sizes(old(colours)), a, j))
        && (forall j :: 0 <= j < |old(colours)| && j != a && j != b ==> Before(Sizes(old(colours)), b, j))
        && colouredGroups == RemoveAt(old(colouredGroups), b)
        && colours == MergeParts(old(colours), a, b)
    {
      a, b := 0, 0;
      if |colouredGroups| < 2 {
        return;
      }
      var C := colouredGroups;
      var keys := seq(|C|, k requires 0 <= k < |C| reads C => |C[k].segments|);
      assert keys == Sizes(colours);
      var sortedGroups := StableSortIndices(keys);
      FirstTwoOfSorted(keys, sortedGroups);
      var smallest, secondSmallest := sortedGroups[0], sortedGroups[1];
      a, b := smallest, secondSmallest;
      MergeColourGroups(smallest, secondSmallest);
    }

    /**
     * The reduction loop of `__init__`: merge the pair with the smallest intersection while there
     * are more than `colourCount` colour groups. The ghost `trace` holds the colour partitions
     * from the first to the last, each step the smallest-intersection merge `pairs` names, so
     * the colour groups keep splitting the segments; the loop ends with `min(n, colourCount)`
     * of them, and can only fail on a grid with at least 3163 segments, where two colour groups
     * may share 10000000 hexagon pairs.
     */
    method Reduce(colourCount: int) returns (ok: bool, ghost trace: seq<seq<set<Segment>>>, ghost pairs: seq<(int, int)>)
      requires colourCount >= 1
      requires Distinct(colouredGroups) && Mirrors(colouredGroups, colours) && SeqPartition(colours, all)
      modifies this`colouredGroups, this`colours, colouredGroups
      ensures ReduceTrace(trace, pairs) && trace[0] == old(colours) && trace[|trace| - 1] == colours
      ensures Distinct(colouredGroups) && Mirrors(colouredGroups, colours) && SeqPartition(colours, all)
      ensures ok ==> |colours| == (if |old(colours)| <= colourCount then |old(colours)| else colourCount)
      ensures |old(colours)| <= colourCount ==> ok && colours == old(colours)
      ensures !ok ==> |all| * |all| >= Sentinel
    {
      ok := true;
      trace, pairs := [colours], [];
      while |colouredGroups| > colourCount
        invariant ReduceTrace(trace, pairs) && trace[0] == old(colours) && trace[|trace| - 1] == colours
        invariant Distinct(colouredGroups) && Mirrors(colouredGroups, colours) && SeqPartition(colours, all)
        invariant forall k :: 0 <= k < |colouredGroups| ==> colouredGroups[k] in old(colouredGroups)
        invariant |old(colours)| <= colourCount ==> colours == old(colours)
        invariant colourCount <= |colours| <= |old(colours)| || colours == old(colours)
        decreases |colouredGroups|
      {
        var merged, a, b := ReduceStep();
        if !merged {
          return false, trace, pairs;
        }
        ReduceTraceExtend(trace, pairs, a, b, colours);
        trace, pairs := trace + [colours], pairs + [(a, b)];
      }
    }

    /**
     * One turn of the reduction loop, with at least two colour groups: the colour groups `a`
     * and `b` with the smallest intersection, the first such pair in scan order, are merged and
     * `b` is removed; or, where no pair gets below 10000000, nothing changes.
     */
    method ReduceStep() returns (merged: bool, ghost a: int, ghost b: int)
      requires |colouredGroups| >= 2
      requires Distinct(colouredGroups) && Mirrors(colouredGroups, colours) && SeqPartition(colours, all)
      modifies this`colouredGroups, this`colours, colouredGroups
      ensures Distinct(colouredGroups) && Mirrors(colouredGroups, colours) && SeqPartition(colours, all)
      ensures forall k :: 0 <= k < |colouredGroups| ==> colouredGroups[k] in old(colouredGroups)
      ensures merged ==> CheapestMerge(old(colours), a, b, colours) && colouredGroups == RemoveAt(old(colouredGroups), b)
      ensures merged ==> |colours| == |old(colours)| - 1
      ensures !merged ==> colours == old(colours) && colouredGroups == old(colouredGroups) && |all| * |all| >= Sentinel
    {
      ghost var P := colours;
      ghost var C := colouredGroups;
      merged, a, b := MergeColourGroupsWithSmallestIntersection();
      if !merged {
        NoCheapPair(colouredGroups, colours, all);
        return;
      }
      CheapestFromCandidates(C, P, a, b, colours);
      MergePartsPartition(P, all, a, b);
    }

    /**
     * `assign_colour_group`: every segment of colour group `k` gets colour `k` (its position,
     * found by `list.index`); a segment in several colour groups keeps the last one's number.
     */
    method AssignColourGroup()
      requires Distinct(colouredGroups) && Mirrors(colouredGroups, colours)
      modifies SeqUnion(colours)
      ensures forall s :: s in SeqUnion(colours) ==> s.colourGroup == LastIndex(colours, s)
    {
      var k := 0;
      while k < |colouredGroups|
        invariant 0 <= k <= |colouredGroups|
        invariant Mirrors(colouredGroups, colours)
        invariant forall s :: s in SeqUnion(colours[..k]) ==> s.colourGroup == LastIndex(colours[..k], s)
      {
        var colourGroup := colouredGroups[k];
        var rest := colourGroup.segments;
        while rest != {}
          invariant rest <= colours[k]
          invariant Mirrors(colouredGroups, colours)
          invariant forall s :: s in colours[k] - rest ==> s.colourGroup == k
          invariant forall s :: s in SeqUnion(colours[..k]) && s !in colours[k] - rest ==>
            s.colourGroup == LastIndex(colours[..k], s)
          decreases rest
        {
          var segment :| segment in rest;
          var index := IndexOf(colouredGroups, colourGroup);
          assert segment in SeqUnion(colours);
          segment.colourGroup := index;
          rest := rest - {segment};
        }
        assert colours[..k + 1][..k] == colours[..k];
        k := k + 1;
      }
      assert colours[..k] == colours;
    }
  }

  /**
   * When every pair of two or more colour groups splitting `all` shares at least 10000000
   * hexagon pairs, the grid has at least 3163 segments.
   */
  lemma NoCheapPair(C: seq<Group>, P: seq<set<Segment>>, all: set<Segment>)
    requires Distinct(C) && |C| >= 2 && |P| == |C| && SeqPartition(P, all)
    requires forall i, j :: Candidate(C, i, j) ==> Cost(P, i, j) >= Sentinel
    ensures |all| * |all| >= Sentinel
  {
    assert Candidate(C, 0, 1);
    assert P[0] <= all && P[1] <= all;
    IntersectionBound(P[0], P[1]);
    PairsBound(P[0], P[1], all);
  }

  /**
   * `_Colouring(grid, colour_count)`: build, merge, colour, reduce to `colourCount` colour
   * groups and write the colours. Every segment of the grid ends up with the number of the
   * one colour group holding it; when no reduction was needed, two segments of one hexagon
   * with the same colour lie on the same merged strand. The reduction fails (`Err`) only on
   * grids with at least 3163 segments. The ghost `trace` and `pairs` are the reduction's
   * colour partitions, from the first-fit buckets to the final colour groups, and its merges.
   */
  method NewColouring(grid: seq<Hexagon>, colourCount: int)
    returns (r: Result<Colouring>, ghost trace: seq<seq<set<Segment>>>, ghost pairs: seq<(int, int)>)
    requires colourCount >= 1
    requires DistinctSegments(grid)
    modifies GridSegments(grid)
    ensures r.Err? ==> r.error == NoPairBelowSentinel && |GridSegments(grid)| * |GridSegments(grid)| >= Sentinel
    ensures r.Ok? ==> fresh(r.value) && r.value.grid == grid && r.value.all == GridSegments(grid)
    ensures r.Ok? ==> var c := r.value;
      && SeqPartition(c.strands, c.all)
      && SeqPartition(c.colours, c.all)
      && Mirrors(c.colouredGroups, c.colours)
      && |c.colours| == (if |FirstFit(c.strands).contents| <= colourCount then |FirstFit(c.strands).contents| else colourCount)
      && (forall s :: s in c.all ==> 0 <= s.colourGroup < |c.colours| && s in c.colours[s.colourGroup])
      && (|FirstFit(c.strands).contents| <= colourCount ==> ColoursFollowStrands(c.all, c.strands))
      && ReduceTrace(trace, pairs) && trace[0] == FirstFit(c.strands).contents && trace[|trace| - 1] == c.colours
  {
    var c := new Colouring(grid);
    var ok;
    ok, trace, pairs := c.Reduce(colourCount);
    if !ok {
      return Err(NoPairBelowSentinel), trace, pairs;
    }
    assert SeqUnion(c.colours) == c.all;
    c.AssignColourGroup();
    ColoursNumbered(c.colours, c.all);
    if |FirstFit(c.strands).contents| <= colourCount {
      FirstFitColoursFollowStrands(c.strands, c.all);
    }
    return Ok(c), trace, pairs;
  }

  /** Over a partition, the numbering of `assign_colour_group` puts every segment in its own colour group. */
  lemma ColoursNumbered(P: seq<set<Segment>>, all: set<Segment>)
    requires SeqPartition(P, all)
    requires forall s :: s in all ==> s.colourGroup == LastIndex(P, s)
    ensures forall s :: s in all ==> 0 <= s.colourGroup < |P| && s in P[s.colourGroup]
  {
    forall s | s in all ensures 0 <= s.colourGroup < |P| && s in P[s.colourGroup] {
      PartitionColour(P, all, s);
    }
  }

  /**
   * When the first-fit buckets of a partition number the segments, two segments of one hexagon
   * in the same bucket lie on the same strand.
   */
  lemma FirstFitColoursFollowStrands(strands: seq<set<Segment>>, all: set<Segment>)
    requires SeqPartition(strands, all)
    requires forall s :: s in all ==> s.colourGroup == LastIndex(FirstFit(strands).contents, s)
    ensures ColoursFollowStrands(all, strands)
  {
    var P := FirstFit(strands).contents;
    FirstFitPartition(strands, all);
    forall x, y | x in all && y in all && x.id == y.id && x.colourGroup == y.colourGroup
      ensures exists i :: 0 <= i < |strands| && x in strands[i] && y in strands[i]
    {
      PartitionColour(P, all, x);
      PartitionColour(P, all, y);
      SameBucketSameGroup(strands, x.colourGroup, x, y);
    }
  }
}
