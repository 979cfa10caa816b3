/**
 * `_Group` (Group.py): a connectivity group of segments with the set of its border segments,
 * the segments that may still be continued by a neighbouring segment.
 */
module Groups {
  import opened Wrappers
  import opened Adjacency
  import opened Tiles
  import opened Segments

  /*
   * The adjacency test of `test_segment`.
   */

  /** A segment at `sid` with edges `sc` continues, across edge `e`, a segment at `bid`. */
  predicate Across(bid: HexId, e: int, sid: HexId, sc: Connection) {
    0 <= e < 6 && sid == Neighbour(bid, e) && Touches(sc, Opposite(e))
  }

  /**
   * A segment at `sid` with edges `sc` continues a border segment at `bid` with edges `bc`:
   * it lies across one of the border's two edges and has the touching edge `(e + 3) % 6`.
   */
  predicate Continues(bid: HexId, bc: Connection, sid: HexId, sc: Connection) {
    Across(bid, bc.0, sid, sc) || Across(bid, bc.1, sid, sc)
  }

  /** `s` continues the curve of border segment `b` across a shared edge. */
  predicate Joins(b: Segment, s: Segment) {
    Continues(b.id, b.connection, s.id, s.connection)
  }

  /**
   * Branch `k` of the `if`/`elif` chain of `test_segment`: branches 0..5 test `connection[0]`
   * against directions 0..5, branches 6..11 test `connection[1]`.
   */
  predicate BranchHolds(bid: HexId, bc: Connection, sid: HexId, k: int)
    requires 0 <= k < 12
  {
    var d := k % 6;
    sid == Neighbour(bid, d) && (if k < 6 then bc.0 else bc.1) == d
  }

  /** The body of branch `k`: does the candidate have the touching edge? */
  predicate BranchAccepts(sc: Connection, k: int)
    requires 0 <= k < 12
  {
    Touches(sc, Opposite(k % 6))
  }

  /**
   * The chain from branch `k` on, as written: the first branch whose position-and-edge condition
   * holds decides, by its inner test alone, whether this border segment accepts the candidate.
   */
  function BranchChain(bid: HexId, bc: Connection, sid: HexId, sc: Connection, k: nat): bool
    decreases 12 - k
  {
    if k >= 12 then false
    else if BranchHolds(bid, bc, sid, k) then BranchAccepts(sc, k)
    else BranchChain(bid, bc, sid, sc, k + 1)
  }

  /**
   * Branches 6..11 from `k` on: the chain accepts exactly when the candidate lies across
   * `connection[1]` (when that edge is one of the branches still to come) and touches it.
   */
  lemma {:induction false} SecondHalf(bid: HexId, bc: Connection, sid: HexId, sc: Connection, k: nat)
    requires 6 <= k <= 12
    ensures BranchChain(bid, bc, sid, sc, k) ==
            (k - 6 <= bc.1 < 6 && sid == Neighbour(bid, bc.1) && Touches(sc, Opposite(bc.1)))
    decreases 12 - k
  {
    if k < 12 {
      SecondHalf(bid, bc, sid, sc, k + 1);
    }
  }

  /**
   * Branches 0..5 from `k` on: the first branch that holds is the one for `connection[0]` when
   * the candidate lies across it; otherwise the chain falls through to branches 6..11.
   */
  lemma {:induction false} FirstHalf(bid: HexId, bc: Connection, sid: HexId, sc: Connection, k: nat)
    requires k <= 6
    ensures BranchChain(bid, bc, sid, sc, k) ==
            if k <= bc.0 < 6 && sid == Neighbour(bid, bc.0) then Touches(sc, Opposite(bc.0))
            else BranchChain(bid, bc, sid, sc, 6)
    decreases 6 - k
  {
    if k < 6 {
      FirstHalf(bid, bc, sid, sc, k + 1);
      assert k % 6 == k;
      assert BranchHolds(bid, bc, sid, k) == (sid == Neighbour(bid, k) && bc.0 == k);
      assert BranchAccepts(sc, k) == Touches(sc, Opposite(k));
    }
  }

  /**
   * The twelve-branch chain of `test_segment` decides exactly `Continues`: the candidate lies
   * across an edge `e` of the border segment and has edge `(e + 3) % 6`.
   */
  lemma {:induction false} ChainIsContinues(bid: HexId, bc: Connection, sid: HexId, sc: Connection)
    ensures BranchChain(bid, bc, sid, sc, 0) <==> Continues(bid, bc, sid, sc)
  {
    FirstHalf(bid, bc, sid, sc, 0);
    SecondHalf(bid, bc, sid, sc, 6);
    if 0 <= bc.0 < 6 && sid == Neighbour(bid, bc.0) && Across(bid, bc.1, sid, sc) {
      NeighbourInjective(bid, bc.0, bc.1);
    }
  }

  /** The adjacency test is symmetric: if `s` continues `b`, then `b` continues `s`. */
  lemma {:induction false} JoinsSymmetric(b: Segment, s: Segment)
    requires Joins(b, s)
    ensures Joins(s, b)
  {
    var e := if Across(b.id, b.connection.0, s.id, s.connection) then b.connection.0 else b.connection.1;
    NeighbourSymmetric(b.id, e, s.id);
    var o := Opposite(e);
    assert Touches(b.connection, Opposite(o));
    assert Across(s.id, o, b.id, b.connection);
  }

  /*
   * Border bookkeeping on values.
   */

  /** `remove_old_end`: a one-element border is kept as it is; otherwise `end` is discarded. */
  function RemoveEnd(border: set<Segment>, end: Segment): set<Segment> {
    if |border| == 1 then border else border - {end}
  }

  /**
   * The border `add_group` leaves, given the union `u` of both borders and the size of the other
   * group's border: 4 drops both connecting ends, else size 2 drops the other group's end, else
   * size 1 drops this group's end; any other size raises ValueError (`None`).
   */
  function BorderAfterAddGroup(u: set<Segment>, otherSize: nat, end: Segment, endNew: Segment): Option<set<Segment>> {
    if |u| == 4 then Some(RemoveEnd(RemoveEnd(u, end), endNew))
    else if otherSize == 2 then Some(RemoveEnd(u, endNew))
    else if otherSize == 1 then Some(RemoveEnd(u, end))
    else None
  }

  /** A border of one or two segments taken from the group: the shape every group keeps. */
  predicate BorderShape(segments: set<Segment>, border: set<Segment>) {
    border <= segments && 1 <= |border| <= 2
  }

  /** Removing a present end from a border of size 2 leaves exactly the other element. */
  lemma RemoveFromPair(border: set<Segment>, end: Segment)
    requires |border| == 2 && end in border
    ensures |border - {end}| == 1
  {
  }

  /**
   * Adding a segment to a group whose border has one or two elements, through one of them,
   * leaves a border of exactly two: the kept single end, or the other old end, plus the new segment.
   */
  lemma AddSegmentBorderSize(border: set<Segment>, end: Segment, s: Segment)
    requires 1 <= |border| <= 2 && end in border && s !in border
    ensures |RemoveEnd(border, end) + {s}| == 2
    ensures end in RemoveEnd(border, end) <==> |border| == 1
  {
    if |border| == 2 {
      RemoveFromPair(border, end);
    }
  }

  /**
   * When two disjoint groups with borders of one or two segments are joined through ends taken
   * from their borders, `add_group` never reaches its ValueError and the joined border again
   * has one or two segments, all from the two old borders.
   */
  lemma {:induction false} MergedBorderShape(b1: set<Segment>, b2: set<Segment>, end: Segment, endNew: Segment)
    requires b1 !! b2
    requires 1 <= |b1| <= 2 && 1 <= |b2| <= 2
    requires end in b1 && endNew in b2
    ensures BorderAfterAddGroup(b1 + b2, |b2|, end, endNew).Some?
    ensures var r := BorderAfterAddGroup(b1 + b2, |b2|, end, endNew).value;
      1 <= |r| <= 2 && r <= b1 + b2
  {
    var u := b1 + b2;
    assert |u| == |b1| + |b2|;
    assert end != endNew;
    if |u| == 4 {
      assert |u - {end}| == 3;
      assert endNew in u - {end};
      assert |u - {end} - {endNew}| == 2;
    } else if |b2| == 2 {
      assert |u - {endNew}| == |u| - 1;
    } else {
      assert |u - {end}| == |u| - 1;
    }
  }

  /*
   * Counting shared hexagons.
   */

  /** The hexagons the segments of `a` lie in. */
  ghost function Ids(a: set<Segment>): set<HexId> {
    set s | s in a :: s.id
  }

  /** The ordered pairs `(s, o)`, `s` from `a` and `o` from `b`, that lie in the same hexagon. */
  ghost function SharedPairs(a: set<Segment>, b: set<Segment>): set<(Segment, Segment)> {
    set s, o | s in a && o in b && s.id == o.id :: (s, o)
  }

  /** The value `calculate_intersection` returns. */
  ghost function IntersectionCount(a: set<Segment>, b: set<Segment>): nat {
    |SharedPairs(a, b)|
  }

  ghost function Swap<T>(p: set<(T, T)>): set<(T, T)> {
    set q | q in p :: (q.1, q.0)
  }

  lemma {:induction false} SwapCard<T>(p: set<(T, T)>)
    ensures |Swap(p)| == |p|
    decreases |p|
  {
    if p != {} {
      var q :| q in p;
      var rest := p - {q};
      SwapCard(rest);
      assert Swap(p) == Swap(rest) + {(q.1, q.0)};
      assert (q.1, q.0) !in Swap(rest);
    }
  }

  /** `a.calculate_intersection(b) == b.calculate_intersection(a)`. */
  lemma IntersectionSymmetric(a: set<Segment>, b: set<Segment>)
    ensures IntersectionCount(a, b) == IntersectionCount(b, a)
  {
    assert SharedPairs(b, a) == Swap(SharedPairs(a, b));
    SwapCard(SharedPairs(a, b));
  }

  /** The count is 0 exactly when the two sets share no hexagon. */
  lemma IntersectionZeroIff(a: set<Segment>, b: set<Segment>)
    ensures IntersectionCount(a, b) == 0 <==> Ids(a) !! Ids(b)
  {
    assert forall p :: p in SharedPairs(a, b) ==> p.0.id in Ids(a) && p.1.id in Ids(b);
    if !(Ids(a) !! Ids(b)) {
      var h :| h in Ids(a) && h in Ids(b);
      var s :| s in a && s.id == h;
      var o :| o in b && o.id == h;
      assert (s, o) in SharedPairs(a, b);
    }
  }

  /** Splitting off one element of the first set splits the pairs disjointly. */
  lemma SharedSplitFirst(done: set<Segment>, s: Segment, b: set<Segment>)
    requires s !in done
    ensures |SharedPairs(done + {s}, b)| == |SharedPairs(done, b)| + |SharedPairs({s}, b)|
  {
    assert SharedPairs(done + {s}, b) == SharedPairs(done, b) + SharedPairs({s}, b);
    assert SharedPairs(done, b) !! SharedPairs({s}, b);
  }

  /** Splitting off one element of the second set adds the one pair it makes, if any. */
  lemma SharedSplitSecond(s: Segment, done: set<Segment>, o: Segment)
    requires o !in done
    ensures |SharedPairs({s}, done + {o})| == |SharedPairs({s}, done)| + (if s.id == o.id then 1 else 0)
  {
    assert (s, o) !in SharedPairs({s}, done);
    if s.id == o.id {
      assert SharedPairs({s}, done + {o}) == SharedPairs({s}, done) + {(s, o)};
    } else {
      assert SharedPairs({s}, done + {o}) == SharedPairs({s}, done);
    }
  }

  lemma MulStep(n: nat, m: nat)
    requires n >= 1
    ensures n * m == (n - 1) * m + m
  {
  }

  /** Pairs with one fixed first element number at most the second set. */
  lemma {:induction false} SharedWithOneBound(s: Segment, b: set<Segment>)
    ensures |SharedPairs({s}, b)| <= |b|
    decreases |b|
  {
    if b != {} {
      var o :| o in b;
      SharedWithOneBound(s, b - {o});
      SharedSplitSecond(s, b - {o}, o);
      assert b - {o} + {o} == b;
    } else {
      assert SharedPairs({s}, b) == {};
    }
  }

  /** The count never exceeds the number of all pairs. */
  lemma {:induction false} IntersectionBound(a: set<Segment>, b: set<Segment>)
    ensures IntersectionCount(a, b) <= |a| * |b|
    decreases |a|
  {
    if a == {} {
      assert SharedPairs(a, b) == {};
    } else {
      var s :| s in a;
      IntersectionBound(a - {s}, b);
      SharedWithOneBound(s, b);
      SharedSplitFirst(a - {s}, s, b);
      assert a - {s} + {s} == a;
      MulStep(|a|, |b|);
    }
  }

  class Group {
    /** `self.id`, the creation number the builder gave this group. */
    const id: int
    /** `self.segments`. */
    var segments: set<Segment>
    /** `self.border_segments`. */
    var borderSegments: set<Segment>

    /** The shape every group keeps while the colouring runs (see `BorderShape`). */
    ghost predicate WellFormed()
      reads this
    {
      BorderShape(segments, borderSegments)
    }

    /** `_Group(id, segment)`: the segment is the whole group and its whole border. */
    constructor (id: int, segment: Segment)
      ensures this.id == id
      ensures segments == {segment} && borderSegments == {segment}
      ensures WellFormed()
    {
      this.id := id;
      segments := {segment};
      borderSegments := {segment};
    }

    /** `remove_old_end`: a one-element border is left as it is; otherwise `oldEnd` is discarded. */
    method RemoveOldEnd(oldEnd: Segment)
      modifies this`borderSegments
      ensures borderSegments == RemoveEnd(old(borderSegments), oldEnd)
      ensures |old(borderSegments)| == 1 ==> borderSegments == old(borderSegments)
      ensures |old(borderSegments)| != 1 ==> oldEnd !in borderSegments
    {
      if |borderSegments| == 1 {
        return;
      }
      borderSegments := borderSegments - {oldEnd};
    }

    /** `add_segment`: the segment joins the group and its border, replacing `oldEnd` there. */
    method AddSegment(segment: Segment, oldEnd: Segment)
      modifies this`segments, this`borderSegments
      ensures segments == old(segments) + {segment}
      ensures borderSegments == RemoveEnd(old(borderSegments), oldEnd) + {segment}
    {
      segments := segments + {segment};
      RemoveOldEnd(oldEnd);
      borderSegments := borderSegments + {segment};
    }

    /** `add_segment_to_group`: every listed segment joins `segments`; the border is untouched. */
    method AddSegmentToGroup(listSegment: set<Segment>)
      modifies this`segments
      ensures segments == old(segments) + listSegment
    {
      var rest := listSegment;
      while rest != {}
        invariant rest <= listSegment
        invariant segments == old(segments) + (listSegment - rest)
        decreases rest
      {
        var segment :| segment in rest;
        segments := segments + {segment};
        rest := rest - {segment};
      }
    }

    /**
     * `add_group`: the other group's segments and border join this group's, then the border is
     * trimmed by the 4/2/1 rule of `BorderAfterAddGroup`; `ok` is false where ValueError is
     * raised, after both unions have happened.
     */
    method AddGroup(group: Group, connectingEnd: Segment, connectingEndNewgroup: Segment) returns (ok: bool)
      modifies this`segments, this`borderSegments
      ensures segments == old(segments) + old(group.segments)
      ensures var after := BorderAfterAddGroup(old(borderSegments) + old(group.borderSegments),
                                               if group == this then |old(borderSegments)| else |old(group.borderSegments)|,
                                               connectingEnd, connectingEndNewgroup);
        && ok == after.Some?
        && (ok ==> borderSegments == after.value)
        && (!ok ==> borderSegments == old(borderSegments) + old(group.borderSegments))
    {
      var otherSegments := group.segments;
      var otherBorder := group.borderSegments;
      AddSegmentToGroup(otherSegments);
      var rest := otherBorder;
      while rest != {}
        invariant rest <= otherBorder
        invariant borderSegments == old(borderSegments) + (otherBorder - rest)
        invariant segments == old(segments) + otherSegments
        decreases rest
      {
        var newEnd :| newEnd in rest;
        borderSegments := borderSegments + {newEnd};
        rest := rest - {newEnd};
      }
      ok := true;
      if |borderSegments| == 4 {
        RemoveOldEnd(connectingEnd);
        RemoveOldEnd(connectingEndNewgroup);
      } else if |group.borderSegments| == 2 {
        RemoveOldEnd(connectingEndNewgroup);
      } else if |group.borderSegments| == 1 {
        RemoveOldEnd(connectingEnd);
      } else {
        ok := false;
      }
    }

    /** `calculate_intersection`: the number of ordered segment pairs sharing a hexagon id. */
    method CalculateIntersection(otherGroup: Group) returns (intersection: nat)
      ensures intersection == IntersectionCount(segments, otherGroup.segments)
    {
      intersection := 0;
      var a, b := segments, otherGroup.segments;
      var restA := a;
      while restA != {}
        invariant restA <= a
        invariant intersection == |SharedPairs(a - restA, b)|
        decreases restA
      {
        var segment :| segment in restA;
        var restB := b;
        while restB != {}
          invariant restB <= b
          invariant intersection == |SharedPairs(a - restA, b)| + |SharedPairs({segment}, b - restB)|
          decreases restB
        {
          var otherSegment :| otherSegment in restB;
          SharedSplitSecond(segment, b - restB, otherSegment);
          assert b - (restB - {otherSegment}) == (b - restB) + {otherSegment};
          if segment.id == otherSegment.id {
            intersection := intersection + 1;
          }
          restB := restB - {otherSegment};
        }
        assert b - restB == b;
        SharedSplitFirst(a - restA, segment, b);
        assert a - (restA - {segment}) == (a - restA) + {segment};
        restA := restA - {segment};
      }
      assert a - restA == a;
    }

    /**
     * `test_segment`: some border segment the candidate continues (Python's set order picks one),
     * or `None` when no border segment accepts it.
     */
    method TestSegment(segment: Segment) returns (r: Option<Segment>)
      ensures r.Some? ==> r.value in borderSegments && Joins(r.value, segment)
      ensures r.None? ==> forall b :: b in borderSegments ==> !Joins(b, segment)
    {
      var unchecked := borderSegments;
      while unchecked != {}
        invariant unchecked <= borderSegments
        invariant forall b :: b in borderSegments - unchecked ==> !Joins(b, segment)
        decreases unchecked
      {
        var segmentBorder :| segmentBorder in unchecked;
        ChainIsContinues(segmentBorder.id, segmentBorder.connection, segment.id, segment.connection);
        if BranchChain(segmentBorder.id, segmentBorder.connection, segment.id, segment.connection, 0) {
          return Some(segmentBorder);
        }
        unchecked := unchecked - {segmentBorder};
      }
      return None;
    }
  }
}
