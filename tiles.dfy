/**
 * The tile patterns shared by `_Hexagon` (hexagon.py) and `Hexagon` (hex_structure.py), and the
 * curve classification of `draw_curve` (Segment.py, hex_structure.py).
 *
 * A tile joins its six edges in three pairs. Pattern 1..5 fixes which edges are paired before
 * rotation; the offset rotates every edge index by the same amount modulo 6.
 */
module Tiles {
  import opened Wrappers

  /** The `[edge_a, edge_b]` list of a segment: `connection[0]` and `connection[1]`. */
  type Connection = (int, int)

  /** `(k + offset) % 6`; Python's `%` and Dafny's agree for the positive divisor 6. */
  function Rotate(k: int, offset: int): (e: int)
    ensures 0 <= e < 6
  {
    (k + offset) % 6
  }

  function RotatePair(a: int, b: int, offset: int): Connection {
    (Rotate(a, offset), Rotate(b, offset))
  }

  /** The `if self.pattern == 1 ... else raise ValueError` table, rotated by `offset`. */
  function ConnectionTable(pattern: int, offset: int): (r: Result<seq<Connection>>)
    ensures r.Ok? <==> 1 <= pattern <= 5
    ensures r.Ok? ==> |r.value| == 3
    ensures r.Err? ==> r.error == InvalidPattern
  {
    if pattern == 1 then
      Ok([RotatePair(0, 1, offset), RotatePair(2, 3, offset), RotatePair(4, 5, offset)])
    else if pattern == 2 then
      Ok([RotatePair(0, 1, offset), RotatePair(2, 4, offset), RotatePair(3, 5, offset)])
    else if pattern == 3 then
      Ok([RotatePair(0, 3, offset), RotatePair(1, 4, offset), RotatePair(2, 5, offset)])
    else if pattern == 4 then
      Ok([RotatePair(0, 1, offset), RotatePair(2, 5, offset), RotatePair(3, 4, offset)])
    else if pattern == 5 then
      Ok([RotatePair(0, 2, offset), RotatePair(1, 4, offset), RotatePair(3, 5, offset)])
    else
      Err(InvalidPattern)
  }

  /** Pair `p` joins two different edges of the hexagon. */
  predicate ProperPair(p: Connection) {
    0 <= p.0 < 6 && 0 <= p.1 < 6 && p.0 != p.1
  }

  predicate Touches(p: Connection, e: int) {
    p.0 == e || p.1 == e
  }

  /** The pairs `p` and `q` share no edge. */
  predicate Apart(p: Connection, q: Connection) {
    !Touches(q, p.0) && !Touches(q, p.1)
  }

  /**
   * Three pairs that together use each of the edges 0..5 exactly once: each pair joins two
   * different edges, no edge is in two pairs, and every edge is in some pair.
   */
  predicate PerfectMatching(c: seq<Connection>) {
    && |c| == 3
    && ProperPair(c[0]) && ProperPair(c[1]) && ProperPair(c[2])
    && Apart(c[0], c[1]) && Apart(c[0], c[2]) && Apart(c[1], c[2])
    && (forall e :: 0 <= e < 6 ==> Touches(c[0], e) || Touches(c[1], e) || Touches(c[2], e))
  }

  lemma RotateByResidue(k: int, offset: int)
    ensures Rotate(k, offset) == (k + offset % 6) % 6
  {
    var r := offset % 6;
    var q := offset / 6;
    assert offset == 6 * q + r;
    assert k + offset == (k + r) + 6 * q;
  }

  /** The edge that rotation by `offset` carries onto `e`. */
  function Unrotate(e: int, offset: int): int {
    (e - offset % 6 + 6) % 6
  }

  /** Rotation permutes the edges: it is injective on 0..5 and every edge is the image of one. */
  lemma RotationPermutes(offset: int)
    ensures forall a, b :: 0 <= a < 6 && 0 <= b < 6 && a != b ==> Rotate(a, offset) != Rotate(b, offset)
    ensures forall e :: 0 <= e < 6 ==> 0 <= Unrotate(e, offset) < 6 && Rotate(Unrotate(e, offset), offset) == e
  {
    var r := offset % 6;
    forall k | 0 <= k < 6 ensures Rotate(k, offset) == (k + r) % 6 {
      RotateByResidue(k, offset);
    }
    forall e | 0 <= e < 6 ensures 0 <= Unrotate(e, offset) < 6 && Rotate(Unrotate(e, offset), offset) == e {
      RotateUnrotate(e, offset);
    }
  }

  function RotateAll(c: seq<Connection>, offset: int): (r: seq<Connection>)
    ensures |r| == |c|
  {
    seq(|c|, i requires 0 <= i < |c| => RotatePair(c[i].0, c[i].1, offset))
  }

  /** Rotating every edge of a perfect matching by the same offset gives a perfect matching. */
  lemma RotatedMatching(c: seq<Connection>, offset: int)
    requires PerfectMatching(c)
    ensures PerfectMatching(RotateAll(c, offset))
  {
    var r := RotateAll(c, offset);
    RotateApart(c[0], c[0].0, c[0].1, offset);
    RotateApart(c[1], c[1].0, c[1].1, offset);
    RotateApart(c[2], c[2].0, c[2].1, offset);
    RotateApart(c[1], c[0].0, c[0].1, offset);
    RotateApart(c[2], c[0].0, c[0].1, offset);
    RotateApart(c[2], c[1].0, c[1].1, offset);
    forall e | 0 <= e < 6 ensures Touches(r[0], e) || Touches(r[1], e) || Touches(r[2], e) {
      var k := Unrotate(e, offset);
      RotateUnrotate(e, offset);
      assert Touches(c[0], k) || Touches(c[1], k) || Touches(c[2], k);
    }
  }

  /** Two different edges stay different under the same rotation. */
  lemma RotateInjective(a: int, b: int, offset: int)
    requires 0 <= a < 6 && 0 <= b < 6 && a != b
    ensures Rotate(a, offset) != Rotate(b, offset)
  {
    RotateByResidue(a, offset);
    RotateByResidue(b, offset);
  }

  /** Two edges that pair `p` does not touch stay untouched by the rotated pair. */
  lemma RotateApart(p: Connection, a: int, b: int, offset: int)
    requires ProperPair(p) && 0 <= a < 6 && 0 <= b < 6
    ensures a != b ==> Rotate(a, offset) != Rotate(b, offset)
    ensures !Touches(p, a) ==> !Touches(RotatePair(p.0, p.1, offset), Rotate(a, offset))
    ensures !Touches(p, b) ==> !Touches(RotatePair(p.0, p.1, offset), Rotate(b, offset))
  {
    if a != b {
      RotateInjective(a, b, offset);
    }
    if !Touches(p, a) {
      RotateInjective(p.0, a, offset);
      RotateInjective(p.1, a, offset);
    }
    if !Touches(p, b) {
      RotateInjective(p.0, b, offset);
      RotateInjective(p.1, b, offset);
    }
  }

  /** `Unrotate` undoes the rotation on the edges 0..5. */
  lemma RotateUnrotate(e: int, offset: int)
    requires 0 <= e < 6
    ensures 0 <= Unrotate(e, offset) < 6 && Rotate(Unrotate(e, offset), offset) == e
  {
    var k := Unrotate(e, offset);
    RotateByResidue(k, offset);
    assert k == e - offset % 6 + 6 || k == e - offset % 6;
  }

  /**
   * For every pattern 1..5 and every offset the three pairs use each edge 0..5 exactly once:
   * the tile is a perfect matching of its six edges.
   */
  lemma ConnectionTableIsMatching(pattern: int, offset: int)
    requires 1 <= pattern <= 5
    ensures ConnectionTable(pattern, offset).Ok?
    ensures PerfectMatching(ConnectionTable(pattern, offset).value)
  {
    BaseMatching(pattern);
    TableIsRotated(pattern, offset);
    RotatedMatching(ConnectionTable(pattern, 0).value, offset);
  }

  /** The table for an offset is the unrotated table with every edge rotated. */
  lemma TableIsRotated(pattern: int, offset: int)
    requires 1 <= pattern <= 5
    ensures ConnectionTable(pattern, offset).value == RotateAll(ConnectionTable(pattern, 0).value, offset)
  {
    var base := ConnectionTable(pattern, 0).value;
    BaseTable(pattern);
    var rotated := RotateAll(base, offset);
    assert rotated == [RotatePair(base[0].0, base[0].1, offset), RotatePair(base[1].0, base[1].1, offset), RotatePair(base[2].0, base[2].1, offset)];
  }

  /** The unrotated tables: rotation by 0 leaves the edges 0..5 as they are. */
  lemma BaseTable(pattern: int)
    requires 1 <= pattern <= 5
    ensures var base := ConnectionTable(pattern, 0).value;
      && (pattern == 1 ==> base == [(0, 1), (2, 3), (4, 5)])
      && (pattern == 2 ==> base == [(0, 1), (2, 4), (3, 5)])
      && (pattern == 3 ==> base == [(0, 3), (1, 4), (2, 5)])
      && (pattern == 4 ==> base == [(0, 1), (2, 5), (3, 4)])
      && (pattern == 5 ==> base == [(0, 2), (1, 4), (3, 5)])
  {
    forall k | 0 <= k < 6 ensures Rotate(k, 0) == k { }
  }

  /** The unrotated tables, pattern by pattern. */
  lemma BaseMatching(pattern: int)
    requires 1 <= pattern <= 5
    ensures PerfectMatching(ConnectionTable(pattern, 0).value)
  {
    BaseTable(pattern);
  }

  /** A draw of `random.shuffle` on three elements: the new position `i` takes element `perm[i]`. */
  predicate IsPermutation3(perm: seq<int>) {
    |perm| == 3 && 0 <= perm[0] < 3 && 0 <= perm[1] < 3 && 0 <= perm[2] < 3 &&
    perm[0] != perm[1] && perm[0] != perm[2] && perm[1] != perm[2]
  }

  /** `random.shuffle(self.connection)` with its random draw given as `perm`. */
  function Shuffle(c: seq<Connection>, perm: seq<int>): (s: seq<Connection>)
    requires |c| == 3 && IsPermutation3(perm)
    ensures |s| == 3
  {
    [c[perm[0]], c[perm[1]], c[perm[2]]]
  }

  /** The three orders of a triple `random.shuffle` can produce, as a disjunction. */
  lemma ShuffleCases(c: seq<Connection>, perm: seq<int>)
    requires |c| == 3 && IsPermutation3(perm)
    ensures var s := Shuffle(c, perm);
      || s == [c[0], c[1], c[2]] || s == [c[0], c[2], c[1]] || s == [c[1], c[0], c[2]]
      || s == [c[1], c[2], c[0]] || s == [c[2], c[0], c[1]] || s == [c[2], c[1], c[0]]
  {
  }

  /** Shuffling only reorders the pairs: the same pairs, each as often. */
  lemma ShuffleIsPermutation(c: seq<Connection>, perm: seq<int>)
    requires |c| == 3 && IsPermutation3(perm)
    ensures multiset(Shuffle(c, perm)) == multiset(c)
  {
    Permute3(c, perm);
  }

  lemma Permute3<T>(c: seq<T>, perm: seq<int>)
    requires |c| == 3 && IsPermutation3(perm)
    ensures multiset([c[perm[0]], c[perm[1]], c[perm[2]]]) == multiset(c)
  {
    var x, y, z := c[0], c[1], c[2];
    var s := [c[perm[0]], c[perm[1]], c[perm[2]]];
    assert multiset(c) == multiset([x, y, z]) by {
      assert c == [x, y, z];
    }
    if perm[0] == 0 && perm[1] == 1 {
      assert s == [x, y, z];
    } else if perm[0] == 0 {
      assert s == [x, z, y];
      SwapLast(x, y, z);
    } else if perm[0] == 1 && perm[1] == 0 {
      assert s == [y, x, z];
      SwapFirst(x, y, z);
    } else if perm[0] == 1 {
      assert s == [y, z, x];
      SwapFirst(x, y, z);
      SwapLast(y, x, z);
    } else if perm[1] == 0 {
      assert s == [z, x, y];
      SwapLast(x, y, z);
      SwapFirst(x, z, y);
    } else {
      assert s == [z, y, x];
      SwapLast(x, y, z);
      SwapFirst(x, z, y);
      SwapLast(z, x, y);
    }
  }

  lemma SwapFirst<T>(x: T, y: T, z: T)
    ensures multiset([x, y, z]) == multiset([y, x, z])
  {
  }

  lemma SwapLast<T>(x: T, y: T, z: T)
    ensures multiset([x, y, z]) == multiset([x, z, y])
  {
  }

  lemma ApartSymmetric(p: Connection, q: Connection)
    ensures Apart(p, q) <==> Apart(q, p)
  {
  }

  /** A shuffled perfect matching is still a perfect matching. */
  lemma ShuffleKeepsMatching(c: seq<Connection>, perm: seq<int>)
    requires |c| == 3 && IsPermutation3(perm)
    requires PerfectMatching(c)
    ensures PerfectMatching(Shuffle(c, perm))
  {
    ShuffleCases(c, perm);
    ApartSymmetric(c[0], c[1]);
    ApartSymmetric(c[0], c[2]);
    ApartSymmetric(c[1], c[2]);
  }

  /** `pattern` when truthy, otherwise the value `random.choices` drew from 1..5. */
  function SelectPattern(patternArg: int, patternDraw: int): (p: int)
    requires 1 <= patternDraw <= 5
    ensures patternArg == 0 ==> 1 <= p <= 5
    ensures patternArg != 0 ==> p == patternArg
  {
    if patternArg == 0 then patternDraw else patternArg
  }

  /** The curve family `draw_curve` dispatches to; the sampled Bézier lines are not modelled. */
  datatype Curve = NeighbouringEdges | DistantEdges | OppositeEdges

  /** How many steps apart two edges are around the hexagon, the shorter way round. */
  function EdgeDistance(a: int, b: int): (d: int)
    ensures 0 <= d <= 3
  {
    var fwd := (a - b) % 6;
    var bwd := (b - a) % 6;
    if fwd <= bwd then fwd else bwd
  }

  /** `connection_class = (c0 - c1) % 6` of Segment.py and hex_structure.py. */
  function ConnectionClass(c: Connection): int {
    (c.0 - c.1) % 6
  }

  /**
   * `draw_curve`: class 1 or 5 draws the neighbouring-edge curve, 2 or 4 the distant-edge curve,
   * 3 the opposite-edge curve, and class 0 raises ValueError.
   */
  function DrawCurve(c: Connection): (r: Result<Curve>)
    ensures r.Err? <==> EdgeDistance(c.0, c.1) == 0
    ensures r == Ok(NeighbouringEdges) <==> EdgeDistance(c.0, c.1) == 1
    ensures r == Ok(DistantEdges) <==> EdgeDistance(c.0, c.1) == 2
    ensures r == Ok(OppositeEdges) <==> EdgeDistance(c.0, c.1) == 3
    ensures r.Err? ==> r.error == EqualEndpoints
  {
    ClassAndReverse(c.0, c.1);
    var k := ConnectionClass(c);
    if k == 1 || k == 5 then Ok(NeighbouringEdges)
    else if k == 2 || k == 4 then Ok(DistantEdges)
    else if k == 3 then Ok(OppositeEdges)
    else Err(EqualEndpoints)
  }

  /** The class of the reversed pair is `(6 - k) % 6`. */
  lemma ClassAndReverse(a: int, b: int)
    ensures (b - a) % 6 == (6 - (a - b) % 6) % 6
  {
    var k := (a - b) % 6;
    var q := (a - b) / 6;
    assert a - b == 6 * q + k;
    if k == 0 {
      assert b - a == 6 * (-q);
    } else {
      assert b - a == 6 * (-q - 1) + (6 - k);
    }
  }

  /** Swapping the two edges of a segment does not change its curve family (1<->5, 2<->4, 3<->3). */
  lemma DrawCurveSwap(c: Connection)
    ensures DrawCurve((c.1, c.0)) == DrawCurve(c)
  {
    ClassAndReverse(c.0, c.1);
    assert EdgeDistance(c.1, c.0) == EdgeDistance(c.0, c.1);
  }

  /** A pair of two different edges in 0..5 is never of class 0, so `draw_curve` accepts it. */
  lemma ProperPairDrawable(p: Connection)
    requires ProperPair(p)
    ensures DrawCurve(p).Ok?
  {
    assert -6 < p.0 - p.1 < 6;
  }

  /** Every pair of a pattern table has distinct edges, so `draw_curve` never raises for it. */
  lemma TablePairsDrawable(pattern: int, offset: int)
    requires 1 <= pattern <= 5
    ensures forall i :: 0 <= i < 3 ==> DrawCurve(ConnectionTable(pattern, offset).value[i]).Ok?
  {
    ConnectionTableIsMatching(pattern, offset);
    var c := ConnectionTable(pattern, offset).value;
    forall i | 0 <= i < 3 ensures DrawCurve(c[i]).Ok? {
      ProperPairDrawable(c[i]);
    }
  }
}
