/**
 * `Hexagon` (hex_structure.py): the stand-alone tile class, which keeps its edge pairs and
 * classifies them on demand in `draw_curve_all`.
 *
 * Nothing in this class is updated after construction apart from the floating-point drawing
 * area, so a tile is a value here. The random draws are parameters, as in `Hexagons`.
 */
module HexStructure {
  import opened Wrappers
  import opened Tiles
  import Hexagons

  /** hex_structure.py's offset rule: a falsy argument draws 0..5, a truthy one is kept as given. */
  function SelectOffset(offsetArg: int, offsetDraw: int): (o: int)
    requires 0 <= offsetDraw <= 5
    ensures offsetArg == 0 ==> 0 <= o <= 5 && o == offsetDraw
    ensures offsetArg != 0 ==> o == offsetArg
  {
    if offsetArg == 0 then offsetDraw else offsetArg
  }

  /** The fields of the tile the core reads: `offset`, `pattern` and the shuffled `connection`. */
  datatype Hexagon = Hexagon(offset: int, pattern: int, connection: seq<Connection>)

  /**
   * `Hexagon(center_x, center_y, size, offset, pattern)`: choose offset and pattern, build the
   * rotated table (ValueError for a truthy pattern outside 1..5) and shuffle it.
   */
  function NewHexagon(offsetArg: int, offsetDraw: int, patternArg: int, patternDraw: int, perm: seq<int>): (r: Result<Hexagon>)
    requires 0 <= offsetDraw <= 5 && 1 <= patternDraw <= 5 && IsPermutation3(perm)
    ensures r.Err? <==> patternArg != 0 && !(1 <= patternArg <= 5)
    ensures r.Err? ==> r.error == InvalidPattern
    ensures r.Ok? ==>
      && r.value.offset == SelectOffset(offsetArg, offsetDraw)
      && r.value.pattern == SelectPattern(patternArg, patternDraw)
  {
    var offset := SelectOffset(offsetArg, offsetDraw);
    var pattern := SelectPattern(patternArg, patternDraw);
    match ConnectionTable(pattern, offset)
    case Err(e) => Err(e)
    case Ok(table) => Ok(Hexagon(offset, pattern, Shuffle(table, perm)))
  }

  /**
   * Every tile `NewHexagon` builds holds, in some order, exactly the pairs of its rotated
   * pattern table, and they split the six edges into three pairs, each edge used once.
   */
  lemma NewHexagonMatching(offsetArg: int, offsetDraw: int, patternArg: int, patternDraw: int, perm: seq<int>)
    requires 0 <= offsetDraw <= 5 && 1 <= patternDraw <= 5 && IsPermutation3(perm)
    requires NewHexagon(offsetArg, offsetDraw, patternArg, patternDraw, perm).Ok?
    ensures var h := NewHexagon(offsetArg, offsetDraw, patternArg, patternDraw, perm).value;
      && ConnectionTable(h.pattern, h.offset).Ok?
      && multiset(h.connection) == multiset(ConnectionTable(h.pattern, h.offset).value)
      && PerfectMatching(h.connection)
      && AllDrawable(h.connection)
  {
    var h := NewHexagon(offsetArg, offsetDraw, patternArg, patternDraw, perm).value;
    Hexagons.ShuffledTable(h.pattern, h.offset, perm);
  }

  /** Every pair has two edges that differ modulo 6, so `draw_curve` accepts each of them. */
  predicate AllDrawable(connection: seq<Connection>) {
    forall i :: 0 <= i < |connection| ==> DrawCurve(connection[i]).Ok?
  }

  /**
   * `draw_curve_all`: one curve per pair, in pair order; the first pair of class 0 raises
   * ValueError out of the loop.
   */
  method DrawCurveAll(h: Hexagon) returns (r: Result<seq<Curve>>)
    ensures r.Ok? <==> AllDrawable(h.connection)
    ensures r.Err? ==> r.error == EqualEndpoints
    ensures r.Ok? ==> |r.value| == |h.connection|
    ensures r.Ok? ==> forall i :: 0 <= i < |r.value| ==> r.value[i] == DrawCurve(h.connection[i]).value
  {
    var curves: seq<Curve> := [];
    var i := 0;
    while i < |h.connection|
      invariant 0 <= i <= |h.connection|
      invariant |curves| == i
      invariant forall k :: 0 <= k < i ==> DrawCurve(h.connection[k]).Ok?
      invariant forall k :: 0 <= k < i ==> curves[k] == DrawCurve(h.connection[k]).value
    {
      match DrawCurve(h.connection[i])
      case Err(e) =>
        return Err(e);
      case Ok(curve) =>
        curves := curves + [curve];
      i := i + 1;
    }
    return Ok(curves);
  }

  /**
   * The two tile classes choose the same offset exactly when the offset argument is falsy:
   * for a truthy argument hexagon.py uses 0 and hex_structure.py keeps the argument.
   */
  lemma OffsetRulesAgreeIffFalsy(offsetArg: int, offsetDraw: int)
    requires 0 <= offsetDraw <= 5
    ensures Hexagons.SelectOffset(offsetArg, offsetDraw) == SelectOffset(offsetArg, offsetDraw) <==> offsetArg == 0
  {
  }

  /**
   * A truthy offset argument gives both classes the same rotated table exactly when it is a
   * multiple of 6: every pattern pairs edge 0 first, which the offset moves to `offset % 6`.
   */
  lemma {:induction false} TruthyOffsetSameTable(pattern: int, offsetArg: int)
    requires 1 <= pattern <= 5 && offsetArg != 0
    ensures ConnectionTable(pattern, SelectOffset(offsetArg, 0)) == ConnectionTable(pattern, Hexagons.SelectOffset(offsetArg, 0))
            <==> offsetArg % 6 == 0
  {
    var mine := ConnectionTable(pattern, offsetArg).value;
    var theirs := ConnectionTable(pattern, 0).value;
    if offsetArg % 6 == 0 {
      forall k | 0 <= k < 6 ensures Rotate(k, offsetArg) == Rotate(k, 0) {
        RotateByResidue(k, offsetArg);
      }
      assert mine == theirs;
    } else {
      RotateByResidue(0, offsetArg);
      assert mine[0].0 != theirs[0].0;
    }
  }
}
