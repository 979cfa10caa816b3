/**
 * Hexagon identities and the row-parity adjacency table of the grouping engine.
 *
 * A hexagon is keyed by `(id_x, id_y)`. Rows alternate in a horizontal half-cell shift, so the
 * column step across the four diagonal edges depends on whether the row is odd or even, while
 * the row step never does. Edge `e` of a hexagon always touches edge `(e + 3) % 6` of the
 * neighbour across it.
 */
module Adjacency {

  /** The `id = [id_x, id_y]` list of a hexagon; `id_x` and `id_y` are its two components. */
  datatype HexId = HexId(x: int, y: int)

  /** One of the six sides of a hexagon. */
  type Edge = e: int | 0 <= e < 6

  /** The edge of the neighbour that touches edge `e`. */
  function Opposite(e: Edge): (o: Edge)
    ensures o != e
    ensures (o + 3) % 6 == e
  {
    (e + 3) % 6
  }

  /** Python's `id_y % 2 == 1`; Dafny's `%` agrees with Python's for the divisor 2. */
  predicate OddRow(h: HexId) {
    h.y % 2 == 1
  }

  /** `(Δx, Δy)` across edge `e` from a hexagon in an odd (`odd`) or even row. */
  function Step(odd: bool, e: Edge): (d: (int, int))
    ensures d.1 != 0 && -2 <= d.1 <= 2
  {
    if e == 0 then (if odd then 1 else 0, 1)
    else if e == 1 then (0, 2)
    else if e == 2 then (if odd then 0 else -1, 1)
    else if e == 3 then (if odd then 0 else -1, -1)
    else if e == 4 then (0, -2)
    else (if odd then 1 else 0, -1)
  }

  /** The hexagon across edge `e` of `h`. */
  function Neighbour(h: HexId, e: Edge): HexId {
    var d := Step(OddRow(h), e);
    HexId(h.x + d.0, h.y + d.1)
  }

  /** The six directions lead to six different hexagons. */
  lemma NeighbourInjective(h: HexId, d1: Edge, d2: Edge)
    requires Neighbour(h, d1) == Neighbour(h, d2)
    ensures d1 == d2
  {
  }

  /** Stepping across `e` and back across the touching edge returns to the start, in both row parities. */
  lemma NeighbourInverse(h: HexId, e: Edge)
    ensures Neighbour(Neighbour(h, e), Opposite(e)) == h
  {
    var n := Neighbour(h, e);
    if OddRow(h) {
      assert OddRow(n) <==> (e == 1 || e == 4);
    } else {
      assert OddRow(n) <==> !(e == 1 || e == 4);
    }
  }

  /** The neighbour relation is symmetric: `h` is across `Opposite(e)` from its neighbour across `e`. */
  lemma NeighbourSymmetric(h: HexId, e: Edge, n: HexId)
    requires n == Neighbour(h, e)
    ensures h == Neighbour(n, Opposite(e)) && Opposite(Opposite(e)) == e
  {
    NeighbourInverse(h, e);
  }
}
