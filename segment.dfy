/**
 * `_Segment` (Segment.py): one curve piece of a hexagon, joining two of its edges.
 *
 * Only the fields the grouping engine reads are modelled: the hexagon id, the edge pair, the
 * colour index stamped by the colouring, and which curve family `draw_curve` chose (standing
 * for the sampled `lines`, whose floating-point geometry is not part of this model).
 */
module Segments {
  import opened Wrappers
  import opened Adjacency
  import opened Tiles

  class Segment {
    /** `self.id`; `id_x` and `id_y` are `id.x` and `id.y`. */
    const id: HexId
    /** `self.connection = [connection[0], connection[1]]`. */
    const connection: Connection
    /** The curve `draw_curve` produced for `connection`. */
    const lines: Curve
    /** `self.colour_group`, written by `_Colouring.assign_colour_group`. */
    var colourGroup: int

    constructor (id: HexId, connection: Connection, lines: Curve)
      ensures this.id == id && this.connection == connection && this.lines == lines
      ensures colourGroup == 0
    {
      this.id := id;
      this.connection := connection;
      this.lines := lines;
      colourGroup := 0;
    }
  }

  /**
   * `_Segment.__init__`: store the id and edge pair, start in colour group 0, and draw the curve;
   * `draw_curve` raises ValueError when the two edges coincide modulo 6.
   */
  method NewSegment(id: HexId, connection: Connection) returns (r: Result<Segment>)
    ensures r.Ok? <==> DrawCurve(connection).Ok?
    ensures r.Err? ==> r.error == EqualEndpoints
    ensures r.Ok? ==> fresh(r.value)
    ensures r.Ok? ==> r.value.id == id && r.value.connection == connection
    ensures r.Ok? ==> r.value.lines == DrawCurve(connection).value && r.value.colourGroup == 0
  {
    match DrawCurve(connection)
    case Err(e) =>
      r := Err(e);
    case Ok(curve) =>
      var s := new Segment(id, connection, curve);
      r := Ok(s);
  }
}
