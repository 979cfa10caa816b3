/**
 * `_Hexagon` (hexagon.py): one tile of the grid, with its offset, its pattern, its three edge
 * pairs and one `_Segment` per pair.
 *
 * The random draws are parameters: `offsetDraw` stands for `random.randint(0, 5)`,
 * `patternDraw` for the `random.choices` draw from 1..5 and `perm` for the order
 * `random.shuffle` leaves. A falsy `offset` or `pattern` argument is written 0.
 */
module Hexagons {
  import opened Wrappers
  import opened Adjacency
  import opened Tiles
  import opened Segments

  /** hexagon.py's offset rule: a falsy argument draws 0..5, any truthy argument gives offset 0. */
  function SelectOffset(offsetArg: int, offsetDraw: int): (o: int)
    requires 0 <= offsetDraw <= 5
    ensures 0 <= o <= 5
    ensures offsetArg == 0 ==> o == offsetDraw
    ensures offsetArg != 0 ==> o == 0
  {
    if offsetArg == 0 then offsetDraw else 0
  }

  class Hexagon {
    /** `self.id`, the `[id_x, id_y]` key of the tile. */
    const id: HexId
    /** `self.offset`. */
    const offset: int
    /** `self.pattern`. */
    const pattern: int
    /** `self.connection` after the shuffle. */
    const connection: seq<Connection>
    /** `self.segments`, one per pair of `connection`, in the same order. */
    const segments: seq<Segment>

    /**
     * The segment-creation loop of `__init__`: one fresh `_Segment` per pair, in pair order,
     * each carrying the hexagon's id. Every pair must have two different edges, which the
     * pattern tables guarantee (see `NewHexagon`).
     */
    constructor (id: HexId, offset: int, pattern: int, connection: seq<Connection>)
      requires forall i :: 0 <= i < |connection| ==> DrawCurve(connection[i]).Ok?
      ensures this.id == id && this.offset == offset && this.pattern == pattern
      ensures this.connection == connection
      ensures |segments| == |connection|
      ensures forall i :: 0 <= i < |segments| ==> fresh(segments[i])
      ensures forall i :: 0 <= i < |segments| ==>
        && segments[i].id == id
        && segments[i].connection == connection[i]
        && segments[i].lines == DrawCurve(connection[i]).value
        && segments[i].colourGroup == 0
      ensures forall i, j :: 0 <= i < j < |segments| ==> segments[i] != segments[j]
    {
      var segs: seq<Segment> := [];
      var i := 0;
      while i < |connection|
        invariant 0 <= i <= |connection|
        invariant |segs| == i
        invariant forall k :: 0 <= k < i ==> fresh(segs[k])
        invariant forall k :: 0 <= k < i ==>
          && segs[k].id == id
          && segs[k].connection == connection[k]
          && segs[k].lines == DrawCurve(connection[k]).value
          && segs[k].colourGroup == 0
        invariant forall k, l :: 0 <= k < l < i ==> segs[k] != segs[l]
      {
        var r := NewSegment(id, connection[i]);
        segs := segs + [r.value];
        i := i + 1;
      }
      this.id := id;
      this.offset := offset;
      this.pattern := pattern;
      this.connection := connection;
      this.segments := segs;
    }

    /** `get_curve_all`: the lines of every segment, one entry per segment, in segment order. */
    method GetCurveAll() returns (lines: seq<Curve>)
      ensures lines == CurvesOf(segments)
    {
      lines := [];
      var i := 0;
      while i < |segments|
        invariant 0 <= i <= |segments|
        invariant lines == CurvesOf(segments[..i])
      {
        CurvesOfSnoc(segments[..i], segments[i]);
        assert segments[..i + 1] == segments[..i] + [segments[i]];
        lines := lines + [segments[i].lines];
        i := i + 1;
      }
      assert segments[..i] == segments;
    }

    /** `get_curve_colour(id)`: the lines of exactly the segments of that colour group, in order. */
    method GetCurveColour(colourId: int) returns (lines: seq<Curve>)
      ensures lines == ColourCurves(segments, colourId)
    {
      lines := [];
      var i := 0;
      while i < |segments|
        invariant 0 <= i <= |segments|
        invariant lines == ColourCurves(segments[..i], colourId)
      {
        ColourCurvesSnoc(segments[..i], segments[i], colourId);
        assert segments[..i + 1] == segments[..i] + [segments[i]];
        if segments[i].colourGroup == colourId {
          lines := lines + [segments[i].lines];
        }
        i := i + 1;
      }
      assert segments[..i] == segments;
    }
  }

  /** The lines of every segment, in order. */
  function CurvesOf(segs: seq<Segment>): (r: seq<Curve>)
    ensures |r| == |segs|
  {
    if segs == [] then [] else [segs[0].lines] + CurvesOf(segs[1..])
  }

  /** The lines of the segments whose colour group is `colour`, in order. */
  function ColourCurves(segs: seq<Segment>, colour: int): seq<Curve>
    reads segs
  {
    if segs == [] then []
    else (if segs[0].colourGroup == colour then [segs[0].lines] else []) + ColourCurves(segs[1..], colour)
  }

  lemma {:induction false} CurvesOfSnoc(segs: seq<Segment>, s: Segment)
    ensures CurvesOf(segs + [s]) == CurvesOf(segs) + [s.lines]
  {
    if segs != [] {
      assert (segs + [s])[1..] == segs[1..] + [s];
      CurvesOfSnoc(segs[1..], s);
    }
  }

  lemma {:induction false} ColourCurvesSnoc(segs: seq<Segment>, s: Segment, colour: int)
    ensures ColourCurves(segs + [s], colour) ==
            ColourCurves(segs, colour) + (if s.colourGroup == colour then [s.lines] else [])
  {
    if segs != [] {
      assert (segs + [s])[1..] == segs[1..] + [s];
      ColourCurvesSnoc(segs[1..], s, colour);
    }
  }

  /** `get_curve_all` lists the lines of segment `i` at position `i`. */
  lemma {:induction false} CurvesOfAt(segs: seq<Segment>, i: int)
    requires 0 <= i < |segs|
    ensures CurvesOf(segs)[i] == segs[i].lines
  {
    if i > 0 {
      CurvesOfAt(segs[1..], i - 1);
    }
  }

  /** Every entry of `get_curve_colour(c)` comes from a segment of colour group `c`. */
  lemma {:induction false} ColourCurvesSound(segs: seq<Segment>, colour: int, x: Curve)
    requires x in ColourCurves(segs, colour)
    ensures exists i :: 0 <= i < |segs| && segs[i].colourGroup == colour && segs[i].lines == x
  {
    if segs[0].colourGroup == colour && x == segs[0].lines {
      assert segs[0].colourGroup == colour;
    } else {
      ColourCurvesSound(segs[1..], colour, x);
      var i :| 0 <= i < |segs[1..]| && segs[1..][i].colourGroup == colour && segs[1..][i].lines == x;
      assert segs[i + 1] == segs[1..][i];
    }
  }

  /** Every segment of colour group `c` contributes its lines to `get_curve_colour(c)`. */
  lemma {:induction false} ColourCurvesComplete(segs: seq<Segment>, colour: int, i: int)
    requires 0 <= i < |segs| && segs[i].colourGroup == colour
    ensures segs[i].lines in ColourCurves(segs, colour)
  {
    if i > 0 {
      ColourCurvesComplete(segs[1..], colour, i - 1);
    }
  }

  /** When every segment has colour group `c`, `get_curve_colour(c)` equals `get_curve_all()`. */
  lemma {:induction false} ColourCurvesAllOneColour(segs: seq<Segment>, colour: int)
    requires forall i :: 0 <= i < |segs| ==> segs[i].colourGroup == colour
    ensures ColourCurves(segs, colour) == CurvesOf(segs)
  {
    if segs != [] {
      ColourCurvesAllOneColour(segs[1..], colour);
    }
  }

  /** No segment of colour group `c` means `get_curve_colour(c)` is empty. */
  lemma {:induction false} ColourCurvesNone(segs: seq<Segment>, colour: int)
    requires forall i :: 0 <= i < |segs| ==> segs[i].colourGroup != colour
    ensures ColourCurves(segs, colour) == []
  {
    if segs != [] {
      ColourCurvesNone(segs[1..], colour);
    }
  }

  /** A shuffled perfect matching holds the same pairs, is a perfect matching and is drawable. */
  lemma ShuffledMatching(table: seq<Connection>, perm: seq<int>)
    requires PerfectMatching(table) && IsPermutation3(perm)
    ensures var c := Shuffle(table, perm);
      && multiset(c) == multiset(table)
      && PerfectMatching(c)
      && forall i :: 0 <= i < |c| ==> DrawCurve(c[i]).Ok?
  {
    ShuffleIsPermutation(table, perm);
    ShuffleKeepsMatching(table, perm);
    var c := Shuffle(table, perm);
    forall i | 0 <= i < |c| ensures DrawCurve(c[i]).Ok? {
      ProperPairDrawable(c[i]);
    }
  }

  /** The shuffled table of a valid pattern is a perfect matching of the same pairs, all drawable. */
  lemma ShuffledTable(pattern: int, offset: int, perm: seq<int>)
    requires 1 <= pattern <= 5 && IsPermutation3(perm)
    ensures ConnectionTable(pattern, offset).Ok?
    ensures var c := Shuffle(ConnectionTable(pattern, offset).value, perm);
      && multiset(c) == multiset(ConnectionTable(pattern, offset).value)
      && PerfectMatching(c)
      && forall i :: 0 <= i < |c| ==> DrawCurve(c[i]).Ok?
  {
    ConnectionTableIsMatching(pattern, offset);
    ShuffledMatching(ConnectionTable(pattern, offset).value, perm);
  }

  /**
   * `_Hexagon(..., id, offset, pattern)`: choose the offset and the pattern, build the rotated
   * table (ValueError for a truthy pattern outside 1..5), shuffle it and create the segments.
   * The result is three fresh segments over a perfect matching of the six edges that holds the
   * same pairs as the unshuffled table.
   */
  method NewHexagon(id: HexId, offsetArg: int, offsetDraw: int, patternArg: int, patternDraw: int, perm: seq<int>)
    returns (r: Result<Hexagon>)
    requires 0 <= offsetDraw <= 5 && 1 <= patternDraw <= 5 && IsPermutation3(perm)
    ensures r.Err? <==> patternArg != 0 && !(1 <= patternArg <= 5)
    ensures r.Err? ==> r.error == InvalidPattern
    ensures r.Ok? ==> fresh(r.value)
    ensures r.Ok? ==> var h := r.value;
      && h.id == id
      && h.offset == SelectOffset(offsetArg, offsetDraw)
      && h.pattern == SelectPattern(patternArg, patternDraw)
      && ConnectionTable(h.pattern, h.offset).Ok?
      && h.connection == Shuffle(ConnectionTable(h.pattern, h.offset).value, perm)
      && multiset(h.connection) == multiset(ConnectionTable(h.pattern, h.offset).value)
      && PerfectMatching(h.connection)
      && |h.segments| == 3
      && (forall i :: 0 <= i < 3 ==> fresh(h.segments[i]))
      && (forall i :: 0 <= i < 3 ==> h.segments[i].id == id && h.segments[i].connection == h.connection[i])
      && (forall i, j :: 0 <= i < j < 3 ==> h.segments[i] != h.segments[j])
  {
    var offset := SelectOffset(offsetArg, offsetDraw);
    var pattern := SelectPattern(patternArg, patternDraw);
    match ConnectionTable(pattern, offset)
    case Err(e) =>
      r := Err(e);
    case Ok(table) =>
      ShuffledTable(pattern, offset, perm);
      var connection := Shuffle(table, perm);
      var h := new Hexagon(id, offset, pattern, connection);
      r := Ok(h);
  }
}
