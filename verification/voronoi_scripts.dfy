/** The text side of the Voronoi pipeline's scripts: writing geometries as
    segment lines for the external Voronoi tool (with a padded bounding
    rectangle first), cutting water lines into two-point features, and
    reading the tool's segment lines back as `LINESTRING` features.  Number
    rendering (`show`, Java's `Double.toString`), float parsing (`readFloat`,
    `Float.parseFloat`, `None` for a malformed number) and the WKT reader
    (`readWkt`, `None` when it throws) are parameters; lines are modelled
    without their terminator. */
module VoronoiScripts {

  import opened Wrappers
  import opened Geom
  import SegmentText
  import SpatialUtils

  /** The segment between two coordinates, in the plane. */
  function SegOf(a: Coord, b: Coord): SegmentText.Seg {
    SegmentText.Seg(a.x, a.y, b.x, b.y)
  }

  /** `writeGeometry(out, geometry)`: one segment line per pair of
      consecutive coordinates. */
  function WriteGeometry(show: real -> string, coords: seq<Coord>): (r: seq<string>)
    ensures |r| == if |coords| < 2 then 0 else |coords| - 1
    decreases |coords|
  {
    if |coords| < 2 then []
    else [SegmentText.FormatSeg(show, SegOf(coords[0], coords[1]))] + WriteGeometry(show, coords[1..])
  }

  /** Line i of the output is the segment from coordinate i to coordinate
      i + 1. */
  lemma {:induction false} WriteGeometryLines(show: real -> string, coords: seq<Coord>, i: nat)
    requires i + 1 < |coords|
    ensures WriteGeometry(show, coords)[i] == SegmentText.FormatSeg(show, SegOf(coords[i], coords[i + 1]))
    decreases i
  {
    if i > 0 {
      WriteGeometryLines(show, coords[1..], i - 1);
    }
  }

  /** The number codec is faithful on every planar ordinate of `coords`. */
  predicate FaithfulOn(show: real -> string, read: string -> Option<real>, coords: seq<Coord>) {
    forall i :: 0 <= i < |coords| ==>
      SegmentText.Faithful(show, read, coords[i].x) && SegmentText.Faithful(show, read, coords[i].y)
  }

  /** Reading back the lines of a written geometry gives its consecutive
      coordinate pairs, so the chain of segments is the line itself. */
  lemma WriteGeometryReadsBack(show: real -> string, read: string -> Option<real>, coords: seq<Coord>, i: nat)
    requires i + 1 < |coords| && FaithfulOn(show, read, coords)
    ensures SegmentText.ParseSeg(read, SegmentText.JavaFields(WriteGeometry(show, coords)[i])) ==
            Some(SegOf(coords[i], coords[i + 1]))
  {
    WriteGeometryLines(show, coords, i);
    SegmentText.SegRoundTrip(show, read, SegOf(coords[i], coords[i + 1]));
  }

  /** The data bounds: min x, min y, max x, max y. */
  datatype Bounds = Bounds(minx: real, miny: real, maxx: real, maxy: real)

  /** The bounding polygon: the data bounds grown by 10 on every side, as
      a closed ring of five corners starting at the lower left. */
  function BoundingRing(b: Bounds): (r: seq<Coord>)
    ensures |r| == 5 && r[0] == r[4]
    ensures forall i :: 0 <= i < 4 ==> r[i].x == r[i + 1].x || r[i].y == r[i + 1].y
    ensures forall i :: 0 <= i < 5 ==> (r[i].x == b.minx - 10.0 || r[i].x == b.maxx + 10.0)
    ensures forall i :: 0 <= i < 5 ==> (r[i].y == b.miny - 10.0 || r[i].y == b.maxy + 10.0)
  {
    var minx := b.minx - 10.0;
    var miny := b.miny - 10.0;
    var maxx := b.maxx + 10.0;
    var maxy := b.maxy + 10.0;
    [Coord(minx, miny, NaN)] + [Coord(maxx, miny, NaN)] + [Coord(maxx, maxy, NaN)] +
      [Coord(minx, maxy, NaN)] + [Coord(minx, miny, NaN)]
  }

  /** The Voronoi input file: the four sides of the bounding polygon, then
      one line per input geometry, which must be a two-point segment. */
  function PrepVoronoiInput(show: real -> string, b: Bounds, geoms: seq<seq<Coord>>): (r: Result<seq<string>>)
    ensures r.Err? <==> exists i :: 0 <= i < |geoms| && |geoms[i]| != 2
    ensures r.Err? ==> r.error == IllegalArgument
    ensures r.Ok? ==> |r.value| == 4 + |geoms| && r.value[..4] == WriteGeometry(show, BoundingRing(b))
    ensures r.Ok? ==> forall i :: 0 <= i < |geoms| ==>
      r.value[4 + i] == SegmentText.FormatSeg(show, SegOf(geoms[i][0], geoms[i][1]))
  {
    var body := WriteSegments(show, geoms);
    if body.Err? then Err(body.error)
    else
      var ring := WriteGeometry(show, BoundingRing(b));
      assert (ring + body.value)[..4] == ring;
      Ok(ring + body.value)
  }

  /** The loop over the input features. */
  function WriteSegments(show: real -> string, geoms: seq<seq<Coord>>): (r: Result<seq<string>>)
    ensures r.Err? <==> exists i :: 0 <= i < |geoms| && |geoms[i]| != 2
    ensures r.Err? ==> r.error == IllegalArgument
    ensures r.Ok? ==> |r.value| == |geoms|
    ensures r.Ok? ==> forall i :: 0 <= i < |geoms| ==>
      r.value[i] == SegmentText.FormatSeg(show, SegOf(geoms[i][0], geoms[i][1]))
    decreases |geoms|
  {
    if |geoms| == 0 then Ok([])
    else
      var rest := WriteSegments(show, geoms[1..]);
      assert forall i :: 1 <= i < |geoms| ==> geoms[i] == geoms[1..][i - 1];
      if |geoms[0]| != 2 then Err(IllegalArgument)
      else if rest.Err? then Err(rest.error)
      else
        assert WriteGeometry(show, geoms[0]) == [SegmentText.FormatSeg(show, SegOf(geoms[0][0], geoms[0][1]))];
        Ok(WriteGeometry(show, geoms[0]) + rest.value)
  }

  /** The four sides of the padded bounding polygon chain into a closed
      loop: each side starts where the previous one ends and the last ends
      where the first starts. */
  lemma BoundaryIsClosed(show: real -> string, read: string -> Option<real>, b: Bounds)
    requires FaithfulOn(show, read, BoundingRing(b))
    ensures forall i :: 0 <= i < 4 ==>
      SegmentText.ParseSeg(read, SegmentText.JavaFields(WriteGeometry(show, BoundingRing(b))[i])) ==
      Some(SegOf(BoundingRing(b)[i], BoundingRing(b)[i + 1]))
    ensures SegOf(BoundingRing(b)[3], BoundingRing(b)[4]).x2 == SegOf(BoundingRing(b)[0], BoundingRing(b)[1]).x1
    ensures SegOf(BoundingRing(b)[3], BoundingRing(b)[4]).y2 == SegOf(BoundingRing(b)[0], BoundingRing(b)[1]).y1
  {
    forall i | 0 <= i < 4
      ensures SegmentText.ParseSeg(read, SegmentText.JavaFields(WriteGeometry(show, BoundingRing(b))[i])) ==
              Some(SegOf(BoundingRing(b)[i], BoundingRing(b)[i + 1]))
    {
      WriteGeometryReadsBack(show, read, BoundingRing(b), i);
    }
  }

  /** `splitIntoSegments(feature)`: one feature per pair of consecutive
      coordinates, named after the input feature and the 1-based position
      of the pair's second coordinate (`fid-2`, `fid-3`, ...).  `decimal`
      renders an `int`. */
  function SplitIntoSegments(fid: string, coords: seq<Coord>, decimal: int -> string): (r: seq<Feature>)
    ensures |r| == if |coords| < 2 then 0 else |coords| - 1
    ensures forall i :: 0 <= i < |r| ==> r[i].fid == fid + "-" + decimal(i + 2)
    ensures forall i :: 0 <= i < |r| ==> r[i].geom == SpatialUtils.ToSegments(coords)[i]
  {
    var segs := SpatialUtils.ToSegments(coords);
    seq(|segs|, i requires 0 <= i < |segs| => Feature(fid + "-" + decimal(i + 2), segs[i]))
  }

  /** The segment features chain back into the input line. */
  lemma SplitIntoSegmentsRebuilds(fid: string, coords: seq<Coord>, decimal: int -> string)
    requires |coords| >= 2
    ensures var r := SplitIntoSegments(fid, coords, decimal);
      SpatialUtils.Vertices(seq(|r|, i requires 0 <= i < |r| => r[i].geom)) == coords
  {
    var r := SplitIntoSegments(fid, coords, decimal);
    assert seq(|r|, i requires 0 <= i < |r| => r[i].geom) == SpatialUtils.ToSegments(coords);
    SpatialUtils.SegmentsRebuild(coords);
  }

  /** `voronoiInLineToWkt(line)`: tokens 1, 2, 4 and 5 of the line split on
      single spaces, parsed as floats in that order and written as a
      two-point WKT line.  The first token that is missing overruns the
      array; the first that is not a number throws `NumberFormatException`,
      an `IllegalArgumentException`. */
  function VoronoiLineToWkt(line: string, readFloat: string -> Option<real>, show: real -> string): (r: Result<string>)
    ensures r.Ok? <==> SegmentText.ParseSeg(readFloat, SegmentText.JavaFields(line)).Some?
    ensures r.Ok? ==> r.value == Wkt(show, SegmentText.ParseSeg(readFloat, SegmentText.JavaFields(line)).value)
    ensures r.Err? ==>
      exists i :: 0 <= i < 4 && SegmentText.FirstFailure(readFloat, IllegalArgument, SegmentText.JavaSplit(line, ' '), 0, i, r.error)
  {
    SegmentText.ReadSegJava(readFloat, IllegalArgument, line);
    var s :- SegmentText.ReadSeg(readFloat, IllegalArgument, SegmentText.JavaSplit(line, ' '));
    Ok(Wkt(show, s))
  }

  /** `LINESTRING (x1 y1, x2 y2)`. */
  function Wkt(show: real -> string, s: SegmentText.Seg): string {
    "LINESTRING (" + show(s.x1) + " " + show(s.y1) + ", " + show(s.x2) + " " + show(s.y2) + ")"
  }

  /** The tokens are parsed before the line is known to be long enough:
      `s abc` throws on its first number, not on its length, and `s` on its
      missing first number. */
  lemma VoronoiLineOrder(readFloat: string -> Option<real>, show: real -> string)
    requires readFloat("abc").None?
    ensures VoronoiLineToWkt("s abc", readFloat, show) == Err(IllegalArgument)
    ensures VoronoiLineToWkt("s", readFloat, show) == Err(IndexOutOfBounds)
  {
    SegmentText.SplitJoin(["s", "abc"], ' ');
    assert SegmentText.Join(["s", "abc"], ' ') == "s abc";
    SegmentText.SplitJoin(["s"], ' ');
    assert SegmentText.Join(["s"], ' ') == "s";
  }

  /** A line written for the Voronoi tool converts to the WKT of the same
      segment, when the float codec is faithful on its ordinates (that is,
      up to float precision). */
  lemma WrittenLineToWkt(show: real -> string, readFloat: string -> Option<real>, showFloat: real -> string,
                         s: SegmentText.Seg)
    requires SegmentText.Faithful(show, readFloat, s.x1) && SegmentText.Faithful(show, readFloat, s.y1)
    requires SegmentText.Faithful(show, readFloat, s.x2) && SegmentText.Faithful(show, readFloat, s.y2)
    ensures VoronoiLineToWkt(SegmentText.FormatSeg(show, s), readFloat, showFloat) == Ok(Wkt(showFloat, s))
  {
    SegmentText.SegRoundTrip(show, readFloat, s);
  }

  /** The geometry read from one line of the tool's output, or `None` when
      converting or reading it throws. */
  function LineGeometry(line: string, readFloat: string -> Option<real>, show: real -> string,
                        readWkt: string -> Option<seq<Coord>>): (r: Option<seq<Coord>>)
    ensures r.Some? ==> VoronoiLineToWkt(line, readFloat, show).Ok?
  {
    var w := VoronoiLineToWkt(line, readFloat, show);
    if w.Err? then None else readWkt(w.value)
  }

  /** Reading one line of the tool's output into a geometry. */
  type LineReader = string -> Option<seq<Coord>>

  /** The importer's reader: convert to WKT, then parse the WKT. */
  function ReaderOf(readFloat: string -> Option<real>, show: real -> string,
                    readWkt: string -> Option<seq<Coord>>): LineReader
  {
    line => LineGeometry(line, readFloat, show, readWkt)
  }

  /** The geometries of the lines that convert, in order. */
  function Converted(lines: seq<string>, read: LineReader): (r: seq<seq<Coord>>)
    ensures |r| <= |lines|
    decreases |lines|
  {
    if |lines| == 0 then []
    else
      var init := Converted(lines[..|lines| - 1], read);
      var g := read(lines[|lines| - 1]);
      if g.Some? then init + [g.value] else init
  }

  /** One more line converts to one more geometry, or to none. */
  lemma ConvertedStep(lines: seq<string>, k: nat, read: LineReader)
    requires k < |lines|
    ensures Converted(lines[..k + 1], read) ==
      Converted(lines[..k], read) + (if read(lines[k]).Some? then [read(lines[k]).value] else [])
  {
    assert lines[..k + 1][..k] == lines[..k];
    assert lines[..k + 1][k] == lines[k];
  }

  lemma ConvertedWhole(lines: seq<string>, read: LineReader)
    ensures Converted(lines[..|lines|], read) == Converted(lines, read)
  {
    assert lines[..|lines|] == lines;
  }

  /** When every line reads, nothing is skipped: the geometries are those
      of the lines, one for one. */
  lemma {:induction false} ConvertedAllRead(lines: seq<string>, read: LineReader)
    requires forall j :: 0 <= j < |lines| ==> read(lines[j]).Some?
    ensures |Converted(lines, read)| == |lines|
    ensures forall j :: 0 <= j < |lines| ==> Converted(lines, read)[j] == read(lines[j]).value
    decreases |lines|
  {
    if |lines| > 0 {
      var init := lines[..|lines| - 1];
      assert forall j :: 0 <= j < |init| ==> init[j] == lines[j];
      ConvertedAllRead(init, read);
    }
  }

  /** Every geometry kept comes from a line that reads. */
  lemma {:induction false} ConvertedFromLines(lines: seq<string>, read: LineReader, i: nat)
    requires i < |Converted(lines, read)|
    ensures exists j :: 0 <= j < |lines| && read(lines[j]) == Some(Converted(lines, read)[i])
    decreases |lines|
  {
    var init := lines[..|lines| - 1];
    var g := read(lines[|lines| - 1]);
    if i < |Converted(init, read)| {
      ConvertedFromLines(init, read, i);
      var j :| 0 <= j < |init| && read(init[j]) == Some(Converted(init, read)[i]);
      assert lines[j] == init[j];
    } else {
      assert read(lines[|lines| - 1]) == Some(Converted(lines, read)[i]);
    }
  }

  /** The numbered features built from the geometries. */
  datatype Edge = Edge(id: int, geom: seq<Coord>)

  /** Each geometry as a feature numbered by its position. */
  function Numbered(gs: seq<seq<Coord>>): (r: seq<Edge>)
    ensures |r| == |gs|
    ensures forall i :: 0 <= i < |r| ==> r[i].id == i && r[i].geom == gs[i]
  {
    seq(|gs|, i requires 0 <= i < |gs| => Edge(i, gs[i]))
  }

  /** Numbering one more geometry appends one feature with the next number. */
  lemma NumberedSnoc(gs: seq<seq<Coord>>, g: seq<Coord>)
    ensures Numbered(gs + [g]) == Numbered(gs) + [Edge(|gs|, g)]
  {
    assert forall i :: 0 <= i < |gs| ==> Numbered(gs + [g])[i] == Numbered(gs)[i];
  }

  /** The conversion loop of the Voronoi-output importer: a line that fails
      to convert is skipped and counted; the others become features
      numbered 0, 1, 2, ... (the counter moves only on success). */
  method ConvertLines(lines: seq<string>, read: LineReader) returns (edges: seq<Edge>, skipped: nat)
    ensures |edges| + skipped == |lines|
    ensures edges == Numbered(Converted(lines, read))
  {
    edges := [];
    skipped := 0;
    var lineNum := 0;
    var k := 0;
    while k < |lines|
      invariant 0 <= k <= |lines|
      invariant edges == Numbered(Converted(lines[..k], read))
      invariant lineNum == |edges| && |edges| + skipped == k
    {
      ConvertedStep(lines, k, read);
      var g := read(lines[k]);
      if g.None? {
        skipped := skipped + 1;
      } else {
        NumberedSnoc(Converted(lines[..k], read), g.value);
        edges := edges + [Edge(lineNum, g.value)];
        lineNum := lineNum + 1;
      }
      k := k + 1;
    }
    ConvertedWhole(lines, read);
  }
}
