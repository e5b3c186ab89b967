/** The fault-isolation search of `bbox-test.py`.  A LIFO stack of sample
    areas starts with one area; each popped area gets its own input file
    (the segment records with an end point inside its bounding box, followed
    by a padded boundary rectangle), the external Voronoi tool runs on it,
    and an area on which the tool fails is recorded and, when its file
    counted more than one line, split into a k-by-k grid of child areas.

    The external tool is the parameter `tool` (success on the prepared file
    text); float rendering and parsing are `show` and `read`.  Two variants
    are modelled side by side: `AsWritten` follows the script, `Corrected`
    repairs the two defects recorded under Findings in the README (segment
    count including the boundary records, and 0.0 read as an unset bound). */
module BBoxSearch {

  import opened Wrappers
  import opened Geom
  import opened SegmentText

  /** `[xmin, ymin, xmax, ymax]`. */
  datatype BBox = BBox(xmin: real, ymin: real, xmax: real, ymax: real)

  /** A SampleArea: its counter-issued id, its box, and whether the first four
      input lines are a header to skip. */
  datatype SampleArea = SampleArea(id: nat, bbox: BBox, hasHeader: bool)

  /** A recorded failure with the area's `num_segments`. */
  datatype Failure = Failure(area: SampleArea, numSegments: nat)

  /** `is_point_in_bbox`: inclusive on all four sides. */
  predicate InBBox(x: real, y: real, b: BBox) {
    b.xmin <= x <= b.xmax && b.ymin <= y <= b.ymax
  }

  /** A record is copied when either of its end points is in the box. */
  predicate Keeps(b: BBox, s: Seg) {
    InBBox(s.x1, s.y1, b) || InBBox(s.x2, s.y2, b)
  }

  // ---------------------------------------------------------------------------
  // subdivide

  /** `int(math.sqrt(n))` for n >= 0, computed exactly. */
  function ISqrt(n: nat): (k: nat)
    ensures k * k <= n < (k + 1) * (k + 1)
  {
    if n == 0 then 0
    else
      var r := ISqrt(n - 1);
      if (r + 1) * (r + 1) <= n then r + 1 else r
  }

  /** The side of one grid step over [lo, hi]. */
  function Width(lo: real, hi: real, k: nat): real
    requires k >= 1
  {
    (hi - lo) / (k as real)
  }

  /** The low edge of grid step `r` over [lo, hi]. */
  function Edge(lo: real, hi: real, k: nat, r: nat): real
    requires k >= 1
  {
    lo + (r as real) * Width(lo, hi, k)
  }

  /** Cell (row, col) of a k-by-k grid over `b`; rows step along x and
      columns along y, as in the script. */
  function Cell(b: BBox, k: nat, row: nat, col: nat): (c: BBox)
    requires k >= 1
  {
    var x0 := Edge(b.xmin, b.xmax, k, row);
    var y0 := Edge(b.ymin, b.ymax, k, col);
    BBox(x0, y0, x0 + Width(b.xmin, b.xmax, k), y0 + Width(b.ymin, b.ymax, k))
  }

  /** The k-by-k children of `b` in row-major order, ids from `nextId`. */
  function Grid(b: BBox, k: nat, nextId: nat): (kids: seq<SampleArea>)
    requires k >= 1
    ensures |kids| == k * k
    ensures forall i :: 0 <= i < |kids| ==>
      kids[i] == SampleArea(nextId + i, Cell(b, k, i / k, i % k), false)
  {
    seq(k * k, i requires 0 <= i < k * k => SampleArea(nextId + i, Cell(b, k, i / k, i % k), false))
  }

  /** `subdivide`: `int(sqrt(division))` squared children in row-major order,
      each a new SampleArea (fresh id, no header).  A negative division is
      Python's math domain error; a division below 1 makes the width divisor
      zero.  Returns the children and the next free id. */
  function Subdivide(a: SampleArea, division: int, nextId: nat): (r: Result<(seq<SampleArea>, nat)>)
    ensures division < 1 <==> r.Err?
    ensures r.Ok? ==> ISqrt(division) >= 1 && r.value.0 == Grid(a.bbox, ISqrt(division), nextId)
    ensures r.Ok? ==> r.value.1 == nextId + |r.value.0|
  {
    if division < 0 then Err(ValueError)
    else
      var k := ISqrt(division);
      if k == 0 then Err(ZeroDivision)
      else
        var kids := Grid(a.bbox, k, nextId);
        Ok((kids, nextId + k * k))
  }

  lemma MulNonneg(a: real, d: real)
    requires a >= 0.0 && d >= 0.0
    ensures a * d >= 0.0
  {
  }

  lemma MulLe(a: real, b: real, d: real)
    requires a <= b && d >= 0.0
    ensures a * d <= b * d
  {
    MulNonneg(b - a, d);
    assert (b - a) * d == b * d - a * d;
  }

  lemma MulNonnegInt(a: int, k: int)
    requires a >= 0 && k >= 0
    ensures a * k >= 0
  {
  }

  lemma MulStep(a: int, b: int, k: int)
    requires a > b && k >= 0
    ensures a * k >= b * k + k
  {
    MulNonnegInt(a - b - 1, k);
    assert (a - b - 1) * k == a * k - b * k - k;
  }

  /** The grid slot along one axis whose closed interval holds `x`. */
  lemma Slot(lo: real, hi: real, k: nat, x: real) returns (r: nat)
    requires k >= 1 && lo <= x <= hi
    ensures r < k
    ensures Edge(lo, hi, k, r) <= x <= Edge(lo, hi, k, r) + Width(lo, hi, k)
  {
    var kr := k as real;
    var d := (hi - lo) / kr;
    if hi == lo {
      r := 0;
      assert d == 0.0;
      return;
    }
    assert d > 0.0;
    assert hi - lo == kr * d;
    var t := (x - lo) / d;
    assert x - lo == t * d;
    assert t >= 0.0;
    assert t <= kr by {
      if t > kr {
        MulLe(kr, t, d);
        assert false;
      }
    }
    var f := t.Floor;
    assert 0 <= f;
    if f >= k {
      r := k - 1;
      assert t == kr;
    } else {
      r := f;
    }
    SlotWithin(lo, hi, k, r, t, x);
  }

  /** A point `t` grid steps past `lo`, with r <= t <= r + 1, lies in
      step r. */
  lemma SlotWithin(lo: real, hi: real, k: nat, r: nat, t: real, x: real)
    requires k >= 1 && lo < hi
    requires x - lo == t * Width(lo, hi, k) && (r as real) <= t <= (r as real) + 1.0
    ensures Edge(lo, hi, k, r) <= x <= Edge(lo, hi, k, r) + Width(lo, hi, k)
  {
    var d := Width(lo, hi, k);
    assert d > 0.0;
    MulLe(r as real, t, d);
    MulLe(t, (r as real) + 1.0, d);
    assert ((r as real) + 1.0) * d == (r as real) * d + d;
    assert x <= lo + (r as real) * d + d;
  }

  lemma DivModOf(row: nat, col: nat, k: nat)
    requires k >= 1 && row < k && col < k
    ensures row * k + col < k * k
    ensures (row * k + col) / k == row && (row * k + col) % k == col
  {
    var i := row * k + col;
    MulStep(k, row, k);
    var q := i / k;
    var m := i % k;
    assert i == q * k + m && 0 <= m < k;
    if q > row {
      MulStep(q, row, k);
      assert false;
    }
    if q < row {
      MulStep(row, q, k);
      assert false;
    }
  }

  /** The children tile the parent: every point of the parent box lies in
      some child box. */
  lemma SubdivideCovers(a: SampleArea, division: int, nextId: nat, x: real, y: real)
    requires division >= 1 && InBBox(x, y, a.bbox)
    ensures Subdivide(a, division, nextId).Ok?
    ensures var kids := Subdivide(a, division, nextId).value.0;
      exists i :: 0 <= i < |kids| && InBBox(x, y, kids[i].bbox)
  {
    var k := ISqrt(division);
    var kids := Subdivide(a, division, nextId).value.0;
    var row := Slot(a.bbox.xmin, a.bbox.xmax, k, x);
    var col := Slot(a.bbox.ymin, a.bbox.ymax, k, y);
    var i := GridIndex(row, col, k);
    assert kids[i].bbox == Cell(a.bbox, k, row, col);
    CellHolds(a.bbox, k, row, col, x, y);
  }

  lemma CellHolds(b: BBox, k: nat, row: nat, col: nat, x: real, y: real)
    requires k >= 1
    requires Edge(b.xmin, b.xmax, k, row) <= x <= Edge(b.xmin, b.xmax, k, row) + Width(b.xmin, b.xmax, k)
    requires Edge(b.ymin, b.ymax, k, col) <= y <= Edge(b.ymin, b.ymax, k, col) + Width(b.ymin, b.ymax, k)
    ensures InBBox(x, y, Cell(b, k, row, col))
  {
  }

  /** The position of cell (row, col) in the row-major child list. */
  lemma GridIndex(row: nat, col: nat, k: nat) returns (i: nat)
    requires k >= 1 && row < k && col < k
    ensures i < k * k && i / k == row && i % k == col
  {
    i := row * k + col;
    DivModOf(row, col, k);
  }

  /** Every child lies inside its parent. */
  lemma SubdivideWithin(a: SampleArea, division: int, nextId: nat, i: nat)
    requires division >= 1
    requires a.bbox.xmin <= a.bbox.xmax && a.bbox.ymin <= a.bbox.ymax
    requires i < |Subdivide(a, division, nextId).value.0|
    ensures var c := Subdivide(a, division, nextId).value.0[i].bbox;
      a.bbox.xmin <= c.xmin <= c.xmax <= a.bbox.xmax && a.bbox.ymin <= c.ymin <= c.ymax <= a.bbox.ymax
  {
    var k := ISqrt(division);
    var kids := Subdivide(a, division, nextId).value.0;
    assert kids == Grid(a.bbox, k, nextId);
    DivBound(i, k);
    assert kids[i].bbox == Cell(a.bbox, k, i / k, i % k);
    CellWithin(a.bbox, k, i / k, i % k);
  }

  /** A grid cell lies inside the box it divides. */
  lemma CellWithin(b: BBox, k: nat, row: nat, col: nat)
    requires k >= 1 && row < k && col < k
    requires b.xmin <= b.xmax && b.ymin <= b.ymax
    ensures var c := Cell(b, k, row, col);
      b.xmin <= c.xmin <= c.xmax <= b.xmax && b.ymin <= c.ymin <= c.ymax <= b.ymax
  {
    AxisWithin(b.xmin, b.xmax, k, row);
    AxisWithin(b.ymin, b.ymax, k, col);
  }

  lemma DivBound(i: nat, k: nat)
    requires k >= 1 && i < k * k
    ensures i / k < k
  {
    var q := i / k;
    assert i == q * k + i % k;
    if q >= k {
      MulNonnegInt(q - k, k);
      assert false;
    }
  }

  lemma AxisWithin(lo: real, hi: real, k: nat, r: nat)
    requires k >= 1 && r < k && lo <= hi
    ensures lo <= Edge(lo, hi, k, r)
    ensures Edge(lo, hi, k, r) + Width(lo, hi, k) <= hi
  {
    var d := (hi - lo) / (k as real);
    assert d >= 0.0;
    MulLe(0.0, r as real, d);
    MulLe((r + 1) as real, k as real, d);
    assert (k as real) * d == hi - lo;
  }

  /** The default division of 4 splits a failing area into a 2-by-2 grid. */
  lemma DefaultDivisionIsTwoByTwo(a: SampleArea, nextId: nat)
    ensures ISqrt(4) == 2
    ensures Subdivide(a, 4, nextId).Ok?
    ensures |Subdivide(a, 4, nextId).value.0| == 4
  {
    assert ISqrt(1) == 1;
    assert ISqrt(2) == 1;
    assert ISqrt(3) == 1;
    assert ISqrt(4) == 2;
  }

  // ---------------------------------------------------------------------------
  // prepare_in_file

  /** One record line parsed as `float(pieces[i])` for i in 1, 2, 4, 5, in
      that order: the first of those pieces that is missing is an
      IndexError, the first that is not a number a ValueError. */
  function ParseRecord(read: string -> Option<real>, line: string): (r: Result<Seg>)
    ensures r.Ok? <==> ParseSeg(read, Fields(line)).Some?
    ensures r.Ok? ==> ParseSeg(read, Fields(line)) == Some(r.value)
    ensures r.Err? ==> exists i :: 0 <= i < 4 && FirstFailure(read, ValueError, Split(line, ' '), 0, i, r.error)
  {
    ReadSegPython(read, ValueError, line);
    ReadSeg(read, ValueError, Split(line, ' '))
  }

  /** The fields are parsed before the line is known to be long enough:
      `s abc` fails on its first number, not on its length, and `s` on its
      missing first number. */
  lemma ParseRecordOrder(read: string -> Option<real>)
    requires read("abc").None?
    ensures ParseRecord(read, "s abc") == Err(ValueError)
    ensures ParseRecord(read, "s") == Err(IndexOutOfBounds)
  {
    SplitJoin(["s", "abc"], ' ');
    assert Join(["s", "abc"], ' ') == "s abc";
    SplitJoin(["s"], ' ');
    assert Join(["s"], ' ') == "s";
  }

  /** The lines read as records: all of them, or all but the first four when
      the file carries the bounding-box header. */
  function Body(lines: seq<string>, hasHeader: bool): (r: seq<string>)
    ensures !hasHeader ==> r == lines
    ensures hasHeader && |lines| >= 4 ==> lines == lines[..4] + r
    ensures hasHeader && |lines| < 4 ==> r == []
  {
    if hasHeader then lines[if |lines| < 4 then |lines| else 4..] else lines
  }

  /** Parses every body line in order; the first malformed line aborts. */
  function Records(read: string -> Option<real>, body: seq<string>): (r: Result<seq<(string, Seg)>>)
    ensures r.Ok? <==> forall k :: 0 <= k < |body| ==> ParseRecord(read, body[k]).Ok?
    ensures r.Ok? ==> |r.value| == |body|
    ensures r.Ok? ==> forall k :: 0 <= k < |body| ==> r.value[k].0 == body[k] && ParseRecord(read, body[k]) == Ok(r.value[k].1)
  {
    if |body| == 0 then Ok([])
    else
      var s :- ParseRecord(read, body[0]);
      var rest :- Records(read, body[1..]);
      assert forall k :: 1 <= k < |body| ==> body[k] == body[1..][k - 1];
      Ok([(body[0], s)] + rest)
  }

  /** The records with an end point in the box, in input order. */
  function Select(recs: seq<(string, Seg)>, b: BBox): (r: seq<(string, Seg)>)
    ensures IsSubseq(r, recs)
    ensures forall k :: 0 <= k < |r| ==> Keeps(b, r[k].1)
    ensures forall k :: 0 <= k < |recs| && Keeps(b, recs[k].1) ==> recs[k] in r
  {
    if |recs| == 0 then []
    else
      var rest := Select(recs[1..], b);
      assert recs == [recs[0]] + recs[1..];
      assert forall k :: 1 <= k < |recs| ==> recs[k] == recs[1..][k - 1];
      if Keeps(b, recs[0].1) then
        SubseqCons(recs[0], rest, recs[1..]);
        [recs[0]] + rest
      else
        SubseqSkip(recs[0], rest, recs[1..]);
        rest
  }

  /** Running bounds: None is Python's `None`. */
  datatype Bounds = Bounds(minx: Option<real>, miny: Option<real>, maxx: Option<real>, maxy: Option<real>)

  /** `if not cur or v < cur: cur = v`.  As written, `not cur` also holds for
      a bound of 0.0, which is then overwritten by any later value. */
  function Lower(variant: Variant, cur: Option<real>, v: real): (r: Option<real>)
    ensures r.Some? && (r.value == v || r == cur)
    ensures cur.None? ==> r == Some(v)
    ensures (variant == Corrected || cur != Some(0.0)) && cur.Some? ==> r.value <= cur.value && r.value <= v
    ensures variant == AsWritten && cur == Some(0.0) ==> r == Some(v)
  {
    if cur.None? || (variant == AsWritten && cur.value == 0.0) || v < cur.value then Some(v) else cur
  }

  /** `if not cur or v > cur: cur = v`, with the same flaw as `Lower`. */
  function Upper(variant: Variant, cur: Option<real>, v: real): (r: Option<real>)
    ensures r.Some? && (r.value == v || r == cur)
    ensures cur.None? ==> r == Some(v)
    ensures (variant == Corrected || cur != Some(0.0)) && cur.Some? ==> r.value >= cur.value && r.value >= v
    ensures variant == AsWritten && cur == Some(0.0) ==> r == Some(v)
  {
    if cur.None? || (variant == AsWritten && cur.value == 0.0) || v > cur.value then Some(v) else cur
  }

  function Min(a: real, b: real): real { if a <= b then a else b }
  function Max(a: real, b: real): real { if a >= b then a else b }

  /** The bounds after folding the kept records in order. */
  function Extent(variant: Variant, segs: seq<Seg>): (r: Bounds)
    ensures |segs| > 0 ==> r.minx.Some? && r.miny.Some? && r.maxx.Some? && r.maxy.Some?
  {
    if |segs| == 0 then Bounds(None, None, None, None)
    else
      var e := Extent(variant, segs[..|segs| - 1]);
      var s := segs[|segs| - 1];
      Bounds(Lower(variant, e.minx, Min(s.x1, s.x2)), Lower(variant, e.miny, Min(s.y1, s.y2)),
             Upper(variant, e.maxx, Max(s.x1, s.x2)), Upper(variant, e.maxy, Max(s.y1, s.y2)))
  }

  /** With the corrected test, the bounds enclose every end point of every
      kept record. */
  lemma {:induction false} ExtentEncloses(segs: seq<Seg>)
    requires |segs| > 0
    ensures var e := Extent(Corrected, segs);
      forall k :: 0 <= k < |segs| ==>
        e.minx.value <= Min(segs[k].x1, segs[k].x2) && Max(segs[k].x1, segs[k].x2) <= e.maxx.value &&
        e.miny.value <= Min(segs[k].y1, segs[k].y2) && Max(segs[k].y1, segs[k].y2) <= e.maxy.value
  {
    var n := |segs|;
    if n > 1 {
      ExtentEncloses(segs[..n - 1]);
      assert forall k :: 0 <= k < n - 1 ==> segs[k] == segs[..n - 1][k];
    }
  }

  /** With the corrected test, each bound is attained: it is an end point
      coordinate of some kept record, so the extent is the tight one. */
  lemma {:induction false} ExtentTight(segs: seq<Seg>)
    requires |segs| > 0
    ensures var e := Extent(Corrected, segs);
      (exists k :: 0 <= k < |segs| && e.minx.value == Min(segs[k].x1, segs[k].x2)) &&
      (exists k :: 0 <= k < |segs| && e.miny.value == Min(segs[k].y1, segs[k].y2)) &&
      (exists k :: 0 <= k < |segs| && e.maxx.value == Max(segs[k].x1, segs[k].x2)) &&
      (exists k :: 0 <= k < |segs| && e.maxy.value == Max(segs[k].y1, segs[k].y2))
  {
    var n := |segs|;
    if n > 1 {
      ExtentTight(segs[..n - 1]);
      assert forall k :: 0 <= k < n - 1 ==> segs[..n - 1][k] == segs[k];
    } else {
      assert segs[..0] == [];
      assert Extent(Corrected, segs[..0]) == Bounds(None, None, None, None);
      var e := Extent(Corrected, segs);
      assert e.minx.value == Min(segs[0].x1, segs[0].x2) && e.miny.value == Min(segs[0].y1, segs[0].y2);
      assert e.maxx.value == Max(segs[0].x1, segs[0].x2) && e.maxy.value == Max(segs[0].y1, segs[0].y2);
    }
  }

  /** The four boundary segments, padded by 10, counter-clockwise from the
      lower-left corner. */
  function BoundaryRing(e: Bounds): (r: seq<Seg>)
    requires e.minx.Some? && e.miny.Some? && e.maxx.Some? && e.maxy.Some?
    ensures |r| == 4
    ensures r[0].x2 == r[1].x1 && r[0].y2 == r[1].y1 && r[1].x2 == r[2].x1 && r[1].y2 == r[2].y1
    ensures r[2].x2 == r[3].x1 && r[2].y2 == r[3].y1 && r[3].x2 == r[0].x1 && r[3].y2 == r[0].y1
    ensures r[0].x1 == e.minx.value - 10.0 && r[0].y1 == e.miny.value - 10.0
    ensures r[1].x1 == e.maxx.value + 10.0 && r[2].y1 == e.maxy.value + 10.0
  {
    var x0, y0 := e.minx.value - 10.0, e.miny.value - 10.0;
    var x1, y1 := e.maxx.value + 10.0, e.maxy.value + 10.0;
    [Seg(x0, y0, x1, y0), Seg(x1, y0, x1, y1), Seg(x1, y1, x0, y1), Seg(x0, y1, x0, y0)]
  }

  /** The prepared file: its lines and `num_kept`. */
  datatype Prepared = Prepared(lines: seq<string>, kept: nat)

  function Segs(recs: seq<(string, Seg)>): (r: seq<Seg>)
    ensures |r| == |recs| && forall k :: 0 <= k < |recs| ==> r[k] == recs[k].1
  {
    seq(|recs|, k requires 0 <= k < |recs| => recs[k].1)
  }

  function Texts(recs: seq<(string, Seg)>): (r: seq<string>)
    ensures |r| == |recs| && forall k :: 0 <= k < |recs| ==> r[k] == recs[k].0
  {
    seq(|recs|, k requires 0 <= k < |recs| => recs[k].0)
  }

  /** `prepare_in_file(..., include_bounds=True)`: the kept record lines,
      then (when any is kept) the four boundary records.  Which lines are
      kept is stated by `PrepareKeeps` and `PrepareFinds`. */
  function PrepareInFile(variant: Variant, show: real -> string, read: string -> Option<real>,
                         lines: seq<string>, b: BBox, hasHeader: bool): (r: Result<Prepared>)
    ensures r.Ok? <==> forall k :: 0 <= k < |Body(lines, hasHeader)| ==> ParseRecord(read, Body(lines, hasHeader)[k]).Ok?
    ensures r.Ok? ==> |r.value.lines| == r.value.kept + (if r.value.kept > 0 then 4 else 0)
  {
    var recs :- Records(read, Body(lines, hasHeader));
    var kept := Select(recs, b);
    var texts := Texts(kept);
    if |kept| == 0 then Ok(Prepared(texts, 0))
    else Ok(Prepared(texts + BoundaryOf(variant, show, Segs(kept)), |kept|))
  }

  /** The record part of a prepared file is the text of the selected
      records. */
  lemma PreparedRecords(variant: Variant, show: real -> string, read: string -> Option<real>,
                        lines: seq<string>, b: BBox, hasHeader: bool)
    requires PrepareInFile(variant, show, read, lines, b, hasHeader).Ok?
    ensures var p := PrepareInFile(variant, show, read, lines, b, hasHeader).value;
      var recs := Records(read, Body(lines, hasHeader));
      recs.Ok? && p.lines[..p.kept] == Texts(Select(recs.value, b))
  {
    var recs := Records(read, Body(lines, hasHeader)).value;
    var kept := Select(recs, b);
    var texts := Texts(kept);
    if |kept| > 0 {
      assert (texts + BoundaryOf(variant, show, Segs(kept)))[..|kept|] == texts;
    }
  }

  /** Every record line of the prepared file is a well-formed line of the
      input with an end point in the box. */
  lemma PrepareKeeps(variant: Variant, show: real -> string, read: string -> Option<real>,
                     lines: seq<string>, b: BBox, hasHeader: bool)
    requires PrepareInFile(variant, show, read, lines, b, hasHeader).Ok?
    ensures var p := PrepareInFile(variant, show, read, lines, b, hasHeader).value;
      forall k :: 0 <= k < p.kept ==>
        p.lines[k] in Body(lines, hasHeader) &&
        ParseRecord(read, p.lines[k]).Ok? && Keeps(b, ParseRecord(read, p.lines[k]).value)
  {
    var p := PrepareInFile(variant, show, read, lines, b, hasHeader).value;
    PreparedRecords(variant, show, read, lines, b, hasHeader);
    var body := Body(lines, hasHeader);
    var recs := Records(read, body).value;
    var kept := Select(recs, b);
    SubseqMembers(kept, recs);
    forall k | 0 <= k < p.kept
      ensures p.lines[k] in body && ParseRecord(read, p.lines[k]) == Ok(kept[k].1) && Keeps(b, kept[k].1)
    {
      assert p.lines[k] == p.lines[..p.kept][k] == kept[k].0;
      assert kept[k] in recs;
      var j :| 0 <= j < |recs| && recs[j] == kept[k];
      assert body[j] == kept[k].0;
    }
  }

  /** Every input line with an end point in the box is among the record
      lines of the prepared file. */
  lemma PrepareFinds(variant: Variant, show: real -> string, read: string -> Option<real>,
                     lines: seq<string>, b: BBox, hasHeader: bool)
    requires PrepareInFile(variant, show, read, lines, b, hasHeader).Ok?
    ensures var p := PrepareInFile(variant, show, read, lines, b, hasHeader).value;
      forall j :: 0 <= j < |Body(lines, hasHeader)| ==>
        (Keeps(b, ParseRecord(read, Body(lines, hasHeader)[j]).value) ==> Body(lines, hasHeader)[j] in p.lines[..p.kept])
  {
    var p := PrepareInFile(variant, show, read, lines, b, hasHeader).value;
    PreparedRecords(variant, show, read, lines, b, hasHeader);
    var body := Body(lines, hasHeader);
    var recs := Records(read, body).value;
    var kept := Select(recs, b);
    var texts := Texts(kept);
    forall j | 0 <= j < |body| && Keeps(b, ParseRecord(read, body[j]).value)
      ensures body[j] in p.lines[..p.kept]
    {
      assert recs[j] in kept;
      var k :| 0 <= k < |kept| && kept[k] == recs[j];
      assert texts[k] == body[j];
    }
  }

  /** The boundary the script appends: the ring around the kept records. */
  function BoundaryOf(variant: Variant, show: real -> string, kept: seq<Seg>): (r: seq<string>)
    requires |kept| > 0
    ensures |r| == 4
  {
    var ring := BoundaryRing(Extent(variant, kept));
    seq(4, i requires 0 <= i < 4 => FormatSeg(show, ring[i]))
  }

  /** The writer and reader agree on the four padded bounds of the ring. */
  predicate RingFaithful(show: real -> string, read: string -> Option<real>, e: Bounds)
    requires e.minx.Some? && e.miny.Some? && e.maxx.Some? && e.maxy.Some?
  {
    Faithful(show, read, e.minx.value - 10.0) && Faithful(show, read, e.miny.value - 10.0) &&
    Faithful(show, read, e.maxx.value + 10.0) && Faithful(show, read, e.maxy.value + 10.0)
  }

  /** Each boundary line reads back, as a record, as the ring side it was
      written from. */
  lemma BoundaryReadsBack(variant: Variant, show: real -> string, read: string -> Option<real>, kept: seq<Seg>)
    requires |kept| > 0
    requires RingFaithful(show, read, Extent(variant, kept))
    ensures var ring := BoundaryRing(Extent(variant, kept));
      forall i :: 0 <= i < 4 ==> ParseRecord(read, BoundaryOf(variant, show, kept)[i]) == Ok(ring[i])
  {
    var ring := BoundaryRing(Extent(variant, kept));
    forall i | 0 <= i < 4
      ensures ParseRecord(read, BoundaryOf(variant, show, kept)[i]) == Ok(ring[i])
    {
      SegRoundTrip(show, read, ring[i]);
    }
  }

  /** The lines after the records are the boundary ring around the kept
      records, and there are none when nothing is kept. */
  lemma PreparedBoundary(variant: Variant, show: real -> string, read: string -> Option<real>,
                         lines: seq<string>, b: BBox, hasHeader: bool)
    requires PrepareInFile(variant, show, read, lines, b, hasHeader).Ok?
    ensures var p := PrepareInFile(variant, show, read, lines, b, hasHeader).value;
      var recs := Records(read, Body(lines, hasHeader));
      recs.Ok? && p.kept == |Select(recs.value, b)| &&
      (p.kept == 0 ==> p.lines == []) &&
      (p.kept > 0 ==> p.lines[p.kept..] == BoundaryOf(variant, show, Segs(Select(recs.value, b))))
  {
    var recs := Records(read, Body(lines, hasHeader)).value;
    var kept := Select(recs, b);
    var texts := Texts(kept);
    if |kept| > 0 {
      assert (texts + BoundaryOf(variant, show, Segs(kept)))[|kept|..] == BoundaryOf(variant, show, Segs(kept));
    }
  }

  /** Corrected, the four lines after the records read back as a ring whose
      x- and y-ranges strictly enclose both end points of every record line
      of the prepared file. */
  lemma PreparedFileEncloses(show: real -> string, read: string -> Option<real>,
                             lines: seq<string>, b: BBox, hasHeader: bool, k: nat)
    requires PrepareInFile(Corrected, show, read, lines, b, hasHeader).Ok?
    requires k < PrepareInFile(Corrected, show, read, lines, b, hasHeader).value.kept
    requires Records(read, Body(lines, hasHeader)).Ok?
    requires RingFaithful(show, read, Extent(Corrected, Segs(Select(Records(read, Body(lines, hasHeader)).value, b))))
    ensures var p := PrepareInFile(Corrected, show, read, lines, b, hasHeader).value;
      var s := ParseRecord(read, p.lines[k]);
      var lo := ParseRecord(read, p.lines[p.kept]);
      var hi := ParseRecord(read, p.lines[p.kept + 1]);
      var top := ParseRecord(read, p.lines[p.kept + 2]);
      s.Ok? && lo.Ok? && hi.Ok? && top.Ok? &&
      lo.value.x1 < Min(s.value.x1, s.value.x2) && Max(s.value.x1, s.value.x2) < hi.value.x1 &&
      lo.value.y1 < Min(s.value.y1, s.value.y2) && Max(s.value.y1, s.value.y2) < top.value.y1
  {
    var p := PrepareInFile(Corrected, show, read, lines, b, hasHeader).value;
    var kept := Select(Records(read, Body(lines, hasHeader)).value, b);
    PreparedRecords(Corrected, show, read, lines, b, hasHeader);
    PrepareKeeps(Corrected, show, read, lines, b, hasHeader);
    PreparedBoundary(Corrected, show, read, lines, b, hasHeader);
    BoundaryReadsBack(Corrected, show, read, Segs(kept));
    CorrectedRingEncloses(Segs(kept), k);
    var ring := BoundaryRing(Extent(Corrected, Segs(kept)));
    assert p.lines[p.kept] == p.lines[p.kept..][0];
    assert p.lines[p.kept + 1] == p.lines[p.kept..][1];
    assert p.lines[p.kept + 2] == p.lines[p.kept..][2];
    assert p.lines[k] == p.lines[..p.kept][k] == kept[k].0;
    RecordLineParses(read, lines, b, hasHeader, k);
  }

  /** A selected record's text parses back as its segment. */
  lemma RecordLineParses(read: string -> Option<real>, lines: seq<string>, b: BBox, hasHeader: bool, k: nat)
    requires Records(read, Body(lines, hasHeader)).Ok?
    requires k < |Select(Records(read, Body(lines, hasHeader)).value, b)|
    ensures var kept := Select(Records(read, Body(lines, hasHeader)).value, b);
      ParseRecord(read, kept[k].0) == Ok(kept[k].1)
  {
    var recs := Records(read, Body(lines, hasHeader)).value;
    var kept := Select(recs, b);
    SubseqMembers(kept, recs);
    assert kept[k] in recs;
    var j :| 0 <= j < |recs| && recs[j] == kept[k];
  }

  /** `num_lines_in_file`: the enumerate index of the last line plus one, so
      an empty file also counts as 1. */
  function NumLinesInFile(lines: seq<string>): (n: nat)
    ensures n >= 1 && n >= |lines| && (|lines| > 0 ==> n == |lines|)
  {
    if |lines| == 0 then 1 else |lines|
  }

  /** The `num_segments` the loop compares with 1.  As written it is the line
      count of the prepared file, boundary records included; corrected, it is
      the number of kept records. */
  function NumSegments(variant: Variant, p: Prepared): (n: nat)
    requires |p.lines| == p.kept + (if p.kept > 0 then 4 else 0)
    ensures variant == AsWritten ==> (n > 1 <==> p.kept >= 1)
    ensures variant == Corrected ==> (n > 1 <==> p.kept >= 2)
  {
    match variant
    case AsWritten => NumLinesInFile(p.lines)
    case Corrected => p.kept
  }

  // ---------------------------------------------------------------------------
  // the main loop

  /** Everything the loop reads but never changes. */
  datatype Env = Env(
    show: real -> string,
    read: string -> Option<real>,
    tool: seq<string> -> bool,   // run_voronoi on the prepared file
    input: seq<string>,          // the lines of the -i file
    division: int)

  datatype State = State(stack: seq<SampleArea>, failures: seq<Failure>, nextId: nat)

  datatype Outcome = Finished(failures: seq<Failure>) | Crashed(error: Exception) | OutOfFuel(state: State)

  /** The start state: one area with id 1 whose header flag is the negation of
      `--in-file-excludes-bbox-header`. */
  function Init(bbox: BBox, excludesHeader: bool): (s: State)
    ensures |s.stack| == 1 && s.stack[0].id == 1 && s.stack[0].hasHeader == !excludesHeader
    ensures s.failures == [] && s.nextId == 2
  {
    State([SampleArea(1, bbox, !excludesHeader)], [], 2)
  }

  /** One iteration: pop the newest area, prepare its file, run the tool;
      record a failure, and push its children when its count exceeds 1. */
  function Step(variant: Variant, env: Env, st: State): (r: Result<State>)
    requires |st.stack| > 0
    ensures r.Ok? ==> |st.stack| - 1 <= |r.value.stack| && r.value.stack[..|st.stack| - 1] == st.stack[..|st.stack| - 1]
    ensures r.Ok? ==> st.failures <= r.value.failures && |r.value.failures| <= |st.failures| + 1
    ensures r.Ok? ==> st.nextId <= r.value.nextId
    ensures r.Err? ==>
      var a := st.stack[|st.stack| - 1];
      PrepareInFile(variant, env.show, env.read, env.input, a.bbox, a.hasHeader).Err? || env.division < 1
  {
    var n := |st.stack|;
    var a := st.stack[n - 1];
    var p :- PrepareInFile(variant, env.show, env.read, env.input, a.bbox, a.hasHeader);
    var count := NumSegments(variant, p);
    if env.tool(p.lines) then
      Ok(State(st.stack[..n - 1], st.failures, st.nextId))
    else if count > 1 then
      var sub :- Subdivide(a, env.division, st.nextId);
      Ok(State(st.stack[..n - 1] + sub.0, st.failures + [Failure(a, count)], sub.1))
    else
      Ok(State(st.stack[..n - 1], st.failures + [Failure(a, count)], st.nextId))
  }

  /** The `while len(queue)` loop, bounded by `fuel` iterations. */
  function Run(variant: Variant, env: Env, st: State, fuel: nat): (r: Outcome)
    ensures r.Finished? ==> st.failures <= r.failures
    ensures r.OutOfFuel? ==> st.failures <= r.state.failures && st.nextId <= r.state.nextId && |r.state.stack| > 0
    ensures r.Crashed? ==> |st.stack| > 0 && fuel > 0
    ensures |st.stack| == 0 ==> r == Finished(st.failures)
    decreases fuel
  {
    if |st.stack| == 0 then Finished(st.failures)
    else if fuel == 0 then OutOfFuel(st)
    else match Step(variant, env, st)
      case Err(e) => Crashed(e)
      case Ok(next) => Run(variant, env, next, fuel - 1)
  }

  /** The loop is LIFO and keeps every failure: the area processed is the
      last one pushed; it leaves the stack, is appended to the failures
      exactly when the tool fails, and only its children are pushed. */
  lemma StepIsLifo(variant: Variant, env: Env, st: State)
    requires |st.stack| > 0
    requires Step(variant, env, st).Ok?
    ensures var a := st.stack[|st.stack| - 1];
      var p := PrepareInFile(variant, env.show, env.read, env.input, a.bbox, a.hasHeader).value;
      var next := Step(variant, env, st).value;
      next.stack[..|st.stack| - 1] == st.stack[..|st.stack| - 1] &&
      (env.tool(p.lines) ==> next.failures == st.failures && |next.stack| == |st.stack| - 1) &&
      (!env.tool(p.lines) ==> next.failures == st.failures + [Failure(a, NumSegments(variant, p))])
  {
  }

  /** The stack after one step: the top area is gone, and the children of
      a failing area that counts more than one segment are pushed. */
  lemma StepStack(variant: Variant, env: Env, st: State)
    requires |st.stack| > 0
    requires var a := st.stack[|st.stack| - 1];
      PrepareInFile(variant, env.show, env.read, env.input, a.bbox, a.hasHeader).Ok?
    ensures var a := st.stack[|st.stack| - 1];
      var p := PrepareInFile(variant, env.show, env.read, env.input, a.bbox, a.hasHeader).value;
      var splits := !env.tool(p.lines) && NumSegments(variant, p) > 1;
      (Step(variant, env, st).Ok? <==> !splits || env.division >= 1) &&
      (Step(variant, env, st).Ok? ==>
         Step(variant, env, st).value.stack ==
         st.stack[..|st.stack| - 1] + (if splits then Subdivide(a, env.division, st.nextId).value.0 else []))
  {
  }

  /** Ids stay fresh: every queued or failed area has an id below the counter,
      and the counter never decreases. */
  predicate IdsBelow(st: State) {
    (forall i :: 0 <= i < |st.stack| ==> st.stack[i].id < st.nextId) &&
    (forall i :: 0 <= i < |st.failures| ==> st.failures[i].area.id < st.nextId)
  }

  lemma StepKeepsIdsFresh(variant: Variant, env: Env, st: State)
    requires |st.stack| > 0 && IdsBelow(st)
    requires Step(variant, env, st).Ok?
    ensures IdsBelow(Step(variant, env, st).value)
    ensures Step(variant, env, st).value.nextId >= st.nextId
  {
  }

  // ---------------------------------------------------------------------------
  // Finding: the boundary records keep a single segment subdividing forever

  /** Every area on the stack reads the input without a header, and one of
      them contains the point (x, y). */
  predicate Trapped(st: State, x: real, y: real) {
    TrappedIn(st.stack, x, y)
  }

  predicate TrappedIn(stack: seq<SampleArea>, x: real, y: real) {
    (forall i :: 0 <= i < |stack| ==> !stack[i].hasHeader) &&
    exists i :: 0 <= i < |stack| && InBBox(x, y, stack[i].bbox)
  }

  /** Popping the top area and pushing header-less children keeps the point
      trapped, provided some child holds it whenever the top area did. */
  lemma PopPush(stack: seq<SampleArea>, kids: seq<SampleArea>, x: real, y: real)
    requires |stack| > 0 && TrappedIn(stack, x, y)
    requires forall i :: 0 <= i < |kids| ==> !kids[i].hasHeader
    requires InBBox(x, y, stack[|stack| - 1].bbox) ==> exists i :: 0 <= i < |kids| && InBBox(x, y, kids[i].bbox)
    ensures TrappedIn(stack[..|stack| - 1] + kids, x, y)
  {
    var n := |stack|;
    var next := stack[..n - 1] + kids;
    forall i | 0 <= i < |next|
      ensures !next[i].hasHeader
    {
      if i < n - 1 {
        assert next[i] == stack[i];
      } else {
        assert next[i] == kids[i - (n - 1)];
      }
    }
    var w :| 0 <= w < n && InBBox(x, y, stack[w].bbox);
    if w < n - 1 {
      assert next[w] == stack[w];
    } else {
      var i :| 0 <= i < |kids| && InBBox(x, y, kids[i].bbox);
      assert next[n - 1 + i] == kids[i];
    }
  }

  /** With a one-record input read without header, the prepared file keeps
      the record exactly when the box holds one of its end points. */
  lemma OneRecordPrepared(variant: Variant, env: Env, a: SampleArea, s: Seg)
    requires |env.input| == 1 && ParseRecord(env.read, env.input[0]) == Ok(s) && !a.hasHeader
    ensures PrepareInFile(variant, env.show, env.read, env.input, a.bbox, a.hasHeader).Ok?
    ensures PrepareInFile(variant, env.show, env.read, env.input, a.bbox, a.hasHeader).value.kept
      == (if Keeps(a.bbox, s) then 1 else 0)
  {
    assert Body(env.input, a.hasHeader) == env.input;
    var recs := Records(env.read, env.input);
    assert recs.Ok? && |recs.value| == 1;
    assert recs.value[0] == (env.input[0], s);
    assert recs.value == [(env.input[0], s)];
    var kept := Select(recs.value, a.bbox);
    assert recs.value[1..] == [];
    assert kept == (if Keeps(a.bbox, s) then [(env.input[0], s)] else []);
  }

  lemma {:induction false} TrappedStep(env: Env, st: State, s: Seg)
    requires |env.input| == 1 && ParseRecord(env.read, env.input[0]) == Ok(s)
    requires env.division >= 1
    requires forall text :: !env.tool(text)
    requires Trapped(st, s.x1, s.y1)
    ensures Step(AsWritten, env, st).Ok?
    ensures Trapped(Step(AsWritten, env, st).value, s.x1, s.y1)
  {
    var kids := OneRecordKids(env, st, s);
    PopPush(st.stack, kids, s.x1, s.y1);
  }

  /** With a one-record input and a tool that always fails, a step replaces
      the top area by header-less children, one of which holds the record's
      first end point when the top area does. */
  lemma OneRecordKids(env: Env, st: State, s: Seg) returns (kids: seq<SampleArea>)
    requires |env.input| == 1 && ParseRecord(env.read, env.input[0]) == Ok(s)
    requires env.division >= 1
    requires forall text :: !env.tool(text)
    requires Trapped(st, s.x1, s.y1)
    ensures Step(AsWritten, env, st).Ok?
    ensures Step(AsWritten, env, st).value.stack == st.stack[..|st.stack| - 1] + kids
    ensures forall i :: 0 <= i < |kids| ==> !kids[i].hasHeader
    ensures InBBox(s.x1, s.y1, st.stack[|st.stack| - 1].bbox) ==>
      exists i :: 0 <= i < |kids| && InBBox(s.x1, s.y1, kids[i].bbox)
  {
    var a := st.stack[|st.stack| - 1];
    OneRecordPrepared(AsWritten, env, a, s);
    var p := PrepareInFile(AsWritten, env.show, env.read, env.input, a.bbox, a.hasHeader).value;
    StepStack(AsWritten, env, st);
    kids := [];
    if p.kept > 0 {
      kids := Subdivide(a, env.division, st.nextId).value.0;
      if InBBox(s.x1, s.y1, a.bbox) {
        SubdivideCovers(a, env.division, st.nextId, s.x1, s.y1);
      }
    }
  }

  /** As written, an input of one segment on which the tool always fails never
      finishes: the area holding the segment's first end point always counts
      5 lines (the record and the four boundary records), so it is split
      again, and one of its children holds that point. */
  lemma {:induction false} SingleSegmentNeverFinishes(env: Env, s: Seg, st: State, fuel: nat)
    requires |env.input| == 1 && ParseRecord(env.read, env.input[0]) == Ok(s)
    requires env.division >= 1
    requires forall text :: !env.tool(text)
    requires Trapped(st, s.x1, s.y1)
    ensures Run(AsWritten, env, st, fuel).OutOfFuel?
    decreases fuel
  {
    if fuel > 0 {
      TrappedStep(env, st, s);
      SingleSegmentNeverFinishes(env, s, Step(AsWritten, env, st).value, fuel - 1);
    }
  }

  /** The start state of such a run is trapped when the box holds the point. */
  lemma InitTrapped(bbox: BBox, x: real, y: real)
    requires InBBox(x, y, bbox)
    ensures Trapped(Init(bbox, true), x, y)
  {
    assert InBBox(x, y, Init(bbox, true).stack[0].bbox);
  }

  /** Corrected, an area whose file keeps at most one record is recorded as a
      failure but not split, so the stack shrinks. */
  lemma CorrectedStopsAtOneSegment(env: Env, st: State)
    requires |st.stack| > 0
    requires var a := st.stack[|st.stack| - 1];
      var p := PrepareInFile(Corrected, env.show, env.read, env.input, a.bbox, a.hasHeader);
      p.Ok? && p.value.kept <= 1 && !env.tool(p.value.lines)
    ensures Step(Corrected, env, st).Ok?
    ensures |Step(Corrected, env, st).value.stack| == |st.stack| - 1
    ensures |Step(Corrected, env, st).value.failures| == |st.failures| + 1
  {
  }

  /** Corrected, a failing area whose file keeps two or more records is split
      into `int(sqrt(division))` squared children. */
  lemma CorrectedSplitsMany(env: Env, st: State)
    requires |st.stack| > 0 && env.division >= 1
    requires var a := st.stack[|st.stack| - 1];
      var p := PrepareInFile(Corrected, env.show, env.read, env.input, a.bbox, a.hasHeader);
      p.Ok? && p.value.kept >= 2 && !env.tool(p.value.lines)
    ensures Step(Corrected, env, st).Ok?
    ensures |Step(Corrected, env, st).value.stack| == |st.stack| - 1 + ISqrt(env.division) * ISqrt(env.division)
  {
  }

  // ---------------------------------------------------------------------------
  // Finding: a bound of 0.0 is read as unset

  /** As written, a first kept record with minimum x of 0.0 is forgotten once a
      later record has a larger minimum: the padded left edge (10.0) then lies
      to the right of the end point (0.0, 0.0). */
  lemma ZeroBoundIsForgotten()
    ensures var segs := [Seg(0.0, 0.0, 1.0, 1.0), Seg(20.0, 0.0, 21.0, 1.0)];
      var e := Extent(AsWritten, segs);
      e.minx == Some(20.0) && e.minx.value - 10.0 > segs[0].x1
  {
    var segs := [Seg(0.0, 0.0, 1.0, 1.0), Seg(20.0, 0.0, 21.0, 1.0)];
    assert segs[..1] == [Seg(0.0, 0.0, 1.0, 1.0)];
    assert segs[..1][..0] == [];
  }

  /** Corrected, every end point of every kept record lies strictly inside
      the boundary ring. */
  lemma CorrectedRingEncloses(segs: seq<Seg>, k: nat)
    requires k < |segs|
    ensures var ring := BoundaryRing(Extent(Corrected, segs));
      ring[0].x1 < Min(segs[k].x1, segs[k].x2) && Max(segs[k].x1, segs[k].x2) < ring[1].x1 &&
      ring[0].y1 < Min(segs[k].y1, segs[k].y2) && Max(segs[k].y1, segs[k].y2) < ring[2].y1
  {
    ExtentEncloses(segs);
  }
}
