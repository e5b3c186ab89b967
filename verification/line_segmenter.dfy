/** Cutting a line string into pieces at chosen coordinates.  The scan
    grows the current piece with every coordinate not already in it (2D
    equality) and closes the piece, once it has two points, at a split
    coordinate or at a coordinate equal to the line's last one; the next
    piece starts with that coordinate. */
module LineSegmenter {

  import opened Wrappers
  import opened Geom
  import SpatialUtils

  /** The pieces closed while scanning `s`, given the open piece `piece`. */
  function Scan(s: seq<Coord>, splits: seq<Coord>, last: Coord, piece: seq<Coord>): (r: seq<seq<Coord>>)
    ensures forall j :: 0 <= j < |r| ==> |r[j]| >= 2
    decreases |s|
  {
    if |s| == 0 then []
    else
      var c := s[0];
      var p := if HasXY(piece, c) then piece else piece + [c];
      if |p| >= 2 && (HasXY(splits, c) || SameXY(c, last)) then [p] + Scan(s[1..], splits, last, [c])
      else Scan(s[1..], splits, last, p)
  }

  /** `segment(line, coordsToSplitOn)`; an empty line has no last coordinate
      and fails. */
  function Segment(line: seq<Coord>, splits: seq<Coord>): (r: Result<seq<seq<Coord>>>)
    ensures r.Err? <==> |line| == 0
    ensures r.Ok? ==> forall j :: 0 <= j < |r.value| ==> |r.value[j]| >= 2
  {
    if |line| == 0 then Err(IndexOutOfBounds) else Ok(Scan(line, splits, Last(line), []))
  }

  /** `segment(line)`: split on every vertex. */
  function SegmentAll(line: seq<Coord>): (r: Result<seq<seq<Coord>>>)
    ensures r.Err? <==> |line| == 0
    ensures r.Ok? ==> forall j :: 0 <= j < |r.value| ==> |r.value[j]| >= 2
  {
    Segment(line, line)
  }

  lemma DistinctCons(p: Coord, s: seq<Coord>)
    requires DistinctXY([p] + s)
    ensures DistinctXY(s)
    ensures |s| > 0 ==> !SameXY(p, s[0])
  {
    forall i, j | 0 <= i < j < |s|
      ensures !SameXY(s[i], s[j])
    {
      assert ([p] + s)[i + 1] == s[i] && ([p] + s)[j + 1] == s[j];
    }
    if |s| > 0 {
      assert ([p] + s)[0] == p && ([p] + s)[1] == s[0];
    }
  }

  lemma {:induction false} ScanAllVertices(p: Coord, s: seq<Coord>, splits: seq<Coord>, last: Coord)
    requires DistinctXY([p] + s)
    requires forall k :: 0 <= k < |s| ==> HasXY(splits, s[k])
    ensures Scan(s, splits, last, [p]) == SpatialUtils.ToSegments([p] + s)
    decreases |s|
  {
    if |s| > 0 {
      var c := s[0];
      DistinctCons(p, s);
      assert !HasXY([p], c);
      assert HasXY(splits, c);
      var rest := s[1..];
      assert [c] + rest == s;
      assert [p] + [c] == [p, c];
      assert Scan(s, splits, last, [p]) == [[p, c]] + Scan(rest, splits, last, [c]);
      ScanAllVertices(c, rest, splits, last);
      assert ([p] + s)[1..] == s;
    }
  }

  /** Splitting on all vertices of a line whose vertices are distinct in 2D
      gives its n-1 consecutive two-point segments. */
  lemma SegmentAllIsSegments(line: seq<Coord>)
    requires |line| > 0 && DistinctXY(line)
    ensures SegmentAll(line) == Ok(SpatialUtils.ToSegments(line))
  {
    var rest := line[1..];
    forall k | 0 <= k < |rest|
      ensures HasXY(line, rest[k])
    {
      assert rest[k] == line[k + 1];
    }
    assert [line[0]] + rest == line;
    assert !HasXY([], line[0]);
    assert [] + [line[0]] == [line[0]];
    assert Scan(line, line, Last(line), []) == Scan(rest, line, Last(line), [line[0]]);
    ScanAllVertices(line[0], rest, line, Last(line));
  }

  /** With distinct vertices every piece is closed at a split coordinate or
      at the last coordinate, and each next piece starts where the previous
      one ended. */
  lemma {:induction false} ScanChains(s: seq<Coord>, splits: seq<Coord>, last: Coord, piece: seq<Coord>)
    requires DistinctXY(piece + s)
    ensures var r := Scan(s, splits, last, piece);
      forall j :: 0 <= j < |r| ==> HasXY(splits, Last(r[j])) || SameXY(Last(r[j]), last)
    ensures var r := Scan(s, splits, last, piece);
      forall j :: 0 < j < |r| ==> r[j][0] == Last(r[j - 1])
    ensures var r := Scan(s, splits, last, piece);
      |r| > 0 && |piece| > 0 ==> r[0][0] == piece[0]
    decreases |s|
  {
    if |s| > 0 {
      var c := s[0];
      var rest := s[1..];
      var p := piece + [c];
      FreshNext(piece, s);
      if |p| >= 2 && (HasXY(splits, c) || SameXY(c, last)) {
        ScanChains(rest, splits, last, [c]);
        assert Scan(s, splits, last, piece) == [p] + Scan(rest, splits, last, [c]);
        assert Last(p) == c;
      } else {
        ScanChains(rest, splits, last, p);
        assert Scan(s, splits, last, piece) == Scan(rest, splits, last, p);
      }
    }
  }

  /** With distinct vertices the next coordinate is new to the open piece,
      and both the grown piece and a piece restarted at it stay distinct
      from the rest. */
  lemma FreshNext(piece: seq<Coord>, s: seq<Coord>)
    requires |s| > 0 && DistinctXY(piece + s)
    ensures !HasXY(piece, s[0])
    ensures DistinctXY(piece + [s[0]] + s[1..])
    ensures DistinctXY([s[0]] + s[1..])
  {
    var c := s[0];
    assert (piece + s)[|piece|] == c;
    forall i | 0 <= i < |piece|
      ensures !SameXY(piece[i], c)
    {
      assert (piece + s)[i] == piece[i];
    }
    assert piece + [c] + s[1..] == piece + s;
    assert [c] + s[1..] == s;
    forall i, j | 0 <= i < j < |s|
      ensures !SameXY(s[i], s[j])
    {
      assert s[i] == (piece + s)[|piece| + i] && s[j] == (piece + s)[|piece| + j];
    }
  }

  /** A feature piece numbered with its identifier. */
  datatype Numbered = Numbered(fid: int, coords: seq<Coord>)

  /** `segment(feature, splits, startFid)`: the pieces get consecutive
      identifiers from `startFid`. */
  function Number(pieces: seq<seq<Coord>>, startFid: int): (r: seq<Numbered>)
    ensures |r| == |pieces|
    ensures forall i :: 0 <= i < |r| ==> r[i] == Numbered(startFid + i, pieces[i])
  {
    if |pieces| == 0 then [] else [Numbered(startFid, pieces[0])] + Number(pieces[1..], startFid + 1)
  }
}
