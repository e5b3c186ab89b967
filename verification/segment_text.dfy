/** The line-oriented segment format shared by the Voronoi tool's input
    files and the bounding-box search: `s x1 y1  x2 y2` (two spaces between
    the end points), one segment per line.  Readers split a line on single
    spaces and take tokens 1, 2, 4 and 5.  Number rendering and number
    parsing are language library routines and stay parameters (`show`,
    `read`); lines are modelled without their terminator. */
module SegmentText {

  import opened Wrappers
  import opened Geom

  /** Python `str.split(sep)` with an explicit one-character separator:
      every occurrence splits and empty pieces are kept. */
  function Split(s: string, sep: char): (r: seq<string>)
    ensures |r| >= 1
    ensures forall i :: 0 <= i < |r| ==> sep !in r[i]
    decreases |s|
  {
    if |s| == 0 then [""]
    else
      var rest := Split(s[1..], sep);
      if s[0] == sep then [""] + rest
      else [[s[0]] + rest[0]] + rest[1..]
  }

  /** `sep.join(parts)`. */
  function Join(parts: seq<string>, sep: char): string
    requires |parts| >= 1
    decreases |parts|
  {
    if |parts| == 1 then parts[0] else parts[0] + [sep] + Join(parts[1..], sep)
  }

  lemma {:induction false} SplitPrepend(w: string, sep: char, s: string)
    requires sep !in w
    ensures Split(w + s, sep) == [w + Split(s, sep)[0]] + Split(s, sep)[1..]
    decreases |w|
  {
    if |w| > 0 {
      assert (w + s)[1..] == w[1..] + s;
      SplitPrepend(w[1..], sep, s);
      assert [w[0]] + (w[1..] + Split(s, sep)[0]) == w + Split(s, sep)[0];
    } else {
      var r := Split(s, sep);
      assert w + s == s;
      assert w + r[0] == r[0];
      assert r == [r[0]] + r[1..];
    }
  }

  /** Splitting a join recovers the parts when no part holds the separator. */
  lemma {:induction false} SplitJoin(parts: seq<string>, sep: char)
    requires |parts| >= 1
    requires forall i :: 0 <= i < |parts| ==> sep !in parts[i]
    ensures Split(Join(parts, sep), sep) == parts
    decreases |parts|
  {
    if |parts| == 1 {
      SplitPrepend(parts[0], sep, "");
      assert parts[0] + "" == parts[0];
    } else {
      var tail := Join(parts[1..], sep);
      SplitJoin(parts[1..], sep);
      assert Join(parts, sep) == parts[0] + ([sep] + tail);
      SplitPrepend(parts[0], sep, [sep] + tail);
      assert ([sep] + tail)[1..] == tail;
      assert Split([sep] + tail, sep) == [""] + parts[1..];
      assert parts[0] + "" == parts[0];
      assert parts == [parts[0]] + parts[1..];
    }
  }

  /** Joining a split gives the original text back. */
  lemma {:induction false} JoinSplit(s: string, sep: char)
    ensures Join(Split(s, sep), sep) == s
    decreases |s|
  {
    if |s| > 0 {
      JoinSplit(s[1..], sep);
      var rest := Split(s[1..], sep);
      if s[0] == sep {
        assert Split(s, sep)[1..] == rest;
        assert s == [sep] + s[1..];
      } else {
        var r := Split(s, sep);
        assert r[0] == [s[0]] + rest[0];
        if |rest| == 1 {
          assert s == [s[0]] + rest[0];
        } else {
          assert r[1..] == rest[1..];
          assert Join(rest, sep) == rest[0] + [sep] + Join(rest[1..], sep);
          assert s == [s[0]] + s[1..];
        }
      }
    }
  }

  /** Java `String.split` with a one-character literal pattern: Python's split
      followed by removal of trailing empty pieces; an empty input gives [""]. */
  function JavaSplit(s: string, sep: char): (r: seq<string>)
    ensures s != "" ==> forall i :: 0 <= i < |r| ==> sep !in r[i]
    ensures |r| <= |Split(s, sep)|
    ensures r <= Split(s, sep)
  {
    if s == "" then [""] else DropTrailingEmpty(Split(s, sep))
  }

  function DropTrailingEmpty(p: seq<string>): (r: seq<string>)
    ensures r <= p
    ensures |r| > 0 ==> r[|r| - 1] != ""
    ensures forall i :: |r| <= i < |p| ==> p[i] == ""
  {
    if |p| == 0 || p[|p| - 1] != "" then p else DropTrailingEmpty(p[..|p| - 1])
  }

  /** A rendered token fits the format: non-empty and free of spaces. */
  predicate IsToken(t: string) {
    t != "" && ' ' !in t
  }

  /** The line `s a b  c d`. */
  function SegmentLine(a: string, b: string, c: string, d: string): string {
    "s " + a + " " + b + "  " + c + " " + d
  }

  lemma SegmentLineAsJoin(a: string, b: string, c: string, d: string)
    ensures SegmentLine(a, b, c, d) == Join(["s", a, b, "", c, d], ' ')
  {
    var p := ["s", a, b, "", c, d];
    assert Join(p[5..], ' ') == d;
    assert Join(p[4..], ' ') == c + " " + d;
    assert Join(p[3..], ' ') == "" + " " + (c + " " + d);
    assert Join(p[2..], ' ') == b + " " + ("" + " " + (c + " " + d));
    assert Join(p[1..], ' ') == a + " " + (b + " " + ("" + " " + (c + " " + d)));
  }

  /** Tokens 1, 2, 4 and 5 of a single-space (Python) split, or None when the
      line has fewer than six pieces. */
  function Fields(line: string): (r: Option<seq<string>>)
    ensures r.Some? <==> |Split(line, ' ')| >= 6
    ensures r.Some? ==> |r.value| == 4
  {
    var p := Split(line, ' ');
    if |p| < 6 then None else Some([p[1], p[2], p[4], p[5]])
  }

  /** The same selection over Java's split, which drops trailing empties. */
  function JavaFields(line: string): (r: Option<seq<string>>)
    ensures r.Some? ==> |r.value| == 4
  {
    var p := JavaSplit(line, ' ');
    if |p| < 6 then None else Some([p[1], p[2], p[4], p[5]])
  }

  /** Reading a written line returns the four written tokens, for both the
      Python and the Java reader. */
  lemma FieldsOfSegmentLine(a: string, b: string, c: string, d: string)
    requires IsToken(a) && IsToken(b) && IsToken(c) && IsToken(d)
    ensures Fields(SegmentLine(a, b, c, d)) == Some([a, b, c, d])
    ensures JavaFields(SegmentLine(a, b, c, d)) == Some([a, b, c, d])
  {
    var parts := ["s", a, b, "", c, d];
    SegmentLineAsJoin(a, b, c, d);
    SplitJoin(parts, ' ');
    assert Split(SegmentLine(a, b, c, d), ' ') == parts;
    assert DropTrailingEmpty(parts) == parts;
  }

  /** A segment between two planar points. */
  datatype Seg = Seg(x1: real, y1: real, x2: real, y2: real)

  /** The line written for a segment. */
  function FormatSeg(show: real -> string, s: Seg): string {
    SegmentLine(show(s.x1), show(s.y1), show(s.x2), show(s.y2))
  }

  /** Parses the four numeric fields with `read`; None stands for the
      exception the readers raise on a short line or a malformed number. */
  function ParseSeg(read: string -> Option<real>, fields: Option<seq<string>>): (r: Option<Seg>)
    requires fields.Some? ==> |fields.value| == 4
    ensures r.Some? <==> fields.Some? && forall i :: 0 <= i < 4 ==> read(fields.value[i]).Some?
  {
    if fields.None? then None
    else
      var f := fields.value;
      if read(f[0]).None? || read(f[1]).None? || read(f[2]).None? || read(f[3]).None? then None
      else Some(Seg(read(f[0]).value, read(f[1]).value, read(f[2]).value, read(f[3]).value))
  }

  /** The piece indices of the four numeric fields, in the order the readers
      parse them: `pieces[1]`, `pieces[2]`, `pieces[4]`, `pieces[5]`. */
  const FieldIndex: seq<nat> := [1, 2, 4, 5]

  /** Field j is present among the pieces and reads as a number. */
  predicate FieldReads(read: string -> Option<real>, pieces: seq<string>, j: nat)
    requires j < 4
  {
    FieldIndex[j] < |pieces| && read(pieces[FieldIndex[j]]).Some?
  }

  /** Field i is the first of the fields from j on that fails, and `e` is how
      it fails: an index error when the piece is missing, `bad` when it is
      present but not a number. */
  predicate FirstFailure(read: string -> Option<real>, bad: Exception, pieces: seq<string>, j: nat, i: nat, e: Exception)
    requires j <= i < 4
  {
    (forall h :: j <= h < i ==> FieldReads(read, pieces, h))
    && !FieldReads(read, pieces, i)
    && e == (if FieldIndex[i] >= |pieces| then IndexOutOfBounds else bad)
  }

  /** Reads fields j to 3 one after the other, each by indexing the pieces
      and then parsing, so the first field that fails decides the error. */
  function ReadFields(read: string -> Option<real>, bad: Exception, pieces: seq<string>, j: nat): (r: Result<seq<real>>)
    requires j <= 4
    ensures r.Ok? <==> forall i :: j <= i < 4 ==> FieldReads(read, pieces, i)
    ensures r.Ok? ==> |r.value| == 4 - j
    ensures r.Ok? ==> forall i :: j <= i < 4 ==> FieldReads(read, pieces, i) && r.value[i - j] == read(pieces[FieldIndex[i]]).value
    ensures r.Err? ==> exists i :: j <= i < 4 && FirstFailure(read, bad, pieces, j, i, r.error)
    decreases 4 - j
  {
    if j == 4 then Ok([])
    else if FieldIndex[j] >= |pieces| then
      assert FirstFailure(read, bad, pieces, j, j, IndexOutOfBounds);
      Err(IndexOutOfBounds)
    else match read(pieces[FieldIndex[j]])
      case None =>
        assert FirstFailure(read, bad, pieces, j, j, bad);
        Err(bad)
      case Some(v) =>
        var rest := ReadFields(read, bad, pieces, j + 1);
        if rest.Err? then
          var i :| j + 1 <= i < 4 && FirstFailure(read, bad, pieces, j + 1, i, rest.error);
          assert FirstFailure(read, bad, pieces, j, i, rest.error);
          Err(rest.error)
        else Ok([v] + rest.value)
  }

  /** `float(pieces[1])`, `float(pieces[2])`, `float(pieces[4])`,
      `float(pieces[5])` in this order: the segment when all four read, else
      the failure of the first field that does not. */
  function ReadSeg(read: string -> Option<real>, bad: Exception, pieces: seq<string>): (r: Result<Seg>)
    ensures r.Ok? <==> |pieces| >= 6 && forall i :: 0 <= i < 4 ==> read(pieces[FieldIndex[i]]).Some?
    ensures r.Ok? ==> r.value == Seg(read(pieces[1]).value, read(pieces[2]).value, read(pieces[4]).value, read(pieces[5]).value)
    ensures r.Err? ==> exists i :: 0 <= i < 4 && FirstFailure(read, bad, pieces, 0, i, r.error)
  {
    var vs :- ReadFields(read, bad, pieces, 0);
    assert FieldReads(read, pieces, 3);
    Ok(Seg(vs[0], vs[1], vs[2], vs[3]))
  }

  /** The Python reader: fields are read off the single-space split. */
  lemma ReadSegPython(read: string -> Option<real>, bad: Exception, line: string)
    ensures ReadSeg(read, bad, Split(line, ' ')).Ok? <==> ParseSeg(read, Fields(line)).Some?
    ensures ReadSeg(read, bad, Split(line, ' ')).Ok? ==>
      ParseSeg(read, Fields(line)) == Some(ReadSeg(read, bad, Split(line, ' ')).value)
  {
    var p := Split(line, ' ');
    if |p| >= 6 {
      assert forall i :: 0 <= i < 4 ==> p[FieldIndex[i]] == [p[1], p[2], p[4], p[5]][i];
    }
  }

  /** The Java reader: fields are read off Java's split. */
  lemma ReadSegJava(read: string -> Option<real>, bad: Exception, line: string)
    ensures ReadSeg(read, bad, JavaSplit(line, ' ')).Ok? <==> ParseSeg(read, JavaFields(line)).Some?
    ensures ReadSeg(read, bad, JavaSplit(line, ' ')).Ok? ==>
      ParseSeg(read, JavaFields(line)) == Some(ReadSeg(read, bad, JavaSplit(line, ' ')).value)
  {
    var p := JavaSplit(line, ' ');
    if |p| >= 6 {
      assert forall i :: 0 <= i < 4 ==> p[FieldIndex[i]] == [p[1], p[2], p[4], p[5]][i];
    }
  }

  /** The number codec is faithful on `v`: the rendering is a token and reads back. */
  predicate Faithful(show: real -> string, read: string -> Option<real>, v: real) {
    IsToken(show(v)) && read(show(v)) == Some(v)
  }

  /** Writing a segment and reading it back (Python or Java reader) gives the
      segment, whenever the number codec is faithful on its four values. */
  lemma {:induction false} SegRoundTrip(show: real -> string, read: string -> Option<real>, s: Seg)
    requires Faithful(show, read, s.x1) && Faithful(show, read, s.y1)
    requires Faithful(show, read, s.x2) && Faithful(show, read, s.y2)
    ensures ParseSeg(read, Fields(FormatSeg(show, s))) == Some(s)
    ensures ParseSeg(read, JavaFields(FormatSeg(show, s))) == Some(s)
  {
    FieldsOfSegmentLine(show(s.x1), show(s.y1), show(s.x2), show(s.y2));
  }
}
