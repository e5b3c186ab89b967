/** One item of improvement coverage: how many alternatives were tried
    (`countTotal`), how many were valid (`countValid`), and the FIDs of the
    sections involved, each listed once in the order first seen.  A null
    FID (`None` here) bumps the counter but is never listed. */
module Coverage {

  import opened Wrappers
  import Metrics

  datatype CoverageItem = CoverageItem(countTotal: int, countValid: int, fids: seq<string>)

  predicate Distinct(s: seq<string>) {
    forall i, j :: 0 <= i < j < |s| ==> s[i] != s[j]
  }

  /** The constructor: both counters zero and no FIDs. */
  function New(): (r: CoverageItem)
    ensures r.countTotal == 0 && r.countValid == 0 && |r.fids| == 0
  {
    CoverageItem(0, 0, [])
  }

  /** The shared tail of both increments: a non-null FID not yet listed is
      appended. */
  function Note(fids: seq<string>, fid: Option<string>): (r: seq<string>)
    ensures fid.None? ==> r == fids
    ensures |fids| <= |r| <= |fids| + 1 && r[..|fids|] == fids
  {
    if fid.Some? && fid.value !in fids then fids + [fid.value] else fids
  }

  /** Noting a FID lists it, lists nothing else new, and keeps the list
      free of repeats. */
  lemma NoteSpec(fids: seq<string>, fid: Option<string>)
    ensures fid.Some? ==> fid.value in Note(fids, fid)
    ensures forall x :: x in Note(fids, fid) <==> x in fids || fid == Some(x)
    ensures Distinct(fids) ==> Distinct(Note(fids, fid))
  {
  }

  /** `incrementCountTotal(fid)`. */
  function IncrementTotal(c: CoverageItem, fid: Option<string>): (r: CoverageItem)
    ensures r.countTotal == Metrics.WrapInt(c.countTotal + 1)
    ensures r.countValid == c.countValid
    ensures r.fids == Note(c.fids, fid)
  {
    CoverageItem(Metrics.WrapInt(c.countTotal + 1), c.countValid, Note(c.fids, fid))
  }

  /** `incrementCountValid(fid)`. */
  function IncrementValid(c: CoverageItem, fid: Option<string>): (r: CoverageItem)
    ensures r.countValid == Metrics.WrapInt(c.countValid + 1)
    ensures r.countTotal == c.countTotal
    ensures r.fids == Note(c.fids, fid)
  {
    CoverageItem(c.countTotal, Metrics.WrapInt(c.countValid + 1), Note(c.fids, fid))
  }

  /** A call made on an item. */
  datatype Call = Total(fid: Option<string>) | Valid(fid: Option<string>)

  /** The item after a sequence of calls on a new item. */
  function Replay(calls: seq<Call>): CoverageItem
    decreases |calls|
  {
    if |calls| == 0 then New()
    else
      var c := Replay(calls[..|calls| - 1]);
      var call := calls[|calls| - 1];
      if call.Total? then IncrementTotal(c, call.fid) else IncrementValid(c, call.fid)
  }

  /** How many of the calls are of each kind. */
  function CountTotal(calls: seq<Call>): nat {
    if |calls| == 0 then 0 else CountTotal(calls[..|calls| - 1]) + (if calls[|calls| - 1].Total? then 1 else 0)
  }

  function CountValid(calls: seq<Call>): nat {
    if |calls| == 0 then 0 else CountValid(calls[..|calls| - 1]) + (if calls[|calls| - 1].Valid? then 1 else 0)
  }

  /** Some call carried `x` as its FID. */
  predicate Mentioned(calls: seq<Call>, x: string) {
    exists i :: 0 <= i < |calls| && calls[i].fid == Some(x)
  }

  /** Whatever the calls, the counters are the numbers of calls of each
      kind, as Java `int`s (so modulo 2^32). */
  lemma {:induction false} ReplayCounts(calls: seq<Call>)
    ensures Replay(calls).countTotal == Metrics.WrapInt(CountTotal(calls))
    ensures Replay(calls).countValid == Metrics.WrapInt(CountValid(calls))
    decreases |calls|
  {
    if |calls| > 0 {
      var init := calls[..|calls| - 1];
      ReplayCounts(init);
      ReplayLast(calls);
      if calls[|calls| - 1].Total? {
        Metrics.WrapSucc(CountTotal(init));
      } else {
        Metrics.WrapSucc(CountValid(init));
      }
    }
  }

  /** The counters after one more call. */
  lemma ReplayLast(calls: seq<Call>)
    requires |calls| > 0
    ensures var init := calls[..|calls| - 1];
      var c := Replay(init);
      if calls[|calls| - 1].Total? then
        Replay(calls).countTotal == Metrics.WrapInt(c.countTotal + 1) && Replay(calls).countValid == c.countValid &&
        CountTotal(calls) == CountTotal(init) + 1 && CountValid(calls) == CountValid(init)
      else
        Replay(calls).countValid == Metrics.WrapInt(c.countValid + 1) && Replay(calls).countTotal == c.countTotal &&
        CountValid(calls) == CountValid(init) + 1 && CountTotal(calls) == CountTotal(init)
  {
  }

  /** Whatever the calls, the FID list holds each FID named by some call
      exactly once, and nothing else. */
  lemma {:induction false} ReplayFids(calls: seq<Call>)
    ensures Distinct(Replay(calls).fids)
    ensures forall x :: x in Replay(calls).fids <==> Mentioned(calls, x)
    decreases |calls|
  {
    if |calls| > 0 {
      var init := calls[..|calls| - 1];
      var call := calls[|calls| - 1];
      ReplayFids(init);
      NoteSpec(Replay(init).fids, call.fid);
      assert Replay(calls).fids == Note(Replay(init).fids, call.fid);
      forall x
        ensures x in Replay(calls).fids <==> Mentioned(calls, x)
      {
        MentionedSnoc(calls, x);
      }
    }
  }

  lemma MentionedSnoc(calls: seq<Call>, x: string)
    requires |calls| > 0
    ensures Mentioned(calls, x) <==>
      Mentioned(calls[..|calls| - 1], x) || calls[|calls| - 1].fid == Some(x)
  {
    var init := calls[..|calls| - 1];
    if Mentioned(calls, x) {
      var i :| 0 <= i < |calls| && calls[i].fid == Some(x);
      if i < |calls| - 1 {
        assert init[i] == calls[i];
      }
    }
    if Mentioned(init, x) {
      var i :| 0 <= i < |init| && init[i].fid == Some(x);
      assert calls[i] == init[i];
    }
  }

  /** `java.util.List.toString`: "[" the elements joined by ", " "]". */
  function JoinComma(parts: seq<string>): string {
    if |parts| == 0 then ""
    else if |parts| == 1 then parts[0]
    else parts[0] + ", " + JoinComma(parts[1..])
  }

  /** `getFidsAsString`. */
  function FidsAsString(c: CoverageItem): (r: string)
    ensures |r| >= 2 && r[0] == '[' && r[|r| - 1] == ']'
  {
    "[" + JoinComma(c.fids) + "]"
  }

  /** Listing one more FID appends ", fid" (or just "fid" to an empty
      list) in front of the closing bracket. */
  lemma {:induction false} JoinCommaSnoc(parts: seq<string>, f: string)
    ensures JoinComma(parts + [f]) == (if |parts| == 0 then f else JoinComma(parts) + ", " + f)
    decreases |parts|
  {
    if |parts| > 1 {
      assert (parts + [f])[1..] == parts[1..] + [f];
      JoinCommaSnoc(parts[1..], f);
    } else if |parts| == 1 {
      assert (parts + [f])[1..] == [f];
    }
  }

  /** How the rendering changes when an increment lists a new FID; the
      rendering does not change when it lists none. */
  lemma FidsAsStringAfterIncrement(c: CoverageItem, fid: Option<string>)
    ensures fid.Some? && fid.value !in c.fids ==>
      var s := FidsAsString(c);
      FidsAsString(IncrementTotal(c, fid)) ==
        s[..|s| - 1] + (if |c.fids| == 0 then "" else ", ") + fid.value + "]"
    ensures !(fid.Some? && fid.value !in c.fids) ==> FidsAsString(IncrementTotal(c, fid)) == FidsAsString(c)
  {
    var after := IncrementTotal(c, fid);
    if fid.Some? && fid.value !in c.fids {
      assert after.fids == c.fids + [fid.value];
      JoinCommaSnoc(c.fids, fid.value);
      var s := FidsAsString(c);
      assert s[..|s| - 1] == "[" + JoinComma(c.fids);
    } else {
      assert after.fids == c.fids;
    }
  }

  /** The rendering's length: the brackets, the FIDs and a ", " between
      neighbours. */
  lemma {:induction false} JoinCommaLength(parts: seq<string>)
    ensures |parts| > 0 ==> |JoinComma(parts)| == SumLengths(parts) + 2 * (|parts| - 1)
    ensures |parts| == 0 ==> JoinComma(parts) == ""
    decreases |parts|
  {
    if |parts| > 1 {
      JoinCommaLength(parts[1..]);
    }
  }

  function SumLengths(parts: seq<string>): nat {
    if |parts| == 0 then 0 else |parts[0]| + SumLengths(parts[1..])
  }
}
