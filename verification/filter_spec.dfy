/** The attribute filters of the edge-filtering script (and the identical
    copies of `parseFilterProperty`/`parseFilterValues` in the Voronoi
    preparation and segmentation scripts).  A filter is written
    `attr:val1,val2,...`; a whitelist keeps the features whose attribute
    equals one of the values, a blacklist keeps the others and those where
    the attribute is null.  A feature's attribute values are the parameter
    `attr` (`None` for null), compared as text; whether the schema has the
    attribute is the parameter `hasProperty`. */
module FilterSpec {

  import opened Wrappers
  import opened Geom
  import SegmentText

  /** `String.indexOf(c)`. */
  function IndexOf(s: string, c: char): (r: int)
    ensures -1 <= r < |s|
    ensures r == -1 <==> c !in s
    ensures r >= 0 ==> s[r] == c && c !in s[..r]
    decreases |s|
  {
    if |s| == 0 then -1
    else if s[0] == c then 0
    else
      var k := IndexOf(s[1..], c);
      assert s[1..] == s[..|s|][1..];
      if k == -1 then -1
      else
        assert s[..k + 1] == [s[0]] + s[1..][..k];
        k + 1
  }

  /** `parseFilterProperty(s)`: the text before the first ':'. */
  function ParseFilterProperty(s: string): (r: Result<string>)
    ensures r.Err? <==> ':' !in s
    ensures r.Err? ==> r.error == IllegalArgument
    ensures r.Ok? ==> ':' !in r.value && r.value + ":" <= s
  {
    var a := IndexOf(s, ':');
    if a == -1 then Err(IllegalArgument)
    else
      assert s[..a] + ":" == s[..a + 1];
      Ok(s[..a])
  }

  /** `parseFilterValues(s)`: the text after the first ':', split on ','
      the Java way (trailing empty values dropped). */
  function ParseFilterValues(s: string): (r: Result<seq<string>>)
    ensures r.Err? <==> ':' !in s
    ensures r.Err? ==> r.error == IllegalArgument
    ensures r.Ok? ==> forall i :: 0 <= i < |r.value| ==> ',' !in r.value[i]
  {
    var a := IndexOf(s, ':');
    if a == -1 then Err(IllegalArgument)
    else
      var csv := s[a + 1..];
      var v := SegmentText.JavaSplit(csv, ',');
      assert csv == "" ==> v == [""];
      Ok(v)
  }

  /** The value list of a filter does not end in a dropped empty value. */
  predicate NoTrailingEmpty(csv: string) {
    csv == "" || csv[|csv| - 1] != ','
  }

  /** The last piece of a split is non-empty when the text does not end in
      the separator. */
  lemma {:induction false} LastPieceNonEmpty(s: string, sep: char)
    requires |s| > 0 && s[|s| - 1] != sep
    ensures SegmentText.Split(s, sep)[|SegmentText.Split(s, sep)| - 1] != ""
    decreases |s|
  {
    if |s| > 1 {
      assert s[1..][|s[1..]| - 1] == s[|s| - 1];
      LastPieceNonEmpty(s[1..], sep);
    }
  }

  /** With no trailing empty value, Java's split keeps every piece. */
  lemma JavaSplitKeepsAll(csv: string, sep: char)
    requires csv == "" || csv[|csv| - 1] != sep
    ensures SegmentText.JavaSplit(csv, sep) == SegmentText.Split(csv, sep)
  {
    if csv != "" {
      LastPieceNonEmpty(csv, sep);
    }
  }

  /** Parsing then writing back `property:values` gives the filter text,
      unless its value list ends in an empty value (which the split drops). */
  lemma ParseThenBuild(s: string)
    requires ':' in s && NoTrailingEmpty(s[IndexOf(s, ':') + 1..])
    ensures |ParseFilterValues(s).value| >= 1
    ensures ParseFilterProperty(s).value + ":" + SegmentText.Join(ParseFilterValues(s).value, ',') == s
  {
    var a := IndexOf(s, ':');
    var csv := s[a + 1..];
    assert ParseFilterValues(s) == Ok(SegmentText.JavaSplit(csv, ','));
    JavaSplitKeepsAll(csv, ',');
    SegmentText.JoinSplit(csv, ',');
    assert ParseFilterProperty(s) == Ok(s[..a]);
    Rejoin(s, a);
  }

  /** Cutting at a ':' and putting it back gives the text. */
  lemma Rejoin(s: string, a: nat)
    requires a < |s| && s[a] == ':'
    ensures s[..a] + ":" + s[a + 1..] == s
  {
    assert s == s[..a] + [s[a]] + s[a + 1..];
  }

  /** Writing a property and values and parsing the text gives them back,
      when the property has no ':', no value has a ',', and the list does
      not end in an empty value. */
  lemma BuildThenParse(property: string, values: seq<string>)
    requires ':' !in property && |values| >= 1
    requires forall i :: 0 <= i < |values| ==> ',' !in values[i]
    requires values == [""] || values[|values| - 1] != ""
    ensures ParseFilterProperty(property + ":" + SegmentText.Join(values, ',')) == Ok(property)
    ensures ParseFilterValues(property + ":" + SegmentText.Join(values, ',')) == Ok(values)
  {
    var csv := SegmentText.Join(values, ',');
    var s := property + ":" + csv;
    IndexOfAfter(property, csv);
    assert s[|property| + 1..] == csv;
    assert s[..|property|] == property;
    SegmentText.SplitJoin(values, ',');
    if values != [""] {
      JoinNonEmpty(values);
      assert SegmentText.DropTrailingEmpty(values) == values;
    }
  }

  /** The first ':' of `property:csv` is the one after the property. */
  lemma {:induction false} IndexOfAfter(property: string, csv: string)
    requires ':' !in property
    ensures IndexOf(property + ":" + csv, ':') == |property|
    decreases |property|
  {
    var s := property + ":" + csv;
    if |property| > 0 {
      assert s[0] == property[0];
      assert s[1..] == property[1..] + ":" + csv;
      IndexOfAfter(property[1..], csv);
    }
  }

  /** The only list that joins to the empty text is the single empty value. */
  lemma JoinNonEmpty(values: seq<string>)
    requires |values| >= 1 && values != [""]
    requires values[|values| - 1] != "" || |values| > 1
    ensures SegmentText.Join(values, ',') != ""
  {
    if |values| > 1 {
      assert |SegmentText.Join(values, ',')| >= |values[0]| + 1;
    }
  }

  /** A filter given on the command line. */
  datatype Spec = Whitelist(text: string) | Blacklist(text: string) | NoFilter

  /** The option check: giving both a whitelist and a blacklist ends the
      program (`None`); otherwise the one given, or none. */
  function Options(whitelist: Option<string>, blacklist: Option<string>): (r: Option<Spec>)
    ensures r.None? <==> whitelist.Some? && blacklist.Some?
    ensures r.Some? && whitelist.Some? ==> r.value == Whitelist(whitelist.value)
    ensures r.Some? && blacklist.Some? ==> r.value == Blacklist(blacklist.value)
    ensures r == Some(NoFilter) <==> whitelist.None? && blacklist.None?
  {
    if whitelist.Some? && blacklist.Some? then None
    else if whitelist.Some? then Some(Whitelist(whitelist.value))
    else if blacklist.Some? then Some(Blacklist(blacklist.value))
    else Some(NoFilter)
  }

  /** The attribute of `f` equals one of the values (null equals none). */
  predicate Listed(f: Feature, property: string, values: seq<string>, attr: (Feature, string) -> Option<string>) {
    attr(f, property).Some? && attr(f, property).value in values
  }

  /** The features a whitelist (`keepListed`) or blacklist keeps, in
      order. */
  function Select(fs: seq<Feature>, keepListed: bool, property: string, values: seq<string>,
                  attr: (Feature, string) -> Option<string>): (r: seq<Feature>)
    ensures |r| <= |fs|
    ensures forall f :: f in r <==> f in fs && (Listed(f, property, values, attr) == keepListed)
    decreases |fs|
  {
    if |fs| == 0 then []
    else
      var rest := Select(fs[1..], keepListed, property, values, attr);
      assert forall f :: f in fs <==> f == fs[0] || f in fs[1..];
      if Listed(fs[0], property, values, attr) == keepListed then [fs[0]] + rest else rest
  }

  /** `filterFeatures(source, whitelist, blacklist)`: a filter on an
      attribute the schema lacks keeps everything; a filter text without
      ':' throws. */
  function FilterFeatures(fs: seq<Feature>, spec: Spec, hasProperty: string -> bool,
                          attr: (Feature, string) -> Option<string>): (r: Result<seq<Feature>>)
    ensures spec.NoFilter? ==> r == Ok(fs)
    ensures !spec.NoFilter? ==> (r.Err? <==> ':' !in spec.text)
    ensures r.Err? ==> r.error == IllegalArgument
    ensures !spec.NoFilter? && r.Ok? && !hasProperty(ParseFilterProperty(spec.text).value) ==> r.value == fs
  {
    if spec.NoFilter? then Ok(fs)
    else
      var property := ParseFilterProperty(spec.text);
      if property.Err? then Err(property.error)
      else if !hasProperty(property.value) then Ok(fs)
      else
        var values := ParseFilterValues(spec.text).value;
        Ok(Select(fs, spec.Whitelist?, property.value, values, attr))
  }

  /** A whitelist keeps exactly the features whose attribute is one of the
      listed values; a blacklist with the same text keeps exactly the
      others, null attributes included. */
  lemma FilterMembership(fs: seq<Feature>, text: string, hasProperty: string -> bool,
                         attr: (Feature, string) -> Option<string>, f: Feature)
    requires ':' in text && hasProperty(ParseFilterProperty(text).value)
    ensures var p := ParseFilterProperty(text).value;
            var v := ParseFilterValues(text).value;
            (f in FilterFeatures(fs, Whitelist(text), hasProperty, attr).value <==> f in fs && Listed(f, p, v, attr)) &&
            (f in FilterFeatures(fs, Blacklist(text), hasProperty, attr).value <==> f in fs && !Listed(f, p, v, attr))
  {
  }

  /** The same text as whitelist and as blacklist splits the features
      between the two results: together they hold every feature exactly as
      often as the input does. */
  lemma {:induction false} SelectSplits(fs: seq<Feature>, property: string, values: seq<string>,
                                        attr: (Feature, string) -> Option<string>)
    ensures multiset(Select(fs, true, property, values, attr)) + multiset(Select(fs, false, property, values, attr)) ==
            multiset(fs)
    decreases |fs|
  {
    if |fs| > 0 {
      SelectSplits(fs[1..], property, values, attr);
      assert fs == [fs[0]] + fs[1..];
    }
  }

  lemma WhitelistBlacklistSplit(fs: seq<Feature>, text: string, hasProperty: string -> bool,
                                attr: (Feature, string) -> Option<string>)
    requires ':' in text && hasProperty(ParseFilterProperty(text).value)
    ensures multiset(FilterFeatures(fs, Whitelist(text), hasProperty, attr).value) +
            multiset(FilterFeatures(fs, Blacklist(text), hasProperty, attr).value) == multiset(fs)
  {
    SelectSplits(fs, ParseFilterProperty(text).value, ParseFilterValues(text).value, attr);
  }
}
