/** A proposed change to one catchment section: the original section, its
    modified version (which must keep the original's FID) and the list of
    touching sections that were modified along with it. */
module Modification {

  import opened Wrappers
  import opened Geom

  datatype SectionModification = SectionModification(
    original: Feature,
    modified: Feature,
    touching: seq<Feature>)

  /** The modified version always carries the original's FID. */
  predicate Valid(m: SectionModification) {
    m.modified.fid == m.original.fid
  }

  /** The constructor: nothing modified yet. */
  function New(original: Feature): (r: SectionModification)
    ensures Valid(r) && !IsModified(r)
    ensures r.original == original && |r.touching| == 0
  {
    SectionModification(original, original, [])
  }

  /** `setModifiedSection(f)`: rejects a section with another FID. */
  function SetModifiedSection(m: SectionModification, f: Feature): (r: Result<SectionModification>)
    ensures r.Err? <==> f.fid != m.original.fid
    ensures r.Err? ==> r.error == IllegalArgument
    ensures r.Ok? ==> Valid(r.value) && r.value.modified == f
    ensures r.Ok? ==> r.value.original == m.original && r.value.touching == m.touching
  {
    if f.fid != m.original.fid then Err(IllegalArgument) else Ok(m.(modified := f))
  }

  /** `addModifiedTouchingSection(f)`. */
  function AddModifiedTouchingSection(m: SectionModification, f: Feature): (r: SectionModification)
    ensures |r.touching| == |m.touching| + 1
    ensures r.touching[..|m.touching|] == m.touching && r.touching[|m.touching|] == f
    ensures r.original == m.original && r.modified == m.modified
  {
    m.(touching := m.touching + [f])
  }

  /** `setModifiedTouchingSections(list)`: the list is cleared and then
      refilled from `list` in order. */
  function SetModifiedTouchingSections(m: SectionModification, list: seq<Feature>): (r: SectionModification)
    ensures r.original == m.original && r.modified == m.modified
    ensures r.touching == list
  {
    AddAllTouching(m.(touching := []), list)
  }

  function AddAllTouching(m: SectionModification, list: seq<Feature>): (r: SectionModification)
    ensures r.original == m.original && r.modified == m.modified
    ensures r.touching == m.touching + list
    decreases |list|
  {
    if |list| == 0 then m
    else
      var r := AddAllTouching(AddModifiedTouchingSection(m, list[0]), list[1..]);
      assert m.touching + [list[0]] + list[1..] == m.touching + list;
      r
  }

  /** `isModified()`: the modified version differs from the original. */
  predicate IsModified(m: SectionModification) {
    m.original != m.modified
  }

  /** Setting a section modifies exactly when it differs from the original,
      and setting the original back undoes the modification. */
  lemma SetModifiedSectionIsModified(m: SectionModification, f: Feature)
    requires f.fid == m.original.fid
    ensures SetModifiedSection(m, f).Ok?
    ensures IsModified(SetModifiedSection(m, f).value) <==> f != m.original
    ensures !IsModified(SetModifiedSection(m, m.original).value)
  {
  }
}
