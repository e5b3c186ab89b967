/** The kept and discarded Voronoi edges of a cleaning pass.  Both are
    GeoTools `DefaultFeatureCollection`s, which hold at most one feature per
    feature identifier (FID): adding a feature whose FID is already present
    leaves the collection as it was, and membership and removal go by FID.
    A collection is therefore modelled as a map from FID to feature. */
module KeptAndDiscarded {

  import opened Wrappers
  import opened Geom

  type Collection = map<string, Feature>

  datatype KeptAndDiscarded = KeptAndDiscarded(kept: Collection, discarded: Collection)

  /** Every feature is filed under its own FID. */
  predicate WellKeyed(c: Collection) {
    forall fid :: fid in c ==> c[fid].fid == fid
  }

  predicate Valid(kd: KeptAndDiscarded) {
    WellKeyed(kd.kept) && WellKeyed(kd.discarded)
  }

  /** `DefaultFeatureCollection.add`: the first feature with a FID wins. */
  function Add(c: Collection, f: Feature): (r: Collection)
    ensures r.Keys == c.Keys + {f.fid}
    ensures forall fid :: fid in c ==> r[fid] == c[fid]
    ensures f.fid !in c ==> r[f.fid] == f
    ensures WellKeyed(c) ==> WellKeyed(r)
    ensures |r| == if f.fid in c then |c| else |c| + 1
  {
    if f.fid in c then c else c[f.fid := f]
  }

  /** The FIDs of a feature sequence. */
  function Fids(fs: seq<Feature>): (r: set<string>)
    ensures forall i :: 0 <= i < |fs| ==> fs[i].fid in r
    ensures forall fid :: fid in r ==> exists i :: 0 <= i < |fs| && fs[i].fid == fid
  {
    if |fs| == 0 then {} else {fs[0].fid} + Fids(fs[1..])
  }

  /** `DefaultFeatureCollection.addAll`: adds the features in order. */
  function AddAll(c: Collection, fs: seq<Feature>): (r: Collection)
    ensures r.Keys == c.Keys + Fids(fs)
    decreases |fs|
  {
    if |fs| == 0 then c
    else
      assert Fids(fs) == {fs[0].fid} + Fids(fs[1..]);
      AddAll(Add(c, fs[0]), fs[1..])
  }

  /** Adding never replaces a feature already held, so the collection
      only grows. */
  lemma {:induction false} AddAllKeeps(c: Collection, fs: seq<Feature>)
    ensures forall fid :: fid in c ==> AddAll(c, fs)[fid] == c[fid]
    ensures |AddAll(c, fs)| >= |c|
    decreases |fs|
  {
    if |fs| > 0 {
      AddAllKeeps(Add(c, fs[0]), fs[1..]);
    }
  }

  /** Every feature added comes from the list, filed under its own FID, so
      a well-keyed collection stays well keyed. */
  lemma {:induction false} AddAllFrom(c: Collection, fs: seq<Feature>)
    ensures forall fid :: fid in AddAll(c, fs) && fid !in c ==> AddAll(c, fs)[fid] in fs
    ensures WellKeyed(c) ==> WellKeyed(AddAll(c, fs))
    decreases |fs|
  {
    if |fs| > 0 {
      var c' := Add(c, fs[0]);
      AddAllFrom(c', fs[1..]);
      AddAllKeeps(c', fs[1..]);
      var r := AddAll(c', fs[1..]);
      assert r == AddAll(c, fs);
      forall fid | fid in r && fid !in c
        ensures r[fid] in fs
      {
        if fid in c' {
          assert r[fid] == c'[fid] == fs[0];
        } else {
          assert r[fid] in fs[1..];
        }
      }
    }
  }

  function New(): (r: KeptAndDiscarded)
    ensures Valid(r) && NumKept(r) == 0 && NumDiscarded(r) == 0
  {
    KeptAndDiscarded(map[], map[])
  }

  function NumKept(kd: KeptAndDiscarded): nat {
    |kd.kept|
  }

  function NumDiscarded(kd: KeptAndDiscarded): nat {
    |kd.discarded|
  }

  /** `addKept(f)`: one more kept feature unless its FID is already kept. */
  function AddKept(kd: KeptAndDiscarded, f: Feature): (r: KeptAndDiscarded)
    ensures r.discarded == kd.discarded
    ensures r.kept.Keys == kd.kept.Keys + {f.fid}
    ensures NumKept(r) == if f.fid in kd.kept then NumKept(kd) else NumKept(kd) + 1
    ensures Valid(kd) ==> Valid(r)
  {
    kd.(kept := Add(kd.kept, f))
  }

  /** `addKept(fc)`. */
  function AddKeptAll(kd: KeptAndDiscarded, fs: seq<Feature>): (r: KeptAndDiscarded)
    ensures r.discarded == kd.discarded
    ensures r.kept.Keys == kd.kept.Keys + Fids(fs)
    ensures NumKept(r) >= NumKept(kd)
    ensures Valid(kd) ==> Valid(r)
  {
    AddAllKeeps(kd.kept, fs);
    AddAllFrom(kd.kept, fs);
    kd.(kept := AddAll(kd.kept, fs))
  }

  /** `addDiscarded(f)`. */
  function AddDiscarded(kd: KeptAndDiscarded, f: Feature): (r: KeptAndDiscarded)
    ensures r.kept == kd.kept
    ensures r.discarded.Keys == kd.discarded.Keys + {f.fid}
    ensures NumDiscarded(r) == if f.fid in kd.discarded then NumDiscarded(kd) else NumDiscarded(kd) + 1
    ensures Valid(kd) ==> Valid(r)
  {
    kd.(discarded := Add(kd.discarded, f))
  }

  /** `addDiscarded(fc)`. */
  function AddDiscardedAll(kd: KeptAndDiscarded, fs: seq<Feature>): (r: KeptAndDiscarded)
    ensures r.kept == kd.kept
    ensures r.discarded.Keys == kd.discarded.Keys + Fids(fs)
    ensures NumDiscarded(r) >= NumDiscarded(kd)
    ensures Valid(kd) ==> Valid(r)
  {
    AddAllKeeps(kd.discarded, fs);
    AddAllFrom(kd.discarded, fs);
    kd.(discarded := AddAll(kd.discarded, fs))
  }

  /** `clean()`: the kept features whose FID is not discarded; discarded is
      left alone. */
  function Clean(kd: KeptAndDiscarded): (r: KeptAndDiscarded)
    ensures r.discarded == kd.discarded
    ensures forall fid :: fid in r.kept <==> fid in kd.kept && fid !in kd.discarded
    ensures forall fid :: fid in r.kept ==> r.kept[fid] == kd.kept[fid]
    ensures Valid(kd) ==> Valid(r)
  {
    kd.(kept := kd.kept - kd.discarded.Keys)
  }

  /** After cleaning nothing is both kept and discarded, and cleaning again
      changes nothing. */
  lemma CleanLaws(kd: KeptAndDiscarded)
    ensures Clean(kd).kept.Keys !! Clean(kd).discarded.Keys
    ensures Clean(Clean(kd)) == Clean(kd)
    ensures NumKept(Clean(kd)) <= NumKept(kd)
  {
    assert Clean(kd).kept.Keys <= kd.kept.Keys;
  }

  /** `dispose()`. */
  function Dispose(kd: KeptAndDiscarded): (r: KeptAndDiscarded)
    ensures NumKept(r) == 0 && NumDiscarded(r) == 0
    ensures Valid(r)
  {
    KeptAndDiscarded(map[], map[])
  }

  /** `merge(other)`.  Both collections take in the other's features (own
      features winning on a shared FID); then, as written, every FID the
      other discarded and every FID the other kept is removed from kept, so
      that features kept only by the other are lost and features discarded
      only by this one stay kept.  The corrected version removes from kept
      exactly the FIDs discarded on either side. */
  function Merge(variant: Variant, kd: KeptAndDiscarded, other: KeptAndDiscarded): (r: KeptAndDiscarded)
    ensures r.discarded == other.discarded + kd.discarded
    ensures variant == AsWritten ==>
      forall fid :: fid in r.kept <==> fid in kd.kept && fid !in other.discarded && fid !in other.kept
    ensures variant == Corrected ==>
      forall fid :: fid in r.kept <==> (fid in kd.kept || fid in other.kept) && fid !in kd.discarded && fid !in other.discarded
    ensures forall fid :: fid in r.kept ==> r.kept[fid] == (other.kept + kd.kept)[fid]
    ensures Valid(kd) && Valid(other) ==> Valid(r)
  {
    var kept := other.kept + kd.kept;
    var discarded := other.discarded + kd.discarded;
    if variant == AsWritten then
      KeptAndDiscarded(kept - other.discarded.Keys - other.kept.Keys, discarded)
    else
      KeptAndDiscarded(kept - discarded.Keys, discarded)
  }

  /** Corrected: the two rules merging promises.  A FID discarded on either
      side is discarded in the result, nothing is both kept and discarded,
      and a FID kept on one side and discarded on neither stays kept. */
  lemma MergeRules(kd: KeptAndDiscarded, other: KeptAndDiscarded)
    ensures var r := Merge(Corrected, kd, other);
      kd.discarded.Keys + other.discarded.Keys == r.discarded.Keys &&
      r.kept.Keys !! r.discarded.Keys &&
      forall fid :: (fid in kd.kept || fid in other.kept) && fid !in kd.discarded && fid !in other.discarded ==> fid in r.kept
  {
  }

  /** Corrected: merging then cleaning is cleaning the union, so the slow
      merge agrees with collecting everything and cleaning once. */
  lemma MergeIsCleanOfUnion(kd: KeptAndDiscarded, other: KeptAndDiscarded)
    ensures Merge(Corrected, kd, other) ==
      Clean(KeptAndDiscarded(other.kept + kd.kept, other.discarded + kd.discarded))
  {
  }

  /** As written: a feature kept by the other side and discarded nowhere is
      dropped by the merge. */
  lemma MergeLosesOthersKept(f: Feature)
    ensures var r := Merge(AsWritten, New(), KeptAndDiscarded(map[f.fid := f], map[]));
      f.fid !in r.kept && f.fid !in r.discarded
    ensures var r := Merge(Corrected, New(), KeptAndDiscarded(map[f.fid := f], map[]));
      f.fid in r.kept
  {
  }
}
