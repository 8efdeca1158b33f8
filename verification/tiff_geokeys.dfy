/**
 * `processGeoKeyEntries`: after the directory is read, each GeoTIFF key
 * entry, in order, sets the IFD field its key names. Short values sit in
 * the entry's `valueOffset`; `Double` values are indexes into
 * `geoDoubleParams`.
 */
module GeoKeys {
  import opened Errors
  import opened Tags
  import opened Entries
  import opened Directory
  import C = Codes

  /** `b` is `a` with at most the fields the key entries set changed. */
  predicate SameImage(a: IFD, b: IFD) {
    a == b.(modelType := a.modelType, rasterType := a.rasterType, angularUnits := a.angularUnits,
            datum := a.datum, ellipsoid := a.ellipsoid, semiMajorAxis := a.semiMajorAxis,
            semiMinorAxis := a.semiMinorAxis, primeMeridianLongitude := a.primeMeridianLongitude,
            toWGS84 := a.toWGS84)
  }

  /**
   * The `toWGS84` loop from index `idx` on: element `idx` is
   * `geoDoubleParams[valueOffset + idx]`, where the sum is a `UInt16`.
   */
  function Wgs84From(params: seq<Double>, vo: nat, idx: nat, count: nat): (res: Result<seq<Double>>)
    requires idx == 0 || (vo + idx <= 0x1_0000 && vo + idx <= |params|)
    ensures res.Ok? <==> idx >= count || (vo + count <= 0x1_0000 && vo + count <= |params|)
    ensures res.Ok? && idx < count ==> res.value == params[vo + idx..vo + count]
    ensures res.Ok? && idx >= count ==> res.value == []
    ensures res.Err? ==> res.error == Trapped(if |params| >= 0x1_0000 || vo >= 0x1_0000 then Overflow else IndexOutOfRange)
    decreases count - idx
  {
    if idx >= count then Ok([])
    else if vo + idx >= 0x1_0000 then Fail(Overflow)
    else if vo + idx >= |params| then Fail(IndexOutOfRange)
    else
      var rest :- Wgs84From(params, vo, idx + 1, count);
      Ok([params[vo + idx]] + rest)
  }

  /**
   * The `toWGS84` case: `count` parameters from `valueOffset` on. The first
   * index the loop cannot use traps: on the `UInt16` sum when the parameter
   * list is at least as long as the sum's range, on the subscript otherwise.
   * (A `valueOffset` read from a file is below 0x10000, so it never
   * overflows on its own.)
   */
  function Wgs84Values(params: seq<Double>, vo: nat, count: nat): (res: Result<seq<Double>>)
    ensures res.Ok? <==> count == 0 || (vo + count <= 0x1_0000 && vo + count <= |params|)
    ensures res.Ok? ==> |res.value| == count
    ensures res.Ok? ==> forall i :: 0 <= i < count ==> res.value[i] == params[vo + i]
    ensures res.Err? ==> res.error == Trapped(if |params| >= 0x1_0000 || vo >= 0x1_0000 then Overflow else IndexOutOfRange)
  {
    Wgs84From(params, vo, 0, count)
  }

  /** `geoDoubleParams[Int(valueOffset)]`. */
  function ParamAt(params: seq<Double>, vo: nat): (res: Result<Double>)
    ensures res.Ok? <==> vo < |params|
    ensures res.Ok? ==> res.value == params[vo]
    ensures res.Err? ==> res.error == Trapped(IndexOutOfRange)
  {
    if vo < |params| then Ok(params[vo]) else Fail(IndexOutOfRange)
  }

  /** One case of the `switch (gk.key)`. */
  function ApplyGeoKey(ifd: IFD, gk: GeoKeyEntry): (res: Result<IFD>)
    ensures res.Ok? <==> KeyAccepted(ifd.geoDoubleParams, gk)
    ensures res.Ok? ==> SameImage(ifd, res.value)
    ensures gk.key == ModelType ==> (res.Ok? <==> C.ModelTypeFrom(gk.valueOffset).Ok?)
    ensures gk.key == ModelType && res.Ok? ==> res.value == ifd.(modelType := Some(C.ModelTypeFrom(gk.valueOffset).value))
    ensures gk.key == ModelType && res.Err? ==> res.error == InvalidModelType
    ensures gk.key == RasterType ==> (res.Ok? <==> C.RasterTypeFrom(gk.valueOffset).Ok?)
    ensures gk.key == RasterType && res.Ok? ==> res.value == ifd.(rasterType := Some(C.RasterTypeFrom(gk.valueOffset).value))
    ensures gk.key == RasterType && res.Err? ==> res.error == InvalidRasterType
    ensures gk.key == AngularUnits ==> (res.Ok? <==> C.AngularUnitFrom(gk.valueOffset).Ok?)
    ensures gk.key == AngularUnits && res.Ok? ==> res.value == ifd.(angularUnits := C.AngularUnitFrom(gk.valueOffset).value)
    ensures gk.key == GeoDatum ==> res == Ok(ifd.(datum := C.DatumFrom(gk.valueOffset)))
    ensures gk.key == GeogEllipsoid ==> res == Ok(ifd.(ellipsoid := C.EllipsoidFrom(gk.valueOffset)))
    ensures gk.key == SemiMajorAxis ==>
      (res.Ok? <==> gk.valueOffset < |ifd.geoDoubleParams|)
      && (res.Ok? ==> res.value == ifd.(semiMajorAxis := ifd.geoDoubleParams[gk.valueOffset]))
    ensures gk.key == SemiMinorAxis ==>
      (res.Ok? <==> gk.valueOffset < |ifd.geoDoubleParams|)
      && (res.Ok? ==> res.value == ifd.(semiMinorAxis := ifd.geoDoubleParams[gk.valueOffset]))
    ensures gk.key == GeogPrimeMeridianLong ==>
      (res.Ok? <==> gk.valueOffset < |ifd.geoDoubleParams|)
      && (res.Ok? ==> res.value == ifd.(primeMeridianLongitude := ifd.geoDoubleParams[gk.valueOffset]))
    ensures gk.key == ToWGS84 ==> (res.Ok? <==> Wgs84Values(ifd.geoDoubleParams, gk.valueOffset, gk.count).Ok?)
    ensures gk.key == ToWGS84 && res.Ok? ==>
      |res.value.toWGS84| == gk.count
      && forall i :: 0 <= i < gk.count ==> res.value.toWGS84[i] == ifd.geoDoubleParams[gk.valueOffset + i]
    ensures !HandledKey(gk.key) ==> res == Ok(ifd)
  {
    match gk.key
    case ModelType =>
      var m :- C.ModelTypeFrom(gk.valueOffset);
      Ok(ifd.(modelType := Some(m)))
    case RasterType =>
      var t :- C.RasterTypeFrom(gk.valueOffset);
      Ok(ifd.(rasterType := Some(t)))
    case AngularUnits =>
      var u :- C.AngularUnitFrom(gk.valueOffset);
      Ok(ifd.(angularUnits := u))
    case GeoDatum => Ok(ifd.(datum := C.DatumFrom(gk.valueOffset)))
    case GeogEllipsoid => Ok(ifd.(ellipsoid := C.EllipsoidFrom(gk.valueOffset)))
    case SemiMajorAxis =>
      var d :- ParamAt(ifd.geoDoubleParams, gk.valueOffset);
      Ok(ifd.(semiMajorAxis := d))
    case SemiMinorAxis =>
      var d :- ParamAt(ifd.geoDoubleParams, gk.valueOffset);
      Ok(ifd.(semiMinorAxis := d))
    case GeogPrimeMeridianLong =>
      var d :- ParamAt(ifd.geoDoubleParams, gk.valueOffset);
      Ok(ifd.(primeMeridianLongitude := d))
    case ToWGS84 =>
      var ds :- Wgs84Values(ifd.geoDoubleParams, gk.valueOffset, gk.count);
      Ok(ifd.(toWGS84 := ds))
    case _ => Ok(ifd)
  }

  /** The keys `processGeoKeyEntries` acts on; every other key is skipped. */
  predicate HandledKey(k: GeoKey) {
    k == ModelType || k == RasterType || k == AngularUnits || k == GeoDatum || k == GeogEllipsoid
    || k == SemiMajorAxis || k == SemiMinorAxis || k == GeogPrimeMeridianLong || k == ToWGS84
  }

  /**
   * Whether a key entry is accepted, judged from the entry and the double
   * parameters alone: the condition under which `ApplyGeoKey` succeeds.
   */
  predicate KeyAccepted(params: seq<Double>, gk: GeoKeyEntry) {
    match gk.key
    case ModelType => 1 <= gk.valueOffset <= 3
    case RasterType => 1 <= gk.valueOffset <= 2
    case AngularUnits => 9101 <= gk.valueOffset <= 9108
    case SemiMajorAxis => gk.valueOffset < |params|
    case SemiMinorAxis => gk.valueOffset < |params|
    case GeogPrimeMeridianLong => gk.valueOffset < |params|
    case ToWGS84 => gk.count == 0 || (gk.valueOffset + gk.count <= 0x1_0000 && gk.valueOffset + gk.count <= |params|)
    case _ => true
  }

  /** The `for gk in geoKeyEntries` loop over the given entries, in order. */
  function ProcessKeys(ifd: IFD, keys: seq<GeoKeyEntry>): (res: Result<IFD>)
    ensures res.Ok? ==> SameImage(ifd, res.value)
    decreases |keys|
  {
    if |keys| == 0 then Ok(ifd)
    else
      var next :- ApplyGeoKey(ifd, keys[0]);
      ProcessKeys(next, keys[1..])
  }

  /** `processGeoKeyEntries(ifd:)`. */
  function ProcessGeoKeys(ifd: IFD): (res: Result<IFD>)
    ensures res.Ok? ==> SameImage(ifd, res.value)
    ensures res.Ok? ==> res.value.geoKeyEntries == ifd.geoKeyEntries && res.value.geoDoubleParams == ifd.geoDoubleParams
  {
    ProcessKeys(ifd, ifd.geoKeyEntries)
  }

  /** The loop processes every entry or stops at the first one that is not accepted. */
  lemma {:induction false} ProcessKeysOkIff(ifd: IFD, keys: seq<GeoKeyEntry>)
    ensures ProcessKeys(ifd, keys).Ok? <==> forall i :: 0 <= i < |keys| ==> KeyAccepted(ifd.geoDoubleParams, keys[i])
    decreases |keys|
  {
    if |keys| > 0 {
      var next := ApplyGeoKey(ifd, keys[0]);
      if next.Ok? {
        ProcessKeysOkIff(next.value, keys[1..]);
        assert forall i :: 1 <= i < |keys| ==> keys[i] == keys[1..][i - 1];
      }
    }
  }

  /** Processing a list of entries followed by one more applies that one last. */
  lemma {:induction false} ProcessKeysSnoc(ifd: IFD, keys: seq<GeoKeyEntry>, gk: GeoKeyEntry)
    ensures ProcessKeys(ifd, keys + [gk]) ==
      (var mid := ProcessKeys(ifd, keys); if mid.Ok? then ApplyGeoKey(mid.value, gk) else mid)
    decreases |keys|
  {
    if |keys| == 0 {
      assert keys + [gk] == [gk];
      assert [gk][1..] == [];
    } else {
      assert (keys + [gk])[0] == keys[0];
      assert (keys + [gk])[1..] == keys[1..] + [gk];
      var next := ApplyGeoKey(ifd, keys[0]);
      if next.Ok? {
        ProcessKeysSnoc(next.value, keys[1..], gk);
      }
    }
  }

  /** Skipped keys change nothing, wherever they appear. */
  lemma {:induction false} ProcessSkippedKeys(ifd: IFD, keys: seq<GeoKeyEntry>)
    requires forall i :: 0 <= i < |keys| ==> !HandledKey(keys[i].key)
    ensures ProcessKeys(ifd, keys) == Ok(ifd)
    decreases |keys|
  {
    if |keys| > 0 {
      ProcessSkippedKeys(ifd, keys[1..]);
    }
  }

  /** The last `modelType` key decides the model type; `valueOffset` 2 is geographic. */
  lemma LastModelTypeWins(ifd: IFD, keys: seq<GeoKeyEntry>, tagLoc: Tag, count: nat)
    requires ProcessKeys(ifd, keys).Ok?
    ensures ProcessKeys(ifd, keys + [GeoKeyEntry(ModelType, tagLoc, count, 2)]).Ok?
    ensures ProcessKeys(ifd, keys + [GeoKeyEntry(ModelType, tagLoc, count, 2)]).value.modelType == Some(C.Geographic)
  {
    ProcessKeysSnoc(ifd, keys, GeoKeyEntry(ModelType, tagLoc, count, 2));
  }
}
