/**
 * `TIFFImageA.IFD` and the `switch` over a directory entry's tag in
 * `readHeader`: every tag the decoder understands updates its field of the
 * IFD, reading out-of-line values with `at(offset:)`, which leaves the
 * cursor where it was.
 */
module Directory {
  import opened Errors
  import opened Bytes
  import opened SwiftInt
  import opened Tags
  import opened Entries
  import opened Text
  import C = Codes
  import BR = BinaryReader
  import BFR = BinaryFileReader

  type Reader = BR.Reader

  /** A `Double`, kept as its IEEE-754 bit pattern. */
  type Double = BR.FloatBits

  /** The bit patterns of 1.0 and 0.0. */
  const One: Double := BR.DoubleBits(0x3FF0_0000_0000_0000)
  const Zero: Double := BR.DoubleBits(0)

  /** `TIFFImageA.ModelTiePoint`: raster point (i, j, k) and model point (x, y, z). */
  datatype TiePoint = TiePoint(i: Double, j: Double, k: Double, x: Double, y: Double, z: Double)

  /**
   * `TIFFImageA.IFD`, with the fields the decoder writes. Integer fields
   * hold the values of their `UInt16`/`UInt32` Swift types.
   */
  datatype IFD = IFD(
    width: nat,
    height: nat,
    blackIsZero: bool,
    compression: C.CompressionType,
    rowsPerStrip: nat,
    stripByteCounts: seq<int>,
    stripOffsets: seq<int>,
    bitsPerSample: nat,
    samplesPerPixel: nat,
    planarConfiguration: nat,
    predictor: C.Predictor,
    tileWidth: nat,
    tileLength: nat,
    tileOffsets: seq<int>,
    tileByteCounts: seq<int>,
    sampleFormat: C.SampleFormat,
    scaleX: Double,
    scaleY: Double,
    scaleZ: Double,
    modelTiePoints: seq<TiePoint>,
    geoKeyEntries: seq<GeoKeyEntry>,
    geoDoubleParams: seq<Double>,
    geoStrings: seq<string>,
    modelType: Option<C.ModelType>,
    rasterType: Option<C.RasterType>,
    angularUnits: C.AngularUnit,
    datum: C.GeodeticDatum,
    ellipsoid: C.GeogEllipsoid,
    semiMajorAxis: Double,
    semiMinorAxis: Double,
    primeMeridianLongitude: Double,
    toWGS84: seq<Double>,
    gdalNoData: Option<int>)

  /** `IFD()`: every field at its declared default. */
  function EmptyIFD(): IFD {
    IFD(0, 0, true, C.NoCompression, 0, [], [], 0, 0, 0, C.NoPredictor, 0, 0, [], [],
      C.UnknownFormat(0), One, One, One, [], [], [], [], None, None, C.Degree,
      C.UndefinedDatum, C.UndefinedEllipsoid, Zero, Zero, Zero, [], None)
  }

  /**
   * `stripCount` as written: `(height + 1) / rowsPerStrip` in `UInt32`
   * arithmetic, so `height + 1` overflows for the largest height and a
   * zero `rowsPerStrip` divides by zero.
   */
  function StripCountAsWritten(ifd: IFD): (res: Result<int>)
    ensures res.Ok? <==> ifd.height + 1 < 0x1_0000_0000 && ifd.rowsPerStrip > 0
    ensures res.Ok? ==> res.value == (ifd.height + 1) / ifd.rowsPerStrip
  {
    if ifd.height + 1 >= 0x1_0000_0000 then Fail(Overflow)
    else if ifd.rowsPerStrip == 0 then Fail(DivisionByZero)
    else Ok((ifd.height + 1) / ifd.rowsPerStrip)
  }

  /**
   * `stripCount` as intended: the number of strips of `rowsPerStrip` rows
   * that cover `height` rows, the last one possibly partial.
   */
  function StripCount(ifd: IFD): (res: Result<int>)
    ensures res.Ok? <==> ifd.rowsPerStrip > 0
    ensures res.Err? ==> res.error == Trapped(DivisionByZero)
    ensures res.Ok? ==>
      res.value >= 0
      && (res.value - 1) * ifd.rowsPerStrip < ifd.height <= res.value * ifd.rowsPerStrip
  {
    if ifd.rowsPerStrip == 0 then Fail(DivisionByZero)
    else
      var n := (ifd.height + ifd.rowsPerStrip - 1) / ifd.rowsPerStrip;
      CeilingDivision(ifd.height, ifd.rowsPerStrip);
      Ok(n)
  }

  lemma CeilingDivision(h: nat, d: nat)
    requires d > 0
    ensures var n := (h + d - 1) / d; (n - 1) * d < h <= n * d
  {
    var n := (h + d - 1) / d;
    var m := (h + d - 1) % d;
    assert h + d - 1 == n * d + m;
    assert (n - 1) * d == n * d - d;
  }

  /**
   * The two strip counts agree exactly when the remainder of the height is
   * zero with more than one row per strip, or one row short of a full strip.
   */
  lemma StripCountAgreement(ifd: IFD)
    requires ifd.rowsPerStrip > 0 && ifd.height + 1 < 0x1_0000_0000
    ensures
      var m := ifd.height % ifd.rowsPerStrip;
      StripCountAsWritten(ifd) == StripCount(ifd) <==>
        (m == 0 && ifd.rowsPerStrip > 1) || (m > 0 && m == ifd.rowsPerStrip - 1)
  {
    var h, d := ifd.height, ifd.rowsPerStrip;
    var q, m := h / d, h % d;
    assert h == q * d + m;
    if m + 1 < d {
      assert h + 1 == q * d + (m + 1);
      DivOf(q, d, m + 1);
    } else {
      assert h + 1 == (q + 1) * d;
      DivOf(q + 1, d, 0);
    }
    if m == 0 {
      assert h + d - 1 == q * d + (d - 1);
      DivOf(q, d, d - 1);
    } else {
      assert h + d - 1 == (q + 1) * d + (m - 1);
      DivOf(q + 1, d, m - 1);
    }
  }

  lemma DivOf(q: int, d: int, m: int)
    requires d > 0 && 0 <= m < d && q >= 0
    ensures (q * d + m) / d == q
  {
    var x := q * d + m;
    var k := x / d;
    assert x == k * d + x % d;
    if k > q {
      MulMono(q + 1, k, d);
    } else if k < q {
      MulMono(k + 1, q, d);
    }
  }

  lemma MulMono(i: int, j: int, d: nat)
    requires i <= j
    ensures i * d <= j * d
  {
  }

  /** Ten rows in strips of three take four strips; as written the last, partial strip is not counted. */
  lemma StripCountAsWrittenDropsPartialStrip()
    ensures StripCountAsWritten(EmptyIFD().(height := 10, rowsPerStrip := 3)) == Ok(3)
    ensures StripCount(EmptyIFD().(height := 10, rowsPerStrip := 3)) == Ok(4)
  {
  }

  /**
   * `validateInt(count: 1)` followed by `values.first!` and a conversion
   * that traps on values outside `[0, bound)`.
   */
  function SingleValue(e: DirectoryEntry, bound: nat): (res: Result<nat>)
    ensures res.Ok? ==> e.count == 1 && e.values.Some? && e.values.value.IntValues?
    ensures res.Ok? ==> |e.values.value.ints| > 0 && res.value == e.values.value.ints[0] < bound
    ensures !(e.count == 1 && e.values.Some? && e.values.value.IntValues?) ==> res == Err(InvalidTIFFFormat)
  {
    var values :- ValidateInt(e, 1);
    if |values| == 0 then Fail(UnwrappedNil)
    else if 0 <= values[0] < bound then Ok(values[0])
    else Fail(Overflow)
  }

  /** The integer types a single value of which fits in `UInt16`, resp. `UInt32`. */
  predicate FitsUInt16(t: TagType) {
    t == Byte || t == Short
  }

  predicate FitsUInt32(t: TagType) {
    t == Byte || t == Short || t == Long
  }

  /**
   * On entries `readDirectoryEntry` produced, `SingleValue` never traps for
   * types that fit the bound: it returns the entry's one value.
   */
  lemma SingleValueWellFormed(e: DirectoryEntry, v: FormatVersion)
    requires WellFormed(e, v) && e.count == 1
    ensures FitsUInt16(e.tagType) ==> SingleValue(e, 0x1_0000) == Ok(e.values.value.ints[0])
    ensures FitsUInt32(e.tagType) ==> SingleValue(e, 0x1_0000_0000) == Ok(e.values.value.ints[0])
  {
    PowValues();
    if FitsUInt32(e.tagType) {
      assert e.count * TypeSize(e.tagType) <= OffsetSize(v);
      assert InTypeRange(e.values.value.ints[0], e.tagType);
    }
  }

  /** `read(count:ofType:)` inside `at(offset: validateOffset())`: the strip and tile tables. */
  function ReadTable(r: Reader, e: DirectoryEntry): (res: Result<BR.Read<seq<int>>>)
    ensures e.offset.None? ==> res == Err(InvalidTIFFFormat)
    ensures res.Ok? <==>
      && e.offset.Some? && 0 <= e.offset.value < |r.data| && r.pos < |r.data|
      && ReadIntArray(r.(pos := e.offset.value), e.count, e.tagType).Ok?
    ensures res.Ok? ==> res.value.next == r && |res.value.value| == e.count
    ensures res.Ok? ==> (e.tagType == Short || e.tagType == Long || e.tagType == Long8)
    ensures res.Ok? ==> e.offset.Some? && e.offset.value >= 0
    ensures res.Ok? ==>
      var at := r.(pos := e.offset.value);
      forall i :: 0 <= i < e.count ==>
        GetInt(BR.Nth(at, i, TypeSize(e.tagType)), e.tagType).Ok?
        && res.value.value[i] == GetInt(BR.Nth(at, i, TypeSize(e.tagType)), e.tagType).value.value
  {
    var offset :- ValidateOffset(e);
    BR.AtRestores(r, offset, (c: Reader) => ReadIntArray(c, e.count, e.tagType));
    BFR.At(r, offset, (c: Reader) => ReadIntArray(c, e.count, e.tagType))
  }

  /** The `n`-th `Double` after the cursor. */
  function DoubleAt(c: Reader, n: nat): Double
    requires c.pos + 8 * n + 8 <= |c.data|
  {
    BR.DoubleBits(Decode(BR.Ahead(BR.Nth(c, n, 8), 8), c.bigEndian))
  }

  /** The three `Double`s of `modelPixelScale`, read one after another. */
  function ReadScale(c: Reader): (res: Result<BR.Read<seq<Double>>>)
    ensures res.Ok? <==> c.pos + 24 <= |c.data|
    ensures res.Err? ==> res.error == Trapped(ReadPastEnd)
    ensures res.Ok? ==> res.value.next == BR.Skip(c, 24)
    ensures res.Ok? ==> res.value.value == [DoubleAt(c, 0), DoubleAt(c, 1), DoubleAt(c, 2)]
  {
    var x :- BR.GetDouble(c);
    var y :- BR.GetDouble(x.next);
    var z :- BR.GetDouble(y.next);
    assert x.next == BR.Skip(c, 8) && y.next == BR.Skip(c, 16);
    Ok(BR.Read([x.value, y.value, z.value], z.next))
  }

  /** One tie point: six `Double`s in the order i, j, k, x, y, z. */
  function ReadTiePoint(c: Reader): (res: Result<BR.Read<TiePoint>>)
    ensures res.Ok? <==> c.pos + 48 <= |c.data|
    ensures res.Err? ==> res.error == Trapped(ReadPastEnd)
    ensures res.Ok? ==> res.value.next == BR.Skip(c, 48)
  {
    var i :- BR.GetDouble(c);
    var j :- BR.GetDouble(i.next);
    var k :- BR.GetDouble(j.next);
    var x :- BR.GetDouble(k.next);
    var y :- BR.GetDouble(x.next);
    var z :- BR.GetDouble(y.next);
    Ok(BR.Read(TiePoint(i.value, j.value, k.value, x.value, y.value, z.value), z.next))
  }

  /** The six coordinates of a tie point are the six `Double`s after the cursor, in order. */
  lemma ReadTiePointValues(c: Reader)
    requires c.pos + 48 <= |c.data|
    ensures ReadTiePoint(c).Ok?
    ensures ReadTiePoint(c).value.value ==
      TiePoint(DoubleAt(c, 0), DoubleAt(c, 1), DoubleAt(c, 2), DoubleAt(c, 3), DoubleAt(c, 4), DoubleAt(c, 5))
  {
    assert BR.Skip(BR.Skip(c, 8), 8) == BR.Skip(c, 16);
    assert BR.Skip(BR.Skip(c, 16), 8) == BR.Skip(c, 24);
    assert BR.Skip(BR.Skip(c, 24), 8) == BR.Skip(c, 32);
    assert BR.Skip(BR.Skip(c, 32), 8) == BR.Skip(c, 40);
  }

  /** The `k`-th `Double` of a chunk of bytes. */
  function DoubleOf(bs: seq<byte>, k: nat, bigEndian: bool): Double
    requires 8 * k + 8 <= |bs|
  {
    BR.DoubleBits(Decode(bs[8 * k..8 * k + 8], bigEndian))
  }

  /** The tie point a 48-byte chunk holds; a shorter chunk never occurs in a run. */
  function TiePointOf(bs: seq<byte>, bigEndian: bool): TiePoint {
    if |bs| < 48 then TiePoint(Zero, Zero, Zero, Zero, Zero, Zero)
    else
      TiePoint(DoubleOf(bs, 0, bigEndian), DoubleOf(bs, 1, bigEndian), DoubleOf(bs, 2, bigEndian),
               DoubleOf(bs, 3, bigEndian), DoubleOf(bs, 4, bigEndian), DoubleOf(bs, 5, bigEndian))
  }

  /** The `k`-th `Double` after the cursor is the `k`-th `Double` of the 48 bytes there. */
  lemma DoubleOfSlice(cur: Reader, ch: seq<byte>, k: nat)
    requires cur.pos + 48 <= |cur.data| && k < 6
    requires ch == cur.data[cur.pos..cur.pos + 48]
    ensures DoubleAt(cur, k) == DoubleOf(ch, k, cur.bigEndian)
  {
    var p := 8 * k;
    var at := BR.Nth(cur, k, 8);
    assert at.pos == cur.pos + p && at.data == cur.data;
    assert BR.Ahead(at, 8) == cur.data[cur.pos + p..cur.pos + p + 8];
    assert ch[p..p + 8] == cur.data[cur.pos + p..cur.pos + p + 8];
  }

  /** Reading a tie point decodes the 48 bytes at the cursor. */
  lemma TiePointDecodes(cur: Reader)
    requires cur.pos + 48 <= |cur.data|
    ensures ReadTiePoint(cur).Ok?
    ensures ReadTiePoint(cur).value.value == TiePointOf(BR.Ahead(cur, 48), cur.bigEndian)
  {
    var ch := BR.Ahead(cur, 48);
    DoubleOfSlice(cur, ch, 0);
    DoubleOfSlice(cur, ch, 1);
    DoubleOfSlice(cur, ch, 2);
    DoubleOfSlice(cur, ch, 3);
    DoubleOfSlice(cur, ch, 4);
    DoubleOfSlice(cur, ch, 5);
    ReadTiePointValues(cur);
  }

  /**
   * `count` tie points read one after another: a run of 48-byte chunks,
   * each decoded as `ReadTiePoint` decodes it (`TiePointDecodes`).
   */
  function ReadTiePoints(c: Reader, count: nat): (res: Result<BR.Read<seq<TiePoint>>>)
    ensures res.Ok? <==> count == 0 || c.pos + count * 48 <= |c.data|
    ensures res.Err? ==> res.error == Trapped(ReadPastEnd)
    ensures res.Ok? ==> |res.value.value| == count && res.value.next == BR.Nth(c, count, 48)
    ensures res.Ok? ==> forall n :: 0 <= n < count ==>
      ReadTiePoint(BR.Nth(c, n, 48)).Ok? && res.value.value[n] == ReadTiePoint(BR.Nth(c, n, 48)).value.value
  {
    var res := BR.ReadRun(c, count, 48, TiePointOf, Trapped(ReadPastEnd));
    if res.Ok? then
      TiePointRun(c, res.value.value);
      res
    else res
  }

  /** A run of tie-point chunks holds, at each index, the tie point read at that place. */
  lemma TiePointRun(c: Reader, vs: seq<TiePoint>)
    requires BR.IsRun(c, 48, TiePointOf, vs)
    ensures forall n :: 0 <= n < |vs| ==>
      ReadTiePoint(BR.Nth(c, n, 48)).Ok? && vs[n] == ReadTiePoint(BR.Nth(c, n, 48)).value.value
  {
    forall n | 0 <= n < |vs|
      ensures ReadTiePoint(BR.Nth(c, n, 48)).Ok? && vs[n] == ReadTiePoint(BR.Nth(c, n, 48)).value.value
    {
      var v := vs[n];
      TiePointDecodes(BR.Nth(c, n, 48));
    }
  }

  /** The `modelTiePoint` block: `count / 6` tie points; a negative number of them traps the loop. */
  function TiePointsOp(c: Reader, count: int): (res: Result<BR.Read<seq<TiePoint>>>)
    ensures res.Ok? ==> count > -6 && |res.value.value| == (if count < 0 then 0 else count / 6)
    ensures res.Ok? ==> forall n :: 0 <= n < |res.value.value| ==>
      ReadTiePoint(BR.Nth(c, n, 48)).Ok? && res.value.value[n] == ReadTiePoint(BR.Nth(c, n, 48)).value.value
    ensures count <= -6 ==> res == Fail(NegativeRange)
  {
    var n := Quot(count, 6);
    if n < 0 then Fail(NegativeRange)
    else if count < 0 then Ok(BR.Read([], c))
    else ReadTiePoints(c, n)
  }

  /**
   * The body of the `geoKeyDirectory` block: the four header shorts, then
   * `keyCount` key entries when the directory version is 1; any other
   * version leaves the block early with no keys. The debug `assert` that the
   * entry's count covers the keys follows a `UInt16` computation of
   * `keyCount * 4 + 4`.
   */
  function GeoKeyDirectoryOp(c: Reader, count: int): (res: Result<BR.Read<seq<GeoKeyEntry>>>)
    ensures res.Ok? ==> c.pos + 2 <= |c.data|
    ensures res.Ok? && U16At(c, 0) != 1 ==> res.value.value == []
    ensures res.Ok? && U16At(c, 0) == 1 ==>
      c.pos + 8 <= |c.data|
      && |res.value.value| == U16At(c, 6)
      && 4 * U16At(c, 6) + 4 <= count
      && forall i :: 0 <= i < |res.value.value| ==>
        ReadGeoKeyEntry(BR.Nth(BR.Skip(c, 8), i, 8)).Ok?
        && res.value.value[i] == ReadGeoKeyEntry(BR.Nth(BR.Skip(c, 8), i, 8)).value.value
  {
    var version :- BFR.Get(c, 2, false);
    assert BR.Ahead(c, 2) == c.data[c.pos..c.pos + 2];
    if version.value != 1 then Ok(BR.Read([], version.next))
    else
      var revision :- BFR.Get(version.next, 2, false);
      var minor :- BFR.Get(revision.next, 2, false);
      var keyCount :- BFR.Get(minor.next, 2, false);
      assert BR.Ahead(minor.next, 2) == c.data[c.pos + 6..c.pos + 8];
      var total := keyCount.value * 4 + 4;
      if total > 0xFFFF then Fail(Overflow)
      else if count < total then Fail(FailedAssertion)
      else
        var keys :- ReadGeoKeys(keyCount.next, keyCount.value);
        assert keyCount.next == BR.Skip(c, 8);
        Ok(BR.Read(keys.value, keys.next))
  }

  /** The `geoDoubleParams` block: `count` `Double`s through the array reader, whose count is a `UInt64`. */
  function DoubleParamsOp(c: Reader, count: int): (res: Result<BR.Read<seq<Double>>>)
    ensures count < 0 ==> res == Fail(Overflow)
    ensures res.Ok? ==> |res.value.value| == count && (count == 0 || c.pos + 8 * count <= |c.data|)
    ensures res.Ok? ==> forall i :: 0 <= i < count ==> res.value.value[i] == DoubleAt(c, i)
  {
    if count < 0 then Fail(Overflow)
    else
      var vs :- BR.GetArray(c, count, BR.F64);
      var doubles := seq(|vs.value|, i requires 0 <= i < |vs.value| => BR.DoubleBits(vs.value[i]));
      assert forall i :: 0 <= i < count ==> BR.Nth(c, i, BR.Width(BR.F64)) == BR.Nth(c, i, 8);
      Ok(BR.Read(doubles, vs.next))
  }

  /**
   * Where the value of an entry lives: inside the entry, after the tag,
   * type and count fields, or at its offset.
   */
  function ValueLocation(e: DirectoryEntry, v: FormatVersion): int {
    if e.offset.Some? then e.offset.value else e.location + 4 + OffsetSize(v)
  }

  /** A `Rational`: two `UInt32` reads. */
  function ReadRational(c: Reader): (res: Result<BR.Read<SRational8>>)
    ensures res.Ok? <==> c.pos + 8 <= |c.data|
    ensures res.Err? ==> res.error == Trapped(FailedAssertion)
    ensures res.Ok? ==> res.value.next == BR.Skip(c, 8)
    ensures res.Ok? ==> 0 <= res.value.value.numerator < 0x1_0000_0000 && 0 <= res.value.value.denominator < 0x1_0000_0000
  {
    PowValues();
    var n :- BFR.Get(c, 4, false);
    var d :- BFR.Get(n.next, 4, false);
    Ok(BR.Read(SRational8(n.value, d.value), d.next))
  }

  /**
   * The `xResolution` case as written: a `Rational` read at the live
   * cursor, which already points at the next directory entry, so the cursor
   * moves eight bytes into it.
   */
  function XResolutionArmAsWritten(r: Reader, ifd: IFD): (res: Result<BR.Read<IFD>>)
    ensures res.Ok? <==> r.pos + 8 <= |r.data|
    ensures res.Ok? ==> res.value.value == ifd && res.value.next == BR.Skip(r, 8)
  {
    var x :- ReadRational(r);
    Ok(BR.Read(ifd, x.next))
  }

  /**
   * The `xResolution` case as intended: the `Rational` read where the entry
   * keeps its value, inside `at(offset:)`; the value is unused and the
   * cursor does not move.
   */
  function XResolutionArm(r: Reader, e: DirectoryEntry, v: FormatVersion, ifd: IFD): (res: Result<BR.Read<IFD>>)
    ensures res.Ok? ==> res.value == BR.Read(ifd, r)
    ensures res.Ok? <==> 0 <= ValueLocation(e, v) && ValueLocation(e, v) + 8 <= |r.data| && r.pos < |r.data|
  {
    var x :- BFR.At(r, ValueLocation(e, v), ReadRational);
    Ok(BR.Read(ifd, r))
  }

  /** The case of the `switch` in `readHeader` that handles a tag. */
  datatype TagCase = ResolutionCase | IgnoredCase | ScalarCase | TableCase | GeoCase

  function CaseOf(t: Tag): TagCase {
    match t
    case XResolution => ResolutionCase
    case YResolution | XPosition | YPosition | ResolutionUnit | NoTag | GdalMetadata | UnknownTag(_) => IgnoredCase
    case ImageWidth | ImageLength | BitsPerSample | Compression | PhotometricInterpretation | SamplesPerPixel
      | RowsPerStrip | PlanarConfiguration | Predictor | TileWidth | TileLength | SampleFormat => ScalarCase
    case StripOffsets | StripByteCounts | TileOffsets | TileByteCounts => TableCase
    case ModelPixelScale | ModelTiePoint | GdalNoData | GeoKeyDirectory | GeoDoubleParams | GeoAsciiParams => GeoCase
  }

  /** The tags the `switch` passes over. */
  predicate IgnoredTag(t: Tag) {
    CaseOf(t) == IgnoredCase
  }

  /** The tags whose single value is validated and stored. */
  predicate ScalarTag(t: Tag) {
    CaseOf(t) == ScalarCase
  }

  /** The tags whose values form a strip or tile table. */
  predicate TableTag(t: Tag) {
    CaseOf(t) == TableCase
  }

  /** The GeoTIFF and GDAL tags. */
  predicate GeoTag(t: Tag) {
    CaseOf(t) == GeoCase
  }

  /** An entry holding one inline integer value in `0 ..< bound`. */
  predicate SingleIntBelow(e: DirectoryEntry, bound: nat) {
    e.count == 1 && e.values.Some? && e.values.value.IntValues?
    && |e.values.value.ints| > 0 && 0 <= e.values.value.ints[0] < bound
  }

  /** The cases of single-valued tags. */
  function ScalarArm(e: DirectoryEntry, ifd: IFD): (res: Result<IFD>)
    requires ScalarTag(e.tag)
    ensures res.Ok? ==> e.count == 1 && e.values.Some? && e.values.value.IntValues? && |e.values.value.ints| > 0
    ensures res.Ok? && e.tag != PhotometricInterpretation ==> e.values.value.ints[0] >= 0
    ensures res.Ok? && e.tag == ImageWidth ==> res.value == ifd.(width := e.values.value.ints[0])
    ensures res.Ok? && e.tag == ImageLength ==> res.value == ifd.(height := e.values.value.ints[0])
    ensures res.Ok? && e.tag == RowsPerStrip ==> res.value == ifd.(rowsPerStrip := e.values.value.ints[0])
    ensures res.Ok? && e.tag == BitsPerSample ==> res.value == ifd.(bitsPerSample := e.values.value.ints[0])
    ensures res.Ok? && e.tag == SamplesPerPixel ==> res.value == ifd.(samplesPerPixel := e.values.value.ints[0])
    ensures res.Ok? && e.tag == Compression ==>
      C.CompressionFrom(e.values.value.ints[0]).Ok?
      && res.value == ifd.(compression := C.CompressionFrom(e.values.value.ints[0]).value)
    ensures res.Ok? && e.tag == PhotometricInterpretation ==> res.value == ifd.(blackIsZero := e.values.value.ints[0] != 0)
    ensures res.Ok? && e.tag == PlanarConfiguration ==>
      (e.tagType == Byte || e.tagType == Short) && res.value == ifd.(planarConfiguration := e.values.value.ints[0])
    ensures res.Ok? && e.tag == Predictor ==>
      C.PredictorFrom(e.values.value.ints[0]).Ok?
      && res.value == ifd.(predictor := C.PredictorFrom(e.values.value.ints[0]).value)
    ensures res.Ok? && e.tag == TileWidth ==>
      (e.tagType == Byte || e.tagType == Short || e.tagType == Long) && res.value == ifd.(tileWidth := e.values.value.ints[0])
    ensures res.Ok? && e.tag == TileLength ==>
      (e.tagType == Byte || e.tagType == Short || e.tagType == Long) && res.value == ifd.(tileLength := e.values.value.ints[0])
    ensures res.Ok? && e.tag == SampleFormat ==>
      (e.tagType == Byte || e.tagType == Short) && res.value == ifd.(sampleFormat := C.SampleFormatFrom(e.values.value.ints[0]))
    ensures e.tag == Compression && SingleIntBelow(e, 0x1_0000) && C.CompressionFrom(e.values.value.ints[0]).Err? ==>
      res == Err(InvalidCompression)
    ensures e.tag == Predictor && SingleIntBelow(e, 0x1_0000) && !(1 <= e.values.value.ints[0] <= 3) ==>
      res == Err(InvalidPredictor)
  {
    match e.tag
    case ImageWidth =>
      var x :- SingleValue(e, 0x1_0000_0000);
      Ok(ifd.(width := x))
    case ImageLength =>
      var x :- SingleValue(e, 0x1_0000_0000);
      Ok(ifd.(height := x))
    case BitsPerSample =>
      var x :- SingleValue(e, 0x1_0000);
      Ok(ifd.(bitsPerSample := x))
    case Compression =>
      var x :- SingleValue(e, 0x1_0000);
      var c :- C.CompressionFrom(x);
      Ok(ifd.(compression := c))
    case PhotometricInterpretation =>
      var values :- ValidateInt(e, 1);
      if |values| == 0 then Fail(UnwrappedNil)
      else Ok(ifd.(blackIsZero := values[0] != 0))
    case SamplesPerPixel =>
      var x :- ValidateUInt16(e);
      Ok(ifd.(samplesPerPixel := x))
    case RowsPerStrip =>
      var x :- ValidateUInt32(e);
      Ok(ifd.(rowsPerStrip := x))
    case PlanarConfiguration =>
      var x :- ValidateUInt16(e);
      Ok(ifd.(planarConfiguration := x))
    case Predictor =>
      var x :- SingleValue(e, 0x1_0000);
      var p :- C.PredictorFrom(x);
      Ok(ifd.(predictor := p))
    case TileWidth =>
      var x :- ValidateUInt32(e);
      Ok(ifd.(tileWidth := x))
    case TileLength =>
      var x :- ValidateUInt32(e);
      Ok(ifd.(tileLength := x))
    case SampleFormat =>
      var x :- ValidateUInt16(e);
      Ok(ifd.(sampleFormat := C.SampleFormatFrom(x)))
  }

  /** The cases of the strip and tile tables. */
  function TableArm(r: Reader, e: DirectoryEntry, ifd: IFD): (res: Result<IFD>)
    requires TableTag(e.tag)
    ensures res.Ok? <==> ReadTable(r, e).Ok?
    ensures res.Err? ==> res.error == ReadTable(r, e).error
    ensures res.Ok? && e.tag == StripOffsets ==> res.value == ifd.(stripOffsets := ReadTable(r, e).value.value)
    ensures res.Ok? && e.tag == StripByteCounts ==> res.value == ifd.(stripByteCounts := ReadTable(r, e).value.value)
    ensures res.Ok? && e.tag == TileOffsets ==> res.value == ifd.(tileOffsets := ReadTable(r, e).value.value)
    ensures res.Ok? && e.tag == TileByteCounts ==> res.value == ifd.(tileByteCounts := ReadTable(r, e).value.value)
  {
    var t :- ReadTable(r, e);
    if e.tag == StripOffsets then Ok(ifd.(stripOffsets := t.value))
    else if e.tag == StripByteCounts then Ok(ifd.(stripByteCounts := t.value))
    else if e.tag == TileOffsets then Ok(ifd.(tileOffsets := t.value))
    else Ok(ifd.(tileByteCounts := t.value))
  }

  /** The cases of the GeoTIFF and GDAL tags. */
  function GeoArm(r: Reader, e: DirectoryEntry, v: FormatVersion, ifd: IFD): (res: Result<IFD>)
    requires GeoTag(e.tag)
    ensures res.Ok? && e.tag == GeoKeyDirectory ==> e.tagType == Short && e.count >= 4
    ensures res.Ok? && e.tag != GeoKeyDirectory ==> res.value.geoKeyEntries == ifd.geoKeyEntries
    ensures res.Ok? && e.tag != ModelTiePoint ==> res.value.modelTiePoints == ifd.modelTiePoints
    ensures res.Ok? && e.tag == GeoAsciiParams ==> ReadString(r, e, v).Ok? && res.value == ifd.(geoStrings := Split(ReadString(r, e, v).value))
    ensures res.Ok? && e.tag == GdalNoData ==> ReadString(r, e, v).Ok? && res.value == ifd.(gdalNoData := ParseInt(ReadString(r, e, v).value))
    ensures res.Ok? && e.tag == ModelPixelScale ==>
      e.offset.Some? && 0 <= e.offset.value && e.offset.value + 24 <= |r.data|
      && var at := r.(pos := e.offset.value);
      res.value == ifd.(scaleX := DoubleAt(at, 0), scaleY := DoubleAt(at, 1), scaleZ := DoubleAt(at, 2))
    ensures res.Ok? && e.tag == ModelTiePoint ==>
      e.offset.Some? && 0 <= e.offset.value && TiePointsOp(r.(pos := e.offset.value), e.count).Ok?
      && res.value == ifd.(modelTiePoints := ifd.modelTiePoints + TiePointsOp(r.(pos := e.offset.value), e.count).value.value)
    ensures res.Ok? && e.tag == GeoKeyDirectory ==>
      e.offset.Some? && 0 <= e.offset.value && GeoKeyDirectoryOp(r.(pos := e.offset.value), e.count).Ok?
      && res.value == ifd.(geoKeyEntries := ifd.geoKeyEntries + GeoKeyDirectoryOp(r.(pos := e.offset.value), e.count).value.value)
    ensures res.Ok? && e.tag == GeoDoubleParams ==>
      e.offset.Some? && 0 <= e.offset.value && DoubleParamsOp(r.(pos := e.offset.value), e.count).Ok?
      && res.value == ifd.(geoDoubleParams := DoubleParamsOp(r.(pos := e.offset.value), e.count).value.value)
    ensures e.tag == GeoKeyDirectory && (e.tagType != Short || e.count < 4) ==> res == Fail(FailedAssertion)
    ensures (e.tag == ModelPixelScale || e.tag == ModelTiePoint || e.tag == GeoDoubleParams) && e.offset.None? ==>
      res == Err(InvalidTIFFFormat)
  {
    match e.tag
    case ModelPixelScale =>
      var offset :- ValidateOffset(e);
      var scale :- BFR.At(r, offset, ReadScale);
      Ok(ifd.(scaleX := scale.value[0], scaleY := scale.value[1], scaleZ := scale.value[2]))
    case ModelTiePoint =>
      var offset :- ValidateOffset(e);
      var points :- BFR.At(r, offset, (c: Reader) => TiePointsOp(c, e.count));
      Ok(ifd.(modelTiePoints := ifd.modelTiePoints + points.value))
    case GdalNoData =>
      var s :- ReadString(r, e, v);
      Ok(ifd.(gdalNoData := ParseInt(s)))
    case GeoKeyDirectory =>
      if e.tagType != Short || e.count < 4 then Fail(FailedAssertion)
      else
        var offset :- ValidateOffset(e);
        var keys :- BFR.At(r, offset, (c: Reader) => GeoKeyDirectoryOp(c, e.count));
        Ok(ifd.(geoKeyEntries := ifd.geoKeyEntries + keys.value))
    case GeoDoubleParams =>
      var offset :- ValidateOffset(e);
      var params :- BFR.At(r, offset, (c: Reader) => DoubleParamsOp(c, e.count));
      Ok(ifd.(geoDoubleParams := params.value))
    case GeoAsciiParams =>
      var s :- ReadString(r, e, v);
      Ok(ifd.(geoStrings := Split(s)))
  }

  /**
   * One case of the `switch (de.tag)` in `readHeader`: the entry `e` just
   * read, the reader `r` positioned after it. Every case the decoder handles
   * updates its field of the IFD; the `xResolution` case is the intended
   * one, so no case moves the cursor.
   */
  function ProcessEntry(r: Reader, e: DirectoryEntry, v: FormatVersion, ifd: IFD): (res: Result<BR.Read<IFD>>)
    ensures res.Ok? ==> res.value.next == r
    ensures IgnoredTag(e.tag) ==> res == Ok(BR.Read(ifd, r))
    ensures CaseOf(e.tag) == ResolutionCase <==> e.tag == XResolution
    ensures e.tag == XResolution ==> res == XResolutionArm(r, e, v, ifd)
    ensures ScalarTag(e.tag) ==>
      (res.Ok? <==> ScalarArm(e, ifd).Ok?) && (res.Ok? ==> res.value.value == ScalarArm(e, ifd).value)
      && (res.Err? ==> res.error == ScalarArm(e, ifd).error)
    ensures TableTag(e.tag) ==>
      (res.Ok? <==> TableArm(r, e, ifd).Ok?) && (res.Ok? ==> res.value.value == TableArm(r, e, ifd).value)
      && (res.Err? ==> res.error == TableArm(r, e, ifd).error)
    ensures GeoTag(e.tag) ==>
      (res.Ok? <==> GeoArm(r, e, v, ifd).Ok?) && (res.Ok? ==> res.value.value == GeoArm(r, e, v, ifd).value)
      && (res.Err? ==> res.error == GeoArm(r, e, v, ifd).error)
  {
    match CaseOf(e.tag)
    case ResolutionCase => XResolutionArm(r, e, v, ifd)
    case IgnoredCase => Ok(BR.Read(ifd, r))
    case ScalarCase => StayPut(ScalarArm(e, ifd), r)
    case TableCase => StayPut(TableArm(r, e, ifd), r)
    case GeoCase => StayPut(GeoArm(r, e, v, ifd), r)
  }

  /** The outcome of a case that leaves the cursor at `r`. */
  function StayPut(x: Result<IFD>, r: Reader): (res: Result<BR.Read<IFD>>)
    ensures res.Ok? <==> x.Ok?
    ensures res.Ok? ==> res.value == BR.Read(x.value, r)
    ensures res.Err? ==> res.error == x.error
  {
    var next :- x;
    Ok(BR.Read(next, r))
  }

  /**
   * Only an `imageWidth` entry changes the width and only an `imageLength`
   * entry the height, each to its single value below 2^32.
   */
  lemma ProcessEntrySize(r: Reader, e: DirectoryEntry, v: FormatVersion, ifd: IFD)
    requires ProcessEntry(r, e, v, ifd).Ok?
    ensures e.tag == ImageWidth || e.tag == ImageLength ==> SingleIntBelow(e, 0x1_0000_0000)
    ensures ProcessEntry(r, e, v, ifd).value.value.width == if e.tag == ImageWidth then e.values.value.ints[0] else ifd.width
    ensures ProcessEntry(r, e, v, ifd).value.value.height == if e.tag == ImageLength then e.values.value.ints[0] else ifd.height
  {
    match CaseOf(e.tag)
    case ResolutionCase =>
    case IgnoredCase =>
    case ScalarCase => ScalarArmSize(e, ifd);
    case TableCase => TableArmSize(r, e, ifd);
    case GeoCase => GeoArmSize(r, e, v, ifd);
  }

  /** The single-valued cases set the size only from `imageWidth` and `imageLength`. */
  lemma ScalarArmSize(e: DirectoryEntry, ifd: IFD)
    requires ScalarTag(e.tag) && ScalarArm(e, ifd).Ok?
    ensures e.tag == ImageWidth || e.tag == ImageLength ==> SingleIntBelow(e, 0x1_0000_0000)
    ensures ScalarArm(e, ifd).value.width == if e.tag == ImageWidth then e.values.value.ints[0] else ifd.width
    ensures ScalarArm(e, ifd).value.height == if e.tag == ImageLength then e.values.value.ints[0] else ifd.height
  {
  }

  /** The table cases leave the size alone. */
  lemma TableArmSize(r: Reader, e: DirectoryEntry, ifd: IFD)
    requires TableTag(e.tag) && TableArm(r, e, ifd).Ok?
    ensures TableArm(r, e, ifd).value.width == ifd.width && TableArm(r, e, ifd).value.height == ifd.height
  {
  }

  /** The GeoTIFF cases leave the size alone. */
  lemma GeoArmSize(r: Reader, e: DirectoryEntry, v: FormatVersion, ifd: IFD)
    requires GeoTag(e.tag) && GeoArm(r, e, v, ifd).Ok?
    ensures GeoArm(r, e, v, ifd).value.width == ifd.width && GeoArm(r, e, v, ifd).value.height == ifd.height
  {
  }

  /**
   * The `switch` with the `xResolution` case as written: it is the only
   * case that moves the cursor.
   */
  function ProcessEntryAsWritten(r: Reader, e: DirectoryEntry, v: FormatVersion, ifd: IFD): (res: Result<BR.Read<IFD>>)
    ensures e.tag != XResolution ==> res == ProcessEntry(r, e, v, ifd)
    ensures e.tag == XResolution && res.Ok? ==> res.value == BR.Read(ifd, BR.Skip(r, 8))
  {
    if e.tag == XResolution then XResolutionArmAsWritten(r, ifd) else ProcessEntry(r, e, v, ifd)
  }

  /**
   * As written, an `xResolution` entry followed by at least eight bytes
   * leaves the cursor eight bytes into the next entry, where the intended
   * case leaves it at that entry's start.
   */
  lemma XResolutionAsWrittenShiftsCursor(r: Reader, e: DirectoryEntry, v: FormatVersion, ifd: IFD)
    requires e.tag == XResolution && r.pos + 8 <= |r.data|
    ensures ProcessEntryAsWritten(r, e, v, ifd).Ok?
    ensures ProcessEntryAsWritten(r, e, v, ifd).value.next.pos == r.pos + 8
    ensures ProcessEntry(r, e, v, ifd).Ok? ==> ProcessEntry(r, e, v, ifd).value.next.pos == r.pos
  {
  }

  /**
   * On entries `readDirectoryEntry` produced, the image dimensions and the
   * strip height are taken from any single unsigned value that fits, without
   * trapping.
   */
  lemma ProcessDimensionsWellFormed(r: Reader, e: DirectoryEntry, v: FormatVersion, ifd: IFD)
    requires WellFormed(e, v) && e.count == 1 && FitsUInt32(e.tagType)
    ensures e.tag == ImageWidth ==> ProcessEntry(r, e, v, ifd) == Ok(BR.Read(ifd.(width := e.values.value.ints[0]), r))
    ensures e.tag == ImageLength ==> ProcessEntry(r, e, v, ifd) == Ok(BR.Read(ifd.(height := e.values.value.ints[0]), r))
    ensures e.tag == RowsPerStrip ==> ProcessEntry(r, e, v, ifd) == Ok(BR.Read(ifd.(rowsPerStrip := e.values.value.ints[0]), r))
  {
    SingleValueWellFormed(e, v);
    ValidateWellFormed(e, v);
  }
}
