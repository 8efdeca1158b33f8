/**
 * The closed code tables of the decoder: TIFF tags, field types and
 * GeoKeys (module `Tags`), and the value codes the decoder interprets
 * (module `Codes`).
 *
 * Each table is given twice: as the decoder's mapping from raw code to
 * case, and as the registry's code of each case. The lemmas prove the two
 * inverse to each other.
 */
module Tags {
  import opened Errors

  /** `TIFFImageA.Tag`. `NoTag` is the `none` case GeoKeys use for "no tag". */
  datatype Tag =
    | ImageWidth | ImageLength | BitsPerSample | Compression | PhotometricInterpretation
    | StripOffsets | SamplesPerPixel | RowsPerStrip | StripByteCounts
    | XResolution | YResolution | PlanarConfiguration | XPosition | YPosition | ResolutionUnit
    | Predictor | TileWidth | TileLength | TileOffsets | TileByteCounts
    | SampleFormat
    | ModelPixelScale | ModelTiePoint | GeoKeyDirectory | GeoDoubleParams | GeoAsciiParams
    | NoTag | GdalMetadata | GdalNoData
    | UnknownTag(raw: nat)

  /** `Tag.rawValueMapping`. */
  const TagMapping: map<nat, Tag> := map[
    256 := ImageWidth, 257 := ImageLength, 258 := BitsPerSample, 259 := Compression,
    262 := PhotometricInterpretation, 273 := StripOffsets, 277 := SamplesPerPixel,
    278 := RowsPerStrip, 279 := StripByteCounts, 282 := XResolution, 283 := YResolution,
    284 := PlanarConfiguration, 286 := XPosition, 287 := YPosition, 296 := ResolutionUnit,
    317 := Predictor, 322 := TileWidth, 323 := TileLength, 324 := TileOffsets,
    325 := TileByteCounts, 339 := SampleFormat,
    33550 := ModelPixelScale, 33922 := ModelTiePoint, 34735 := GeoKeyDirectory,
    34736 := GeoDoubleParams, 34737 := GeoAsciiParams,
    42112 := GdalMetadata, 42113 := GdalNoData]

  /** The code of a tag in the TIFF, GeoTIFF and GDAL registries; `NoTag` has none. */
  function TagCode(t: Tag): Option<nat> {
    match t
    case ImageWidth => Some(256)
    case ImageLength => Some(257)
    case BitsPerSample => Some(258)
    case Compression => Some(259)
    case PhotometricInterpretation => Some(262)
    case StripOffsets => Some(273)
    case SamplesPerPixel => Some(277)
    case RowsPerStrip => Some(278)
    case StripByteCounts => Some(279)
    case XResolution => Some(282)
    case YResolution => Some(283)
    case PlanarConfiguration => Some(284)
    case XPosition => Some(286)
    case YPosition => Some(287)
    case ResolutionUnit => Some(296)
    case Predictor => Some(317)
    case TileWidth => Some(322)
    case TileLength => Some(323)
    case TileOffsets => Some(324)
    case TileByteCounts => Some(325)
    case SampleFormat => Some(339)
    case ModelPixelScale => Some(33550)
    case ModelTiePoint => Some(33922)
    case GeoKeyDirectory => Some(34735)
    case GeoDoubleParams => Some(34736)
    case GeoAsciiParams => Some(34737)
    case NoTag => None
    case GdalMetadata => Some(42112)
    case GdalNoData => Some(42113)
    case UnknownTag(raw) => Some(raw)
  }

  /** `Tag.from(rawValue:)`: total; a code outside the mapping becomes `UnknownTag(raw)`. */
  function TagFrom(raw: nat): (t: Tag)
    ensures TagCode(t) == Some(raw)
    ensures t.UnknownTag? <==> raw !in TagMapping
  {
    if raw in TagMapping then TagMapping[raw] else UnknownTag(raw)
  }

  /** Every tag except `NoTag` and the non-canonical unknowns is the image of its own code. */
  lemma TagFromCode(t: Tag)
    requires t != NoTag
    requires t.UnknownTag? ==> t.raw !in TagMapping
    ensures TagFrom(TagCode(t).value) == t
  {
  }

  /** `TIFFImageA.TagType`; unlisted codes are kept as `UnknownType(raw)`. */
  datatype TagType =
    | Byte | Ascii | Short | Long | Rational
    | SByte | Undefined | SShort | SLong | SRational
    | Float | Double | Ifd
    | Long8 | SLong8 | Ifd8
    | UnknownType(raw: nat)

  /** The field-type code of TIFF 6.0 section 2 and of BigTIFF. */
  function TypeCode(t: TagType): nat {
    match t
    case Byte => 1
    case Ascii => 2
    case Short => 3
    case Long => 4
    case Rational => 5
    case SByte => 6
    case Undefined => 7
    case SShort => 8
    case SLong => 9
    case SRational => 10
    case Float => 11
    case Double => 12
    case Ifd => 13
    case Long8 => 16
    case SLong8 => 17
    case Ifd8 => 18
    case UnknownType(raw) => raw
  }

  /**
   * `TagType.size`: the bytes one value occupies in the file. `Ifd` and
   * `Ifd8` carry the size of a whole directory entry (12 and 20 bytes),
   * which the entry reader uses as the entry stride; an unknown type has
   * size 1.
   */
  function TypeSize(t: TagType): (n: nat)
    ensures 1 <= n <= 20
  {
    match t
    case Byte => 1
    case Ascii => 1
    case Short => 2
    case Long => 4
    case Rational => 8
    case SByte => 1
    case Undefined => 1
    case SShort => 2
    case SLong => 4
    case SRational => 8
    case Float => 4
    case Double => 8
    case Ifd => 12
    case Long8 => 8
    case SLong8 => 8
    case Ifd8 => 20
    case UnknownType(_) => 1
  }

  /** `TagType.from(rawValue:)`: total; unlisted codes give an unknown type of size 1. */
  function TagTypeFrom(raw: nat): (t: TagType)
    ensures TypeCode(t) == raw
    ensures t.UnknownType? <==> !(1 <= raw <= 13 || 16 <= raw <= 18)
    ensures t.UnknownType? ==> TypeSize(t) == 1
  {
    match raw
    case 1 => Byte
    case 2 => Ascii
    case 3 => Short
    case 4 => Long
    case 5 => Rational
    case 6 => SByte
    case 7 => Undefined
    case 8 => SShort
    case 9 => SLong
    case 10 => SRational
    case 11 => Float
    case 12 => Double
    case 13 => Ifd
    case 16 => Long8
    case 17 => SLong8
    case 18 => Ifd8
    case _ => UnknownType(raw)
  }

  /** Every listed type, and every canonical unknown one, is the image of its own code. */
  lemma TagTypeFromCode(t: TagType)
    requires t.UnknownType? ==> !(1 <= t.raw <= 13 || 16 <= t.raw <= 18)
    ensures TagTypeFrom(TypeCode(t)) == t
  {
  }

  /** `TIFFImageA.GeoKey`. */
  datatype GeoKey =
    | ModelType | RasterType | Citation
    | GeographicType | GeoCitation | GeoDatum | LinearUnits | LinearUnitSize
    | AngularUnits | AngularUnitSize | GeogEllipsoid | SemiMajorAxis | SemiMinorAxis
    | InverseFlattening | AzimuthUnits | GeogPrimeMeridianLong | ToWGS84
    | UnknownKey(raw: nat)

  /** The key ids of the GeoTIFF 1.0 key registry (section 6.2). */
  function GeoKeyCode(k: GeoKey): nat {
    match k
    case ModelType => 1024
    case RasterType => 1025
    case Citation => 1026
    case GeographicType => 2048
    case GeoCitation => 2049
    case GeoDatum => 2050
    case LinearUnits => 2052
    case LinearUnitSize => 2053
    case AngularUnits => 2054
    case AngularUnitSize => 2055
    case GeogEllipsoid => 2056
    case SemiMajorAxis => 2057
    case SemiMinorAxis => 2058
    case InverseFlattening => 2059
    case AzimuthUnits => 2060
    case GeogPrimeMeridianLong => 2061
    case ToWGS84 => 2062
    case UnknownKey(raw) => raw
  }

  /** `GeoKey.rawValueMapping` as written: `linearUnits` sits under 2042. */
  const GeoKeyMappingAsWritten: map<nat, GeoKey> := map[
    1024 := ModelType, 1025 := RasterType, 1026 := Citation,
    2048 := GeographicType, 2049 := GeoCitation, 2050 := GeoDatum, 2042 := LinearUnits,
    2053 := LinearUnitSize, 2054 := AngularUnits, 2055 := AngularUnitSize,
    2056 := GeogEllipsoid, 2057 := SemiMajorAxis, 2058 := SemiMinorAxis,
    2059 := InverseFlattening, 2060 := AzimuthUnits, 2061 := GeogPrimeMeridianLong,
    2062 := ToWGS84]

  /** The mapping with `linearUnits` under its registered id 2052. */
  const GeoKeyMapping: map<nat, GeoKey> := GeoKeyMappingAsWritten - {2042} + map[2052 := LinearUnits]

  /** `GeoKey.from(rawValue:)` as written. */
  function GeoKeyFromAsWritten(raw: nat): (k: GeoKey)
    ensures k.UnknownKey? <==> raw !in GeoKeyMappingAsWritten
    ensures !k.UnknownKey? ==> k == GeoKeyMappingAsWritten[raw]
  {
    if raw in GeoKeyMappingAsWritten then GeoKeyMappingAsWritten[raw] else UnknownKey(raw)
  }

  /** The id the table as written gives `linearUnits` is not its registered id, and the registered one is not recognised. */
  lemma GeoKeyLinearUnitsAsWritten()
    ensures GeoKeyFromAsWritten(2042) == LinearUnits && GeoKeyCode(LinearUnits) == 2052
    ensures GeoKeyFromAsWritten(2052) == UnknownKey(2052)
    ensures GeoKeyCode(GeoKeyFromAsWritten(2042)) != 2042
  {
  }

  /** `GeoKey.from(rawValue:)` over the registered ids: total, and inverse to `GeoKeyCode`. */
  function GeoKeyFrom(raw: nat): (k: GeoKey)
    ensures GeoKeyCode(k) == raw
    ensures k.UnknownKey? <==> raw !in GeoKeyMapping
  {
    if raw in GeoKeyMapping then GeoKeyMapping[raw] else UnknownKey(raw)
  }

  /** Every key, except a non-canonical unknown one, is the image of its own id. */
  lemma GeoKeyFromCode(k: GeoKey)
    requires k.UnknownKey? ==> k.raw !in GeoKeyMapping
    ensures GeoKeyFrom(GeoKeyCode(k)) == k
  {
  }

  /** The corrected table differs from the one as written at exactly the ids 2042 and 2052. */
  lemma GeoKeyFromAgreement(raw: nat)
    ensures GeoKeyFrom(raw) == GeoKeyFromAsWritten(raw) <==> raw != 2042 && raw != 2052
  {
  }
}

module Codes {
  import opened Errors

  /** `TIFFImageA.CompressionType`. */
  datatype CompressionType =
    | NoCompression | Ccitt | T4 | T6 | Lzw | JpegOld | JpegNew | Deflate | PkzipDeflate | PackBits

  /** The Compression codes of TIFF 6.0 (section 8 and section 9 for PackBits) and their common extensions. */
  function CompressionCode(c: CompressionType): nat {
    match c
    case NoCompression => 1
    case Ccitt => 2
    case T4 => 3
    case T6 => 4
    case Lzw => 5
    case JpegOld => 6
    case JpegNew => 7
    case Deflate => 8
    case PkzipDeflate => 32946
    case PackBits => 32773
  }

  /** `CompressionType.from(rawValue:)` as written: PackBits under 32772. */
  function CompressionFromAsWritten(raw: nat): (res: Result<CompressionType>)
    ensures res.Err? ==> res.error == InvalidCompression
    ensures res.Ok? && res.value != PackBits ==> CompressionCode(res.value) == raw
    ensures res.Ok? && res.value == PackBits ==> raw == 32772
  {
    match raw
    case 1 => Ok(NoCompression)
    case 2 => Ok(Ccitt)
    case 3 => Ok(T4)
    case 4 => Ok(T6)
    case 5 => Ok(Lzw)
    case 6 => Ok(JpegOld)
    case 7 => Ok(JpegNew)
    case 8 => Ok(Deflate)
    case 32946 => Ok(PkzipDeflate)
    case 32772 => Ok(PackBits)
    case _ => Err(InvalidCompression)
  }

  /** A PackBits image is rejected, and code 32772 is taken for PackBits. */
  lemma PackBitsAsWritten()
    ensures CompressionFromAsWritten(CompressionCode(PackBits)) == Err(InvalidCompression)
    ensures CompressionFromAsWritten(32772) == Ok(PackBits)
  {
  }

  /** `CompressionType.from(rawValue:)` with PackBits under 32773. */
  function CompressionFrom(raw: nat): (res: Result<CompressionType>)
    ensures res.Ok? ==> CompressionCode(res.value) == raw
    ensures res.Err? ==> res.error == InvalidCompression
  {
    if raw == 32772 then Err(InvalidCompression)
    else if raw == 32773 then Ok(PackBits)
    else CompressionFromAsWritten(raw)
  }

  /** Every compression scheme is recognised from its code: the table is onto and inverse to `CompressionCode`. */
  lemma CompressionFromCode(c: CompressionType)
    ensures CompressionFrom(CompressionCode(c)) == Ok(c)
  {
  }

  /** The corrected table differs from the one as written at exactly the codes 32772 and 32773. */
  lemma CompressionFromAgreement(raw: nat)
    ensures CompressionFrom(raw) == CompressionFromAsWritten(raw) <==> raw != 32772 && raw != 32773
  {
  }

  /** `TIFFImageA.Predictor`. */
  datatype Predictor = NoPredictor | Horizontal | FloatingPointHorizontal

  function PredictorCode(p: Predictor): nat {
    match p
    case NoPredictor => 1
    case Horizontal => 2
    case FloatingPointHorizontal => 3
  }

  /** `Predictor.from(rawValue:)`: 1, 2 and 3, anything else `invalidPredictor`. */
  function PredictorFrom(raw: nat): (res: Result<Predictor>)
    ensures res.Ok? <==> 1 <= raw <= 3
    ensures res.Ok? ==> PredictorCode(res.value) == raw
    ensures res.Err? ==> res.error == InvalidPredictor
  {
    match raw
    case 1 => Ok(NoPredictor)
    case 2 => Ok(Horizontal)
    case 3 => Ok(FloatingPointHorizontal)
    case _ => Err(InvalidPredictor)
  }

  lemma PredictorFromCode(p: Predictor)
    ensures PredictorFrom(PredictorCode(p)) == Ok(p)
  {
  }

  /** `TIFFImageA.SampleFormat`; unlisted codes are kept as `UnknownFormat(raw)`. */
  datatype SampleFormat =
    | UnsignedInt | SignedInt | FloatingPoint | VoidFormat | ComplexInt | ComplexFloat
    | UnknownFormat(raw: nat)

  function SampleFormatCode(f: SampleFormat): nat {
    match f
    case UnsignedInt => 1
    case SignedInt => 2
    case FloatingPoint => 3
    case VoidFormat => 4
    case ComplexInt => 5
    case ComplexFloat => 6
    case UnknownFormat(raw) => raw
  }

  /** `SampleFormat.from(rawValue:)`: total; codes outside 1-6 give `UnknownFormat(raw)`. */
  function SampleFormatFrom(raw: nat): (f: SampleFormat)
    ensures SampleFormatCode(f) == raw
    ensures f.UnknownFormat? <==> !(1 <= raw <= 6)
  {
    match raw
    case 1 => UnsignedInt
    case 2 => SignedInt
    case 3 => FloatingPoint
    case 4 => VoidFormat
    case 5 => ComplexInt
    case 6 => ComplexFloat
    case _ => UnknownFormat(raw)
  }

  lemma SampleFormatFromCode(f: SampleFormat)
    requires f.UnknownFormat? ==> !(1 <= f.raw <= 6)
    ensures SampleFormatFrom(SampleFormatCode(f)) == f
  {
  }

  /** `TIFFImageA.ModelType` (GeoTIFF 1.0 section 6.3.1.1). */
  datatype ModelType = Projected | Geographic | Geocentric

  function ModelTypeCode(m: ModelType): nat {
    match m
    case Projected => 1
    case Geographic => 2
    case Geocentric => 3
  }

  /** `ModelType.model(from:)`: 1, 2 and 3, anything else `invalidModelType`. */
  function ModelTypeFrom(raw: nat): (res: Result<ModelType>)
    ensures res.Ok? <==> 1 <= raw <= 3
    ensures res.Ok? ==> ModelTypeCode(res.value) == raw
    ensures res.Err? ==> res.error == InvalidModelType
  {
    match raw
    case 1 => Ok(Projected)
    case 2 => Ok(Geographic)
    case 3 => Ok(Geocentric)
    case _ => Err(InvalidModelType)
  }

  lemma ModelTypeFromCode(m: ModelType)
    ensures ModelTypeFrom(ModelTypeCode(m)) == Ok(m)
  {
  }

  /** `TIFFImageA.RasterType` (GeoTIFF 1.0 section 6.3.1.2). */
  datatype RasterType = PixelIsArea | PixelIsPoint

  function RasterTypeCode(t: RasterType): nat {
    match t
    case PixelIsArea => 1
    case PixelIsPoint => 2
  }

  /** `RasterType.raster(from:)`: 1 and 2, anything else `invalidRasterType`. */
  function RasterTypeFrom(raw: nat): (res: Result<RasterType>)
    ensures res.Ok? <==> 1 <= raw <= 2
    ensures res.Ok? ==> RasterTypeCode(res.value) == raw
    ensures res.Err? ==> res.error == InvalidRasterType
  {
    match raw
    case 1 => Ok(PixelIsArea)
    case 2 => Ok(PixelIsPoint)
    case _ => Err(InvalidRasterType)
  }

  lemma RasterTypeFromCode(t: RasterType)
    ensures RasterTypeFrom(RasterTypeCode(t)) == Ok(t)
  {
  }

  /** `TIFFImageA.AngularUnit` (GeoTIFF 1.0 section 6.3.1.4). */
  datatype AngularUnit = Radian | Degree | ArcMinute | ArcSecond | Gradian | Gon | Dms | DmsHemisphere

  function AngularUnitCode(u: AngularUnit): nat {
    match u
    case Radian => 9101
    case Degree => 9102
    case ArcMinute => 9103
    case ArcSecond => 9104
    case Gradian => 9105
    case Gon => 9106
    case Dms => 9107
    case DmsHemisphere => 9108
  }

  /** `AngularUnit.rawValueMapping`. */
  const AngularUnitMapping: map<nat, AngularUnit> := map[
    9101 := Radian, 9102 := Degree, 9103 := ArcMinute, 9104 := ArcSecond,
    9105 := Gradian, 9106 := Gon, 9107 := Dms, 9108 := DmsHemisphere]

  /** `AngularUnit.from(rawValue:)`: 9101-9108, anything else `invalidTIFFFormat`. */
  function AngularUnitFrom(raw: nat): (res: Result<AngularUnit>)
    ensures res.Ok? <==> 9101 <= raw <= 9108
    ensures res.Ok? ==> AngularUnitCode(res.value) == raw
    ensures res.Err? ==> res.error == InvalidTIFFFormat
  {
    if raw in AngularUnitMapping then Ok(AngularUnitMapping[raw]) else Err(InvalidTIFFFormat)
  }

  lemma AngularUnitFromCode(u: AngularUnit)
    ensures AngularUnitFrom(AngularUnitCode(u)) == Ok(u)
  {
  }

  /** `TIFFImageA.GeodeticDatum`: raw values 0 and 32767. */
  datatype GeodeticDatum = UndefinedDatum | UserDefinedDatum

  /** `TIFFImageA.GeogEllipsoid`: raw values 0 and 32767. */
  datatype GeogEllipsoid = UndefinedEllipsoid | UserDefinedEllipsoid

  /** `GeodeticDatum(rawValue:) ?? .undefined`: only 32767 is user-defined. */
  function DatumFrom(raw: nat): (d: GeodeticDatum)
    ensures d == UserDefinedDatum <==> raw == 32767
  {
    if raw == 32767 then UserDefinedDatum else UndefinedDatum
  }

  /** `GeogEllipsoid(rawValue:) ?? .undefined`: only 32767 is user-defined. */
  function EllipsoidFrom(raw: nat): (e: GeogEllipsoid)
    ensures e == UserDefinedEllipsoid <==> raw == 32767
  {
    if raw == 32767 then UserDefinedEllipsoid else UndefinedEllipsoid
  }
}
