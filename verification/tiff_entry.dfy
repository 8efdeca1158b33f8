/**
 * The parts of `TIFFImageA` that read single fields: the image file header,
 * the version-dependent offset and count fields, the values of one
 * directory entry, the entry itself, the entry validators, ASCII strings and
 * GeoKey entries.
 *
 * The decoder's reader is a `BinaryFileReader`: its fixed-width integer
 * reads are `BinaryFileReader.Get`, whose short read fails a debug `assert`.
 * `Double` reads, strings and arrays are `BinaryReader`'s. The `Float`
 * read is modelled as a four-byte `get()`, and an `Int` count passed to
 * `get(count:)` as a conversion to its `UInt64` count: neither reader
 * declares a member that takes these calls as written.
 */
module Entries {
  import opened Errors
  import opened Bytes
  import opened SwiftInt
  import opened Tags
  import BR = BinaryReader
  import BFR = BinaryFileReader

  type Reader = BR.Reader

  /** `TIFFImageA.FormatVersion`: classic TIFF (42) or BigTIFF (43). */
  datatype FormatVersion = V42 | V43

  function VersionCode(v: FormatVersion): nat {
    if v == V42 then 42 else 43
  }

  /** `offsetSize`: the width of offsets and tag counts, 4 or 8 bytes. */
  function OffsetSize(v: FormatVersion): nat {
    if v == V42 then 4 else 8
  }

  /** The width of the entry-count field that opens a directory. */
  function EntryCountSize(v: FormatVersion): nat {
    if v == V42 then 2 else 8
  }

  /**
   * The stride of directory entries, which the decoder takes from the sizes
   * of the `ifd` and `ifd8` types: a tag, a type, a count and a value or
   * offset field.
   */
  function EntrySize(v: FormatVersion): (n: nat)
    ensures n == 2 + 2 + OffsetSize(v) + OffsetSize(v)
  {
    if v == V42 then TypeSize(Ifd) else TypeSize(Ifd8)
  }

  /** The bytes of the header before the first-IFD offset. */
  function HeaderSize(v: FormatVersion): nat {
    if v == V42 then 4 else 8
  }

  /** The unsigned 16-bit field at byte `k` of the cursor's data, in the reader's byte order. */
  function U16At(r: Reader, k: nat): nat
    requires r.pos + k + 2 <= |r.data|
  {
    Decode(r.data[r.pos + k..r.pos + k + 2], r.bigEndian)
  }

  /**
   * The offset-sized field at byte `k` of the cursor's data: unsigned in
   * classic TIFF, two's complement in BigTIFF.
   */
  function FieldAt(r: Reader, k: nat, v: FormatVersion): int
    requires r.pos + k + OffsetSize(v) <= |r.data|
  {
    IntOf(r.data[r.pos + k..r.pos + k + OffsetSize(v)], r.bigEndian, v == V43)
  }

  /**
   * `readHeader`, lines up to the first-IFD offset: the byte-order mark is
   * read in the reader's default big-endian order and selects big-endian
   * only when it is 0x4d4d ("MM"); the version is 42, or 43 followed by an
   * offset size of 8 and zero padding.
   */
  function ReadFileHeader(file: seq<byte>): (res: Result<BR.Read<FormatVersion>>)
    ensures |file| < 4 ==> res == Fail(FailedAssertion)
    ensures res.Ok? ==>
      var be := file[0] == 0x4d && file[1] == 0x4d;
      && res.value.next == BR.Reader(file, HeaderSize(res.value.value), be)
      && VersionCode(res.value.value) == Decode(file[2..4], be)
    ensures |file| >= 4 ==>
      var be := file[0] == 0x4d && file[1] == 0x4d;
      var version := Decode(file[2..4], be);
      && (version != 42 && version != 43 ==> res == Err(InvalidTIFFFormat))
      && (version == 42 ==> res.Ok?)
      && (version == 43 && |file| >= 6 && Decode(file[4..6], be) != 8 ==>
            res == Err(InvalidOffsetSize(Decode(file[4..6], be))))
      && (version == 43 && |file| >= 8 && Decode(file[4..6], be) == 8 ==>
            (res.Ok? <==> Decode(file[6..8], be) == 0))
      && (version == 43 && (|file| < 6 || (Decode(file[4..6], be) == 8 && |file| < 8)) ==>
            res == Fail(FailedAssertion))
  {
    var r := BFR.Init(file);
    var mark :- BFR.Get(r, 2, false);
    MarkIsMM(file);
    var r1 := mark.next.(bigEndian := mark.value == 0x4d4d);
    var version :- BFR.Get(r1, 2, false);
    assert BR.Ahead(r1, 2) == file[2..4];
    if version.value == 42 then
      Ok(BR.Read(V42, version.next))
    else if version.value == 43 then
      var offsetByteSize :- BFR.Get(version.next, 2, false);
      assert BR.Ahead(version.next, 2) == file[4..6];
      if offsetByteSize.value != 8 then
        Err(InvalidOffsetSize(offsetByteSize.value))
      else
        var padding :- BFR.Get(offsetByteSize.next, 2, false);
        assert BR.Ahead(offsetByteSize.next, 2) == file[6..8];
        if padding.value != 0 then Err(InvalidTIFFFormat)
        else Ok(BR.Read(V43, padding.next))
    else
      Err(InvalidTIFFFormat)
  }

  /** Read most significant byte first, the mark is 0x4d4d exactly when both bytes are 'M'. */
  lemma MarkIsMM(file: seq<byte>)
    requires |file| >= 2
    ensures BE(file[0..2]) == 0x4d4d <==> file[0] == 0x4d && file[1] == 0x4d
  {
    BR.Decode2(file[0..2]);
  }

  /**
   * A byte-order mark whose two bytes agree ("II" or "MM") has the same value
   * in either byte order, so the mark does not depend on the reader's
   * default order.
   */
  lemma MarkOrderIndependent(b: byte)
    ensures Decode([b, b], true) == Decode([b, b], false)
  {
    BR.Decode2([b, b]);
  }

  /** The header bytes a writer produces for a version and byte order. */
  function EncodeHeader(v: FormatVersion, bigEndian: bool): (bs: seq<byte>)
    ensures |bs| == HeaderSize(v)
  {
    var mark: seq<byte> := if bigEndian then [0x4d, 0x4d] else [0x49, 0x49];
    PowValues();
    if v == V42 then mark + Encode(42, 2, bigEndian)
    else mark + Encode(43, 2, bigEndian) + Encode(8, 2, bigEndian) + Encode(0, 2, bigEndian)
  }

  /** `readHeader` recognises every header a writer produces, in either byte order. */
  lemma ReadFileHeaderInvertsEncode(v: FormatVersion, bigEndian: bool, rest: seq<byte>)
    ensures
      var file := EncodeHeader(v, bigEndian) + rest;
      ReadFileHeader(file) == Ok(BR.Read(v, BR.Reader(file, HeaderSize(v), bigEndian)))
  {
    EncodeHeaderFields(v, bigEndian, rest);
    ReadFileHeaderOfFields(EncodeHeader(v, bigEndian) + rest, v, bigEndian);
  }

  /** The header fields of version `v` in byte order `be`: the mark, the version and, for BigTIFF, the offset size and padding. */
  predicate HeaderFields(file: seq<byte>, v: FormatVersion, be: bool) {
    && |file| >= HeaderSize(v)
    && (file[0] == 0x4d && file[1] == 0x4d) == be
    && Decode(file[2..4], be) == VersionCode(v)
    && (v == V43 ==> Decode(file[4..6], be) == 8 && Decode(file[6..8], be) == 0)
  }

  /** `readHeader` accepts a file whose header fields are those of version `v` in byte order `be`. */
  lemma ReadFileHeaderOfFields(file: seq<byte>, v: FormatVersion, be: bool)
    requires HeaderFields(file, v, be)
    ensures ReadFileHeader(file) == Ok(BR.Read(v, BR.Reader(file, HeaderSize(v), be)))
  {
    var res := ReadFileHeader(file);
    assert res.Ok?;
    assert VersionCode(res.value.value) == VersionCode(v);
  }

  /** An encoded header has the fields of its version and byte order, whatever follows it. */
  lemma EncodeHeaderFields(v: FormatVersion, bigEndian: bool, rest: seq<byte>)
    ensures HeaderFields(EncodeHeader(v, bigEndian) + rest, v, bigEndian)
  {
    var file := EncodeHeader(v, bigEndian) + rest;
    PowValues();
    assert file[2..4] == Encode(VersionCode(v), 2, bigEndian);
    if v == V43 {
      assert file[4..6] == Encode(8, 2, bigEndian);
      assert file[6..8] == Encode(0, 2, bigEndian);
    }
  }

  /**
   * One offset-or-count field: unsigned for classic TIFF; for BigTIFF, a
   * `get() -> Int64`, i.e. the eight bytes in two's complement.
   */
  function ReadField(r: Reader, w: nat, v: FormatVersion): (res: Result<BR.Read<int>>)
    requires w == OffsetSize(v) || w == EntryCountSize(v)
    ensures res.Ok? <==> r.pos + w <= |r.data|
    ensures res.Err? ==> res.error == Trapped(FailedAssertion)
    ensures res.Ok? ==> res.value.next == BR.Skip(r, w)
    ensures res.Ok? && v == V42 ==> 0 <= res.value.value < Pow256(w)
    ensures res.Ok? && v == V43 ==> InInt64(res.value.value)
  {
    PowValues();
    BFR.Get(r, w, v == V43)
  }

  /** `readOffset`: a `UInt32` for classic TIFF, an `Int64` for BigTIFF. */
  function ReadOffset(r: Reader, v: FormatVersion): (res: Result<BR.Read<int>>)
    ensures res.Ok? <==> r.pos + OffsetSize(v) <= |r.data|
    ensures res.Err? ==> res.error == Trapped(FailedAssertion)
    ensures res.Ok? ==> res.value.next == BR.Skip(r, OffsetSize(v))
    ensures res.Ok? && v == V42 ==> 0 <= res.value.value < 0x1_0000_0000
    ensures res.Ok? && v == V43 ==> InInt64(res.value.value)
  {
    PowValues();
    ReadField(r, OffsetSize(v), v)
  }

  /** `readEntryCount`: a `UInt16` for classic TIFF, an `Int64` for BigTIFF. */
  function ReadEntryCount(r: Reader, v: FormatVersion): (res: Result<BR.Read<int>>)
    ensures res.Ok? <==> r.pos + EntryCountSize(v) <= |r.data|
    ensures res.Err? ==> res.error == Trapped(FailedAssertion)
    ensures res.Ok? ==> res.value.next == BR.Skip(r, EntryCountSize(v))
    ensures res.Ok? && v == V42 ==> 0 <= res.value.value < 0x1_0000
    ensures res.Ok? && v == V43 ==> InInt64(res.value.value)
  {
    PowValues();
    ReadField(r, EntryCountSize(v), v)
  }

  /** `readTagCount`: a `UInt32` for classic TIFF, an `Int64` for BigTIFF. */
  function ReadTagCount(r: Reader, v: FormatVersion): (res: Result<BR.Read<int>>)
    ensures res.Ok? <==> r.pos + OffsetSize(v) <= |r.data|
    ensures res.Err? ==> res.error == Trapped(FailedAssertion)
    ensures res.Ok? ==> res.value.next == BR.Skip(r, OffsetSize(v))
    ensures res.Ok? && v == V42 ==> 0 <= res.value.value < 0x1_0000_0000
    ensures res.Ok? && v == V43 ==> InInt64(res.value.value)
  {
    PowValues();
    ReadField(r, OffsetSize(v), v)
  }

  /** The values a field of width `w` can hold in format `v`. */
  predicate FieldFits(x: int, w: nat, v: FormatVersion) {
    if v == V42 then 0 <= x < Pow256(w) else x + Pow256(w) / 2 >= 0 && x < Pow256(w) / 2
  }

  /** The bytes of a field: unsigned for classic TIFF, two's complement for BigTIFF. */
  function EncodeField(x: int, w: nat, v: FormatVersion, bigEndian: bool): (bs: seq<byte>)
    requires BFR.FixedWidth(w)
    requires FieldFits(x, w, v)
    ensures |bs| == w
  {
    Encode(if x < 0 then x + Pow256(w) else x, w, bigEndian)
  }

  /** The field readers invert `EncodeField`, wherever the field sits. */
  lemma ReadFieldInvertsEncode(prefix: seq<byte>, x: int, w: nat, v: FormatVersion, suffix: seq<byte>, bigEndian: bool)
    requires w == OffsetSize(v) || w == EntryCountSize(v)
    requires FieldFits(x, w, v)
    ensures
      var r := BR.Reader(prefix + EncodeField(x, w, v, bigEndian) + suffix, |prefix|, bigEndian);
      ReadField(r, w, v) == Ok(BR.Read(x, BR.Skip(r, w)))
  {
    BFR.GetInvertsEncode(prefix, x, w, v == V43, suffix, bigEndian);
  }

  /** `SRational8`: a rational widened to `Int64` numerator and denominator. */
  datatype SRational8 = SRational8(numerator: int, denominator: int)

  /** `DirectoryEntry.Value`; floating-point values are kept as bit patterns. */
  datatype Value =
    | IntValues(ints: seq<int>)
    | RationalValues(rationals: seq<SRational8>)
    | DoubleValues(doubles: seq<BR.FloatBits>)
    | AsciiValue(text: string)
    | UndefinedValue(bytes: seq<byte>)

  /** `TIFFImageA.DirectoryEntry`: exactly one of `values` and `offset` is present once read. */
  datatype DirectoryEntry = DirectoryEntry(
    location: int,
    tag: Tag,
    tagType: TagType,
    count: int,
    values: Option<Value>,
    offset: Option<int>)

  /** The integer types that `readValues` widens into `.int`. */
  predicate IsIntType(t: TagType) {
    t == Byte || t == Short || t == Long || t == Long8
    || t == SByte || t == SShort || t == SLong || t == SLong8
  }

  /** Whether an integer type is read in two's complement; `long8` is unsigned, as TIFF defines it. */
  function IntSigned(t: TagType): bool {
    t == SByte || t == SShort || t == SLong || t == SLong8
  }

  /** The signedness `readValues` applies as written: `long8` is read as `Int64`. */
  function IntSignedAsWritten(t: TagType): bool {
    IntSigned(t) || t == Long8
  }

  /** The range of one integer value of a type: zero-extended or sign-extended from its width. */
  predicate InTypeRange(x: int, t: TagType) {
    if IntSigned(t) then x + Pow256(TypeSize(t)) / 2 >= 0 && x < Pow256(TypeSize(t)) / 2
    else 0 <= x < Pow256(TypeSize(t))
  }

  /** The integer a run of bytes holds. */
  function IntOf(bs: seq<byte>, bigEndian: bool, signed: bool): int {
    if |bs| == 0 then 0 else Interpret(Decode(bs, bigEndian), |bs|, signed)
  }

  /** One integer value of type `t`: the `get()` of its width and signedness, widened to `Int64`. */
  function GetInt(r: Reader, t: TagType): (res: Result<BR.Read<int>>)
    requires IsIntType(t)
    ensures res.Ok? <==> r.pos + TypeSize(t) <= |r.data|
    ensures res.Err? ==> res.error == Trapped(FailedAssertion)
    ensures res.Ok? ==> res.value.next == BR.Skip(r, TypeSize(t)) && InTypeRange(res.value.value, t)
  {
    BFR.Get(r, TypeSize(t), IntSigned(t))
  }

  /** One integer value as `readValues` reads it as written. */
  function GetIntAsWritten(r: Reader, t: TagType): (res: Result<BR.Read<int>>)
    requires IsIntType(t)
    ensures res.Ok? <==> r.pos + TypeSize(t) <= |r.data|
    ensures res.Ok? && t != Long8 ==> res == GetInt(r, t)
  {
    BFR.Get(r, TypeSize(t), IntSignedAsWritten(t))
  }

  /** A `long8` of 2^63 comes back negative as written, and unchanged once read unsigned. */
  lemma Long8AsWrittenNegative()
    ensures
      var r := BR.Reader([0, 0, 0, 0, 0, 0, 0, 0x80], 0, false);
      && GetIntAsWritten(r, Long8).Ok? && GetIntAsWritten(r, Long8).value.value == -0x8000_0000_0000_0000
      && GetInt(r, Long8).Ok? && GetInt(r, Long8).value.value == 0x8000_0000_0000_0000
  {
    var bs: seq<byte> := [0, 0, 0, 0, 0, 0, 0, 0x80];
    var r := BR.Reader(bs, 0, false);
    assert BR.Ahead(r, 8) == bs;
    TopBitLE(bs);
    PowValues();
    assert GetIntAsWritten(r, Long8) == Ok(BR.Read(-0x8000_0000_0000_0000, BR.Skip(r, 8))) by {
      assert TypeSize(Long8) == 8 && IntSignedAsWritten(Long8);
      assert Signed(0x8000_0000_0000_0000, 8) == -0x8000_0000_0000_0000;
    }
    assert GetInt(r, Long8) == Ok(BR.Read(0x8000_0000_0000_0000, BR.Skip(r, 8))) by {
      Long8ZeroExtends(r);
    }
  }

  /** The little-endian bytes of 2^63: only the top bit set. */
  lemma TopBitLE(bs: seq<byte>)
    requires bs == [0, 0, 0, 0, 0, 0, 0, 0x80]
    ensures LE(bs) == 0x8000_0000_0000_0000
  {
    var lo, hi := bs[..4], bs[4..];
    assert LE(lo) == 0 by {
      assert lo == [0, 0, 0, 0];
      BR.Decode4(lo);
    }
    assert LE(hi) == 0x8000_0000 by {
      assert hi == [0, 0, 0, 0x80];
      BR.Decode4(hi);
    }
    BR.Decode8(bs);
  }

  /** Every integer value of a `long8` field is zero-extended: it is the unsigned reading of its eight bytes. */
  lemma Long8ZeroExtends(r: Reader)
    requires r.pos + 8 <= |r.data|
    ensures GetInt(r, Long8).Ok? && GetInt(r, Long8).value.value == Decode(BR.Ahead(r, 8), r.bigEndian)
  {
  }

  /** `count` integer values of type `t` read one after another (the loops of `readValues`). */
  function ReadIntValues(r: Reader, count: nat, t: TagType): (res: Result<BR.Read<seq<int>>>)
    requires IsIntType(t)
    ensures res.Ok? <==> count == 0 || r.pos + count * TypeSize(t) <= |r.data|
    ensures res.Err? ==> res.error == Trapped(FailedAssertion)
    ensures res.Ok? ==> |res.value.value| == count && res.value.next == BR.Nth(r, count, TypeSize(t))
    ensures res.Ok? ==> forall i :: 0 <= i < count ==>
      GetInt(BR.Nth(r, i, TypeSize(t)), t).Ok?
      && res.value.value[i] == GetInt(BR.Nth(r, i, TypeSize(t)), t).value.value
  {
    var res := BR.ReadRun(r, count, TypeSize(t), IntDecoder(IntSigned(t)), Trapped(FailedAssertion));
    if res.Ok? then
      IntRunIsGetInt(r, t, res.value.value);
      res
    else res
  }

  /** The element decoder of an integer run. */
  function IntDecoder(signed: bool): (seq<byte>, bool) -> int {
    (bs, be) => IntOf(bs, be, signed)
  }

  /** A run of integer chunks holds, at each index, the single-value read at that place. */
  lemma IntRunIsGetInt(r: Reader, t: TagType, vs: seq<int>)
    requires IsIntType(t)
    requires BR.IsRun(r, TypeSize(t), IntDecoder(IntSigned(t)), vs)
    ensures forall i :: 0 <= i < |vs| ==>
      GetInt(BR.Nth(r, i, TypeSize(t)), t).Ok? && vs[i] == GetInt(BR.Nth(r, i, TypeSize(t)), t).value.value
  {
    var w, f := TypeSize(t), IntDecoder(IntSigned(t));
    forall i | 0 <= i < |vs|
      ensures GetInt(BR.Nth(r, i, w), t).Ok? && vs[i] == GetInt(BR.Nth(r, i, w), t).value.value
    {
      var v := vs[i];
      assert v == f(BR.Ahead(BR.Nth(r, i, w), w), r.bigEndian);
    }
  }

  /** A `Float` or `Double` as its bit pattern; the width tells them apart. */
  function FloatOf(bs: seq<byte>, bigEndian: bool): BR.FloatBits {
    if |bs| == 4 then BR.SingleBits(Decode(bs, bigEndian)) else BR.DoubleBits(Decode(bs, bigEndian))
  }

  /** A `Rational` or `SRational`: numerator in the first four bytes, denominator in the rest. */
  function RationalOf(bs: seq<byte>, bigEndian: bool, signed: bool): SRational8 {
    var h := if |bs| < 4 then |bs| else 4;
    SRational8(IntOf(bs[..h], bigEndian, signed), IntOf(bs[h..], bigEndian, signed))
  }

  /**
   * What `readValues` produced for `count` values of type `t`: integers
   * widened within their type's range, `count` floats or rationals, or
   * `count - 1` characters of text.
   */
  predicate ValueMatches(val: Value, t: TagType, count: int) {
    if IsIntType(t) then
      val.IntValues? && |val.ints| == count && forall i :: 0 <= i < |val.ints| ==> InTypeRange(val.ints[i], t)
    else if t == Float || t == Double then val.DoubleValues? && |val.doubles| == count
    else if t == Rational || t == SRational then val.RationalValues? && |val.rationals| == count
    else if t == Ascii then val.AsciiValue? && |val.text| == count - 1
    else false
  }

  /** The `Float` and `Double` loops of `readValues`: `count` bit patterns. */
  function ReadFloatValues(r: Reader, count: nat, t: TagType): (res: Result<BR.Read<Value>>)
    requires t == Float || t == Double
    ensures res.Ok? <==> count == 0 || r.pos + count * TypeSize(t) <= |r.data|
    ensures res.Err? ==> res.error == Trapped(ReadPastEnd)
    ensures res.Ok? ==> ValueMatches(res.value.value, t, count) && res.value.next == BR.Nth(r, count, TypeSize(t))
  {
    var vs :- BR.ReadRun(r, count, TypeSize(t), FloatOf, Trapped(ReadPastEnd));
    Ok(BR.Read(DoubleValues(vs.value), vs.next))
  }

  /** The `Rational` and `SRational` loops of `readValues`: `count` numerator-denominator pairs. */
  function ReadRationalValues(r: Reader, count: nat, t: TagType): (res: Result<BR.Read<Value>>)
    requires t == Rational || t == SRational
    ensures res.Ok? <==> count == 0 || r.pos + count * TypeSize(t) <= |r.data|
    ensures res.Err? ==> res.error == Trapped(FailedAssertion)
    ensures res.Ok? ==> ValueMatches(res.value.value, t, count) && res.value.next == BR.Nth(r, count, TypeSize(t))
  {
    assert TypeSize(t) == 8;
    var vs :- BR.ReadRun(r, count, 8, RationalDecoder(t == SRational), Trapped(FailedAssertion));
    Ok(BR.Read(RationalValues(vs.value), vs.next))
  }

  /** The element decoder of a rational run. */
  function RationalDecoder(signed: bool): (seq<byte>, bool) -> SRational8 {
    (bs, be) => RationalOf(bs, be, signed)
  }

  /** The integer loops of `readValues`: `count` values, each within its type's range. */
  function ReadIntField(r: Reader, count: nat, t: TagType): (res: Result<BR.Read<Value>>)
    requires IsIntType(t)
    ensures res.Ok? <==> count == 0 || r.pos + count * TypeSize(t) <= |r.data|
    ensures res.Err? ==> res.error == Trapped(FailedAssertion)
    ensures res.Ok? ==> ValueMatches(res.value.value, t, count) && res.value.next == BR.Nth(r, count, TypeSize(t))
  {
    var vs :- ReadIntValues(r, count, t);
    assert forall i :: 0 <= i < count ==> InTypeRange(vs.value[i], t) by {
      forall i | 0 <= i < count
        ensures InTypeRange(vs.value[i], t)
      {
        assert GetInt(BR.Nth(r, i, TypeSize(t)), t).Ok?;
      }
    }
    Ok(BR.Read(IntValues(vs.value), vs.next))
  }

  /** The ASCII case of `readValues`: `count - 1` bytes as text; the cursor does not move. */
  function ReadAsciiValue(r: Reader, count: int): (res: Result<BR.Read<Value>>)
    ensures res.Ok? ==> ValueMatches(res.value.value, Ascii, count) && res.value.next == r
    ensures res.Ok? ==> |res.value.value.text| == count - 1 && r.pos + count - 1 <= |r.data|
    ensures res.Ok? ==> forall i :: 0 <= i < |res.value.value.text| ==> res.value.value.text[i] as int == r.data[r.pos + i]
    ensures 0 <= count - 1 && r.pos + count - 1 <= |r.data| ==>
      (res.Ok? <==> forall i :: r.pos <= i < r.pos + count - 1 ==> r.data[i] < 0x80)
  {
    var s :- BR.GetString(r, count - 1);
    if s.None? then Err(InvalidTIFFFormat) else Ok(BR.Read(AsciiValue(s.value), r))
  }

  /**
   * `readValues(type:count:)`: reads `count` values of type `t` at the
   * cursor. Integer types are widened (unsigned ones zero-extended, signed
   * ones sign-extended), floats and rationals are collected, ASCII is
   * `count - 1` characters without moving the cursor; `undefined` fails
   * its `assert` and the remaining types are rejected.
   */
  function ReadValues(r: Reader, t: TagType, count: int): (res: Result<BR.Read<Value>>)
    ensures res.Ok? ==> ValueMatches(res.value.value, t, count)
    ensures res.Ok? && t != Ascii ==> res.value.next == BR.Nth(r, count, TypeSize(t))
    ensures res.Ok? && t == Ascii ==>
      res.value.next == r && |res.value.value.text| == count - 1 && r.pos + count - 1 <= |r.data|
      && forall i :: 0 <= i < |res.value.value.text| ==> res.value.value.text[i] as int == r.data[r.pos + i]
    ensures t == Ifd || t == Ifd8 || t.UnknownType? ==> res == Err(InvalidTIFFFormat)
    ensures t == Undefined ==> res == Fail(FailedAssertion)
    ensures count < 0 && IsNumericType(t) ==> res == Fail(NegativeRange)
    ensures count >= 0 && IsNumericType(t) ==> (res.Ok? <==> count == 0 || r.pos + count * TypeSize(t) <= |r.data|)
  {
    if IsNumericType(t) && count < 0 then Fail(NegativeRange)
    else if IsIntType(t) then ReadIntField(r, count, t)
    else if t == Float || t == Double then ReadFloatValues(r, count, t)
    else if t == Rational || t == SRational then ReadRationalValues(r, count, t)
    else if t == Ascii then ReadAsciiValue(r, count)
    else if t == Undefined then Fail(FailedAssertion)
    else Err(InvalidTIFFFormat)
  }

  /** The types `readValues` reads in a counted loop. */
  predicate IsNumericType(t: TagType) {
    IsIntType(t) || t == Float || t == Double || t == Rational || t == SRational
  }

  /** The element kind of the array reader `read(count:ofType:)` uses for a type. */
  function ArrayKind(t: TagType): BR.Kind
    requires t == Short || t == Long || t == Long8
  {
    if t == Short then BR.U16 else if t == Long then BR.U32 else BR.U64
  }

  /**
   * `read(count:ofType:)`: `count` shorts, longs or long8s through the
   * array readers; any other type is rejected. Shorts and longs fit
   * `Int64`; long8s are read as `UInt64` and may be 2^63 or more. `Int(count)`
   * is handed to the array reader's `UInt64` count, which a negative count
   * does not fit.
   */
  function ReadIntArray(r: Reader, count: int, t: TagType): (res: Result<BR.Read<seq<int>>>)
    ensures !(t == Short || t == Long || t == Long8) ==> res == Err(InvalidTIFFFormat)
    ensures (t == Short || t == Long || t == Long8) && count < 0 ==> res == Fail(Overflow)
    ensures (t == Short || t == Long || t == Long8) && count >= 0 ==>
      (res.Ok? <==> count < INT64_MAX && (count == 0 || r.pos + count * TypeSize(t) <= |r.data|))
    ensures (t == Short || t == Long || t == Long8) && count >= INT64_MAX ==> res == Fail(CountTooLarge)
    ensures (t == Short || t == Long || t == Long8) && 0 <= count < INT64_MAX && res.Err? ==>
      res.error == Trapped(ReadPastEnd)
    ensures res.Ok? ==> |res.value.value| == count && res.value.next == BR.Nth(r, count, TypeSize(t))
    ensures res.Ok? ==> forall i :: 0 <= i < count ==>
      GetInt(BR.Nth(r, i, TypeSize(t)), t).Ok?
      && res.value.value[i] == GetInt(BR.Nth(r, i, TypeSize(t)), t).value.value
  {
    if !(t == Short || t == Long || t == Long8) then Err(InvalidTIFFFormat)
    else if count < 0 then Fail(Overflow)
    else
      var k := ArrayKind(t);
      assert BR.Width(k) == TypeSize(t);
      var vs :- BR.GetArray(r, count, k);
      ArrayIsGetInt(r, t, vs.value);
      Ok(BR.Read(vs.value, vs.next))
  }

  /** `Int64(bitPattern:)` of each eight-byte unsigned value: 2^63 and above wrap to negatives. */
  function Int64Patterns(vs: seq<int>): (out: seq<int>)
    ensures |out| == |vs|
    ensures forall i :: 0 <= i < |vs| ==> out[i] == if vs[i] >= 0x8000_0000_0000_0000 then vs[i] - 0x1_0000_0000_0000_0000 else vs[i]
  {
    seq(|vs|, i requires 0 <= i < |vs| => if vs[i] >= 0x8000_0000_0000_0000 then vs[i] - 0x1_0000_0000_0000_0000 else vs[i])
  }

  /**
   * `read(count:ofType:)` as written: the `long8` case asks the reader for
   * an `[Int64]`, so its elements are the same eight bytes read in two's
   * complement; the other cases are the intended ones.
   */
  function ReadIntArrayAsWritten(r: Reader, count: int, t: TagType): (res: Result<BR.Read<seq<int>>>)
    ensures t != Long8 ==> res == ReadIntArray(r, count, t)
    ensures res.Ok? <==> ReadIntArray(r, count, t).Ok?
    ensures t == Long8 && res.Ok? ==>
      res.value == BR.Read(Int64Patterns(ReadIntArray(r, count, t).value.value), ReadIntArray(r, count, t).value.next)
  {
    var vs :- ReadIntArray(r, count, t);
    if t == Long8 then Ok(BR.Read(Int64Patterns(vs.value), vs.next)) else Ok(vs)
  }

  /**
   * A one-element `long8` array whose value is 2^63 or more reads back
   * negative as written, and unchanged when read unsigned.
   */
  lemma Long8ArrayAsWrittenWraps(r: Reader)
    requires r.pos + 8 <= |r.data|
    requires GetInt(r, Long8).Ok? && GetInt(r, Long8).value.value >= 0x8000_0000_0000_0000
    ensures ReadIntArray(r, 1, Long8) == Ok(BR.Read([GetInt(r, Long8).value.value], BR.Skip(r, 8)))
    ensures ReadIntArrayAsWritten(r, 1, Long8) == Ok(BR.Read([GetInt(r, Long8).value.value - 0x1_0000_0000_0000_0000], BR.Skip(r, 8)))
    ensures ReadIntArrayAsWritten(r, 1, Long8).value.value[0] < 0
  {
    ReadIntArrayOne(r, Long8);
    var vs := [GetInt(r, Long8).value.value];
    assert Int64Patterns(vs) == [vs[0] - 0x1_0000_0000_0000_0000];
  }

  /** Such an array exists: the little-endian bytes of 2^63. */
  lemma Long8ArrayAsWrittenNegative()
    ensures
      var r := BR.Reader([0, 0, 0, 0, 0, 0, 0, 0x80], 0, false);
      && ReadIntArray(r, 1, Long8) == Ok(BR.Read([0x8000_0000_0000_0000], BR.Skip(r, 8)))
      && ReadIntArrayAsWritten(r, 1, Long8) == Ok(BR.Read([-0x8000_0000_0000_0000], BR.Skip(r, 8)))
  {
    var bs: seq<byte> := [0, 0, 0, 0, 0, 0, 0, 0x80];
    var r := BR.Reader(bs, 0, false);
    Long8AsWrittenNegative();
    Long8ArrayAsWrittenWraps(r);
  }

  /** A one-element array read is the single-value read at the cursor. */
  lemma ReadIntArrayOne(r: Reader, t: TagType)
    requires t == Short || t == Long || t == Long8
    requires r.pos + TypeSize(t) <= |r.data|
    ensures GetInt(r, t).Ok?
    ensures ReadIntArray(r, 1, t) == Ok(BR.Read([GetInt(r, t).value.value], BR.Skip(r, TypeSize(t))))
  {
    var w := TypeSize(t);
    assert BR.Width(ArrayKind(t)) == w;
    assert BR.GetArray(r, 1, ArrayKind(t)).Ok?;
    var a := ReadIntArray(r, 1, t);
    assert a.Ok?;
    assert BR.Nth(r, 0, w) == r && BR.Nth(r, 1, w) == BR.Skip(r, w);
    assert a.value.value == [GetInt(r, t).value.value];
  }

  /** `i * w` as repeated addition, so that table positions stay linear. */
  function Times(i: nat, w: nat): nat {
    if i == 0 then 0 else Times(i - 1, w) + w
  }

  lemma {:induction false} TimesIsProduct(i: nat, w: nat)
    ensures Times(i, w) == i * w
  {
    if i > 0 {
      TimesIsProduct(i - 1, w);
      assert (i - 1) * w + w == i * w;
    }
  }

  lemma {:induction false} TimesMono(i: nat, n: nat, w: nat)
    requires i <= n
    ensures Times(i, w) <= Times(n, w)
    decreases n
  {
    if i < n {
      TimesMono(i, n - 1, w);
    }
  }

  /** Chunks of `w` bytes each, one after another. */
  function Flatten(cs: seq<seq<byte>>, w: nat): (bs: seq<byte>)
    requires forall k :: 0 <= k < |cs| ==> |cs[k]| == w
    ensures |bs| == Times(|cs|, w)
  {
    if |cs| == 0 then [] else Flatten(cs[..|cs| - 1], w) + cs[|cs| - 1]
  }

  /** The bytes a writer produces for a table of unsigned values, each `w` bytes wide. */
  function EncodeTable(vs: seq<nat>, w: nat, bigEndian: bool): (bs: seq<byte>)
    requires forall i :: 0 <= i < |vs| ==> vs[i] < Pow256(w)
    ensures |bs| == Times(|vs|, w)
  {
    Flatten(seq(|vs|, i requires 0 <= i < |vs| => Encode(vs[i], w, bigEndian)), w)
  }

  /** A slice of a concatenation that lies in one part is a slice of that part. */
  lemma SliceOfConcat(front: seq<byte>, last: seq<byte>, lo: nat, hi: nat)
    requires lo <= hi <= |front| + |last|
    ensures hi <= |front| ==> (front + last)[lo..hi] == front[lo..hi]
    ensures lo == |front| && hi == |front| + |last| ==> (front + last)[lo..hi] == last
  {
  }

  /** Chunk `i` of a flattened run occupies the `w` bytes from `Times(i, w)`. */
  lemma {:induction false} FlattenSlice(cs: seq<seq<byte>>, w: nat, i: nat)
    requires forall k :: 0 <= k < |cs| ==> |cs[k]| == w
    requires i < |cs|
    ensures Times(i, w) + w <= Times(|cs|, w)
    ensures Flatten(cs, w)[Times(i, w)..Times(i, w) + w] == cs[i]
    decreases |cs|
  {
    var n := |cs| - 1;
    var front := Flatten(cs[..n], w);
    assert Flatten(cs, w) == front + cs[n];
    assert Times(|cs|, w) == Times(n, w) + w;
    if i < n {
      assert |cs[..n]| == n && cs[..n][i] == cs[i];
      FlattenSlice(cs[..n], w, i);
      SliceOfConcat(front, cs[n], Times(i, w), Times(i, w) + w);
    } else {
      SliceOfConcat(front, cs[n], Times(n, w), Times(n, w) + w);
    }
  }

  /** Element `i` of an encoded table occupies the `w` bytes from `Times(i, w)`. */
  lemma EncodeTableSlice(vs: seq<nat>, w: nat, bigEndian: bool, i: nat)
    requires forall k :: 0 <= k < |vs| ==> vs[k] < Pow256(w)
    requires i < |vs|
    ensures Times(i, w) + w <= Times(|vs|, w)
    ensures EncodeTable(vs, w, bigEndian)[Times(i, w)..Times(i, w) + w] == Encode(vs[i], w, bigEndian)
  {
    var cs := seq(|vs|, k requires 0 <= k < |vs| => Encode(vs[k], w, bigEndian));
    FlattenSlice(cs, w, i);
  }

  /** The bytes `lo` to `lo + w` of a run at the cursor are the `w` bytes `lo` bytes on. */
  lemma AheadPart(r: Reader, n: nat, lo: nat, w: nat, run: seq<byte>, part: seq<byte>)
    requires r.pos + n <= |r.data| && lo + w <= n
    requires BR.Ahead(r, n) == run && run[lo..lo + w] == part
    ensures BR.Ahead(BR.Skip(r, lo), w) == part
  {
    BR.AheadSlice(r, n, lo, lo + w);
  }

  /** Element `i` of an encoded table at the cursor lies `Times(i, w)` bytes on. */
  lemma TableBytes(r: Reader, vs: seq<nat>, w: nat, i: nat)
    requires forall k :: 0 <= k < |vs| ==> vs[k] < Pow256(w)
    requires i < |vs|
    requires r.pos + Times(|vs|, w) <= |r.data|
    requires BR.Ahead(r, Times(|vs|, w)) == EncodeTable(vs, w, r.bigEndian)
    ensures r.pos + Times(i, w) + w <= |r.data|
    ensures BR.Ahead(BR.Skip(r, Times(i, w)), w) == Encode(vs[i], w, r.bigEndian)
  {
    EncodeTableSlice(vs, w, r.bigEndian, i);
    AheadPart(r, Times(|vs|, w), Times(i, w), w, EncodeTable(vs, w, r.bigEndian), Encode(vs[i], w, r.bigEndian));
  }

  /** The cursor `i` strides on is the cursor moved `Times(i, w)` bytes. */
  lemma NthIsSkip(r: Reader, i: nat, w: nat)
    ensures BR.Nth(r, i, w) == BR.Skip(r, Times(i, w))
  {
    TimesIsProduct(i, w);
  }

  /** Element `i` of an array read over an encoded table is the table's element `i`. */
  lemma TableElement(r: Reader, vs: seq<nat>, t: TagType, i: nat)
    requires t == Short || t == Long || t == Long8
    requires forall k :: 0 <= k < |vs| ==> vs[k] < Pow256(TypeSize(t))
    requires i < |vs|
    requires r.pos + Times(|vs|, TypeSize(t)) <= |r.data|
    requires BR.Ahead(r, Times(|vs|, TypeSize(t))) == EncodeTable(vs, TypeSize(t), r.bigEndian)
    ensures GetInt(BR.Nth(r, i, TypeSize(t)), t).Ok? && GetInt(BR.Nth(r, i, TypeSize(t)), t).value.value == vs[i]
  {
    var w := TypeSize(t);
    var c := BR.Skip(r, Times(i, w));
    TableBytes(r, vs, w, i);
    NthIsSkip(r, i, w);
    BFR.GetUnsigned(c, w);
    assert GetInt(c, t) == BFR.Get(c, w, false);
    assert Decode(BR.Ahead(c, w), r.bigEndian) == vs[i];
  }

  /** An array read succeeds when its `count` elements fit before the end. */
  lemma TableFits(r: Reader, count: nat, t: TagType)
    requires t == Short || t == Long || t == Long8
    requires count < INT64_MAX && r.pos + Times(count, TypeSize(t)) <= |r.data|
    ensures ReadIntArray(r, count, t).Ok?
  {
    TimesIsProduct(count, TypeSize(t));
  }

  /** Every element of an encoded table at the cursor is the single-value read `i` strides on. */
  lemma TableElements(r: Reader, vs: seq<nat>, t: TagType)
    requires t == Short || t == Long || t == Long8
    requires forall i :: 0 <= i < |vs| ==> vs[i] < Pow256(TypeSize(t))
    requires r.pos + Times(|vs|, TypeSize(t)) <= |r.data|
    requires BR.Ahead(r, Times(|vs|, TypeSize(t))) == EncodeTable(vs, TypeSize(t), r.bigEndian)
    ensures forall i :: 0 <= i < |vs| ==>
      GetInt(BR.Nth(r, i, TypeSize(t)), t).Ok? && GetInt(BR.Nth(r, i, TypeSize(t)), t).value.value == vs[i]
  {
    forall i | 0 <= i < |vs|
      ensures GetInt(BR.Nth(r, i, TypeSize(t)), t).Ok? && GetInt(BR.Nth(r, i, TypeSize(t)), t).value.value == vs[i]
    {
      TableElement(r, vs, t, i);
    }
  }

  /** Two runs that agree with the same single-value reads at every index are equal. */
  lemma SameReads(r: Reader, t: TagType, a: seq<int>, b: seq<nat>)
    requires t == Short || t == Long || t == Long8
    requires |a| == |b|
    requires forall i :: 0 <= i < |a| ==>
      GetInt(BR.Nth(r, i, TypeSize(t)), t).Ok? && a[i] == GetInt(BR.Nth(r, i, TypeSize(t)), t).value.value
    requires forall i :: 0 <= i < |b| ==>
      GetInt(BR.Nth(r, i, TypeSize(t)), t).Ok? && GetInt(BR.Nth(r, i, TypeSize(t)), t).value.value == b[i]
    ensures a == b
  {
  }

  /** An array read over the bytes of an encoded table gives back the table. */
  lemma ReadIntArrayOfTable(r: Reader, vs: seq<nat>, t: TagType)
    requires t == Short || t == Long || t == Long8
    requires forall i :: 0 <= i < |vs| ==> vs[i] < Pow256(TypeSize(t))
    requires |vs| < INT64_MAX
    requires r.pos + Times(|vs|, TypeSize(t)) <= |r.data|
    requires BR.Ahead(r, Times(|vs|, TypeSize(t))) == EncodeTable(vs, TypeSize(t), r.bigEndian)
    ensures ReadIntArray(r, |vs|, t) == Ok(BR.Read(vs, BR.Nth(r, |vs|, TypeSize(t))))
  {
    TableFits(r, |vs|, t);
    TableElements(r, vs, t);
    SameReads(r, t, ReadIntArray(r, |vs|, t).value.value, vs);
  }

  /** `read(count:ofType:)` reads back every table of shorts, longs or long8s a writer produces, wherever it sits. */
  lemma ReadIntArrayInvertsEncode(prefix: seq<byte>, vs: seq<nat>, t: TagType, suffix: seq<byte>, bigEndian: bool)
    requires t == Short || t == Long || t == Long8
    requires forall i :: 0 <= i < |vs| ==> vs[i] < Pow256(TypeSize(t))
    requires |vs| < INT64_MAX
    ensures
      var r := BR.Reader(prefix + EncodeTable(vs, TypeSize(t), bigEndian) + suffix, |prefix|, bigEndian);
      ReadIntArray(r, |vs|, t) == Ok(BR.Read(vs, BR.Nth(r, |vs|, TypeSize(t))))
  {
    var bs := EncodeTable(vs, TypeSize(t), bigEndian);
    var r := BR.Reader(prefix + bs + suffix, |prefix|, bigEndian);
    assert BR.Ahead(r, |bs|) == bs;
    ReadIntArrayOfTable(r, vs, t);
  }

  /** The elements of an array read are, at each index, the single-value read at that place. */
  lemma ArrayIsGetInt(r: Reader, t: TagType, vs: seq<nat>)
    requires t == Short || t == Long || t == Long8
    requires forall i :: 0 <= i < |vs| ==>
      BR.Scalar(BR.Nth(r, i, BR.Width(ArrayKind(t))), ArrayKind(t)).Ok?
      && vs[i] == BR.Scalar(BR.Nth(r, i, BR.Width(ArrayKind(t))), ArrayKind(t)).value.value
    ensures forall i :: 0 <= i < |vs| ==>
      GetInt(BR.Nth(r, i, TypeSize(t)), t).Ok? && vs[i] == GetInt(BR.Nth(r, i, TypeSize(t)), t).value.value
  {
    assert BR.Width(ArrayKind(t)) == TypeSize(t);
    forall i | 0 <= i < |vs|
      ensures GetInt(BR.Nth(r, i, TypeSize(t)), t).Ok? && vs[i] == GetInt(BR.Nth(r, i, TypeSize(t)), t).value.value
    {
      ScalarIsGetInt(BR.Nth(r, i, TypeSize(t)), t);
    }
  }

  /** The array readers' elements are the unsigned `get()` of their width. */
  lemma ScalarIsGetInt(c: Reader, t: TagType)
    requires t == Short || t == Long || t == Long8
    requires BR.Scalar(c, ArrayKind(t)).Ok?
    ensures GetInt(c, t).Ok? && GetInt(c, t).value.value == BR.Scalar(c, ArrayKind(t)).value.value
  {
    var w := TypeSize(t);
    assert BR.Width(ArrayKind(t)) == w && !IntSigned(t);
    BFR.GetUnsigned(c, w);
  }

  /**
   * What `readDirectoryEntry` guarantees of the entry it returns: exactly
   * one of `values` and `offset`, the values present exactly when they fit
   * in the offset field, and a count within its field's range.
   */
  predicate WellFormed(e: DirectoryEntry, v: FormatVersion) {
    && e.location >= 0
    && (e.values.Some? <==> e.offset.None?)
    && (e.values.Some? <==> e.count * TypeSize(e.tagType) <= OffsetSize(v))
    && (e.values.Some? ==> ValueMatches(e.values.value, e.tagType, e.count))
    && (v == V42 ==> 0 <= e.count < 0x1_0000_0000)
    && (v == V43 ==> InInt64(e.count))
  }

  /**
   * `readDirectoryEntry`: the tag, the type and the count, then either the
   * values themselves, when `count * size` fits in the offset field, or the
   * offset to them. On the inline path the cursor is then moved to the end
   * of the entry with `seek(to:)`, whose precondition requires a byte there.
   */
  function ReadDirectoryEntry(r: Reader, v: FormatVersion): (res: Result<BR.Read<DirectoryEntry>>)
    ensures res.Ok? ==> WellFormed(res.value.value, v)
    ensures res.Ok? ==> res.value.value.location == r.pos
    ensures res.Ok? ==> res.value.next == BR.Skip(r, EntrySize(v))
    ensures r.pos + 4 + OffsetSize(v) > |r.data| ==> res == Fail(FailedAssertion)
    ensures res.Ok? ==>
      && r.pos + EntrySize(v) <= |r.data|
      && res.value.value.tag == TagFrom(U16At(r, 0))
      && res.value.value.tagType == TagTypeFrom(U16At(r, 2))
      && res.value.value.count == FieldAt(r, 4, v)
    ensures res.Ok? && res.value.value.offset.Some? ==> res.value.value.offset.value == FieldAt(r, 4 + OffsetSize(v), v)
    ensures res.Ok? && res.value.value.values.Some? ==>
      var inline := ReadValues(BR.Skip(r, 4 + OffsetSize(v)), res.value.value.tagType, res.value.value.count);
      inline.Ok? && inline.value.value == res.value.value.values.value
  {
    var head :- ReadEntryHead(r, v);
    var field :- ReadValueField(head.next, v, head.value.1, head.value.2, r.pos + EntrySize(v));
    Ok(BR.Read(DirectoryEntry(r.pos, head.value.0, head.value.1, head.value.2, field.value.0, field.value.1), field.next))
  }

  /** The tag, the type and the count that open an entry, read in turn. */
  function ReadEntryHead(r: Reader, v: FormatVersion): (res: Result<BR.Read<(Tag, TagType, int)>>)
    ensures res.Ok? <==> r.pos + 4 + OffsetSize(v) <= |r.data|
    ensures res.Err? ==> res.error == Trapped(FailedAssertion)
    ensures res.Ok? ==>
      res.value == BR.Read((TagFrom(U16At(r, 0)), TagTypeFrom(U16At(r, 2)), FieldAt(r, 4, v)), BR.Skip(r, 4 + OffsetSize(v)))
    ensures res.Ok? && v == V42 ==> 0 <= res.value.value.2 < 0x1_0000_0000
    ensures res.Ok? && v == V43 ==> InInt64(res.value.value.2)
  {
    var tagV :- BFR.Get(r, 2, false);
    var tagTypeV :- BFR.Get(tagV.next, 2, false);
    var count :- ReadTagCount(tagTypeV.next, v);
    EntryHead(r, v);
    Ok(BR.Read((TagFrom(tagV.value), TagTypeFrom(tagTypeV.value), count.value), count.next))
  }

  /**
   * The value-or-offset field of an entry, the cursor `c` just after the
   * count: the values when `count * size` fits in the field, then a seek to
   * the entry's end `end`; the offset to the values otherwise.
   */
  function ReadValueField(c: Reader, v: FormatVersion, t: TagType, count: int, end: int)
    : (res: Result<BR.Read<(Option<Value>, Option<int>)>>)
    ensures !InInt64(count * TypeSize(t)) ==> res == Fail(Overflow)
    ensures InInt64(count * TypeSize(t)) && count * TypeSize(t) <= OffsetSize(v) ==>
      (res.Ok? <==> ReadValues(c, t, count).Ok? && 0 <= end < |c.data|)
    ensures InInt64(count * TypeSize(t)) && count * TypeSize(t) > OffsetSize(v) ==>
      (res.Ok? <==> c.pos + OffsetSize(v) <= |c.data|)
    ensures res.Ok? ==> (res.value.value.0.Some? <==> res.value.value.1.None?)
    ensures res.Ok? ==> (res.value.value.0.Some? <==> count * TypeSize(t) <= OffsetSize(v))
    ensures res.Ok? && res.value.value.0.Some? ==>
      && ReadValues(c, t, count).Ok?
      && res.value.value.0.value == ReadValues(c, t, count).value.value
      && 0 <= end < |c.data| && res.value.next == c.(pos := end)
    ensures res.Ok? && res.value.value.1.Some? ==>
      && c.pos + OffsetSize(v) <= |c.data|
      && res.value.value.1.value == FieldAt(c, 0, v)
      && res.value.next == BR.Skip(c, OffsetSize(v))
  {
    var size :- Checked(count * TypeSize(t));
    if size <= OffsetSize(v) then
      var vals :- ReadValues(c, t, count);
      var after :- BFR.SeekTo(vals.next, end);
      Ok(BR.Read((Some(vals.value), None), after))
    else
      var offset :- ReadOffset(c, v);
      FieldIsRead(c, v);
      Ok(BR.Read((None, Some(offset.value)), offset.next))
  }

  /** An offset-sized field read at the cursor is the field's value. */
  lemma FieldIsRead(r: Reader, v: FormatVersion)
    requires r.pos + OffsetSize(v) <= |r.data|
    ensures ReadField(r, OffsetSize(v), v) == Ok(BR.Read(FieldAt(r, 0, v), BR.Skip(r, OffsetSize(v))))
  {
    assert BR.Ahead(r, OffsetSize(v)) == r.data[r.pos..r.pos + OffsetSize(v)];
  }

  /** The tag, type and count fields that open an entry, read in turn. */
  lemma EntryHead(r: Reader, v: FormatVersion)
    requires r.pos + 4 + OffsetSize(v) <= |r.data|
    ensures BFR.Get(r, 2, false) == Ok(BR.Read(U16At(r, 0), BR.Skip(r, 2)))
    ensures BFR.Get(BR.Skip(r, 2), 2, false) == Ok(BR.Read(U16At(r, 2), BR.Skip(r, 4)))
    ensures ReadTagCount(BR.Skip(r, 4), v) == Ok(BR.Read(FieldAt(r, 4, v), BR.Skip(r, 4 + OffsetSize(v))))
  {
    BFR.GetUnsigned(r, 2);
    BFR.GetUnsigned(BR.Skip(r, 2), 2);
    FieldIsRead(BR.Skip(r, 4), v);
    assert FieldAt(BR.Skip(r, 4), 0, v) == FieldAt(r, 4, v);
  }

  /** The tag, type and count fields a writer puts at the start of a directory entry. */
  function EncodeEntryHead(tagCode: nat, typeCode: nat, count: int, v: FormatVersion, bigEndian: bool): (bs: seq<byte>)
    requires tagCode < 0x1_0000 && typeCode < 0x1_0000
    requires FieldFits(count, OffsetSize(v), v)
    ensures |bs| == 4 + OffsetSize(v)
  {
    PowValues();
    Encode(tagCode, 2, bigEndian) + Encode(typeCode, 2, bigEndian) + EncodeField(count, OffsetSize(v), v, bigEndian)
  }

  /** The opening fields of an entry, read back from their encoding, give the encoded codes and count. */
  lemma EncodedHeadFields(prefix: seq<byte>, tagCode: nat, typeCode: nat, count: int, rest: seq<byte>, v: FormatVersion, bigEndian: bool)
    requires tagCode < 0x1_0000 && typeCode < 0x1_0000
    requires FieldFits(count, OffsetSize(v), v)
    ensures
      var r := BR.Reader(prefix + EncodeEntryHead(tagCode, typeCode, count, v, bigEndian) + rest, |prefix|, bigEndian);
      && r.pos + 4 + OffsetSize(v) <= |r.data|
      && U16At(r, 0) == tagCode && U16At(r, 2) == typeCode && FieldAt(r, 4, v) == count
  {
    PowValues();
    var a := Encode(tagCode, 2, bigEndian);
    var b := Encode(typeCode, 2, bigEndian);
    var c := EncodeField(count, OffsetSize(v), v, bigEndian);
    var h := EncodeEntryHead(tagCode, typeCode, count, v, bigEndian);
    var data := prefix + h + rest;
    var p := |prefix|;
    FieldSlice(data, prefix, h, rest);
    assert h[0..2] == a && h[2..4] == b && h[4..] == c;
    SubSlice(data, p, h, 0, 2);
    SubSlice(data, p, h, 2, 2);
    SubSlice(data, p, h, 4, OffsetSize(v));
    BytesAt(data, p, 0, a, v, bigEndian);
    BytesAt(data, p, 2, b, v, bigEndian);
    BytesAt(data, p, 4, c, v, bigEndian);
    EncodeFieldInverts(count, v, bigEndian);
  }

  /** The fields at byte `k` of a reader whose data holds `y` there. */
  lemma BytesAt(data: seq<byte>, p: nat, k: nat, y: seq<byte>, v: FormatVersion, bigEndian: bool)
    requires p + k + |y| <= |data| && data[p + k..p + k + |y|] == y
    ensures |y| == 2 ==> U16At(BR.Reader(data, p, bigEndian), k) == Decode(y, bigEndian)
    ensures |y| == OffsetSize(v) ==> FieldAt(BR.Reader(data, p, bigEndian), k, v) == IntOf(y, bigEndian, v == V43)
  {
  }

  /** An encoded offset-sized field reads back as its value. */
  lemma EncodeFieldInverts(x: int, v: FormatVersion, bigEndian: bool)
    requires FieldFits(x, OffsetSize(v), v)
    ensures IntOf(EncodeField(x, OffsetSize(v), v, bigEndian), bigEndian, v == V43) == x
  {
    InterpretInvertsBits(x, OffsetSize(v), v == V43);
  }

  /** A slice of bytes found at `p` is found `k` bytes further on in the data. */
  lemma SubSlice(data: seq<byte>, p: nat, h: seq<byte>, k: nat, n: nat)
    requires p + |h| <= |data| && data[p..p + |h|] == h && k + n <= |h|
    ensures data[p + k..p + k + n] == h[k..k + n]
  {
    BR.AheadSlice(BR.Reader(data, p, false), |h|, k, k + n);
  }

  /** A field of a concatenation, sliced back out. */
  lemma FieldSlice(data: seq<byte>, x: seq<byte>, y: seq<byte>, z: seq<byte>)
    requires data == x + y + z
    ensures data[|x|..|x| + |y|] == y
  {
  }

  /**
   * An entry whose opening fields are readable: an overflowing byte size
   * traps, a size beyond the offset field gives the entry with its offset,
   * and a size within it gives the entry with the values `readValues`
   * finds in the field, when a byte follows the entry.
   */
  lemma ReadDirectoryEntryCases(r: Reader, v: FormatVersion)
    requires r.pos + 4 + OffsetSize(v) <= |r.data|
    ensures
      var t := TagTypeFrom(U16At(r, 2));
      var count := FieldAt(r, 4, v);
      var res := ReadDirectoryEntry(r, v);
      && (!InInt64(count * TypeSize(t)) ==> res == Fail(Overflow))
      && (InInt64(count * TypeSize(t)) && count * TypeSize(t) > OffsetSize(v) && r.pos + EntrySize(v) <= |r.data| ==>
            res == Ok(BR.Read(DirectoryEntry(r.pos, TagFrom(U16At(r, 0)), t, count, None, Some(FieldAt(r, 4 + OffsetSize(v), v))),
                              BR.Skip(r, EntrySize(v)))))
      && (InInt64(count * TypeSize(t)) && count * TypeSize(t) <= OffsetSize(v) ==>
            var inline := ReadValues(BR.Skip(r, 4 + OffsetSize(v)), t, count);
            && (res.Ok? <==> inline.Ok? && r.pos + EntrySize(v) < |r.data|)
            && (res.Ok? ==>
                  res.value == BR.Read(DirectoryEntry(r.pos, TagFrom(U16At(r, 0)), t, count, Some(inline.value.value), None),
                                       BR.Skip(r, EntrySize(v)))))
  {
    ReadDirectoryEntryIsField(r, v);
    var t := TagTypeFrom(U16At(r, 2));
    var count := FieldAt(r, 4, v);
    var c := BR.Skip(r, 4 + OffsetSize(v));
    var field := ReadValueField(c, v, t, count, r.pos + EntrySize(v));
    if field.Ok? && field.value.value.1.Some? {
      assert field.value.next == BR.Skip(r, EntrySize(v));
    }
  }

  /** Once the opening fields are read, an entry is its value-or-offset field. */
  lemma ReadDirectoryEntryIsField(r: Reader, v: FormatVersion)
    requires r.pos + 4 + OffsetSize(v) <= |r.data|
    ensures
      var t := TagTypeFrom(U16At(r, 2));
      var count := FieldAt(r, 4, v);
      var field := ReadValueField(BR.Skip(r, 4 + OffsetSize(v)), v, t, count, r.pos + EntrySize(v));
      ReadDirectoryEntry(r, v) ==
        if field.Ok? then Ok(BR.Read(DirectoryEntry(r.pos, TagFrom(U16At(r, 0)), t, count, field.value.value.0, field.value.value.1), field.value.next))
        else Err(field.error)
  {
    assert ReadEntryHead(r, v).Ok?;
  }

  /**
   * Every entry a writer produces is read back with its tag, type and count.
   * A count whose byte size overflows `Int` traps; an entry whose values do
   * not fit the offset field carries the field's offset and ends one stride
   * on; an inline entry carries the values `readValues` finds in the field,
   * and needs a byte after the entry for the closing `seek(to:)`.
   */
  lemma ReadDirectoryEntryInvertsEncode(
    prefix: seq<byte>, tagCode: nat, typeCode: nat, count: int, field: seq<byte>, suffix: seq<byte>,
    v: FormatVersion, bigEndian: bool)
    requires tagCode < 0x1_0000 && typeCode < 0x1_0000
    requires FieldFits(count, OffsetSize(v), v)
    requires |field| == OffsetSize(v)
    ensures
      var r := BR.Reader(prefix + EncodeEntryHead(tagCode, typeCode, count, v, bigEndian) + field + suffix, |prefix|, bigEndian);
      var t := TagTypeFrom(typeCode);
      var res := ReadDirectoryEntry(r, v);
      && (!InInt64(count * TypeSize(t)) ==> res == Fail(Overflow))
      && (InInt64(count * TypeSize(t)) && count * TypeSize(t) > OffsetSize(v) ==>
            res == Ok(BR.Read(DirectoryEntry(|prefix|, TagFrom(tagCode), t, count, None, Some(IntOf(field, bigEndian, v == V43))),
                              BR.Skip(r, EntrySize(v)))))
      && (InInt64(count * TypeSize(t)) && count * TypeSize(t) <= OffsetSize(v) ==>
            var inline := ReadValues(BR.Skip(r, 4 + OffsetSize(v)), t, count);
            && (res.Ok? <==> inline.Ok? && |suffix| > 0)
            && (res.Ok? ==>
                  res.value == BR.Read(DirectoryEntry(|prefix|, TagFrom(tagCode), t, count, Some(inline.value.value), None),
                                       BR.Skip(r, EntrySize(v)))))
  {
    var head := EncodeEntryHead(tagCode, typeCode, count, v, bigEndian);
    var data := prefix + head + field + suffix;
    var r := BR.Reader(data, |prefix|, bigEndian);
    var w := OffsetSize(v);
    assert data == prefix + head + (field + suffix);
    EncodedHeadFields(prefix, tagCode, typeCode, count, field + suffix, v, bigEndian);
    FieldSlice(data, prefix + head, field, suffix);
    BytesAt(data, |prefix|, 4 + w, field, v, bigEndian);
    assert FieldAt(r, 4 + w, v) == IntOf(field, bigEndian, v == V43);
    ReadDirectoryEntryCases(r, v);
  }

  /** `validateInt(count:)`: the integer values of an entry whose count is `count`. */
  function ValidateInt(e: DirectoryEntry, count: int): (res: Result<seq<int>>)
    ensures res.Ok? <==> e.values.Some? && e.values.value.IntValues? && e.count == count
    ensures res.Ok? ==> res.value == e.values.value.ints
    ensures res.Err? ==> res.error == InvalidTIFFFormat
  {
    if e.values.Some? && e.values.value.IntValues? && e.count == count then Ok(e.values.value.ints)
    else Err(InvalidTIFFFormat)
  }

  /** `validateOffset()`: the offset of an entry whose values did not fit in the entry. */
  function ValidateOffset(e: DirectoryEntry): (res: Result<int>)
    ensures res.Ok? <==> e.offset.Some?
    ensures res.Ok? ==> res.value == e.offset.value
    ensures res.Err? ==> res.error == InvalidTIFFFormat
  {
    if e.offset.Some? then Ok(e.offset.value) else Err(InvalidTIFFFormat)
  }

  /**
   * The first integer value of a single-valued entry of one of the
   * `allowed` types, converted with a trapping `UInt16(_)` or `UInt32(_)`
   * initialiser; `values.first!` traps on an empty array.
   */
  function ValidateSingle(e: DirectoryEntry, allowed: set<TagType>, bound: nat): (res: Result<nat>)
    ensures res.Ok? ==> e.count == 1 && e.tagType in allowed && e.values.Some? && e.values.value.IntValues?
    ensures res.Ok? ==> |e.values.value.ints| > 0 && res.value == e.values.value.ints[0] < bound
    ensures !(e.count == 1 && e.tagType in allowed && e.values.Some? && e.values.value.IntValues?) ==>
      res == Err(TagTypeConversionError)
  {
    if !(e.count == 1 && e.tagType in allowed && e.values.Some? && e.values.value.IntValues?) then
      Err(TagTypeConversionError)
    else if |e.values.value.ints| == 0 then Fail(UnwrappedNil)
    else
      var x := e.values.value.ints[0];
      if 0 <= x < bound then Ok(x) else Fail(Overflow)
  }

  /** `validateUInt16()`: a single `byte` or `short`. */
  function ValidateUInt16(e: DirectoryEntry): (res: Result<nat>)
    ensures res.Ok? ==> e.count == 1 && (e.tagType == Byte || e.tagType == Short)
    ensures res.Ok? ==> e.values.Some? && e.values.value.IntValues? && |e.values.value.ints| > 0
    ensures res.Ok? ==> res.value == e.values.value.ints[0] < 0x1_0000
    ensures !(e.count == 1 && (e.tagType == Byte || e.tagType == Short)) ==> res == Err(TagTypeConversionError)
  {
    ValidateSingle(e, {Byte, Short}, 0x1_0000)
  }

  /** `validateUInt32()`: a single `byte`, `short` or `long`. */
  function ValidateUInt32(e: DirectoryEntry): (res: Result<nat>)
    ensures res.Ok? ==> e.count == 1 && (e.tagType == Byte || e.tagType == Short || e.tagType == Long)
    ensures res.Ok? ==> e.values.Some? && e.values.value.IntValues? && |e.values.value.ints| > 0
    ensures res.Ok? ==> res.value == e.values.value.ints[0] < 0x1_0000_0000
    ensures !(e.count == 1 && (e.tagType == Byte || e.tagType == Short || e.tagType == Long)) ==>
      res == Err(TagTypeConversionError)
  {
    ValidateSingle(e, {Byte, Short, Long}, 0x1_0000_0000)
  }

  /**
   * On an entry `readDirectoryEntry` produced, the single-value validators
   * never trap: they succeed exactly for one value of an allowed type, and
   * that value is the entry's only one.
   */
  lemma ValidateWellFormed(e: DirectoryEntry, v: FormatVersion)
    requires WellFormed(e, v)
    ensures ValidateUInt16(e).Ok? <==> e.count == 1 && (e.tagType == Byte || e.tagType == Short)
    ensures ValidateUInt16(e).Ok? ==> e.values == Some(IntValues([ValidateUInt16(e).value]))
    ensures ValidateUInt32(e).Ok? <==> e.count == 1 && (e.tagType == Byte || e.tagType == Short || e.tagType == Long)
    ensures ValidateUInt32(e).Ok? ==> e.values == Some(IntValues([ValidateUInt32(e).value]))
    ensures ValidateInt(e, e.count).Ok? <==> e.values.Some? && IsIntType(e.tagType)
  {
    PowValues();
    if e.count == 1 && (e.tagType == Byte || e.tagType == Short || e.tagType == Long) {
      assert e.count * TypeSize(e.tagType) <= OffsetSize(v);
      var ints := e.values.value.ints;
      assert |ints| == 1 && InTypeRange(ints[0], e.tagType);
      assert ints == [ints[0]];
    }
  }

  /** The body of `readString`'s `at` blocks: `count - 1` bytes of text, leaving out the trailing NUL. */
  function StringOp(r: Reader, count: int): (res: Result<BR.Read<string>>)
    ensures res.Ok? ==> |res.value.value| == count - 1 && 0 <= r.pos + count - 1 <= |r.data|
    ensures res.Ok? ==> forall i :: 0 <= i < count - 1 ==> res.value.value[i] as int == r.data[r.pos + i]
    ensures 1 <= count && r.pos + count - 1 <= |r.data| ==>
      (res.Ok? <==> forall i :: r.pos <= i < r.pos + count - 1 ==> r.data[i] < 0x80)
    ensures res.Err? && 1 <= count && r.pos + count - 1 <= |r.data| ==> res.error == InvalidTIFFFormat
  {
    var s :- BR.GetString(r, count - 1);
    if s.None? then Err(InvalidTIFFFormat) else Ok(BR.Read(s.value, r))
  }

  /**
   * `readString(entry:)`: the text of an ASCII entry of at least two bytes,
   * read inside the entry when it fits in the offset field and at the
   * entry's offset otherwise. The reader's cursor is restored afterwards.
   */
  function ReadString(r: Reader, e: DirectoryEntry, v: FormatVersion): (res: Result<string>)
    ensures e.count < 2 ==> res == Err(InvalidTIFFFormat)
    ensures res.Ok? ==> |res.value| == e.count - 1
    ensures res.Ok? && e.count <= OffsetSize(v) ==>
      var at := e.location + 4 + OffsetSize(v);
      0 <= at && at + e.count - 1 <= |r.data| && forall i :: 0 <= i < e.count - 1 ==> res.value[i] as int == r.data[at + i]
    ensures res.Ok? && e.count > OffsetSize(v) ==>
      e.offset.Some? && 0 <= e.offset.value && e.offset.value + e.count - 1 <= |r.data|
      && forall i :: 0 <= i < e.count - 1 ==> res.value[i] as int == r.data[e.offset.value + i]
  {
    if e.count < 2 then Err(InvalidTIFFFormat)
    else if e.count <= OffsetSize(v) then
      var s :- BFR.At(r, e.location + 4 + OffsetSize(v), (c: Reader) => StringOp(c, e.count));
      Ok(s.value)
    else
      var offset :- ValidateOffset(e);
      var s :- BFR.At(r, offset, (c: Reader) => StringOp(c, e.count));
      Ok(s.value)
  }

  /**
   * `readString(entry:)` as written: the inline branch is taken only for a
   * count strictly below the offset size, so a string that fills the offset
   * field exactly is looked up through an offset the entry does not have.
   */
  function ReadStringAsWritten(r: Reader, e: DirectoryEntry, v: FormatVersion): (res: Result<string>)
    ensures e.count != OffsetSize(v) ==> res == ReadString(r, e, v)
  {
    if e.count < 2 then Err(InvalidTIFFFormat)
    else if e.count < OffsetSize(v) then
      var s :- BFR.At(r, e.location + 4 + OffsetSize(v), (c: Reader) => StringOp(c, e.count));
      Ok(s.value)
    else
      var offset :- ValidateOffset(e);
      var s :- BFR.At(r, offset, (c: Reader) => StringOp(c, e.count));
      Ok(s.value)
  }

  /** An inline ASCII entry's text is the string read from its value field, under either byte order. */
  lemma InlineEntryText(r: Reader, v: FormatVersion, r2: Reader)
    requires ReadDirectoryEntry(r, v).Ok?
    requires
      var e := ReadDirectoryEntry(r, v).value.value;
      e.tagType == Ascii && e.count >= 2 && e.values.Some?
    requires r2.data == r.data
    ensures
      var e := ReadDirectoryEntry(r, v).value.value;
      var at := r.pos + 4 + OffsetSize(v);
      && e.location == r.pos && e.count <= OffsetSize(v)
      && StringOp(r2.(pos := at), e.count).Ok?
      && StringOp(r2.(pos := at), e.count).value.value == e.values.value.text
  {
    var e := ReadDirectoryEntry(r, v).value.value;
    var at := r.pos + 4 + OffsetSize(v);
    var inline := ReadValues(BR.Skip(r, 4 + OffsetSize(v)), Ascii, e.count);
    assert inline == ReadAsciiValue(BR.Skip(r, 4 + OffsetSize(v)), e.count);
    assert e.count <= OffsetSize(v);
    assert StringOp(r2.(pos := at), e.count).value.value == inline.value.value.text;
  }

  /**
   * For every inline ASCII entry `readDirectoryEntry` produced,
   * `readString` returns the text already read into the entry, from any
   * cursor position of the same file.
   */
  lemma ReadStringMatchesEntry(r: Reader, v: FormatVersion, r2: Reader)
    requires ReadDirectoryEntry(r, v).Ok?
    requires
      var e := ReadDirectoryEntry(r, v).value.value;
      e.tagType == Ascii && e.count >= 2 && e.values.Some?
    requires r2.data == r.data && r2.pos < |r.data|
    ensures
      var e := ReadDirectoryEntry(r, v).value.value;
      ReadString(r2, e, v) == Ok(e.values.value.text)
  {
    InlineEntryText(r, v, r2);
  }

  /**
   * As written, every inline ASCII entry whose text fills the offset field
   * exactly (three characters and a NUL in classic TIFF) is rejected.
   */
  lemma ReadStringAsWrittenRejectsFullField(e: DirectoryEntry, v: FormatVersion, r: Reader)
    requires WellFormed(e, v) && e.tagType == Ascii && e.count == OffsetSize(v)
    ensures e.values.Some?
    ensures ReadStringAsWritten(r, e, v) == Err(InvalidTIFFFormat)
  {
    assert e.count * TypeSize(e.tagType) == OffsetSize(v);
  }

  /** A classic little-endian entry holding the text "abc" and its NUL in its offset field. */
  function AbcEntryBytes(): seq<byte> {
    [0x0e, 0x01, 0x02, 0x00, 0x04, 0x00, 0x00, 0x00, 0x61, 0x62, 0x63, 0x00, 0x00]
  }

  /** The tag field of the entry above: 270. */
  lemma AbcTag()
    ensures U16At(BR.Reader(AbcEntryBytes(), 0, false), 0) == 0x10e
  {
    var r := BR.Reader(AbcEntryBytes(), 0, false);
    assert r.data[0..2] == [0x0e, 0x01];
    BR.Decode2([0x0e, 0x01]);
  }

  /** The type field of the entry above: 2 (`ascii`). */
  lemma AbcType()
    ensures U16At(BR.Reader(AbcEntryBytes(), 0, false), 2) == 2
  {
    var r := BR.Reader(AbcEntryBytes(), 0, false);
    assert r.data[2..4] == [0x02, 0x00];
    BR.Decode2([0x02, 0x00]);
  }

  /** The count field of the entry above: 4. */
  lemma AbcCount()
    ensures FieldAt(BR.Reader(AbcEntryBytes(), 0, false), 4, V42) == 4
  {
    var r := BR.Reader(AbcEntryBytes(), 0, false);
    var bs: seq<byte> := [0x04, 0x00, 0x00, 0x00];
    assert r.data[4..8] == bs;
    BR.Decode4(bs);
  }

  /** The value field of the entry above holds "abc" and a NUL. */
  lemma AbcText()
    ensures
      var r := BR.Reader(AbcEntryBytes(), 8, false);
      ReadValues(r, Ascii, 4) == Ok(BR.Read(AsciiValue("abc"), r))
  {
    var r := BR.Reader(AbcEntryBytes(), 8, false);
    var s := BR.GetString(r, 3);
    assert s.Ok? && s.value.Some?;
    assert s.value.value == "abc" by {
      assert |s.value.value| == 3;
      assert s.value.value[0] as int == 0x61 && s.value.value[1] as int == 0x62 && s.value.value[2] as int == 0x63;
    }
  }

  /** An entry whose values fit its offset field reads as those values, stored inline. */
  lemma InlineEntryRead(r: Reader, v: FormatVersion, tag: nat, t: TagType, count: int, val: Value)
    requires r.pos + EntrySize(v) < |r.data|
    requires U16At(r, 0) == tag && TagTypeFrom(U16At(r, 2)) == t && FieldAt(r, 4, v) == count
    requires InInt64(count * TypeSize(t)) && count * TypeSize(t) <= OffsetSize(v)
    requires ReadValues(BR.Skip(r, 4 + OffsetSize(v)), t, count) == Ok(BR.Read(val, BR.Skip(r, 4 + OffsetSize(v))))
    ensures ReadDirectoryEntry(r, v) == Ok(BR.Read(DirectoryEntry(r.pos, TagFrom(tag), t, count, Some(val), None), BR.Skip(r, EntrySize(v))))
  {
    ReadDirectoryEntryCases(r, v);
  }

  /** The entry above, read whole. */
  lemma AbcEntry()
    ensures
      var r := BR.Reader(AbcEntryBytes(), 0, false);
      ReadDirectoryEntry(r, V42) == Ok(BR.Read(DirectoryEntry(0, TagFrom(0x10e), Ascii, 4, Some(AsciiValue("abc")), None), BR.Skip(r, 12)))
  {
    var r := BR.Reader(AbcEntryBytes(), 0, false);
    AbcTag();
    AbcType();
    AbcCount();
    AbcText();
    assert TagTypeFrom(2) == Ascii;
    assert BR.Skip(r, 8) == BR.Reader(AbcEntryBytes(), 8, false);
    InlineEntryRead(r, V42, 0x10e, Ascii, 4, AsciiValue("abc"));
  }

  /** The entry above reads as ASCII "abc"; the corrected `readString` returns it and the original rejects it. */
  lemma AbcEntryRejectedAsWritten()
    ensures
      var r := BR.Reader(AbcEntryBytes(), 0, false);
      var res := ReadDirectoryEntry(r, V42);
      && res.Ok? && res.value.value.tagType == Ascii && res.value.value.count == 4
      && ReadString(r, res.value.value, V42) == Ok("abc")
      && ReadStringAsWritten(r, res.value.value, V42) == Err(InvalidTIFFFormat)
  {
    var r := BR.Reader(AbcEntryBytes(), 0, false);
    AbcEntry();
    ReadStringMatchesEntry(r, V42, r);
    ReadStringAsWrittenRejectsFullField(ReadDirectoryEntry(r, V42).value.value, V42, r);
  }

  /** `TIFFImageA.GeoKeyEntry`: a key, the tag holding its value (or none), a count and a value or index. */
  datatype GeoKeyEntry = GeoKeyEntry(key: GeoKey, tagLoc: Tag, count: nat, valueOffset: nat)

  /** The `tagLoc` of a key entry: 0 means the value is the entry's own `valueOffset`. */
  function TagLocFrom(raw: nat): (t: Tag)
    ensures t == NoTag <==> raw == 0
    ensures raw != 0 ==> TagCode(t) == Some(raw)
  {
    if raw == 0 then NoTag else TagFrom(raw)
  }

  /** `readGeoKeyEntry()`: four unsigned 16-bit fields at the cursor. */
  function ReadGeoKeyEntry(r: Reader): (res: Result<BR.Read<GeoKeyEntry>>)
    ensures res.Ok? <==> r.pos + 8 <= |r.data|
    ensures res.Err? ==> res.error == Trapped(FailedAssertion)
    ensures res.Ok? ==> res.value.next == BR.Skip(r, 8)
    ensures res.Ok? ==>
      && GeoKeyCode(res.value.value.key) == U16At(r, 0)
      && (res.value.value.tagLoc == NoTag <==> U16At(r, 2) == 0)
      && res.value.value.count == U16At(r, 4) && res.value.value.valueOffset == U16At(r, 6)
  {
    var kv :- BFR.Get(r, 2, false);
    var tagV :- BFR.Get(kv.next, 2, false);
    var count :- BFR.Get(tagV.next, 2, false);
    var valueOffset :- BFR.Get(count.next, 2, false);
    assert BR.Ahead(r, 2) == r.data[r.pos..r.pos + 2];
    Ok(BR.Read(GeoKeyEntry(GeoKeyFrom(kv.value), TagLocFrom(tagV.value), count.value, valueOffset.value), valueOffset.next))
  }

  /** The key entry an 8-byte chunk holds; a shorter chunk never occurs in a run. */
  function GeoKeyEntryOf(bs: seq<byte>, bigEndian: bool): GeoKeyEntry {
    if |bs| < 8 then GeoKeyEntry(GeoKeyFrom(0), NoTag, 0, 0)
    else
      GeoKeyEntry(GeoKeyFrom(Decode(bs[0..2], bigEndian)), TagLocFrom(Decode(bs[2..4], bigEndian)),
                  Decode(bs[4..6], bigEndian), Decode(bs[6..8], bigEndian))
  }

  /** The four 16-bit reads of a key entry decode consecutive pairs of its eight bytes. */
  lemma GeoKeyFieldReads(cur: Reader)
    requires cur.pos + 8 <= |cur.data|
    ensures
      var ch, be := BR.Ahead(cur, 8), cur.bigEndian;
      && BFR.Get(cur, 2, false) == Ok(BR.Read(Decode(ch[0..2], be), BR.Skip(cur, 2)))
      && BFR.Get(BR.Skip(cur, 2), 2, false) == Ok(BR.Read(Decode(ch[2..4], be), BR.Skip(cur, 4)))
      && BFR.Get(BR.Skip(cur, 4), 2, false) == Ok(BR.Read(Decode(ch[4..6], be), BR.Skip(cur, 6)))
      && BFR.Get(BR.Skip(cur, 6), 2, false) == Ok(BR.Read(Decode(ch[6..8], be), BR.Skip(cur, 8)))
  {
    assert BR.Skip(cur, 0) == cur;
    BFR.GetUnsignedAt(cur, 8, 0, 2);
    BFR.GetUnsignedAt(cur, 8, 2, 2);
    BFR.GetUnsignedAt(cur, 8, 4, 2);
    BFR.GetUnsignedAt(cur, 8, 6, 2);
  }

  /** `readGeoKeyEntry()` decodes the eight bytes at the cursor. */
  lemma ReadGeoKeyEntryDecodes(cur: Reader)
    requires cur.pos + 8 <= |cur.data|
    ensures ReadGeoKeyEntry(cur).Ok?
    ensures ReadGeoKeyEntry(cur).value.value == GeoKeyEntryOf(BR.Ahead(cur, 8), cur.bigEndian)
  {
    var ch, be := BR.Ahead(cur, 8), cur.bigEndian;
    GeoKeyFieldReads(cur);
    var e := GeoKeyEntry(GeoKeyFrom(Decode(ch[0..2], be)), TagLocFrom(Decode(ch[2..4], be)), Decode(ch[4..6], be), Decode(ch[6..8], be));
    assert GeoKeyEntryOf(ch, be) == e;
    assert ReadGeoKeyEntry(cur) == Ok(BR.Read(e, BR.Skip(cur, 8)));
  }

  /** The eight bytes of a key entry with the given raw fields. */
  function EncodeGeoKeyFields(key: nat, tagLoc: nat, count: nat, valueOffset: nat, bigEndian: bool): (bs: seq<byte>)
    requires key < 0x1_0000 && tagLoc < 0x1_0000 && count < 0x1_0000 && valueOffset < 0x1_0000
    ensures |bs| == 8
  {
    PowValues();
    Encode(key, 2, bigEndian) + Encode(tagLoc, 2, bigEndian) + Encode(count, 2, bigEndian) + Encode(valueOffset, 2, bigEndian)
  }

  /** Decoding the eight bytes of a key entry gives back its fields. */
  lemma GeoKeyEntryOfEncode(key: nat, tagLoc: nat, count: nat, valueOffset: nat, bigEndian: bool)
    requires key < 0x1_0000 && tagLoc < 0x1_0000 && count < 0x1_0000 && valueOffset < 0x1_0000
    ensures GeoKeyEntryOf(EncodeGeoKeyFields(key, tagLoc, count, valueOffset, bigEndian), bigEndian)
      == GeoKeyEntry(GeoKeyFrom(key), TagLocFrom(tagLoc), count, valueOffset)
  {
    PowValues();
    var bs := EncodeGeoKeyFields(key, tagLoc, count, valueOffset, bigEndian);
    assert bs[0..2] == Encode(key, 2, bigEndian);
    assert bs[2..4] == Encode(tagLoc, 2, bigEndian);
    assert bs[4..6] == Encode(count, 2, bigEndian);
    assert bs[6..8] == Encode(valueOffset, 2, bigEndian);
  }

  /** `readGeoKeyEntry()` inverts the encoding of a key entry, wherever it sits. */
  lemma ReadGeoKeyEntryInvertsEncode(prefix: seq<byte>, key: nat, tagLoc: nat, count: nat, valueOffset: nat, suffix: seq<byte>, bigEndian: bool)
    requires key < 0x1_0000 && tagLoc < 0x1_0000 && count < 0x1_0000 && valueOffset < 0x1_0000
    ensures
      var r := BR.Reader(prefix + EncodeGeoKeyFields(key, tagLoc, count, valueOffset, bigEndian) + suffix, |prefix|, bigEndian);
      ReadGeoKeyEntry(r) == Ok(BR.Read(GeoKeyEntry(GeoKeyFrom(key), TagLocFrom(tagLoc), count, valueOffset), BR.Skip(r, 8)))
  {
    var bs := EncodeGeoKeyFields(key, tagLoc, count, valueOffset, bigEndian);
    var r := BR.Reader(prefix + bs + suffix, |prefix|, bigEndian);
    assert BR.Ahead(r, 8) == bs;
    ReadGeoKeyEntryDecodes(r);
    GeoKeyEntryOfEncode(key, tagLoc, count, valueOffset, bigEndian);
  }

  /**
   * `keyCount` key entries read one after another: the loop of the
   * `geoKeyDirectory` case, a run of 8-byte chunks each decoded as
   * `readGeoKeyEntry()` decodes it.
   */
  function ReadGeoKeys(r: Reader, keyCount: nat): (res: Result<BR.Read<seq<GeoKeyEntry>>>)
    ensures res.Ok? <==> keyCount == 0 || r.pos + keyCount * 8 <= |r.data|
    ensures res.Err? ==> res.error == Trapped(FailedAssertion)
    ensures res.Ok? ==> |res.value.value| == keyCount && res.value.next == BR.Nth(r, keyCount, 8)
    ensures res.Ok? ==> forall i :: 0 <= i < keyCount ==>
      ReadGeoKeyEntry(BR.Nth(r, i, 8)).Ok? && res.value.value[i] == ReadGeoKeyEntry(BR.Nth(r, i, 8)).value.value
  {
    var res := BR.ReadRun(r, keyCount, 8, GeoKeyEntryOf, Trapped(FailedAssertion));
    if res.Ok? then
      GeoKeyRun(r, res.value.value);
      res
    else res
  }

  /** A run of key-entry chunks holds, at each index, the key entry read at that place. */
  lemma GeoKeyRun(r: Reader, vs: seq<GeoKeyEntry>)
    requires BR.IsRun(r, 8, GeoKeyEntryOf, vs)
    ensures forall i :: 0 <= i < |vs| ==>
      ReadGeoKeyEntry(BR.Nth(r, i, 8)).Ok? && vs[i] == ReadGeoKeyEntry(BR.Nth(r, i, 8)).value.value
  {
    forall i | 0 <= i < |vs|
      ensures ReadGeoKeyEntry(BR.Nth(r, i, 8)).Ok? && vs[i] == ReadGeoKeyEntry(BR.Nth(r, i, 8)).value.value
    {
      var v := vs[i];
      ReadGeoKeyEntryDecodes(BR.Nth(r, i, 8));
    }
  }
}
