/**
 * Strip addressing against a decoded image: `pixelValue(x:y:)`, which
 * reads one 16-bit sample, and the offset computation of
 * `read(into:row:startX:)`, which starts a row read. Pixels are stored
 * strip after strip; strip `s` holds rows `s * rowsPerStrip` onwards, one
 * row of `width` pixels after another, starting at `stripOffsets[s]`.
 */
module Pixels {
  import opened Errors
  import opened Bytes
  import opened SwiftInt
  import opened Directory
  import opened Image
  import BR = BinaryReader
  import BFR = BinaryFileReader

  /** Where a sample sits: the offset of its strip and its index in the strip. */
  datatype StripPlace = StripPlace(stripOffset: int, index: int)

  /**
   * The first half of `pixelValue`: the strip `y / rowsPerStrip`, that
   * strip's offset, and the sample index `(y % rowsPerStrip) * width + x`,
   * in `Int` arithmetic with Swift's truncating division.
   */
  function LocateSample(ifd: IFD, x: int, y: int): (res: Result<StripPlace>)
    requires InInt64(x) && InInt64(y)
    ensures ifd.rowsPerStrip == 0 ==> res == Fail(DivisionByZero)
    ensures res.Err? ==> res.error in {Trapped(DivisionByZero), Trapped(IndexOutOfRange), Trapped(Overflow)}
    ensures ifd.rowsPerStrip > 0 && y + ifd.rowsPerStrip <= 0 ==> res == Fail(IndexOutOfRange)
  {
    if ifd.rowsPerStrip == 0 then Fail(DivisionByZero)
    else
      var strip := Quot(y, ifd.rowsPerStrip);
      if !(0 <= strip < |ifd.stripOffsets|) then Fail(IndexOutOfRange)
      else
        var rowInStrip := Rem(y, ifd.rowsPerStrip);
        var rowStart :- Checked(rowInStrip * ifd.width);
        var index :- Checked(rowStart + x);
        Ok(StripPlace(ifd.stripOffsets[strip], index))
  }

  /** `LocateSample` in terms of the strip and row Swift's division gives. */
  lemma LocateSampleAt(ifd: IFD, x: int, y: int, strip: int, row: int)
    requires InInt64(x) && InInt64(y)
    requires ifd.rowsPerStrip > 0 && Quot(y, ifd.rowsPerStrip) == strip && Rem(y, ifd.rowsPerStrip) == row
    ensures LocateSample(ifd, x, y).Ok? <==>
      0 <= strip < |ifd.stripOffsets| && InInt64(row * ifd.width) && InInt64(row * ifd.width + x)
    ensures LocateSample(ifd, x, y).Ok? ==>
      LocateSample(ifd, x, y).value == StripPlace(ifd.stripOffsets[strip], row * ifd.width + x)
  {
  }

  /**
   * For a row at or below zero, the sample is found in strip
   * `y / rowsPerStrip` at index `(y % rowsPerStrip) * width + x`, when that
   * strip exists and the index fits in `Int`.
   */
  lemma LocateSampleInRow(ifd: IFD, x: int, y: int)
    requires InInt64(x) && InInt64(y)
    requires ifd.rowsPerStrip > 0 && 0 <= y
    ensures
      var row := y % ifd.rowsPerStrip;
      LocateSample(ifd, x, y).Ok? <==>
        y / ifd.rowsPerStrip < |ifd.stripOffsets| && InInt64(row * ifd.width) && InInt64(row * ifd.width + x)
    ensures LocateSample(ifd, x, y).Ok? ==>
      LocateSample(ifd, x, y).value == StripPlace(ifd.stripOffsets[y / ifd.rowsPerStrip], (y % ifd.rowsPerStrip) * ifd.width + x)
  {
    var strip, row := y / ifd.rowsPerStrip, y % ifd.rowsPerStrip;
    assert 0 <= strip;
    LocateSampleAt(ifd, x, y, strip, row);
  }

  /**
   * A row just above zero, `-rowsPerStrip < y < 0`, truncates to strip 0
   * with a negative row, so its index lies before the strip's first sample.
   */
  lemma LocateSampleNegativeRow(ifd: IFD, x: int, y: int)
    requires InInt64(x) && InInt64(y)
    requires ifd.rowsPerStrip > 0 && 0 < y + ifd.rowsPerStrip && y < 0
    requires |ifd.stripOffsets| > 0
    ensures LocateSample(ifd, x, y).Ok? <==> InInt64(y * ifd.width) && InInt64(y * ifd.width + x)
    ensures LocateSample(ifd, x, y).Ok? ==> LocateSample(ifd, x, y).value == StripPlace(ifd.stripOffsets[0], y * ifd.width + x)
  {
    assert (-y) / ifd.rowsPerStrip == 0;
    LocateSampleAt(ifd, x, y, 0, y);
  }

  /** `Int(stripOffset) + 2 * idx`: the byte offset of a 16-bit sample. */
  function SampleOffset(place: StripPlace): (res: Result<int>)
    ensures res.Ok? <==> InInt64(2 * place.index) && InInt64(place.stripOffset + 2 * place.index)
    ensures res.Ok? ==> res.value == place.stripOffset + 2 * place.index
    ensures res.Err? ==> res == Fail(Overflow)
  {
    var twice :- Checked(2 * place.index);
    Checked(place.stripOffset + twice)
  }

  /**
   * `at(offset:op:)` with the restoring seek allowed to return to the end
   * of the data, where every read leaves the cursor once the data is used
   * up. Otherwise as `BinaryFileReader.At`: a seek outside the data traps,
   * a trap inside `op` wins, and the cursor comes back.
   */
  function AtRestoring<T>(r: BR.Reader, offset: int, op: BR.Reader -> Result<BR.Read<T>>): (res: Result<BR.Read<T>>)
    ensures res.Ok? <==> 0 <= offset < |r.data| && r.pos <= |r.data| && op(r.(pos := offset)).Ok?
    ensures res.Ok? ==> res.value == BR.Read(op(r.(pos := offset)).value.value, r)
    ensures !(0 <= offset < |r.data|) ==> res == Fail(SeekOutOfRange)
    ensures 0 <= offset < |r.data| && r.pos <= |r.data| && op(r.(pos := offset)).Err? ==>
      res.error == op(r.(pos := offset)).error
  {
    if !(0 <= offset < |r.data|) then Fail(SeekOutOfRange)
    else
      var inner := op(r.(pos := offset));
      if inner.Err? && inner.error.Trapped? then inner.PropagateFailure()
      else if r.pos > |r.data| then Fail(SeekOutOfRange)
      else if inner.Err? then inner.PropagateFailure()
      else Ok(BR.Read(inner.value.value, r))
  }

  /** The 16-bit read `pixelValue` hands to `at(offset:op:)`. */
  function GetSample(r: BR.Reader): (res: Result<BR.Read<int>>)
    ensures res.Ok? <==> r.pos + 2 <= |r.data|
    ensures res.Ok? ==> res.value.value == Bytes.Decode(BR.Ahead(r, 2), r.bigEndian)
  {
    BFR.Get(r, 2, false)
  }

  /**
   * `pixelValue(x:y:)` as written: the sample read goes through the file
   * reader's `at(offset:op:)`, whose restoring seek traps when the cursor
   * it saved is at the end of the file.
   */
  function PixelValueAsWritten(img: TIFFImage, x: int, y: int): (res: Result<int>)
    requires InInt64(x) && InInt64(y)
    ensures img.ifd.None? ==> res == Ok(0)
    ensures res.Ok? ==> 0 <= res.value < 0x1_0000
  {
    match img.ifd
    case None => Ok(0)
    case Some(ifd) =>
      var place :- LocateSample(ifd, x, y);
      if ifd.bitsPerSample != 16 then Ok(0)
      else
        var offset :- SampleOffset(place);
        var sample :- BFR.At(img.reader, offset, GetSample);
        Ok(sample.value)
  }

  /**
   * `pixelValue(x:y:)`: 0 without an IFD or for any sample size but 16
   * bits; otherwise the 16-bit word at `stripOffsets[strip] + 2 * index`
   * in the file's byte order. The cursor is restored, so the image is
   * unchanged.
   */
  function PixelValue(img: TIFFImage, x: int, y: int): (res: Result<int>)
    requires InInt64(x) && InInt64(y)
    ensures img.ifd.None? ==> res == Ok(0)
    ensures img.ifd.Some? && img.ifd.value.rowsPerStrip == 0 ==> res == Fail(DivisionByZero)
    ensures img.ifd.Some? && img.ifd.value.bitsPerSample != 16 ==>
      res == (if LocateSample(img.ifd.value, x, y).Ok? then Ok(0) else LocateSample(img.ifd.value, x, y).PropagateFailure())
    ensures res.Ok? ==> 0 <= res.value < 0x1_0000
  {
    match img.ifd
    case None => Ok(0)
    case Some(ifd) =>
      var place :- LocateSample(ifd, x, y);
      if ifd.bitsPerSample != 16 then Ok(0)
      else
        var offset :- SampleOffset(place);
        var sample :- AtRestoring(img.reader, offset, GetSample);
        Ok(sample.value)
  }

  /** A row that lies in one of the image's strips. */
  predicate RowInStrips(ifd: IFD, y: int) {
    ifd.rowsPerStrip > 0 && 0 <= y && y / ifd.rowsPerStrip < |ifd.stripOffsets|
  }

  /** The byte address of pixel `(x, y)` of a 16-bit, one-sample strip image. */
  function PixelAddress(ifd: IFD, x: int, y: int): int
    requires RowInStrips(ifd, y)
  {
    ifd.stripOffsets[y / ifd.rowsPerStrip] + 2 * ((y % ifd.rowsPerStrip) * ifd.width + x)
  }

  /** The conditions under which a pixel's address is computed without overflow. */
  predicate AddressableSample(img: TIFFImage, x: int, y: int) {
    && img.ifd.Some?
    && RowInStrips(img.ifd.value, y)
    && 0 <= x
    && 0 <= img.ifd.value.stripOffsets[y / img.ifd.value.rowsPerStrip]
    && |img.reader.data| <= INT64_MAX
    && InInt64(y) && InInt64(x)
  }

  /**
   * For a 16-bit image, `pixelValue` succeeds exactly when the two bytes
   * at the pixel's address are in the file, and then returns their value.
   */
  lemma PixelValueReadsSample(img: TIFFImage, x: int, y: int)
    requires AddressableSample(img, x, y) && img.ifd.value.bitsPerSample == 16
    requires img.reader.pos <= |img.reader.data|
    ensures
      var a, data := PixelAddress(img.ifd.value, x, y), img.reader.data;
      && (PixelValue(img, x, y).Ok? <==> a + 2 <= |data|)
      && (a + 2 <= |data| ==> PixelValue(img, x, y).value == Bytes.Decode(data[a..a + 2], img.reader.bigEndian))
  {
    var ifd := img.ifd.value;
    var row := y % ifd.rowsPerStrip;
    assert 0 <= row * ifd.width by {
      assert 0 <= row;
    }
    var a := PixelAddress(ifd, x, y);
    assert row * ifd.width + x <= a - ifd.stripOffsets[y / ifd.rowsPerStrip];
  }

  /** `pixelValue` reads back the 16-bit word a writer stores at the pixel's address. */
  lemma PixelValueInvertsEncode(img: TIFFImage, x: int, y: int, v: nat)
    requires AddressableSample(img, x, y) && img.ifd.value.bitsPerSample == 16
    requires img.reader.pos <= |img.reader.data|
    requires v < 0x1_0000
    requires
      var a := PixelAddress(img.ifd.value, x, y);
      0 <= a && a + 2 <= |img.reader.data| && img.reader.data[a..a + 2] == Encode(v, 2, img.reader.bigEndian)
    ensures PixelValue(img, x, y) == Ok(v)
  {
    PowValues();
    PixelValueReadsSample(img, x, y);
  }

  /**
   * The as-written `pixelValue` traps on every pixel once the cursor is at
   * the end of the file, where the corrected one reads the sample.
   */
  lemma PixelValueAsWrittenTrapsAtEnd(img: TIFFImage, x: int, y: int)
    requires AddressableSample(img, x, y) && img.ifd.value.bitsPerSample == 16
    requires img.reader.pos == |img.reader.data|
    requires PixelAddress(img.ifd.value, x, y) + 2 <= |img.reader.data|
    ensures PixelValueAsWritten(img, x, y) == Fail(SeekOutOfRange)
    ensures PixelValue(img, x, y).Ok?
  {
    PixelValueReadsSample(img, x, y);
    var ifd := img.ifd.value;
    var row := y % ifd.rowsPerStrip;
    assert 0 <= row;
    MulNonneg(row, ifd.width);
  }

  /** A positive multiple of a positive number is at least that number. */
  lemma MultipleAtLeast(k: int, d: int)
    requires 1 <= k && 0 < d
    ensures k * d >= d
  {
    assert k * d == (k - 1) * d + d;
  }

  /** Euclidean division is determined by any quotient and remainder in range. */
  lemma DivModOf(y: int, d: int, q: int, r: int)
    requires 0 < d && 0 <= r < d && y == q * d + r
    ensures y / d == q && y % d == r
  {
    var q', r' := y / d, y % d;
    assert (q - q') * d == r' - r by {
      assert q * d + r == q' * d + r';
    }
    if q > q' {
      MultipleAtLeast(q - q', d);
    } else if q < q' {
      MultipleAtLeast(q' - q, d);
    }
  }

  /** Row `row` of strip `s` starts `row` whole rows after the strip's offset. */
  lemma StripLayout(ifd: IFD, s: nat, row: nat, x: int)
    requires 0 < ifd.rowsPerStrip && row < ifd.rowsPerStrip && s < |ifd.stripOffsets|
    ensures RowInStrips(ifd, s * ifd.rowsPerStrip + row)
    ensures PixelAddress(ifd, x, s * ifd.rowsPerStrip + row) == ifd.stripOffsets[s] + 2 * (row * ifd.width + x)
  {
    DivModOf(s * ifd.rowsPerStrip + row, ifd.rowsPerStrip, s, row);
  }

  /**
   * `read(into:row:startX:)` up to its read: the offset
   * `stripOffsets[y / rowsPerStrip] + (y % rowsPerStrip) * rowBytes + startX * bytesPerPixel`
   * in `Int64` arithmetic, where `bytesPerPixel` is
   * `samplesPerPixel * bitsPerSample / 8` computed in `UInt16` and
   * `rowBytes` is `width * bytesPerPixel`.
   */
  function RowStart(img: TIFFImage, y: int, startX: int): (res: Result<int>)
    requires InInt64(y) && InInt64(startX)
    ensures img.ifd.None? ==> res == Err(NoImage)
    ensures img.ifd.Some? && img.ifd.value.rowsPerStrip == 0 ==> res == Fail(DivisionByZero)
    ensures res.Err? ==> res.error == NoImage || res.error.Trapped?
    ensures res.Ok? ==> img.ifd.Some? && img.ifd.value.samplesPerPixel * img.ifd.value.bitsPerSample < 0x1_0000
    ensures res.Ok? ==> InInt64(res.value)
  {
    match img.ifd
    case None => Err(NoImage)
    case Some(ifd) =>
      if ifd.rowsPerStrip == 0 then Fail(DivisionByZero)
      else
        var strip := Quot(y, ifd.rowsPerStrip);
        if !(0 <= strip < |ifd.stripOffsets|) then Fail(IndexOutOfRange)
        else
          var stripOffset := ifd.stripOffsets[strip];
          var rowInStrip := Rem(y, ifd.rowsPerStrip);
          var bitsPerPixel :- ToUInt16(ifd.samplesPerPixel * ifd.bitsPerSample);
          var bytesPerPixel := bitsPerPixel / 8;
          var rowBytes :- Checked(ifd.width * bytesPerPixel);
          var rowOffset :- Checked(rowInStrip * rowBytes);
          var rowAddress :- Checked(stripOffset + rowOffset);
          var columnOffset :- Checked(startX * bytesPerPixel);
          Checked(rowAddress + columnOffset)
  }

  /** The bytes one pixel occupies, as `read(into:row:startX:)` counts them. */
  function BytesPerPixel(ifd: IFD): nat {
    ifd.samplesPerPixel * ifd.bitsPerSample / 8
  }

  /** The address of column `startX` of row `y` of a strip image. */
  function RowAddress(ifd: IFD, y: int, startX: int): int
    requires RowInStrips(ifd, y)
  {
    var bpp := BytesPerPixel(ifd);
    ifd.stripOffsets[y / ifd.rowsPerStrip] + (y % ifd.rowsPerStrip) * (ifd.width * bpp) + startX * bpp
  }

  /** `RowStart` in terms of the strip and row Swift's division gives: each step traps on overflow. */
  lemma RowStartAt(img: TIFFImage, y: int, startX: int, strip: int, row: int)
    requires InInt64(y) && InInt64(startX)
    requires img.ifd.Some? && img.ifd.value.rowsPerStrip > 0
    requires Quot(y, img.ifd.value.rowsPerStrip) == strip && Rem(y, img.ifd.value.rowsPerStrip) == row
    requires 0 <= strip < |img.ifd.value.stripOffsets|
    requires img.ifd.value.samplesPerPixel * img.ifd.value.bitsPerSample < 0x1_0000
    ensures
      var ifd := img.ifd.value;
      var bpp := BytesPerPixel(ifd);
      var rowAddress := ifd.stripOffsets[strip] + row * (ifd.width * bpp);
      RowStart(img, y, startX) ==
        if InInt64(ifd.width * bpp) && InInt64(row * (ifd.width * bpp)) && InInt64(rowAddress)
          && InInt64(startX * bpp) && InInt64(rowAddress + startX * bpp)
        then Ok(rowAddress + startX * bpp)
        else Fail(Overflow)
  {
  }

  /**
   * Inside the strips, `read(into:row:startX:)` starts at the row's
   * address, and fails exactly when that address does not fit in `Int64`.
   */
  lemma RowStartIsRowAddress(img: TIFFImage, y: int, startX: int)
    requires img.ifd.Some? && RowInStrips(img.ifd.value, y)
    requires 0 <= startX && InInt64(y) && InInt64(startX)
    requires 0 <= img.ifd.value.stripOffsets[y / img.ifd.value.rowsPerStrip]
    requires img.ifd.value.width < 0x1_0000_0000
    requires img.ifd.value.samplesPerPixel * img.ifd.value.bitsPerSample < 0x1_0000
    ensures
      var a := RowAddress(img.ifd.value, y, startX);
      RowStart(img, y, startX) == if a <= INT64_MAX then Ok(a) else Fail(Overflow)
  {
    var ifd := img.ifd.value;
    var bpp := BytesPerPixel(ifd);
    var strip, row := y / ifd.rowsPerStrip, y % ifd.rowsPerStrip;
    assert 0 <= strip && 0 <= row;
    var s := ifd.stripOffsets[strip];
    var w, r, c := ifd.width * bpp, row * (ifd.width * bpp), startX * bpp;
    assert 0 <= s;
    assert w < 0x1_0000_0000 * 0x1_0000 by {
      assert bpp < 0x1_0000;
      MulBelow(ifd.width, 0x1_0000_0000, bpp, 0x1_0000);
    }
    assert 0 <= r by { MulNonneg(row, w); }
    assert 0 <= c by { MulNonneg(startX, bpp); }
    assert RowAddress(ifd, y, startX) == s + r + c;
    RowStartAt(img, y, startX, strip, row);
    SumFits(s, w, r, c);
  }

  lemma MulNonneg(a: int, b: int)
    requires 0 <= a && 0 <= b
    ensures 0 <= a * b
  {
  }

  lemma MulBelow(a: nat, m: nat, b: nat, n: nat)
    requires a < m && b < n
    ensures a * b < m * n
  {
    assert a * b <= a * n;
  }

  /**
   * A sum of three non-negative `Int64` terms is computed without trapping
   * exactly when the sum itself fits.
   */
  lemma SumFits(s: int, w: int, r: int, c: int)
    requires 0 <= s && 0 <= w < 0x1_0000_0000 * 0x1_0000 && 0 <= r && 0 <= c
    ensures InInt64(w) && InInt64(r) && InInt64(s + r) && InInt64(c) && InInt64(s + r + c) <==> s + r + c <= INT64_MAX
  {
  }

  /**
   * For one 16-bit sample per pixel, `read(into:row:startX:)` starts where
   * `pixelValue` reads pixel `(startX, y)`.
   */
  lemma RowStartMatchesPixelAddress(ifd: IFD, y: int, x: int)
    requires RowInStrips(ifd, y)
    requires ifd.samplesPerPixel == 1 && ifd.bitsPerSample == 16
    ensures RowAddress(ifd, y, x) == PixelAddress(ifd, x, y)
  {
    var row := y % ifd.rowsPerStrip;
    assert BytesPerPixel(ifd) == 2;
    assert row * (ifd.width * 2) == 2 * (row * ifd.width);
  }
}
