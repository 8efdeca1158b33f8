# TerrainFun TIFF decoder, modelled in Dafny

This project models the part of TerrainFun that decodes elevation rasters.
That part is `TIFFImageA`, a reader for classic TIFF, BigTIFF and GeoTIFF
files, together with the two byte readers it uses, `BinaryReader` and
`BinaryFileReader`.

The model covers:

- the file header and its byte-order mark;
- the first image file directory (IFD) and its directory entries, with every
  field type `readValues` knows;
- the tag `switch` that fills an `IFD`;
- the GeoTIFF key directory and `processGeoKeyEntries`;
- the code tables (tags, field types, GeoKeys, compression, predictor,
  sample format, model and raster type, angular unit, datum, ellipsoid);
- `pixelValue(x:y:)` and the address arithmetic of `read(into:row:startX:)`.

How the model works:

- A reader is an immutable record `Reader(data, pos, bigEndian)`.
  Every read returns the decoded value and the reader after it.
- Swift runtime traps become values, `Err(Trapped(kind))`. These cover an
  out-of-range subscript, a failed `precondition` or debug `assert`, integer
  overflow, a failing integer conversion, division by zero, a negative range
  and a force-unwrap of nil. A failed trap therefore ends the decode with an
  inspectable error.
- The errors the decoder throws (`invalidTIFFFormat`, `invalidOffsetSize`, …)
  are the other `Err` cases.
- `Int`, `Int64` and the unsigned widths are unbounded integers. Every
  conversion and every arithmetic step the source performs is range-checked
  explicitly, and Swift's truncating `/` and `%` are written out for negative
  operands.
- Floating-point values are kept as their IEEE-754 bit patterns. The decoder
  only copies them.

`TIFFImageA` holds a `BinaryFileReader` but calls members that only
`BinaryReader` declares: the cursor `idx`, `get(count:)` and `Double` reads.
The model therefore gives both readers one state record, and a lemma shows
the two readers' integer reads agree. Fixed-width integer reads are the file
reader's `get()`; `Double` reads, strings and arrays are `BinaryReader`'s.
Three calls in the decoder match no member either reader declares. For them
the model makes a choice of its own, listed under "## Left out": the `Float`
read, an `Int` count handed to `get(count:)`, and the `[Int64]` array read.

Where the code and the prose description of the decoder disagree, the model
follows the code. Nine places in the code look like defects; they are listed
under "## Findings". Each is modelled twice:

- a member that does what the code does as written, with a lemma that names
  an input on which it goes wrong;
- a corrected member, with the intended property proved.

The decoder pipeline, `Image.Decode` and the members it is built from, uses
the corrected members. So where a defect lies on its path, the pipeline
differs from the code as written. "## Left out" names each such member and
the corrected behaviour it uses.

## Model

| member | source | states |
|---|---|---|
| BinaryReader.GetU16 | TerrainFun/BinaryReader.swift:95-114 | Reads the two bytes at the cursor in the reader's byte order. Traps exactly when fewer than two bytes remain. Advances the cursor by two. |
| BinaryReader.GetU32 | TerrainFun/BinaryReader.swift:70-93 | Reads the four bytes at the cursor as a value below 2^32 in the reader's byte order. Traps exactly when fewer than four bytes remain. |
| BinaryReader.GetU64 | TerrainFun/BinaryReader.swift:48-68 | Reads the eight bytes at the cursor in the reader's byte order. Traps exactly when fewer than eight bytes remain. |
| BinaryReader.GetDouble | TerrainFun/BinaryReader.swift:116-153 | A `Double` is the bit pattern of the eight bytes at the cursor, assembled in the reader's byte order. |
| BinaryReader.DoubleIsU64Pattern | TerrainFun/BinaryReader.swift:116-153 | The `Double` read succeeds exactly when the `UInt64` read does. Both take the same bits and leave the cursor in the same place. |
| BinaryReader.GetString | TerrainFun/BinaryReader.swift:155-162 | A negative count, or one past the end, traps the subscript. Otherwise the result is nil exactly when some byte is not ASCII, else the text is the bytes at the cursor. |
| BinaryReader.SeekBy | TerrainFun/BinaryReader.swift:164-170 | A relative seek succeeds only to a position strictly inside the data. It changes only the cursor. |
| BinaryReader.SeekTo | TerrainFun/BinaryReader.swift:172-193 | An absolute seek succeeds only to an offset strictly inside the data. It changes only the cursor. |
| BinaryReader.At | TerrainFun/BinaryReader.swift:195-205 | `at(offset:)` runs the operation at the offset and then seeks back. The result lists every outcome: a bad offset traps, a trap inside propagates, a cursor at the end traps on the way back, and success returns the operation's value with the original reader. |
| BinaryReader.AtRestores | TerrainFun/BinaryReader.swift:195-205 | Whenever `at` succeeds the cursor is exactly where it was. `at` succeeds iff the offset and the saved cursor are inside the data and the operation succeeds. |
| BinaryReader.GetArray | TerrainFun/BinaryReader.swift:219-301 | A count of at least `Int.max` fails the precondition. Otherwise the array reader returns `count` elements, element `i` being the scalar `i` widths past the cursor, and it traps exactly when the run passes the end. |
| BinaryReader.ScalarInvertsEncode | TerrainFun/BinaryReader.swift:219-301 | Each element width read back from its encoding in either byte order, wherever it sits, gives the encoded value. |
| Bytes.EncodeDecode | TerrainFun/BinaryReader.swift:48-114 | Assembling bytes into an integer loses nothing. Re-encoding the value at the same width and order gives the bytes back. |
| Bytes.InterpretInvertsBits | TerrainFun/BinaryFileReader.swift:77-103 | Reading a signed or unsigned type from the two's-complement bits of a value in its range gives that value back. |
| BinaryFileReader.Init | TerrainFun/BinaryFileReader.swift:17-30 | A new file reader covers the whole file, starts at offset 0, and is big-endian. |
| BinaryFileReader.SeekTo | TerrainFun/BinaryFileReader.swift:44-50 | The precondition admits only offsets strictly inside the file. A successful seek moves only the cursor. |
| BinaryFileReader.At | TerrainFun/BinaryFileReader.swift:65-74 | Succeeds iff the offset is inside the file, the saved cursor is inside the file, and the operation succeeds there. On success the cursor is unchanged. |
| BinaryFileReader.Get | TerrainFun/BinaryFileReader.swift:77-103 | A fixed-width read fails its debug `assert` exactly when fewer bytes remain than the width. It returns the width's value, signed or unsigned, and advances by the width. |
| BinaryFileReader.GetAgreesWithBinaryReader | TerrainFun/BinaryFileReader.swift:77-103 | The file reader's unsigned 16-, 32- and 64-bit reads give the same value and cursor as the in-memory reader's, and succeed in the same cases. |
| BinaryFileReader.GetInvertsEncode | TerrainFun/BinaryFileReader.swift:77-103 | Any 1-, 2-, 4- or 8-byte value, signed or not, read back from its encoding wherever it sits, is that value. |
| BinaryFileReader.GetArray | TerrainFun/BinaryFileReader.swift:105-130 | `getArray` returns `count` elements, element `i` being the `get` `i` widths past the cursor. It fails its `assert` exactly when the run passes the end. |
| Tags.TagFrom | TerrainFun/TIFFImage.swift:1232-1274 | Tag decoding is total and loses nothing. A code outside the mapping becomes an unknown tag carrying that code. |
| Tags.TagFromCode | TerrainFun/TIFFImage.swift:1240-1274 | The tag mapping is inverse to the tag codes: every known tag is recognised from its own code. |
| Tags.TagTypeFrom | TerrainFun/TIFFImage.swift:1312-1342 | Field-type decoding keeps the code. Codes other than 1-13 and 16-18 are unknown types of size 1. |
| Tags.TagTypeFromCode | TerrainFun/TIFFImage.swift:1277-1342 | Every field type is recognised from its own code. |
| Tags.GeoKeyFromAsWritten | TerrainFun/TIFFImage.swift:1046-1074 | The key mapping as written: an id outside the table is an unknown key, and an id in it gives the table's key. |
| Tags.GeoKeyLinearUnitsAsWritten | TerrainFun/TIFFImage.swift:1063 | As written, id 2042 decodes to `linearUnits`, whose registered id is 2052, and 2052 is not recognised. |
| Tags.GeoKeyFrom | TerrainFun/TIFFImage.swift:1046-1074 | With `linearUnits` under 2052, key decoding is total and inverse to the registered ids. |
| Tags.GeoKeyFromCode | TerrainFun/TIFFImage.swift:1054-1074 | Every GeoKey is recognised from its registered id. |
| Tags.GeoKeyFromAgreement | TerrainFun/TIFFImage.swift:1054-1074 | The corrected key table and the one as written agree on every id except 2042 and 2052. |
| Codes.CompressionFromAsWritten | TerrainFun/TIFFImage.swift:1123-1159 | Compression decoding as written: any scheme other than PackBits is recognised only from its own code, and PackBits only from 32772. |
| Codes.PackBitsAsWritten | TerrainFun/TIFFImage.swift:1154 | As written, PackBits' registered code 32773 is rejected and 32772 is taken for PackBits. |
| Codes.CompressionFrom | TerrainFun/TIFFImage.swift:1123-1159 | Corrected compression decoding: every accepted code is the code of the scheme returned, and every other code is `invalidCompression`. |
| Codes.CompressionFromCode | TerrainFun/TIFFImage.swift:1123-1159 | Every compression scheme is recognised from its code. |
| Codes.CompressionFromAgreement | TerrainFun/TIFFImage.swift:1154 | The corrected table and the one as written differ exactly at 32772 and 32773. |
| Codes.PredictorFrom | TerrainFun/TIFFImage.swift:1368-1390 | Predictor codes 1-3 are accepted and keep their code. Every other code is `invalidPredictor`. |
| Codes.PredictorFromCode | TerrainFun/TIFFImage.swift:1368-1390 | Every predictor is recognised from its code. |
| Codes.SampleFormatFrom | TerrainFun/TIFFImage.swift:1392-1419 | Sample-format decoding is total and keeps the code. Only codes outside 1-6 are unknown. |
| Codes.SampleFormatFromCode | TerrainFun/TIFFImage.swift:1392-1419 | Every sample format is recognised from its code. |
| Codes.ModelTypeFrom | TerrainFun/TIFFImage.swift:1077-1099 | Model types 1-3 are accepted with their code. Everything else is `invalidModelType`. |
| Codes.ModelTypeFromCode | TerrainFun/TIFFImage.swift:1077-1099 | Every model type is recognised from its code. |
| Codes.RasterTypeFrom | TerrainFun/TIFFImage.swift:1101-1121 | Raster types 1 and 2 are accepted with their code. Everything else is `invalidRasterType`. |
| Codes.RasterTypeFromCode | TerrainFun/TIFFImage.swift:1101-1121 | Every raster type is recognised from its code. |
| Codes.AngularUnitFrom | TerrainFun/TIFFImage.swift:1421-1458 | Angular units 9101-9108 are accepted with their code. Everything else is `invalidTIFFFormat`. |
| Codes.AngularUnitFromCode | TerrainFun/TIFFImage.swift:1421-1458 | Every angular unit is recognised from its code. |
| Codes.DatumFrom | TerrainFun/TIFFImage.swift:646-647 | A datum is user-defined exactly when its code is 32767. Any other code falls back to undefined. |
| Codes.EllipsoidFrom | TerrainFun/TIFFImage.swift:649-650 | An ellipsoid is user-defined exactly when its code is 32767. Any other code falls back to undefined. |
| Entries.ReadFileHeader | TerrainFun/TIFFImage.swift:58-87 | Big-endian is chosen exactly when the mark is "MM". A version other than 42/43 is rejected. 42 is always accepted. 43 needs an offset size of 8, else `invalidOffsetSize`, and then is accepted iff the padding is zero. A BigTIFF header cut short before its offset size or padding fails the read's debug `assert`. The cursor ends after the header. |
| Entries.MarkIsMM | TerrainFun/TIFFImage.swift:62-70 | Reading the mark big-endian, it equals 0x4d4d exactly when both bytes are 'M'. |
| Entries.MarkOrderIndependent | TerrainFun/TIFFImage.swift:62-70 | A mark of two equal bytes has the same value in either byte order. So "II" and "MM" are told apart whatever the reader's default order. |
| Entries.ReadFileHeaderInvertsEncode | TerrainFun/TIFFImage.swift:58-87 | Every header a writer produces, for either version and byte order, is recognised with its version and byte order. |
| Entries.ReadOffset | TerrainFun/TIFFImage.swift:308-326 | An offset is a 4-byte unsigned field in classic TIFF and an 8-byte `Int64` in BigTIFF. The read fails its `assert` exactly when the field passes the end. |
| Entries.ReadEntryCount | TerrainFun/TIFFImage.swift:332-350 | The entry count is a 2-byte unsigned field in classic TIFF and an 8-byte `Int64` in BigTIFF. |
| Entries.ReadTagCount | TerrainFun/TIFFImage.swift:352-370 | A tag count is a 4-byte unsigned field in classic TIFF and an 8-byte `Int64` in BigTIFF. |
| Entries.ReadFieldInvertsEncode | TerrainFun/TIFFImage.swift:308-370 | The offset, entry-count and tag-count readers return any value encoded in their field, in either format and byte order. |
| Entries.GetInt | TerrainFun/TIFFImage.swift:524-552 | One integer value of a field type is its width's read, zero-extended for unsigned types and sign-extended for signed ones. It lies within the type's range. |
| Entries.GetIntAsWritten | TerrainFun/TIFFImage.swift:533 | As written, every integer type except `long8` is read as intended. `long8` is read as `Int64`. |
| Entries.Long8AsWrittenNegative | TerrainFun/TIFFImage.swift:533 | The `long8` value 2^63 comes back negative as written, and unchanged when read unsigned. |
| Entries.Long8ZeroExtends | TerrainFun/TIFFImage.swift:524-537 | Corrected, a `long8` value is the unsigned reading of its eight bytes. |
| Entries.ReadIntValues | TerrainFun/TIFFImage.swift:524-552 | `count` integer values are read back to back, value `i` at `i` type-widths past the cursor. |
| Entries.ReadFloatValues | TerrainFun/TIFFImage.swift:554-565 | `count` floats or doubles are read as bit patterns. The read traps exactly when the run passes the end. |
| Entries.ReadRationalValues | TerrainFun/TIFFImage.swift:567-583 | `count` rationals are read as numerator/denominator pairs. The read fails exactly when the run passes the end. |
| Entries.ReadIntField | TerrainFun/TIFFImage.swift:524-552 | The integer cases produce `count` values, each within its type's range. They fail exactly when the run passes the end. |
| Entries.ReadAsciiValue | TerrainFun/TIFFImage.swift:585-595 | An ASCII value is the `count - 1` bytes at the cursor, without the trailing NUL. Where they exist, it succeeds iff all of them are below 0x80. The cursor does not move. |
| Entries.ReadValues | TerrainFun/TIFFImage.swift:516-606 | Each field type's values match its kind and count. Numeric types advance by count times size, and negative counts trap. With a non-negative count, a numeric read succeeds iff its values fit in the data. `undefined` fails its `assert`. `ifd`, `ifd8` and unknown types are `invalidTIFFFormat`. |
| Entries.ReadIntArray | TerrainFun/TIFFImage.swift:372-397 | `read(count:ofType:)` returns `count` shorts, longs or long8s, element `i` being the unsigned value `i` sizes past the cursor. It succeeds exactly when the count is below `Int.max` and the elements fit before the end. A count of `Int.max` or more fails the reader's precondition, and a run past the end traps. A negative count overflows the conversion. Other types are `invalidTIFFFormat`. |
| Entries.ReadIntArrayInvertsEncode | TerrainFun/TIFFImage.swift:372-397 | A table of shorts, longs or long8s that a writer lays out anywhere in a file, in either byte order, reads back whole, and the cursor ends just after it. |
| Entries.ReadIntArrayOne | TerrainFun/TIFFImage.swift:372-397 | A one-element array read is the single-value read at the cursor, and moves the cursor one type width. |
| Entries.ReadIntArrayAsWritten | TerrainFun/TIFFImage.swift:388-392 | As written, the `long8` case asks for `[Int64]`: each element is the two's-complement reading of the same eight bytes. The other types, and whether the read succeeds, are as corrected. |
| Entries.Long8ArrayAsWrittenWraps | TerrainFun/TIFFImage.swift:388-392 | A one-element `long8` array whose value is 2^63 or more reads back negative as written, 2^64 less than the unsigned value. |
| Entries.Long8ArrayAsWrittenNegative | TerrainFun/TIFFImage.swift:388-392 | Example: the little-endian bytes of 2^63 read as [2^63] when corrected and as [-2^63] as written. |
| Entries.ScalarIsGetInt | TerrainFun/TIFFImage.swift:372-397 | The array readers' elements equal the corresponding single-value integer reads. |
| Entries.ReadDirectoryEntry | TerrainFun/TIFFImage.swift:448-514 | The tag, type and count are the decoded 2-, 2- and 4- or 8-byte fields at the entry's start, and the entry records where it started. An offset is the field after the count; inline values are what `readValues` reads there. Fewer bytes than the fields before the value fail the `assert`. The reader ends one entry stride on. |
| Entries.ReadEntryHead | TerrainFun/TIFFImage.swift:454-460 | The tag, the type and the count are read in turn. The read succeeds exactly when all three fields lie in the data, else the `assert` fails. |
| Entries.ReadValueField | TerrainFun/TIFFImage.swift:462-500 | `count * size` outside `Int64` traps. Otherwise the values are read inline exactly when they fit the offset field, followed by a seek to the entry's end, and the offset is read otherwise. Exactly one of values and offset is present. |
| Entries.ReadDirectoryEntryCases | TerrainFun/TIFFImage.swift:448-514 | Given the fields before the value, an entry read overflows, gives the exact entry with its offset, or gives the exact entry with its inline values. The inline case succeeds iff `readValues` does and the entry does not end the data. |
| Entries.ReadDirectoryEntryInvertsEncode | TerrainFun/TIFFImage.swift:448-514 | An entry encoded anywhere in a file, in either format and byte order, reads back with its tag, type, count and offset, or with its inline values when they fit. |
| Entries.ValidateInt | TerrainFun/TIFFImage.swift:915-929 | `validateInt(count:)` succeeds exactly for inline integer values of the requested count, and returns them. |
| Entries.ValidateOffset | TerrainFun/TIFFImage.swift:931-944 | `validateOffset` succeeds exactly when the entry has an offset, and returns it. |
| Entries.ValidateUInt16 | TerrainFun/TIFFImage.swift:949-963 | A success means one `byte` or `short` value below 2^16, and the value returned is it. Any other type or count is `tagTypeConversionError`. |
| Entries.ValidateUInt32 | TerrainFun/TIFFImage.swift:968-982 | A success means one `byte`, `short` or `long` value below 2^32. Any other type or count is `tagTypeConversionError`. |
| Entries.ValidateWellFormed | TerrainFun/TIFFImage.swift:915-982 | On any entry `readDirectoryEntry` produced, the validators never trap. They succeed exactly for allowed types and counts, and return the entry's only value. |
| Entries.ReadString | TerrainFun/TIFFImage.swift:399-441 | A count below 2 is rejected. The text is the `count - 1` bytes inside the entry when they fit the offset field, and the bytes at the entry's offset otherwise. |
| Entries.ReadStringAsWritten | TerrainFun/TIFFImage.swift:414 | As written, `readString` agrees with the corrected one for every count other than the offset-field size. |
| Entries.ReadStringMatchesEntry | TerrainFun/TIFFImage.swift:399-441 | For every inline ASCII entry `readDirectoryEntry` produced, `readString` returns the text already stored in the entry, from any cursor position. |
| Entries.ReadStringAsWrittenRejectsFullField | TerrainFun/TIFFImage.swift:414 | As written, every well-formed ASCII entry whose count equals the offset-field size is rejected, though its text was read inline. |
| Entries.AbcEntryRejectedAsWritten | TerrainFun/TIFFImage.swift:414 | Example: a classic entry holding "abc" and its NUL reads as "abc" when corrected, and is rejected as written. |
| Entries.ReadGeoKeyEntry | TerrainFun/TIFFImage.swift:612-626 | A key entry is four unsigned 16-bit fields: key, tag location (0 meaning none), count and value offset. The read fails exactly when fewer than eight bytes remain. |
| Entries.ReadGeoKeyEntryInvertsEncode | TerrainFun/TIFFImage.swift:612-626 | Every key entry read back from its eight-byte encoding, wherever it sits, gives its fields. |
| Entries.ReadGeoKeys | TerrainFun/TIFFImage.swift:257-264 | The key loop returns `keyCount` entries, entry `i` being the key entry `8 * i` bytes on. |
| Text.Split | TerrainFun/TIFFImage.swift:276 | Splitting on "\|" yields only non-empty pieces that contain no separator. |
| Text.SplitJoin | TerrainFun/TIFFImage.swift:276 | Splitting inverts joining with "\|", for every list of such pieces. |
| Text.JoinSplit | TerrainFun/TIFFImage.swift:276 | For every text, the pieces joined with "\|" are the text with each run of separators collapsed to one and separators at either end removed. |
| Text.ParseInt | TerrainFun/TIFFImage.swift:220-223 | `Int(s)` yields only `Int64` values, nothing for empty text, and never a negative value without a leading minus. |
| Text.ParseSignedDigits | TerrainFun/TIFFImage.swift:220-223 | An optional `+` or `-` followed by one or more digits parses to the signed value of the digits, and to nothing when that value is outside `Int64`. |
| Text.ParseIntIsSignedDigits | TerrainFun/TIFFImage.swift:220-223 | Every text that parses is an optional sign followed by one or more digits, and parses to their signed value. |
| Text.ParseFormatInt | TerrainFun/TIFFImage.swift:220-223 | Every `Int` is parsed back from its decimal form. |
| Directory.StripCountAsWritten | TerrainFun/TIFFImage.swift:777 | As written, the strip count is `(height + 1) / rowsPerStrip` in `UInt32`. It traps when the sum overflows or the rows per strip are zero. |
| Directory.StripCountAsWrittenDropsPartialStrip | TerrainFun/TIFFImage.swift:777 | Ten rows in strips of three need four strips. As written the count is three. |
| Directory.StripCount | TerrainFun/TIFFImage.swift:777 | The corrected count is the least number of strips whose rows cover the image height. It traps only on zero rows per strip. |
| Directory.StripCountAgreement | TerrainFun/TIFFImage.swift:777 | The corrected and as-written counts agree exactly when the height is a whole number of strips of more than one row, or one row short of a whole number. |
| Directory.SingleValue | TerrainFun/TIFFImage.swift:110-143 | A single-valued tag takes the entry's one integer when it lies below the bound, and rejects other counts or kinds. |
| Directory.SingleValueWellFormed | TerrainFun/TIFFImage.swift:110-143 | On entries `readDirectoryEntry` produced, a single value of a type that fits the bound is taken without trapping. |
| Directory.ReadTable | TerrainFun/TIFFImage.swift:130-150 | The strip and tile tables are `count` unsigned values read at the entry's offset, element `i` at `i` sizes on. It succeeds exactly when the entry has an offset inside the file, the cursor is inside the file and the array read at the offset succeeds. The cursor is unchanged, and an entry without an offset is rejected. |
| Directory.ReadScale | TerrainFun/TIFFImage.swift:186-195 | The pixel scale is the three `Double`s at the cursor, in order. |
| Directory.ReadTiePoint | TerrainFun/TIFFImage.swift:197-215 | One tie point consumes 48 bytes. It traps exactly when fewer remain. |
| Directory.ReadTiePointValues | TerrainFun/TIFFImage.swift:197-215 | A tie point's i, j, k, x, y, z are the six `Double`s at the cursor, in that order. |
| Directory.ReadTiePoints | TerrainFun/TIFFImage.swift:197-215 | `count` tie points are read back to back, tie point `n` at `48 * n` bytes on. |
| Directory.TiePointsOp | TerrainFun/TIFFImage.swift:197-215 | The tie-point block holds `count / 6` points. A count of -6 or below traps the loop range. |
| Directory.GeoKeyDirectoryOp | TerrainFun/TIFFImage.swift:225-265 | A key-directory version other than 1 yields no keys. Version 1 yields `keyCount` entries read after the four header shorts, and only when the entry's count covers `4 * keyCount + 4`. |
| Directory.DoubleParamsOp | TerrainFun/TIFFImage.swift:267-272 | The double parameters are `count` `Double`s at the offset, in order. A negative count overflows the array reader's count. |
| Directory.ReadRational | TerrainFun/TIFFImage.swift:1507-1531 | A `Rational` is two unsigned 32-bit reads. |
| Directory.XResolutionArmAsWritten | TerrainFun/TIFFImage.swift:152-154 | As written, the `xResolution` case reads a rational at the live cursor and moves it eight bytes. |
| Directory.XResolutionArm | TerrainFun/TIFFImage.swift:152-154 | Corrected, the rational is read where the entry keeps it and the cursor stays put. It traps when that location or the saved cursor is outside the data. |
| Directory.ScalarArm | TerrainFun/TIFFImage.swift:110-184 | A single-valued tag is accepted only with one inline integer, non-negative except for the photometric interpretation. Width, length, bits per sample, samples per pixel and rows per strip each set exactly their own field to that value. Compression and predictor set their field to the table's entry for it, and a code outside the table is `invalidCompression` or `invalidPredictor`. The photometric interpretation sets `blackIsZero` to value != 0. Planar configuration, tile sizes and sample format also need their allowed types. |
| Directory.TableArm | TerrainFun/TIFFImage.swift:130-181 | Each table tag sets exactly its table of the IFD to the values read at the entry's offset. It succeeds exactly when that table read does, and otherwise fails with its error. |
| Directory.GeoArm | TerrainFun/TIFFImage.swift:186-276 | The GeoTIFF and GDAL tags set their own fields only. The pixel scale is the three `Double`s at the entry's offset. Tie points and key entries read at the offset are appended, and the double parameters replace the old ones. An entry of these kinds without an offset is `invalidTIFFFormat`. A key directory that is not `short` with at least four values fails the `assert`. The ASCII parameters are the "\|"-separated pieces of the entry's text, and no-data is that text parsed as an integer. |
| Directory.ProcessEntry | TerrainFun/TIFFImage.swift:108-281 | No case of the corrected tag `switch` moves the cursor. The ignored tags change nothing. `xResolution` takes the corrected case. Every other tag succeeds, fails and sets the IFD exactly as its case of the `switch`: the single-valued, table or GeoTIFF case. |
| Directory.ProcessEntrySize | TerrainFun/TIFFImage.swift:110-117 | Only an `imageWidth` entry changes the width and only an `imageLength` entry the height, each to its single value below 2^32. |
| Directory.ProcessEntryAsWritten | TerrainFun/TIFFImage.swift:152-154 | The `switch` as written differs from the corrected one only for `xResolution`, where it moves the cursor eight bytes. |
| Directory.XResolutionAsWrittenShiftsCursor | TerrainFun/TIFFImage.swift:152-154 | With eight bytes after an `xResolution` entry, the as-written case leaves the cursor eight bytes into the next entry. The corrected case leaves it at that entry's start. |
| Directory.ProcessDimensionsWellFormed | TerrainFun/TIFFImage.swift:110-143 | On entries `readDirectoryEntry` produced, width, length and rows per strip take any single unsigned value that fits, without trapping. |
| GeoKeys.Wgs84Values | TerrainFun/TIFFImage.swift:661-667 | `toWGS84` takes the `count` parameters from `valueOffset` on. The first unusable index traps: the `UInt16` sum overflows, or the subscript is out of range. |
| GeoKeys.ParamAt | TerrainFun/TIFFImage.swift:652-659 | A key pointing into the double parameters takes that parameter, and traps past the end. |
| GeoKeys.ApplyGeoKey | TerrainFun/TIFFImage.swift:632-671 | Each handled key sets only its own field, to the decoded or referenced value. An invalid model or raster type is rejected. Unhandled keys change nothing. |
| GeoKeys.ProcessKeys | TerrainFun/TIFFImage.swift:628-673 | The key loop changes only the fields the keys control. |
| GeoKeys.ProcessGeoKeys | TerrainFun/TIFFImage.swift:628-673 | `processGeoKeyEntries` keeps the key list and the double parameters, and changes only the fields keys control. |
| GeoKeys.ProcessKeysOkIff | TerrainFun/TIFFImage.swift:628-673 | The loop succeeds exactly when every key is accepted against the parameters. |
| GeoKeys.ProcessKeysSnoc | TerrainFun/TIFFImage.swift:628-673 | Processing keys then one more is processing the keys, then applying the last one to the result. |
| GeoKeys.ProcessSkippedKeys | TerrainFun/TIFFImage.swift:628-673 | Keys the loop does not handle change nothing, wherever they appear. |
| GeoKeys.LastModelTypeWins | TerrainFun/TIFFImage.swift:637-638 | The last `modelType` key decides the model type: a final value 2 leaves it geographic whatever came before. |
| Image.FileEntry | TerrainFun/TIFFImage.swift:98-105 | An entry of a known tag is filed under its tag, replacing any earlier one. Unknown tags are dropped. No other tag is touched. |
| Image.FileEntryKeepsFiled | TerrainFun/TIFFImage.swift:98-105 | Filing a well-formed entry keeps every stored entry well formed and under its own tag, and loses no tag. |
| Image.ReadEntries | TerrainFun/TIFFImage.swift:94-283 | The entry loop ends `n` strides on. It keeps every stored entry filed under its own tag and keeps every tag it already had. It keeps the width and height equal to the values of the last `imageWidth` and `imageLength` entries filed. |
| Image.EntryLoopCount | TerrainFun/TIFFImage.swift:96 | The loop range `0 ..< entryCount` traps for a negative count. |
| Image.NextIfdOffsetAsWritten | TerrainFun/TIFFImage.swift:290 | As written, the next-IFD offset is a 4-byte unsigned read whatever the format. |
| Image.NextIfdOffset | TerrainFun/TIFFImage.swift:290-294 | Corrected, the next-IFD offset is an offset field: four bytes in classic TIFF, eight in BigTIFF. |
| Image.NextIfdOffsetClassic | TerrainFun/TIFFImage.swift:290-294 | In classic TIFF the as-written and corrected readings agree. |
| Image.NextIfdOffsetAsWrittenTruncates | TerrainFun/TIFFImage.swift:290 | A little-endian BigTIFF next-IFD offset of 2^32 reads as 0 ("no more directories") as written. |
| Image.ReadDirectory | TerrainFun/TIFFImage.swift:89-283 | Reading the first directory keeps the file and byte order, and leaves every stored entry filed. The IFD's width and height are those of the stored `imageWidth` and `imageLength` entries, 0 for a missing one. |
| Image.Decode | TerrainFun/TIFFImage.swift:58-299 | A decoded image always has an IFD, reads the given file, and stores only well-formed entries under their own tags. Its width and height are the values of its `imageWidth` and `imageLength` entries, 0 for a missing one. Fewer than four bytes fail the first read. |
| Image.ReadDirectoryEmpty | TerrainFun/TIFFImage.swift:89-106 | A directory whose entry count is zero gives no entries and the default IFD, and leaves the cursor after the count. |
| Image.DecodeEmptyDirectory | TerrainFun/TIFFImage.swift:58-299 | A file whose directory has no entries decodes to no entries, the default IFD and the next-IFD offset that follows, whatever the header and the directory's place. |
| Image.DecodeEmptyFile | TerrainFun/TIFFImage.swift:58-299 | The smallest file a writer produces, for either version and byte order, decodes to an image with the empty IFD and next offset 0. The cursor ends at the end of the file. |
| Pixels.LocateSample | TerrainFun/TIFFImage.swift:690-693 | The strip lookup divides by `rowsPerStrip`, so zero traps. A row at or above one strip's height below zero indexes before the table. Every failure is a trap of division, index or overflow. |
| Pixels.LocateSampleInRow | TerrainFun/TIFFImage.swift:690-693 | For a row `y >= 0`, the sample lies in strip `y / rowsPerStrip` at index `(y % rowsPerStrip) * width + x`. The lookup succeeds iff that strip exists and the products fit `Int`. |
| Pixels.LocateSampleNegativeRow | TerrainFun/TIFFImage.swift:690-693 | Swift's truncating division puts a row less than one strip above the image in strip 0, with a negative index. |
| Pixels.SampleOffset | TerrainFun/TIFFImage.swift:697 | The sample's byte offset is the strip offset plus two bytes per sample. It traps when either step leaves `Int`. |
| Pixels.AtRestoring | TerrainFun/BinaryFileReader.swift:65-74 | The corrected `at` also allows restoring a cursor that is at the end of the file. Otherwise it behaves as `at`. |
| Pixels.GetSample | TerrainFun/TIFFImage.swift:698-701 | A sample is the two bytes at the cursor in the file's byte order. |
| Pixels.PixelValueAsWritten | TerrainFun/TIFFImage.swift:675-711 | As written: an image without an IFD gives 0, and every value is a 16-bit sample. |
| Pixels.PixelValue | TerrainFun/TIFFImage.swift:675-711 | An image without an IFD gives 0. Zero rows per strip traps. Depths other than 16 bits give 0 unless the lookup traps. Every value fits 16 bits. |
| Pixels.PixelValueReadsSample | TerrainFun/TIFFImage.swift:675-711 | For a 16-bit image and a pixel in a stored strip, the value is the two bytes at `stripOffsets[y / rps] + 2 * ((y % rps) * width + x)`. It succeeds iff those bytes exist. |
| Pixels.PixelValueInvertsEncode | TerrainFun/TIFFImage.swift:675-711 | A sample written at a pixel's address, in the file's byte order, is the pixel's value. |
| Pixels.PixelValueAsWrittenTrapsAtEnd | TerrainFun/BinaryFileReader.swift:65-74 | With the cursor at the end of the file, as `Decode` can leave it, the as-written `pixelValue` traps seeking back. The corrected one returns the sample. |
| Pixels.StripLayout | TerrainFun/TIFFImage.swift:690-697 | Row `row` of strip `s` starts `2 * row * width` bytes into that strip. |
| Pixels.RowStart | TerrainFun/TIFFImage.swift:738-757 | No IFD is `noImage`. Zero rows per strip traps. Success needs samples-per-pixel times bits-per-sample to fit `UInt16`, and yields an address that fits `Int64`. |
| Pixels.RowStartIsRowAddress | TerrainFun/TIFFImage.swift:738-757 | Within the strips, the row read starts at strip offset plus row-in-strip times row bytes plus `startX` pixels. It traps exactly when that address leaves `Int64`. |
| Pixels.RowStartMatchesPixelAddress | TerrainFun/TIFFImage.swift:675-757 | For one 16-bit sample per pixel, the row read and `pixelValue` address the same byte. |

## Left out

- `BigTIFFImageProvider`, `CIImageProvider` and the GDAL wrappers are not part of this model. They are image-pipeline glue around the decoder.
- File I/O: `init(contentsOfURL:)` and the file reader's `FileHandle` are replaced by the file's bytes. `read(fromAbsoluteOffset:into:)` is not part of this model: neither reader declares it, so `Pixels.RowStart` stops at the address the row read starts from.
- Floating point: `Float` and `Double` values are kept as bit patterns. `Float`-to-`Double` widening is not computed. The three `modelPixelScale` values and the GeoKey `Double` parameters are therefore copied, not interpreted.
- Reader calls that match no declared member, each a modelling choice:
  - The `Float` read of `readValues` (TerrainFun/TIFFImage.swift:560): neither reader declares a `Float` `get()`, and the file reader's is commented out (TerrainFun/BinaryFileReader.swift:250-269). The model reads four bytes as a bit pattern, as `Entries.ReadFloatValues` states.
  - `get(count: Int(...))` (TerrainFun/TIFFImage.swift:271, 380-390, 418, 432, 587): every `get(count:)` takes a `UInt64` count (TerrainFun/BinaryReader.swift:156, 226, 247, 268, 289). The model converts the `Int`, and a negative count traps as the conversion would.
  - The `[Int64]` array read (TerrainFun/TIFFImage.swift:390): no `get(count:)` returns `[Int64]`. `Entries.ReadIntArrayAsWritten` takes it as the two's-complement reading of the `[UInt64]` read's bytes.
- `long8` values of 2^63 and more: the corrected members (Entries.GetInt, Entries.ReadIntArray and the members built on them) keep them as unbounded integers below 2^64. The source stores these values in `Int64` (TerrainFun/TIFFImage.swift:376, 525, 774, 900), which cannot hold them. Storing them there needs a wider type, or a trap, and the model commits to neither.
- `String(data:encoding: .ascii)` is modelled as failing exactly when a byte is 0x80 or above. Foundation's exact ASCII behaviour is outside the model.
- `debugLog` output, the `ResolutionUnit` table and IFD fields the decoder never reads are not modelled.
- Only the first IFD is read, as in the source. `Image.NextIfdOffset` exposes the next offset, which the source only logs.
- Inline values of `stripOffsets` with a single strip, and key directories whose data fits in the entry, are read through the entry's offset as in the source. The source rejects those files.
- GeoKeys.Wgs84Values: a `valueOffset` of 0x10000 or more cannot come from a file. The error case is stated for it but is not otherwise characterised.
- Pixels.PixelValue: it reads one 16-bit sample at the computed address and assumes one sample per pixel, as the source does. Multi-sample layouts are not characterised.
- Pixels.PixelValue: only pixel access uses the corrected `at`. Directory reading keeps `BinaryFileReader.At` as written, because there the cursor is never at the end of the file.
- `readValues` for `undefined`: the debug `assert(false)` is modelled as a trap. A release build would return an empty value instead.
- Entries.GetInt: reads `long8` as `UInt64`, the corrected half of the line 533 finding. As written the value is an `Int64`, which `Entries.Long8AsWrittenNegative` models. Values of 2^63 and more do not fit the source's `Int64` storage (see the `long8` line above).
- Entries.ReadIntField: its `long8` values are unsigned, from `Entries.GetInt`. As written they are `Int64` (TerrainFun/TIFFImage.swift:533).
- Entries.ReadValues: its `long8` values are unsigned, from `Entries.GetInt`. As written they are `Int64` (TerrainFun/TIFFImage.swift:533).
- Entries.ReadDirectoryEntry: inline `long8` values are unsigned, from `Entries.ReadValues`. As written they are `Int64` (TerrainFun/TIFFImage.swift:533).
- Entries.ReadIntArray: the `long8` elements are unsigned, the corrected half of the line 390 finding. As written they are `[Int64]`, which `Entries.ReadIntArrayAsWritten` models. Elements of 2^63 and more do not fit the source's `Int64` storage (see the `long8` line above).
- Directory.ReadTable: the strip and tile tables use `Entries.ReadIntArray`, so `long8` elements are unsigned. As written they are `[Int64]` (TerrainFun/TIFFImage.swift:390).
- Directory.TableArm: uses `Directory.ReadTable` and inherits its unsigned `long8` elements.
- Entries.ReadString: the inline test is `count <= offsetSize`, the corrected half of the line 414 finding. As written it is `<`, which `Entries.ReadStringAsWritten` models.
- Entries.ReadGeoKeyEntry: decodes the key with `Tags.GeoKeyFrom`, which maps 2052 to `linearUnits`. As written 2042 maps there and 2052 is unknown (TerrainFun/TIFFImage.swift:1063), which `Tags.GeoKeyFromAsWritten` models.
- Directory.ScalarArm: decodes the compression with `Codes.CompressionFromCode`, which maps 32773 to PackBits. As written 32772 maps there and 32773 is `invalidCompression` (TerrainFun/TIFFImage.swift:1154), which `Codes.PackBitsAsWritten` shows.
- Directory.GeoArm: reads `geoAsciiParams` and the GDAL no-data text with the corrected `Entries.ReadString`, and the key entries with the corrected `Entries.ReadGeoKeyEntry`.
- Directory.ProcessEntry: takes the corrected `xResolution` case, which leaves the cursor in place. As written the rational is read at the live cursor (TerrainFun/TIFFImage.swift:152-154), which `Directory.XResolutionAsWrittenShiftsCursor` models. It also inherits the corrected halves used by `Directory.ScalarArm`, `Directory.TableArm` and `Directory.GeoArm`.
- Image.ReadEntries: is built from `Entries.ReadDirectoryEntry` and `Directory.ProcessEntry`, and inherits all of their corrected halves.
- Image.ReadDirectory: inherits the corrected halves of `Image.ReadEntries`.
- Image.Decode: inherits the corrected halves of `Image.ReadDirectory`. It also reads the next-IFD offset with `Image.NextIfdOffset`, eight bytes in BigTIFF. As written it is four bytes (TerrainFun/TIFFImage.swift:290), which `Image.NextIfdOffsetAsWritten` models.
- Image.DecodeEmptyDirectory: is stated about `Image.Decode`, so a BigTIFF next-IFD offset is the corrected eight-byte read.
- Image.DecodeEmptyFile: is stated about `Image.Decode`, so a BigTIFF next-IFD offset is the corrected eight-byte read. The offset is 0, on which both readings agree.
- Concurrency and the classes' reference identity are not modelled; each reader is a value.

## Findings

| source | as written | input that shows it | evidently intended | confidence | as-written member | corrected member |
|---|---|---|---|---|---|---|
| TerrainFun/TIFFImage.swift:777 | `stripCount` is `(height + 1) / rowsPerStrip` | height 10, rowsPerStrip 3: 3 strips, though row 9 needs a fourth | ceiling division `(height + rowsPerStrip - 1) / rowsPerStrip` | not executed | Directory.StripCountAsWrittenDropsPartialStrip | Directory.StripCount |
| TerrainFun/TIFFImage.swift:414 | the inline branch of `readString` tests `count < offsetSize` | classic entry "abc" with its NUL, count 4 | `count <= offsetSize`, the test `readDirectoryEntry` uses at line 469 | not executed | Entries.AbcEntryRejectedAsWritten | Entries.ReadString |
| TerrainFun/TIFFImage.swift:152-154 | the `xResolution` case reads a `Rational` at the live cursor | any `xResolution` entry followed by eight bytes: the next entry is read eight bytes late | read the rational at the entry's offset inside `at(offset:)` | not executed | Directory.XResolutionAsWrittenShiftsCursor | Directory.ProcessEntry |
| TerrainFun/TIFFImage.swift:290 | the next-IFD offset is read as `UInt32` in BigTIFF too | little-endian BigTIFF next offset 2^32: read as 0 | read an offset field, eight bytes in BigTIFF | not executed | Image.NextIfdOffsetAsWrittenTruncates | Image.NextIfdOffset |
| TerrainFun/TIFFImage.swift:1154 | PackBits is mapped from 32772 | Compression 32773 (PackBits, TIFF 6.0 section 9): `invalidCompression` | PackBits under 32773 | not executed | Codes.PackBitsAsWritten | Codes.CompressionFromCode |
| TerrainFun/TIFFImage.swift:1063 | `linearUnits` is mapped from 2042 | GeoKey 2052 (GeogLinearUnitsGeoKey): unknown | `linearUnits` under 2052 | not executed | Tags.GeoKeyLinearUnitsAsWritten | Tags.GeoKeyFromCode |
| TerrainFun/TIFFImage.swift:533 | `long8` values are read as `Int64` | a `long8` of 2^63: read as -2^63 | read `long8` as `UInt64` | not executed | Entries.Long8AsWrittenNegative | Entries.Long8ZeroExtends |
| TerrainFun/TIFFImage.swift:390 | `read(count:ofType:)` asks for `[Int64]` for `long8` tables. No `get(count:)` overload returns `[Int64]`, so this half models the request as the two's-complement reading of the eight-byte elements | a one-element `long8` table holding 2^63: read as [-2^63] | read the `long8` elements as `UInt64`, as the array reader's `[UInt64]` overload does | not executed | Entries.Long8ArrayAsWrittenNegative | Entries.ReadIntArray |
| TerrainFun/BinaryFileReader.swift:65-74 | `at` restores the cursor with `seek(to:)`, whose precondition demands an offset below the length | a file whose directory ends the file: after decoding the cursor is at the end, and every `pixelValue` traps | restoring a cursor at the end of the file is allowed | not executed | Pixels.PixelValueAsWrittenTrapsAtEnd | Pixels.PixelValue |
