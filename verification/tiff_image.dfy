/**
 * `TIFFImageA` as `readHeader` leaves it: the header, the first image file
 * directory with every entry the decoder understands applied to an `IFD`,
 * the GeoTIFF keys processed, and the offset of the next directory.
 */
module Image {
  import opened Errors
  import opened Bytes
  import opened SwiftInt
  import opened Tags
  import opened Entries
  import opened Directory
  import opened GeoKeys
  import BR = BinaryReader
  import BFR = BinaryFileReader

  /**
   * The decoder's state after `init(contentsOfURL:)`: the format, the reader
   * after the directory, the entries by tag (the last entry of a tag wins),
   * the first IFD, and the next-IFD offset that ends the directory.
   */
  datatype TIFFImage = TIFFImage(
    version: FormatVersion,
    reader: Reader,
    directoryEntries: map<Tag, DirectoryEntry>,
    ifd: Option<IFD>,
    nextIfdOffset: int)

  /** What the entry loop accumulates: the entries by tag and the IFD. */
  datatype DirState = DirState(entries: map<Tag, DirectoryEntry>, ifd: IFD)

  /** Every stored entry is well formed, filed under its own tag, and of a known tag. */
  predicate EntriesFiled(entries: map<Tag, DirectoryEntry>, v: FormatVersion) {
    forall t :: t in entries ==> !t.UnknownTag? && entries[t].tag == t && WellFormed(entries[t], v)
  }

  /**
   * `directoryEntries[de.tag] = de` unless the tag is unknown: entries of
   * unknown tags are dropped.
   */
  function FileEntry(entries: map<Tag, DirectoryEntry>, e: DirectoryEntry): (m: map<Tag, DirectoryEntry>)
    ensures e.tag.UnknownTag? ==> m == entries
    ensures !e.tag.UnknownTag? ==> e.tag in m && m[e.tag] == e
    ensures forall t :: t != e.tag ==> (t in m <==> t in entries)
    ensures forall t :: t != e.tag && t in m ==> m[t] == entries[t]
  {
    if e.tag.UnknownTag? then entries else entries[e.tag := e]
  }

  /** `n * w`, kept as a named product so that the stride arithmetic stays linear. */
  lemma StrideStep(n: nat, w: nat)
    requires n > 0
    ensures w + (n - 1) * w == n * w
  {
  }

  /** Filing a well-formed entry keeps every stored entry filed under its own tag. */
  lemma FileEntryKeepsFiled(entries: map<Tag, DirectoryEntry>, e: DirectoryEntry, v: FormatVersion)
    requires WellFormed(e, v)
    ensures EntriesFiled(entries, v) ==> EntriesFiled(FileEntry(entries, e), v)
    ensures entries.Keys <= FileEntry(entries, e).Keys
  {
  }

  /**
   * The image size is the value of the last `imageWidth` and `imageLength`
   * entries filed, and 0 for a dimension without an entry.
   */
  predicate SizeFromEntries(entries: map<Tag, DirectoryEntry>, ifd: IFD) {
    && (ImageWidth in entries ==> SingleIntBelow(entries[ImageWidth], 0x1_0000_0000) && ifd.width == entries[ImageWidth].values.value.ints[0])
    && (ImageWidth !in entries ==> ifd.width == 0)
    && (ImageLength in entries ==> SingleIntBelow(entries[ImageLength], 0x1_0000_0000) && ifd.height == entries[ImageLength].values.value.ints[0])
    && (ImageLength !in entries ==> ifd.height == 0)
  }

  /** Filing an entry and applying it keep the size in step with the entries. */
  lemma SizeStep(entries: map<Tag, DirectoryEntry>, ifd: IFD, e: DirectoryEntry, out: IFD)
    requires e.tag == ImageWidth || e.tag == ImageLength ==> SingleIntBelow(e, 0x1_0000_0000)
    requires out.width == if e.tag == ImageWidth then e.values.value.ints[0] else ifd.width
    requires out.height == if e.tag == ImageLength then e.values.value.ints[0] else ifd.height
    ensures SizeFromEntries(entries, ifd) ==> SizeFromEntries(FileEntry(entries, e), out)
  {
  }

  /**
   * The `for _ in 0 ..< entryCount` loop, with `n` iterations to go: read
   * an entry, file it, apply it to the IFD.
   */
  function ReadEntries(r: Reader, v: FormatVersion, n: nat, st: DirState): (res: Result<BR.Read<DirState>>)
    ensures res.Ok? ==> res.value.next == BR.Nth(r, n, EntrySize(v))
    ensures res.Ok? && EntriesFiled(st.entries, v) ==> EntriesFiled(res.value.value.entries, v)
    ensures res.Ok? ==> st.entries.Keys <= res.value.value.entries.Keys
    ensures res.Ok? && SizeFromEntries(st.entries, st.ifd) ==> SizeFromEntries(res.value.value.entries, res.value.value.ifd)
    decreases n
  {
    if n == 0 then Ok(BR.Read(st, r))
    else
      var de :- ReadDirectoryEntry(r, v);
      var p :- ProcessEntry(de.next, de.value, v, st.ifd);
      FileEntryKeepsFiled(st.entries, de.value, v);
      ProcessEntrySize(de.next, de.value, v, st.ifd);
      SizeStep(st.entries, st.ifd, de.value, p.value);
      var rest :- ReadEntries(p.next, v, n - 1, DirState(FileEntry(st.entries, de.value), p.value));
      StrideStep(n, EntrySize(v));
      Ok(rest)
  }

  /** The loop bound `0 ..< entryCount`: a negative count traps forming the range. */
  function EntryLoopCount(count: int): (res: Result<nat>)
    ensures res.Ok? <==> count >= 0
    ensures res.Ok? ==> res.value == count
    ensures res.Err? ==> res.error == Trapped(NegativeRange)
  {
    if count < 0 then Fail(NegativeRange) else Ok(count)
  }

  /**
   * The next-IFD offset as written: a `UInt32` whatever the format, so a
   * BigTIFF file's eight-byte field is read by halves.
   */
  function NextIfdOffsetAsWritten(r: Reader): (res: Result<BR.Read<int>>)
    ensures res.Ok? <==> r.pos + 4 <= |r.data|
    ensures res.Ok? ==> res.value.next == BR.Skip(r, 4) && 0 <= res.value.value < 0x1_0000_0000
  {
    PowValues();
    BFR.Get(r, 4, false)
  }

  /** The next-IFD offset as intended: an offset field, eight bytes in BigTIFF. */
  function NextIfdOffset(r: Reader, v: FormatVersion): (res: Result<BR.Read<int>>)
    ensures res.Ok? <==> r.pos + OffsetSize(v) <= |r.data|
    ensures res.Ok? ==> res.value.next == BR.Skip(r, OffsetSize(v))
  {
    ReadOffset(r, v)
  }

  /** In classic TIFF the two readings of the next-IFD offset agree. */
  lemma NextIfdOffsetClassic(r: Reader)
    ensures NextIfdOffsetAsWritten(r) == NextIfdOffset(r, V42)
  {
  }

  /**
   * A little-endian BigTIFF next-IFD offset of 2^32: the `UInt32` reading
   * sees 0, i.e. "no more directories", and stops four bytes short.
   */
  lemma NextIfdOffsetAsWrittenTruncates()
    ensures
      var r := BR.Reader([0, 0, 0, 0, 1, 0, 0, 0], 0, false);
      && NextIfdOffsetAsWritten(r) == Ok(BR.Read(0, BR.Skip(r, 4)))
      && NextIfdOffset(r, V43) == Ok(BR.Read(0x1_0000_0000, BR.Skip(r, 8)))
  {
    var bs: seq<byte> := [0, 0, 0, 0, 1, 0, 0, 0];
    var r := BR.Reader(bs, 0, false);
    LittleEndianTwoTo32(bs);
    assert NextIfdOffsetAsWritten(r) == Ok(BR.Read(0, BR.Skip(r, 4))) by {
      assert BR.Ahead(r, 4) == bs[..4];
    }
    assert NextIfdOffset(r, V43) == Ok(BR.Read(0x1_0000_0000, BR.Skip(r, 8))) by {
      assert BR.Ahead(r, 8) == bs;
      BigOffsetIsUnsigned(r);
    }
  }

  /** The little-endian bytes of 2^32: the low four bytes read 0. */
  lemma LittleEndianTwoTo32(bs: seq<byte>)
    requires bs == [0, 0, 0, 0, 1, 0, 0, 0]
    ensures Bytes.Decode(bs[..4], false) == 0 && Bytes.Decode(bs, false) == 0x1_0000_0000
  {
    var lo, hi := bs[..4], bs[4..];
    assert LE(lo) == 0 by {
      assert lo == [0, 0, 0, 0];
      BR.Decode4(lo);
    }
    assert LE(hi) == 1 by {
      assert hi == [1, 0, 0, 0];
      BR.Decode4(hi);
    }
    BR.Decode8(bs);
  }

  /** A BigTIFF offset below 2^63 reads as the unsigned value of its eight bytes. */
  lemma BigOffsetIsUnsigned(r: Reader)
    requires r.pos + 8 <= |r.data| && Bytes.Decode(BR.Ahead(r, 8), r.bigEndian) < 0x8000_0000_0000_0000
    ensures ReadOffset(r, V43) == Ok(BR.Read(Bytes.Decode(BR.Ahead(r, 8), r.bigEndian), BR.Skip(r, 8)))
  {
    PowValues();
  }

  /** The directory part of `readHeader`, from the cursor after the header. */
  function ReadDirectory(h: Reader, v: FormatVersion): (res: Result<BR.Read<DirState>>)
    ensures res.Ok? ==> EntriesFiled(res.value.value.entries, v)
    ensures res.Ok? ==> res.value.next.data == h.data && res.value.next.bigEndian == h.bigEndian
    ensures res.Ok? ==> SizeFromEntries(res.value.value.entries, res.value.value.ifd)
  {
    var offset :- ReadOffset(h, v);
    var at :- BFR.SeekTo(offset.next, offset.value);
    var count :- ReadEntryCount(at, v);
    var n :- EntryLoopCount(count.value);
    ReadEntries(count.next, v, n, DirState(map[], EmptyIFD()))
  }

  /**
   * `init(contentsOfURL:)` on the bytes of a file: `readHeader`, then
   * `processGeoKeyEntries`, then the next-IFD offset.
   */
  function Decode(file: seq<byte>): (res: Result<TIFFImage>)
    ensures res.Ok? ==> res.value.ifd.Some? && res.value.reader.data == file
    ensures res.Ok? ==> EntriesFiled(res.value.directoryEntries, res.value.version)
    ensures res.Ok? ==> SizeFromEntries(res.value.directoryEntries, res.value.ifd.value)
    ensures |file| < 4 ==> res == Fail(FailedAssertion)
  {
    var header :- ReadFileHeader(file);
    var v := header.value;
    var dir :- ReadDirectory(header.next, v);
    var ifd :- ProcessGeoKeys(dir.value.ifd);
    var next :- NextIfdOffset(dir.next, v);
    Ok(TIFFImage(v, next.next, dir.value.entries, Some(ifd), next.value))
  }

  /**
   * What follows the header in the file `EncodeEmptyFile` writes: the offset
   * of the directory right after the header, an entry count of zero and a
   * next-IFD offset of zero.
   */
  function EmptyDirectoryBytes(v: FormatVersion, bigEndian: bool): (bs: seq<byte>)
    ensures |bs| == OffsetSize(v) + EntryCountSize(v) + OffsetSize(v)
  {
    PowValues();
    EncodeField(HeaderSize(v) + OffsetSize(v), OffsetSize(v), v, bigEndian)
      + (EncodeField(0, EntryCountSize(v), v, bigEndian) + EncodeField(0, OffsetSize(v), v, bigEndian))
  }

  /** The file a writer produces for an image with an empty first directory. */
  function EncodeEmptyFile(v: FormatVersion, bigEndian: bool): (bs: seq<byte>)
    ensures |bs| == HeaderSize(v) + OffsetSize(v) + EntryCountSize(v) + OffsetSize(v)
  {
    EncodeHeader(v, bigEndian) + EmptyDirectoryBytes(v, bigEndian)
  }

  /** A directory whose entry count is zero is read as empty, whatever surrounds it. */
  lemma ReadDirectoryEmpty(h: Reader, v: FormatVersion, at: int)
    requires ReadOffset(h, v) == Ok(BR.Read(at, BR.Skip(h, OffsetSize(v))))
    requires 0 <= at < |h.data|
    requires ReadEntryCount(h.(pos := at), v) == Ok(BR.Read(0, BR.Skip(h.(pos := at), EntryCountSize(v))))
    ensures ReadDirectory(h, v) == Ok(BR.Read(DirState(map[], EmptyIFD()), BR.Skip(h.(pos := at), EntryCountSize(v))))
  {
  }

  /** A field reader reads back the field encoded at the cursor. */
  lemma ReadFieldAt(r: Reader, x: int, w: nat, v: FormatVersion)
    requires w == OffsetSize(v) || w == EntryCountSize(v)
    requires FieldFits(x, w, v)
    requires r.pos + w <= |r.data| && BR.Ahead(r, w) == EncodeField(x, w, v, r.bigEndian)
    ensures ReadField(r, w, v) == Ok(BR.Read(x, BR.Skip(r, w)))
  {
    var prefix, suffix := r.data[..r.pos], r.data[r.pos + w..];
    assert r.data == prefix + BR.Ahead(r, w) + suffix;
    ReadFieldInvertsEncode(prefix, x, w, v, suffix, r.bigEndian);
  }

  /** Where each part of a header followed by three fields sits. */
  lemma PartsOfFile(h: seq<byte>, a: seq<byte>, b: seq<byte>, c: seq<byte>)
    ensures
      var file := h + (a + (b + c));
      && file[|h|..|h| + |a|] == a
      && file[|h| + |a|..|h| + |a| + |b|] == b
      && file[|h| + |a| + |b|..|h| + |a| + |b| + |c|] == c
  {
    var file := h + (a + (b + c));
    assert file[|h|..] == a + (b + c);
    assert file[|h| + |a|..] == b + c;
  }

  /** Where the three directory fields of the file above sit. */
  lemma EmptyFileLayout(v: FormatVersion, bigEndian: bool)
    ensures
      var file := EncodeEmptyFile(v, bigEndian);
      var hs, os, cs := HeaderSize(v), OffsetSize(v), EntryCountSize(v);
      && file[hs..hs + os] == EncodeField(hs + os, os, v, bigEndian)
      && file[hs + os..hs + os + cs] == EncodeField(0, cs, v, bigEndian)
      && file[hs + os + cs..hs + os + cs + os] == EncodeField(0, os, v, bigEndian)
  {
    PowValues();
    var hs, os, cs := HeaderSize(v), OffsetSize(v), EntryCountSize(v);
    PartsOfFile(EncodeHeader(v, bigEndian), EncodeField(hs + os, os, v, bigEndian),
      EncodeField(0, cs, v, bigEndian), EncodeField(0, os, v, bigEndian));
  }

  /** The directory offset of the file above: the directory follows the header and the offset. */
  lemma EmptyFileDirectoryOffset(v: FormatVersion, bigEndian: bool)
    ensures
      var file := EncodeEmptyFile(v, bigEndian);
      var hs, os := HeaderSize(v), OffsetSize(v);
      var h := BR.Reader(file, hs, bigEndian);
      ReadOffset(h, v) == Ok(BR.Read(hs + os, BR.Skip(h, os)))
  {
    PowValues();
    EmptyFileLayout(v, bigEndian);
    ReadFieldAt(BR.Reader(EncodeEmptyFile(v, bigEndian), HeaderSize(v), bigEndian), HeaderSize(v) + OffsetSize(v), OffsetSize(v), v);
  }

  /** The entry count of the file above: zero. */
  lemma EmptyFileEntryCount(v: FormatVersion, bigEndian: bool)
    ensures
      var file := EncodeEmptyFile(v, bigEndian);
      var hs, os, cs := HeaderSize(v), OffsetSize(v), EntryCountSize(v);
      var d := BR.Reader(file, hs + os, bigEndian);
      ReadEntryCount(d, v) == Ok(BR.Read(0, BR.Skip(d, cs)))
  {
    PowValues();
    EmptyFileLayout(v, bigEndian);
    ReadFieldAt(BR.Reader(EncodeEmptyFile(v, bigEndian), HeaderSize(v) + OffsetSize(v), bigEndian), 0, EntryCountSize(v), v);
  }

  /** The header of the file above. */
  lemma EmptyFileHeader(v: FormatVersion, bigEndian: bool)
    ensures
      var file := EncodeEmptyFile(v, bigEndian);
      ReadFileHeader(file) == Ok(BR.Read(v, BR.Reader(file, HeaderSize(v), bigEndian)))
  {
    ReadFileHeaderInvertsEncode(v, bigEndian, EmptyDirectoryBytes(v, bigEndian));
  }

  /** The next-IFD offset of the file above: zero, and the last field of the file. */
  lemma EmptyFileNextOffset(v: FormatVersion, bigEndian: bool)
    ensures
      var file := EncodeEmptyFile(v, bigEndian);
      var hs, os, cs := HeaderSize(v), OffsetSize(v), EntryCountSize(v);
      NextIfdOffset(BR.Reader(file, hs + os + cs, bigEndian), v) == Ok(BR.Read(0, BR.Reader(file, |file|, bigEndian)))
  {
    PowValues();
    EmptyFileLayout(v, bigEndian);
    ReadFieldAt(BR.Reader(EncodeEmptyFile(v, bigEndian), HeaderSize(v) + OffsetSize(v) + EntryCountSize(v), bigEndian), 0, OffsetSize(v), v);
  }

  /**
   * A directory with no entries decodes to no entries and the default IFD,
   * whatever the header, the directory's place and the next-IFD offset.
   */
  lemma DecodeEmptyDirectory(file: seq<byte>, v: FormatVersion, bigEndian: bool, at: int, nextOffset: int)
    requires ReadFileHeader(file) == Ok(BR.Read(v, BR.Reader(file, HeaderSize(v), bigEndian)))
    requires
      var h := BR.Reader(file, HeaderSize(v), bigEndian);
      ReadOffset(h, v) == Ok(BR.Read(at, BR.Skip(h, OffsetSize(v))))
    requires 0 <= at < |file|
    requires
      var d := BR.Reader(file, at, bigEndian);
      ReadEntryCount(d, v) == Ok(BR.Read(0, BR.Skip(d, EntryCountSize(v))))
    requires
      var n := BR.Reader(file, at + EntryCountSize(v), bigEndian);
      NextIfdOffset(n, v) == Ok(BR.Read(nextOffset, BR.Skip(n, OffsetSize(v))))
    ensures
      var end := BR.Reader(file, at + EntryCountSize(v) + OffsetSize(v), bigEndian);
      Decode(file) == Ok(TIFFImage(v, end, map[], Some(EmptyIFD()), nextOffset))
  {
    var h := BR.Reader(file, HeaderSize(v), bigEndian);
    ReadDirectoryEmpty(h, v, at);
    assert ProcessGeoKeys(EmptyIFD()) == Ok(EmptyIFD());
  }

  /**
   * An empty directory right after the header, followed by a zero next-IFD
   * offset that ends the file, decodes with the cursor at the end of the file.
   */
  lemma DecodeEmptyDirectoryAtEnd(file: seq<byte>, v: FormatVersion, bigEndian: bool)
    requires ReadFileHeader(file) == Ok(BR.Read(v, BR.Reader(file, HeaderSize(v), bigEndian)))
    requires
      var h := BR.Reader(file, HeaderSize(v), bigEndian);
      ReadOffset(h, v) == Ok(BR.Read(HeaderSize(v) + OffsetSize(v), BR.Skip(h, OffsetSize(v))))
    requires |file| == HeaderSize(v) + OffsetSize(v) + EntryCountSize(v) + OffsetSize(v)
    requires
      var d := BR.Reader(file, HeaderSize(v) + OffsetSize(v), bigEndian);
      ReadEntryCount(d, v) == Ok(BR.Read(0, BR.Skip(d, EntryCountSize(v))))
    requires
      var n := BR.Reader(file, HeaderSize(v) + OffsetSize(v) + EntryCountSize(v), bigEndian);
      NextIfdOffset(n, v) == Ok(BR.Read(0, BR.Skip(n, OffsetSize(v))))
    ensures Decode(file) == Ok(TIFFImage(v, BR.Reader(file, |file|, bigEndian), map[], Some(EmptyIFD()), 0))
  {
    DecodeEmptyDirectory(file, v, bigEndian, HeaderSize(v) + OffsetSize(v), 0);
  }

  /** Decoding the file above yields no entries and the default IFD. */
  lemma DecodeEmptyFile(v: FormatVersion, bigEndian: bool)
    ensures
      var file := EncodeEmptyFile(v, bigEndian);
      Decode(file) == Ok(TIFFImage(v, BR.Reader(file, |file|, bigEndian), map[], Some(EmptyIFD()), 0))
  {
    EmptyFileHeader(v, bigEndian);
    EmptyFileDirectoryOffset(v, bigEndian);
    EmptyFileEntryCount(v, bigEndian);
    EmptyFileNextOffset(v, bigEndian);
    DecodeEmptyDirectoryAtEnd(EncodeEmptyFile(v, bigEndian), v, bigEndian);
  }
}
