/**
 * The file-backed `BinaryFileReader`. The open file descriptor becomes the
 * immutable byte sequence `data` of the shared `Reader` record, its length
 * is `|data|`, and the descriptor's position is the record's cursor.
 */
module BinaryFileReader {
  import opened Errors
  import opened Bytes
  import opened SwiftInt
  import BR = BinaryReader

  type Reader = BR.Reader
  type Read<T> = BR.Read<T>

  /** `init(url:)`: the whole file, `length` its size, the position at 0, `bigEndian` at its default of true. */
  function Init(file: seq<byte>): (r: Reader)
    ensures Length(r) == |file| && r.data == file
    ensures r.pos == 0 && r.bigEndian
  {
    BR.Reader(file, 0, true)
  }

  function Length(r: Reader): nat {
    |r.data|
  }

  /** `seek(to:)`: the descriptor's position becomes `offset`, which must satisfy `0 <= offset < length`. */
  function SeekTo(r: Reader, offset: int): (res: Result<Reader>)
    ensures res.Ok? <==> 0 <= offset < Length(r)
    ensures res.Err? ==> res.error == Trapped(SeekOutOfRange)
    ensures res.Ok? ==> res.value == r.(pos := offset)
  {
    BR.SeekTo(r, offset)
  }

  /**
   * `at(offset:op:)`: takes the descriptor's true position, seeks to
   * `offset`, runs `op` and seeks back in a `defer`. The `try?` there
   * swallows only the descriptor's own seek error, which a byte sequence
   * cannot raise; the seek's `precondition` still traps, so this behaves
   * as `BinaryReader.at`.
   */
  function At<T>(r: Reader, offset: int, op: Reader -> Result<Read<T>>): (res: Result<Read<T>>)
    ensures res.Ok? <==> 0 <= offset < Length(r) && r.pos < Length(r) && op(r.(pos := offset)).Ok?
    ensures res.Ok? ==> res.value == BR.Read(op(r.(pos := offset)).value.value, r)
    ensures 0 <= offset < Length(r) && r.pos < Length(r) && op(r.(pos := offset)).Err? ==>
      res.error == op(r.(pos := offset)).error
  {
    BR.At(r, offset, op)
  }

  /** The widths of Swift's fixed-width integer types. */
  predicate FixedWidth(w: nat) {
    w == 1 || w == 2 || w == 4 || w == 8
  }

  /**
   * `get<T>()`: reads `MemoryLayout<T>.size` bytes at the position (a
   * shorter read fails the debug `assert`) and converts them with
   * `T(bigEndian:)` or `T(littleEndian:)`; signed types are read in two's
   * complement.
   */
  function Get(r: Reader, w: nat, signed: bool): (res: Result<Read<int>>)
    requires FixedWidth(w)
    ensures res.Ok? <==> r.pos + w <= Length(r)
    ensures res.Err? ==> res.error == Trapped(FailedAssertion)
    ensures res.Ok? ==> res.value.next == BR.Skip(r, w)
  {
    if r.pos + w > |r.data| then Fail(FailedAssertion)
    else Ok(BR.Read(Interpret(Decode(BR.Ahead(r, w), r.bigEndian), w, signed), BR.Skip(r, w)))
  }

  /** An unsigned read is the plain value of the bytes at the cursor. */
  lemma GetUnsigned(r: Reader, w: nat)
    requires FixedWidth(w) && r.pos + w <= |r.data|
    ensures Get(r, w, false) == Ok(BR.Read(Decode(BR.Ahead(r, w), r.bigEndian), BR.Skip(r, w)))
  {
  }

  /** An unsigned read `i` bytes on is the plain value of that slice of the `n` bytes at the cursor. */
  lemma GetUnsignedAt(r: Reader, n: nat, i: nat, w: nat)
    requires FixedWidth(w) && r.pos + n <= |r.data| && i + w <= n
    ensures Get(BR.Skip(r, i), w, false) == Ok(BR.Read(Decode(BR.Ahead(r, n)[i..i + w], r.bigEndian), BR.Skip(r, i + w)))
  {
    BR.AheadSlice(r, n, i, i + w);
    GetUnsigned(BR.Skip(r, i), w);
  }

  /**
   * `get<T>()` for the unsigned types agrees with `BinaryReader`'s explicit
   * byte assembly; only the trap on a short read differs.
   */
  lemma GetAgreesWithBinaryReader(r: Reader)
    ensures Get(r, 2, false).Ok? <==> BR.GetU16(r).Ok?
    ensures Get(r, 4, false).Ok? <==> BR.GetU32(r).Ok?
    ensures Get(r, 8, false).Ok? <==> BR.GetU64(r).Ok?
    ensures Get(r, 2, false).Ok? ==> Get(r, 2, false).value == BR.GetU16(r).value
    ensures Get(r, 4, false).Ok? ==> Get(r, 4, false).value == BR.GetU32(r).value
    ensures Get(r, 8, false).Ok? ==> Get(r, 8, false).value == BR.GetU64(r).value
  {
  }

  /** `get<T>()` inverts the matching encoder, for signed and unsigned types. */
  lemma GetInvertsEncode(prefix: seq<byte>, v: int, w: nat, signed: bool, suffix: seq<byte>, bigEndian: bool)
    requires FixedWidth(w)
    requires if signed then v + Pow256(w) / 2 >= 0 && v < Pow256(w) / 2 else 0 <= v < Pow256(w)
    ensures
      var bits := if v < 0 then v + Pow256(w) else v;
      var r := BR.Reader(prefix + Encode(bits, w, bigEndian) + suffix, |prefix|, bigEndian);
      Get(r, w, signed) == Ok(BR.Read(v, BR.Skip(r, w)))
  {
    var bits := if v < 0 then v + Pow256(w) else v;
    var bs := Encode(bits, w, bigEndian);
    var r := BR.Reader(prefix + bs + suffix, |prefix|, bigEndian);
    assert BR.Ahead(r, w) == bs;
    InterpretInvertsBits(v, w, signed);
  }

  /**
   * `getArray(_:)`: fills the caller's array of `count` elements with one
   * read of `count * size` bytes (a shorter read fails the debug `assert`),
   * then converts every element from the file's byte order.
   */
  function GetArray(r: Reader, count: nat, w: nat, signed: bool): (res: Result<Read<seq<int>>>)
    requires FixedWidth(w)
    ensures res.Ok? <==> count == 0 || r.pos + count * w <= Length(r)
    ensures res.Err? ==> res.error == Trapped(FailedAssertion)
    ensures res.Ok? ==> |res.value.value| == count && res.value.next == BR.Nth(r, count, w)
    ensures res.Ok? ==> forall i :: 0 <= i < count ==>
      Get(BR.Nth(r, i, w), w, signed).Ok? && res.value.value[i] == Get(BR.Nth(r, i, w), w, signed).value.value
  {
    if count > 0 && r.pos + count * w > |r.data| then Fail(FailedAssertion)
    else
      var values := seq(count, i requires 0 <= i < count =>
        BR.MulMono(i + 1, count, w);
        Interpret(Decode(BR.Ahead(BR.Nth(r, i, w), w), r.bigEndian), w, signed));
      Ok(BR.Read(values, BR.Nth(r, count, w)))
  }
}
