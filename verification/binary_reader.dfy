/**
 * The in-memory `BinaryReader`: a cursor over a byte buffer with a runtime
 * byte-order flag.
 *
 * The class's only mutable state is its cursor `idx`; the model threads an
 * immutable `Reader` record through pure functions instead, each returning
 * the value it decoded together with the reader after the call.
 */
module BinaryReader {
  import opened Errors
  import opened Bytes
  import opened SwiftInt

  /** `data`, the cursor `idx`, and the `bigEndian` flag. */
  datatype Reader = Reader(data: seq<byte>, pos: nat, bigEndian: bool)

  /** A decoded value and the reader after decoding it. */
  datatype Read<+T> = Read(value: T, next: Reader)

  /** An IEEE-754 value kept as its bit pattern; the decoder only copies these. */
  datatype FloatBits =
    | DoubleBits(bits: nat)   // a `Double`
    | SingleBits(bits: nat)   // a `Float`, later widened to `Double` by the caller

  /** The `n` bytes at the cursor. */
  function Ahead(r: Reader, n: nat): seq<byte>
    requires r.pos + n <= |r.data|
  {
    r.data[r.pos..r.pos + n]
  }

  /** Advances the cursor by `n` bytes. */
  function Skip(r: Reader, n: nat): Reader {
    r.(pos := r.pos + n)
  }

  /** A slice of the bytes at the cursor is the bytes at the cursor moved to the slice's start. */
  lemma AheadSlice(r: Reader, n: nat, i: nat, j: nat)
    requires r.pos + n <= |r.data| && i <= j <= n
    ensures Ahead(r, n)[i..j] == Ahead(Skip(r, i), j - i)
  {
    var a, b := Ahead(r, n)[i..j], Ahead(Skip(r, i), j - i);
    assert |a| == |b|;
    forall k | 0 <= k < |a|
      ensures a[k] == b[k]
    {
      assert a[k] == r.data[r.pos + i + k];
    }
  }

  /** The cursor `i` elements of `w` bytes further on. */
  function Nth(r: Reader, i: nat, w: nat): (c: Reader)
    ensures c.data == r.data && c.bigEndian == r.bigEndian && c.pos == r.pos + i * w
  {
    r.(pos := r.pos + i * w)
  }

  lemma Decode2(bs: seq<byte>)
    requires |bs| == 2
    ensures BE(bs) == (bs[0] as int) * 0x100 + bs[1]
    ensures LE(bs) == bs[0] + (bs[1] as int) * 0x100
  {
    assert bs[..1][..0] == [];
    assert bs[1..][1..] == [];
  }

  lemma Decode4(bs: seq<byte>)
    requires |bs| == 4
    ensures BE(bs) == (bs[0] as int) * 0x100_0000 + (bs[1] as int) * 0x1_0000 + (bs[2] as int) * 0x100 + bs[3]
    ensures LE(bs) == bs[0] + (bs[1] as int) * 0x100 + (bs[2] as int) * 0x1_0000 + (bs[3] as int) * 0x100_0000
  {
    Decode2(bs[..2]);
    Decode2(bs[2..]);
    BEAppend(bs[..2], bs[2..]);
    LEAppend(bs[..2], bs[2..]);
    PowValues();
    assert bs == bs[..2] + bs[2..];
  }

  lemma Decode8(bs: seq<byte>)
    requires |bs| == 8
    ensures BE(bs) == BE(bs[..4]) * 0x1_0000_0000 + BE(bs[4..])
    ensures LE(bs) == LE(bs[..4]) + LE(bs[4..]) * 0x1_0000_0000
  {
    BEAppend(bs[..4], bs[4..]);
    LEAppend(bs[..4], bs[4..]);
    PowValues();
    assert bs == bs[..4] + bs[4..];
  }

  /** `get() -> UInt16`: `b0 << 8 | b1` when big-endian, `b0 | b1 << 8` otherwise. */
  function GetU16(r: Reader): (res: Result<Read<nat>>)
    ensures res.Ok? <==> r.pos + 2 <= |r.data|
    ensures res.Err? ==> res.error == Trapped(ReadPastEnd)
    ensures res.Ok? ==> res.value.next == Skip(r, 2)
    ensures res.Ok? ==> res.value.value == Decode(Ahead(r, 2), r.bigEndian) < 0x1_0000
  {
    if r.pos + 2 > |r.data| then Fail(ReadPastEnd)
    else
      var b0, b1 := r.data[r.pos] as int, r.data[r.pos + 1] as int;
      Decode2(Ahead(r, 2));
      var v := if r.bigEndian then b0 * 0x100 + b1 else b0 + b1 * 0x100;
      Ok(Read(v, Skip(r, 2)))
  }

  /** `get() -> UInt32`: the four bytes at the cursor, assembled in the selected order. */
  function GetU32(r: Reader): (res: Result<Read<nat>>)
    ensures res.Ok? <==> r.pos + 4 <= |r.data|
    ensures res.Err? ==> res.error == Trapped(ReadPastEnd)
    ensures res.Ok? ==> res.value.next == Skip(r, 4)
    ensures res.Ok? ==> res.value.value == Decode(Ahead(r, 4), r.bigEndian) < 0x1_0000_0000
  {
    if r.pos + 4 > |r.data| then Fail(ReadPastEnd)
    else
      var b0, b1, b2, b3 :=
        r.data[r.pos] as int, r.data[r.pos + 1] as int, r.data[r.pos + 2] as int, r.data[r.pos + 3] as int;
      Decode4(Ahead(r, 4));
      PowValues();
      var v :=
        if r.bigEndian then b0 * 0x100_0000 + b1 * 0x1_0000 + b2 * 0x100 + b3
        else b0 + b1 * 0x100 + b2 * 0x1_0000 + b3 * 0x100_0000;
      Ok(Read(v, Skip(r, 4)))
  }

  /**
   * `get() -> UInt64`: two `UInt32` reads, the high word first when
   * big-endian and the low word first otherwise.
   */
  function GetU64(r: Reader): (res: Result<Read<nat>>)
    ensures res.Ok? <==> r.pos + 8 <= |r.data|
    ensures res.Err? ==> res.error == Trapped(ReadPastEnd)
    ensures res.Ok? ==> res.value.next == Skip(r, 8)
    ensures res.Ok? ==> res.value.value == Decode(Ahead(r, 8), r.bigEndian)
  {
    if r.pos + 8 > |r.data| then Fail(ReadPastEnd)
    else
      var first := GetU32(r).value;
      var second := GetU32(first.next).value;
      var bs := Ahead(r, 8);
      Decode8(bs);
      assert bs[..4] == Ahead(r, 4) && bs[4..] == Ahead(first.next, 4);
      var v :=
        if r.bigEndian then first.value * 0x1_0000_0000 + second.value
        else second.value * 0x1_0000_0000 + first.value;
      Ok(Read(v, second.next))
  }

  /**
   * `get() -> Double`: the eight bytes at the cursor assembled into a bit
   * pattern in the selected order; the `Double` is that pattern.
   */
  function GetDouble(r: Reader): (res: Result<Read<FloatBits>>)
    ensures res.Ok? <==> r.pos + 8 <= |r.data|
    ensures res.Err? ==> res.error == Trapped(ReadPastEnd)
    ensures res.Ok? ==> res.value.next == Skip(r, 8)
    ensures res.Ok? ==> res.value.value == DoubleBits(Decode(Ahead(r, 8), r.bigEndian))
  {
    if r.pos + 8 > |r.data| then Fail(ReadPastEnd)
    else
      var bs := Ahead(r, 8);
      var iv := if r.bigEndian then AssembleBE8(bs) else AssembleLE8(bs);
      Ok(Read(DoubleBits(iv), Skip(r, 8)))
  }

  /** The big-endian assembly of `get() -> Double`: bytes 0-3 shifted up by 56..32, then bytes 4-7. */
  function AssembleBE8(bs: seq<byte>): (iv: nat)
    requires |bs| == 8
    ensures iv == BE(bs)
  {
    var hi := (bs[0] as int) * 0x100_0000_0000_0000 + (bs[1] as int) * 0x1_0000_0000_0000
      + (bs[2] as int) * 0x100_0000_0000 + (bs[3] as int) * 0x1_0000_0000;
    var lo := (bs[4] as int) * 0x100_0000 + (bs[5] as int) * 0x1_0000 + (bs[6] as int) * 0x100 + bs[7];
    Decode8(bs);
    Decode4(bs[..4]);
    Decode4(bs[4..]);
    hi + lo
  }

  /** The little-endian assembly of `get() -> Double`: bytes 0-3, then bytes 4-7 shifted up by 32..56. */
  function AssembleLE8(bs: seq<byte>): (iv: nat)
    requires |bs| == 8
    ensures iv == LE(bs)
  {
    var lo := bs[0] + (bs[1] as int) * 0x100 + (bs[2] as int) * 0x1_0000 + (bs[3] as int) * 0x100_0000;
    var hi := (bs[4] as int) * 0x1_0000_0000 + (bs[5] as int) * 0x100_0000_0000
      + (bs[6] as int) * 0x1_0000_0000_0000 + (bs[7] as int) * 0x100_0000_0000_0000;
    Decode8(bs);
    Decode4(bs[..4]);
    Decode4(bs[4..]);
    lo + hi
  }

  /** The pattern `get() -> Double` builds is the `UInt64` read of the same bytes. */
  lemma DoubleIsU64Pattern(r: Reader)
    ensures GetDouble(r).Ok? <==> GetU64(r).Ok?
    ensures GetDouble(r).Ok? ==>
      GetDouble(r).value.value == DoubleBits(GetU64(r).value.value)
      && GetDouble(r).value.next == GetU64(r).value.next
  {
  }

  /**
   * `get(count:) -> String?`: the `count` bytes at the cursor as ASCII text.
   * The cursor does not move. Foundation's ASCII decoding is taken to fail
   * on a byte of 0x80 or more.
   */
  function GetString(r: Reader, count: int): (res: Result<Option<string>>)
    ensures res.Ok? <==> 0 <= count && r.pos + count <= |r.data|
    ensures res.Err? ==> res.error == Trapped(IndexOutOfRange)
    ensures res.Ok? ==> (res.value.Some? <==> forall i :: r.pos <= i < r.pos + count ==> r.data[i] < 0x80)
    ensures res.Ok? && res.value.Some? ==>
      |res.value.value| == count
      && forall i :: 0 <= i < count ==> res.value.value[i] as int == r.data[r.pos + i]
  {
    if count < 0 || r.pos + count > |r.data| then Fail(IndexOutOfRange)
    else
      var bs := r.data[r.pos..r.pos + count];
      if forall i :: 0 <= i < |bs| ==> bs[i] < 0x80 then
        Ok(Some(seq(|bs|, i requires 0 <= i < |bs| => bs[i] as char)))
      else
        Ok(None)
  }

  /** `seek(by:)`: moves the cursor by `delta`; the target must lie inside the data. */
  function SeekBy(r: Reader, delta: int): (res: Result<Reader>)
    ensures res.Ok? <==> 0 <= r.pos + delta < |r.data|
    ensures res.Err? ==> res.error == Trapped(SeekOutOfRange)
    ensures res.Ok? ==> res.value.pos == r.pos + delta
    ensures res.Ok? ==> res.value.data == r.data && res.value.bigEndian == r.bigEndian
  {
    if 0 <= r.pos + delta < |r.data| then Ok(r.(pos := r.pos + delta)) else Fail(SeekOutOfRange)
  }

  /** `seek(to:)`: moves the cursor to `offset`, which must lie inside the data. */
  function SeekTo(r: Reader, offset: int): (res: Result<Reader>)
    ensures res.Ok? <==> 0 <= offset < |r.data|
    ensures res.Err? ==> res.error == Trapped(SeekOutOfRange)
    ensures res.Ok? ==> res.value.pos == offset
    ensures res.Ok? ==> res.value.data == r.data && res.value.bigEndian == r.bigEndian
  {
    if 0 <= offset < |r.data| then Ok(r.(pos := offset)) else Fail(SeekOutOfRange)
  }

  /**
   * `at(offset:op:)`: saves the cursor, seeks to `offset`, runs `op`, and
   * restores the saved cursor in a `defer`. The restoring seek has the same
   * precondition as any seek, so a saved cursor at the end of the data traps
   * even when `op` succeeded; a trap inside `op` happens before the restore.
   */
  function At<T>(r: Reader, offset: int, op: Reader -> Result<Read<T>>): (res: Result<Read<T>>)
    ensures !(0 <= offset < |r.data|) ==> res == Fail(SeekOutOfRange)
    ensures 0 <= offset < |r.data| ==>
      var inner := op(r.(pos := offset));
      && (inner.Err? && inner.error.Trapped? ==> res == inner.PropagateFailure())
      && (!(inner.Err? && inner.error.Trapped?) && r.pos >= |r.data| ==> res == Fail(SeekOutOfRange))
      && (r.pos < |r.data| && inner.Err? ==> res == inner.PropagateFailure())
      && (r.pos < |r.data| && inner.Ok? ==> res == Ok(Read(inner.value.value, r)))
  {
    if !(0 <= offset < |r.data|) then Fail(SeekOutOfRange)
    else
      var inner := op(r.(pos := offset));
      if inner.Err? && inner.error.Trapped? then inner.PropagateFailure()
      else if r.pos >= |r.data| then Fail(SeekOutOfRange)
      else if inner.Err? then inner.PropagateFailure()
      else Ok(Read(inner.value.value, r))
  }

  /** Whenever `at` returns, the reader is the one it was called with. */
  lemma AtRestores<T>(r: Reader, offset: int, op: Reader -> Result<Read<T>>)
    ensures At(r, offset, op).Ok? ==> At(r, offset, op).value.next == r
    ensures At(r, offset, op).Ok? <==>
      0 <= offset < |r.data| && r.pos < |r.data| && op(r.(pos := offset)).Ok?
  {
  }

  /** The element types the array readers decode. */
  datatype Kind = U16 | U32 | U64 | F64

  function Width(k: Kind): nat {
    match k
    case U16 => 2
    case U32 => 4
    case U64 => 8
    case F64 => 8
  }

  /** One element of kind `k`; a `Double` is returned as its bit pattern. */
  function Scalar(r: Reader, k: Kind): (res: Result<Read<nat>>)
    ensures res.Ok? <==> r.pos + Width(k) <= |r.data|
    ensures res.Err? ==> res.error == Trapped(ReadPastEnd)
    ensures res.Ok? ==> res.value.next == Skip(r, Width(k))
    ensures res.Ok? ==> res.value.value == Decode(Ahead(r, Width(k)), r.bigEndian)
  {
    match k
    case U16 => GetU16(r)
    case U32 => GetU32(r)
    case U64 => GetU64(r)
    case F64 =>
      var d :- GetDouble(r);
      Ok(Read(d.value.bits, d.next))
  }

  /**
   * `values` are the elements of a run at the cursor of `r`: element `i` is
   * `f` of the `w` bytes `i * w` bytes on.
   */
  ghost predicate IsRun<T>(r: Reader, w: nat, f: (seq<byte>, bool) -> T, values: seq<T>) {
    forall i :: 0 <= i < |values| ==>
      r.pos + i * w + w <= |r.data| && values[i] == f(Ahead(Nth(r, i, w), w), r.bigEndian)
  }

  /** A run is its first element followed by the run one element further on. */
  lemma {:induction false} RunCons<T>(r: Reader, w: nat, f: (seq<byte>, bool) -> T, rest: seq<T>)
    requires r.pos + w <= |r.data|
    requires IsRun(Skip(r, w), w, f, rest)
    ensures IsRun(r, w, f, [f(Ahead(r, w), r.bigEndian)] + rest)
  {
    var values := [f(Ahead(r, w), r.bigEndian)] + rest;
    forall i | 0 <= i < |values|
      ensures r.pos + i * w + w <= |r.data| && values[i] == f(Ahead(Nth(r, i, w), w), r.bigEndian)
    {
      if i == 0 {
        assert Nth(r, 0, w) == r;
      } else {
        assert values[i] == rest[i - 1];
        var q := (i - 1) * w;
        assert i * w == w + q;
        assert Nth(Skip(r, w), i - 1, w) == Nth(r, i, w);
      }
    }
  }

  lemma MulMono(i: nat, j: nat, w: nat)
    requires i <= j
    ensures i * w <= j * w
  {
  }

  /**
   * `count` fixed-width elements read one after another from the cursor,
   * each decoded from its `w` bytes by `f`; the loops of the array readers
   * and of the TIFF value readers. A read that runs off the data stops the
   * run with `err`.
   */
  function ReadRun<T>(r: Reader, count: nat, w: nat, f: (seq<byte>, bool) -> T, err: Error)
    : (res: Result<Read<seq<T>>>)
    requires w > 0
    ensures res.Ok? <==> count == 0 || r.pos + count * w <= |r.data|
    ensures res.Err? ==> res.error == err
    ensures res.Ok? ==> |res.value.value| == count && res.value.next == Nth(r, count, w)
    ensures res.Ok? ==> IsRun(r, w, f, res.value.value)
    decreases count
  {
    if count == 0 then Ok(Read([], r))
    else if r.pos + w > |r.data| then
      assert count * w >= w by { MulMono(1, count, w); }
      Err(err)
    else
      assert count * w == w + (count - 1) * w;
      var rest := ReadRun(Skip(r, w), count - 1, w, f, err);
      if rest.Err? then Err(err)
      else
        RunCons(r, w, f, rest.value.value);
        Ok(Read([f(Ahead(r, w), r.bigEndian)] + rest.value.value, rest.value.next))
  }

  /** The element decoder of the array readers: every kind is its bytes as an unsigned number. */
  function ScalarOf(bs: seq<byte>, bigEndian: bool): nat {
    Decode(bs, bigEndian)
  }

  /**
   * `get(count:) -> [UInt16]` / `[UInt32]` / `[UInt64]` / `[Double]`: the
   * `precondition(inCount < Int.max)`, then `count` elements read one after
   * another from the cursor, each the scalar `get()` at its position.
   */
  function GetArray(r: Reader, count: nat, k: Kind): (res: Result<Read<seq<nat>>>)
    ensures res.Ok? <==> count < INT64_MAX && (count == 0 || r.pos + count * Width(k) <= |r.data|)
    ensures count >= INT64_MAX ==> res == Fail(CountTooLarge)
    ensures count < INT64_MAX && res.Err? ==> res.error == Trapped(ReadPastEnd)
    ensures res.Ok? ==> |res.value.value| == count && res.value.next == Nth(r, count, Width(k))
    ensures res.Ok? ==> forall i :: 0 <= i < count ==>
      Scalar(Nth(r, i, Width(k)), k).Ok? && res.value.value[i] == Scalar(Nth(r, i, Width(k)), k).value.value
  {
    if count >= INT64_MAX then Fail(CountTooLarge)
    else
      var res := ReadRun(r, count, Width(k), ScalarOf, Trapped(ReadPastEnd));
      if res.Ok? then
        ScalarRun(r, k, res.value.value);
        res
      else res
  }

  /** A run of scalar elements holds, at each index, the scalar read at that place. */
  lemma ScalarRun(r: Reader, k: Kind, vs: seq<nat>)
    requires IsRun(r, Width(k), ScalarOf, vs)
    ensures forall i :: 0 <= i < |vs| ==>
      Scalar(Nth(r, i, Width(k)), k).Ok? && vs[i] == Scalar(Nth(r, i, Width(k)), k).value.value
  {
    forall i | 0 <= i < |vs|
      ensures Scalar(Nth(r, i, Width(k)), k).Ok? && vs[i] == Scalar(Nth(r, i, Width(k)), k).value.value
    {
      var v := vs[i];
      assert v == ScalarOf(Ahead(Nth(r, i, Width(k)), Width(k)), r.bigEndian);
    }
  }

  /** Every scalar read inverts the matching encoder, wherever the encoded bytes sit. */
  lemma ScalarInvertsEncode(prefix: seq<byte>, v: nat, k: Kind, suffix: seq<byte>, bigEndian: bool)
    requires v < Pow256(Width(k))
    ensures
      var r := Reader(prefix + Encode(v, Width(k), bigEndian) + suffix, |prefix|, bigEndian);
      Scalar(r, k) == Ok(Read(v, Skip(r, Width(k))))
  {
    var r := Reader(prefix + Encode(v, Width(k), bigEndian) + suffix, |prefix|, bigEndian);
    assert Ahead(r, Width(k)) == Encode(v, Width(k), bigEndian);
  }
}
