/**
 * Bytes and the two byte orders.
 *
 * `BE` and `LE` are the reference meaning of a run of bytes as an unsigned
 * integer; the readers are proved against them. `EncodeBE` / `EncodeLE`
 * are the matching writers, so that every decode can be stated as the
 * inverse of an encode.
 */
module Bytes {

  type byte = b: int | 0 <= b < 0x100

  function Pow256(n: nat): (p: nat)
    ensures p >= 1
  {
    if n == 0 then 1 else 256 * Pow256(n - 1)
  }

  /** The byte widths of two adjacent fields add up: `256^(a+b) == 256^a * 256^b`. */
  lemma {:induction false} Pow256Add(a: nat, b: nat)
    ensures Pow256(a + b) == Pow256(a) * Pow256(b)
  {
    if a > 0 {
      Pow256Add(a - 1, b);
      assert Pow256(a + b) == 256 * Pow256(a - 1 + b);
    }
  }

  /** Unsigned value of `bs`, most significant byte first. */
  function BE(bs: seq<byte>): (v: nat)
    ensures v < Pow256(|bs|)
  {
    if |bs| == 0 then 0
    else
      var hi := BE(bs[..|bs| - 1]);
      assert hi <= Pow256(|bs| - 1) - 1;
      assert hi * 256 <= Pow256(|bs| - 1) * 256 - 256;
      hi * 256 + bs[|bs| - 1]
  }

  /** Unsigned value of `bs`, least significant byte first. */
  function LE(bs: seq<byte>): (v: nat)
    ensures v < Pow256(|bs|)
  {
    if |bs| == 0 then 0
    else
      var hi := LE(bs[1..]);
      assert hi <= Pow256(|bs| - 1) - 1;
      assert 256 * hi <= 256 * Pow256(|bs| - 1) - 256;
      bs[0] + 256 * hi
  }

  /** The value of `bs` in the byte order a reader's `bigEndian` flag selects. */
  function Decode(bs: seq<byte>, bigEndian: bool): (v: nat)
    ensures v < Pow256(|bs|)
  {
    if bigEndian then BE(bs) else LE(bs)
  }

  /** The `n` bytes of `v`, most significant first. */
  function EncodeBE(v: nat, n: nat): (bs: seq<byte>)
    requires v < Pow256(n)
    ensures |bs| == n
    ensures BE(bs) == v
  {
    if n == 0 then []
    else
      var prefix := EncodeBE(v / 256, n - 1);
      var bs := prefix + [v % 256];
      assert bs[..|bs| - 1] == prefix;
      bs
  }

  /** The `n` bytes of `v`, least significant first. */
  function EncodeLE(v: nat, n: nat): (bs: seq<byte>)
    requires v < Pow256(n)
    ensures |bs| == n
    ensures LE(bs) == v
  {
    if n == 0 then []
    else
      var suffix := EncodeLE(v / 256, n - 1);
      var bs := [v % 256] + suffix;
      assert bs[1..] == suffix;
      bs
  }

  function Encode(v: nat, n: nat, bigEndian: bool): (bs: seq<byte>)
    requires v < Pow256(n)
    ensures |bs| == n
    ensures Decode(bs, bigEndian) == v
  {
    if bigEndian then EncodeBE(v, n) else EncodeLE(v, n)
  }

  /** Decoding is injective: the bytes are the encoding of their value. */
  lemma {:induction false} EncodeDecode(bs: seq<byte>, bigEndian: bool)
    ensures Encode(Decode(bs, bigEndian), |bs|, bigEndian) == bs
    decreases |bs|
  {
    if |bs| > 0 {
      if bigEndian {
        var prefix := bs[..|bs| - 1];
        EncodeDecode(prefix, true);
        var v := BE(bs);
        assert v == BE(prefix) * 256 + bs[|bs| - 1];
        assert v / 256 == BE(prefix) && v % 256 == bs[|bs| - 1];
        assert bs == prefix + [bs[|bs| - 1]];
      } else {
        var suffix := bs[1..];
        EncodeDecode(suffix, false);
        var v := LE(bs);
        assert v == bs[0] + 256 * LE(suffix);
        assert v / 256 == LE(suffix) && v % 256 == bs[0];
        assert bs == [bs[0]] + suffix;
      }
    }
  }

  /** A most-significant-first value splits at any byte boundary. */
  lemma {:induction false} BEAppend(a: seq<byte>, b: seq<byte>)
    ensures BE(a + b) == BE(a) * Pow256(|b|) + BE(b)
    decreases |b|
  {
    if |b| == 0 {
      assert a + b == a;
    } else {
      var b' := b[..|b| - 1];
      assert (a + b)[..|a + b| - 1] == a + b';
      BEAppend(a, b');
      var x, p, y, c := BE(a), Pow256(|b'|), BE(b'), b[|b| - 1];
      assert BE(a + b) == BE(a + b') * 256 + c;
      ShiftRight(x, p, y, c);
    }
  }

  /** A least-significant-first value splits at any byte boundary. */
  lemma {:induction false} LEAppend(a: seq<byte>, b: seq<byte>)
    ensures LE(a + b) == LE(a) + Pow256(|a|) * LE(b)
    decreases |a|
  {
    if |a| == 0 {
      assert a + b == b;
    } else {
      var a' := a[1..];
      assert (a + b)[1..] == a' + b;
      LEAppend(a', b);
      var x, p, y := LE(a'), Pow256(|a'|), LE(b);
      assert LE(a + b) == a[0] + 256 * LE(a' + b);
      ShiftLeft(a[0], x, p, y);
    }
  }

  lemma ShiftRight(x: int, p: int, y: int, c: int)
    ensures (x * p + y) * 256 + c == x * (p * 256) + (y * 256 + c)
  {
  }

  lemma ShiftLeft(c: int, x: int, p: int, y: int)
    ensures c + 256 * (x + p * y) == (c + 256 * x) + (256 * p) * y
  {
  }

  lemma PowValues()
    ensures Pow256(4) == 0x1_0000_0000
    ensures Pow256(8) == 0x1_0000_0000_0000_0000
    ensures Pow256(2) == 0x1_0000
    ensures Pow256(1) == 0x100
  {
  }

  /** An `n`-byte pattern read as an unsigned or a two's-complement signed integer. */
  function Interpret(v: nat, n: nat, signed: bool): int
    requires 0 < n && v < Pow256(n)
  {
    if signed then Signed(v, n) else v
  }

  /** Two's-complement reading of an `n`-byte unsigned value. */
  function Signed(v: nat, n: nat): (s: int)
    requires 0 < n && v < Pow256(n)
    ensures s + Pow256(n) / 2 >= 0 && s < Pow256(n) / 2
    ensures s >= 0 ==> s == v
    ensures s < 0 ==> s == v - Pow256(n)
  {
    if v >= Pow256(n) / 2 then v - Pow256(n) else v
  }

  /** Reading back the `n`-byte bit pattern of `v` gives `v`, in both signednesses. */
  lemma InterpretInvertsBits(v: int, n: nat, signed: bool)
    requires 0 < n
    requires if signed then v + Pow256(n) / 2 >= 0 && v < Pow256(n) / 2 else 0 <= v < Pow256(n)
    ensures var bits := if v < 0 then v + Pow256(n) else v;
      0 <= bits < Pow256(n) && Interpret(bits, n, signed) == v
  {
    var bits := if v < 0 then v + Pow256(n) else v;
    if signed {
      if v < 0 {
        assert bits >= Pow256(n) / 2;
      } else {
        assert bits < Pow256(n) / 2;
      }
    }
  }
}
