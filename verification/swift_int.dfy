/**
 * Swift's fixed-width integer semantics, made explicit over unbounded `int`.
 *
 * Swift traps on overflowing `+`, `-`, `*`, on a conversion `UInt16(x)` /
 * `UInt32(x)` whose argument does not fit, and on division by zero; its `/`
 * truncates toward zero and its `%` takes the sign of the dividend.
 */
module SwiftInt {
  import opened Errors

  const INT64_MIN: int := -0x8000_0000_0000_0000
  const INT64_MAX: int := 0x7fff_ffff_ffff_ffff

  predicate InInt64(x: int) {
    INT64_MIN <= x <= INT64_MAX
  }

  /** The value of an `Int64` (or 64-bit `Int`) expression, or the overflow trap. */
  function Checked(x: int): (r: Result<int>)
    ensures r.Ok? <==> InInt64(x)
    ensures r.Ok? ==> r.value == x
    ensures r.Err? ==> r.error == Trapped(Overflow)
  {
    if InInt64(x) then Ok(x) else Fail(Overflow)
  }

  /** `UInt16(x)`: traps unless `0 <= x < 2^16`. */
  function ToUInt16(x: int): (r: Result<nat>)
    ensures r.Ok? <==> 0 <= x < 0x1_0000
    ensures r.Ok? ==> r.value == x
    ensures r.Err? ==> r.error == Trapped(Overflow)
  {
    if 0 <= x < 0x1_0000 then Ok(x) else Fail(Overflow)
  }

  /** `UInt32(x)`: traps unless `0 <= x < 2^32`. */
  function ToUInt32(x: int): (r: Result<nat>)
    ensures r.Ok? <==> 0 <= x < 0x1_0000_0000
    ensures r.Ok? ==> r.value == x
    ensures r.Err? ==> r.error == Trapped(Overflow)
  {
    if 0 <= x < 0x1_0000_0000 then Ok(x) else Fail(Overflow)
  }

  /** Swift's `a / b` for a positive divisor: the quotient rounded toward zero. */
  function Quot(a: int, b: int): (q: int)
    requires b > 0
    ensures a >= 0 ==> q == a / b
    ensures a < 0 ==> q == -((-a) / b)
  {
    if a >= 0 then a / b
    else
      -((-a) / b)
  }

  /** Swift's `a % b` for a positive divisor: the remainder carries the sign of `a`. */
  function Rem(a: int, b: int): (m: int)
    requires b > 0
    ensures a >= 0 ==> m == a % b
    ensures a < 0 ==> m == -((-a) % b)
  {
    a - Quot(a, b) * b
  }
}
