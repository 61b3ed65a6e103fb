/** Bucket selection of the chained hash dictionary: Java's `int`
    arithmetic on a key's hash code, written out. */
module HashCodes {
  /** Java's 32-bit `int`. */
  newtype int32 = x: int | -0x8000_0000 <= x < 0x8000_0000

  /** Two's-complement wrap-around of an exact product into `int`. */
  function Wrap32(x: int): (r: int32)
    ensures -0x8000_0000 <= x < 0x8000_0000 ==> r as int == x
    ensures (r as int - x) % 0x1_0000_0000 == 0
  {
    var m := x % 0x1_0000_0000;
    if m < 0x8000_0000 then m as int32 else (m - 0x1_0000_0000) as int32
  }

  /** Java's `%`: the remainder takes the sign of the dividend. */
  function JavaRem(a: int, b: int): (r: int)
    requires b > 0
    ensures -b < r < b
    ensures a >= 0 ==> r >= 0
    ensures a <= 0 ==> r <= 0
    ensures a >= 0 ==> r == a % b
    ensures a < 0 ==> r == -((-a) % b)
  {
    if a >= 0 then a % b else -((-a) % b)
  }

  function Abs(x: int): (r: nat)
    ensures r == x || r == -x
  {
    if x < 0 then -x else x
  }

  /** `Math.abs(3 * key.hashCode() % length)`: the product wraps to 32
      bits before the remainder is taken. */
  function HashValue(code: int32, length: int): (r: nat)
    requires length > 0
    ensures r < length
    ensures 0 <= 3 * code as int < 0x8000_0000 ==> r == (3 * code as int) % length
  {
    Abs(JavaRem(Wrap32(3 * code as int) as int, length))
  }
}
