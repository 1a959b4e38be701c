/** Go's fixed-width integer arithmetic, where the engines depend on it. */
module GoInts {

  /** Go's int32. */
  type Int32 = x: int | -0x8000_0000 <= x < 0x8000_0000

  const MaxInt32: int := 0x7fff_ffff

  /** Go's conversion `int32(x)`: keep the low 32 bits, read as two's complement. */
  function ToInt32(x: int): (r: Int32)
    ensures -0x8000_0000 <= x < 0x8000_0000 ==> r == x
    ensures (x - r) % 0x1_0000_0000 == 0
  {
    (x + 0x8000_0000) % 0x1_0000_0000 - 0x8000_0000
  }

  /** Go's `%` on integers: truncated division, so the remainder takes the sign of `a`. */
  function GoRem(a: int, b: int): (r: int)
    requires b > 0
    ensures -b < r < b
    ensures 0 <= a ==> r == a % b
    ensures a < 0 ==> r <= 0
  {
    if a >= 0 then a % b else -((-a) % b)
  }

  /**
   * Go's `/` on integers: truncated division. It agrees with Dafny's `/` on
   * non-negative operands and rounds small negative quotients to zero.
   */
  function GoQuo(a: int, b: int): (q: int)
    requires b > 0
    ensures 0 <= a ==> q == a / b
    ensures -b < a < b ==> q == 0
  {
    if a >= 0 then QuoSmall(a, b); a / b else QuoSmall(-a, b); -((-a) / b)
  }

  /** A non-negative dividend smaller than the divisor has quotient 0. */
  lemma QuoSmall(a: int, b: int)
    requires 0 <= a && 0 < b
    ensures a < b ==> a / b == 0
  {
  }
}
