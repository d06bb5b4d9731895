/** Java's 32-bit `int`, with its wrap-around addition written out. */
module JavaInt {

  const MIN_INT: int := -0x8000_0000
  const MAX_INT: int := 0x7fff_ffff
  /** Two to the 32nd: Java `int` arithmetic is exact modulo this. */
  const MODULUS: int := 0x1_0000_0000

  predicate InRange(x: int) {
    MIN_INT <= x <= MAX_INT
  }

  type Int32 = x: int | -0x8000_0000 <= x <= 0x7fff_ffff

  /** Java `a + b` on two `int`s: the exact sum when it fits, otherwise the sum wrapped into range. */
  function Add(a: Int32, b: Int32): (r: Int32)
    ensures InRange(a + b) ==> r == a + b
    ensures (a + b - r) % MODULUS == 0
    ensures 0 <= a && 0 <= b ==> (0 <= r <==> a + b <= MAX_INT)
  {
    var s := a + b;
    if s > MAX_INT then s - MODULUS
    else if s < MIN_INT then s + MODULUS
    else s
  }
}
