/** Java's 32-bit `int` and its truncating division and remainder. */
module JavaInt {

  const MinInt: int := -0x8000_0000
  const MaxInt: int := 0x7fff_ffff

  /** The values a Java `int` can hold. */
  type int32 = x: int | -0x8000_0000 <= x <= 0x7fff_ffff

  predicate InInt32Range(x: int) {
    MinInt <= x <= MaxInt
  }

  /** Java's `a / n` for a positive divisor: rounds toward zero. */
  function Div(a: int, n: int): (q: int)
    requires n > 0
    ensures a >= 0 ==> q * n <= a < q * n + n
    ensures a < 0 ==> q * n - n < a <= q * n
  {
    if a >= 0 then a / n else -((-a) / n)
  }

  /** Java's `a % n` for a positive divisor: takes the sign of `a`. */
  function Rem(a: int, n: int): (m: int)
    requires n > 0
    ensures a >= 0 ==> 0 <= m < n
    ensures a < 0 ==> -n < m <= 0
  {
    if a >= 0 then a % n else -((-a) % n)
  }

  /** Java's division identity `(a / n) * n + a % n == a`. */
  lemma DivRemIdentity(a: int, n: int)
    requires n > 0
    ensures Div(a, n) * n + Rem(a, n) == a
  {
    if a < 0 {
      assert (-a) / n * n + (-a) % n == -a;
    }
  }
}
