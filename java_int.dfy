/** Java's 32-bit integer arithmetic, as the game's code relies on it.
    Dafny's `/` and `%` are Euclidean; Java truncates toward zero, and
    `(int)` of a double drops the fraction toward zero as well. */
module JavaInt {

  const IntMin: int := -0x8000_0000
  const IntMax: int := 0x7FFF_FFFF
  const Modulus: int := 0x1_0000_0000

  /** A value a Java `int` can hold. */
  predicate IsInt32(n: int) {
    IntMin <= n <= IntMax
  }

  /** Java's `a / d` on ints for a positive divisor: the quotient rounded toward zero. */
  function Div(a: int, d: int): (q: int)
    requires d > 0
    ensures a >= 0 ==> q >= 0 && q * d <= a < q * d + d
    ensures a < 0 ==> q <= 0 && q * d - d < a <= q * d
  {
    if a >= 0 then a / d else -((-a) / d)
  }

  /** Java's `a % d` on ints for a positive divisor: the remainder takes the sign of `a`. */
  function Rem(a: int, d: int): (r: int)
    requires d > 0
    ensures a == Div(a, d) * d + r
    ensures a >= 0 ==> 0 <= r < d
    ensures a < 0 ==> -d < r <= 0
  {
    a - Div(a, d) * d
  }

  /** On a non-negative dividend Java's division and remainder are Euclidean. */
  lemma DivRemOfNatural(a: int, d: int)
    requires a >= 0 && d > 0
    ensures Div(a, d) == a / d && Rem(a, d) == a % d
  {
  }

  /** The value an `int` variable holds after `n` is stored in it: two's-complement wrap-around. */
  function Wrap(n: int): (r: int)
    ensures IsInt32(r)
    ensures IsInt32(n) ==> r == n
    ensures (n - r) % Modulus == 0
  {
    (n - IntMin) % Modulus + IntMin
  }

  /** Java's `(int) v` for a double `v` in the int range: the fraction is dropped toward zero. */
  function Trunc(v: real): (t: int)
    ensures v >= 0.0 ==> 0 <= t && t as real <= v < t as real + 1.0
    ensures v < 0.0 ==> t <= 0 && t as real - 1.0 < v <= t as real
  {
    if v >= 0.0 then v.Floor else -((-v).Floor)
  }

  /** Java's `Math.abs` on an int in range. */
  function Abs(n: int): (a: nat)
    ensures a == n || a == -n
  {
    if n < 0 then -n else n
  }
}
