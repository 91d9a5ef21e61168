/** Integer views of the two JavaScript Number operators the library uses on
    month arithmetic: the truncating remainder `%` and `Math.floor` of a
    quotient. Dafny's own `/` and `%` are Euclidean. */
module JsNumber {

  /** JavaScript's `a % b` for integers: the sign follows the dividend. */
  function Remainder(a: int, b: int): (r: int)
    requires b > 0
    ensures a >= 0 ==> r == a % b
    ensures a < 0 ==> -b < r <= 0
    ensures a < 0 ==> r == (if a % b == 0 then 0 else a % b - b)
    ensures r == a - b * Truncate(a, b)
  {
    if a >= 0 then a % b
    else
      var q, rho := (-a) / b, (-a) % b;
      if rho == 0 then
        DivideExactly(a, -q, 0, b);
        0
      else
        DivideExactly(a, -q - 1, b - rho, b);
        -rho
  }

  /** The quotient `a / b` rounded towards zero. */
  function Truncate(a: int, b: int): int
    requires b > 0
  {
    if a >= 0 then a / b else -((-a) / b)
  }

  /** By twelve, the truncating remainder of a negative number is the
      Euclidean one shifted down by the divisor, unless it is zero. */
  lemma RemainderTwelve(a: int)
    ensures Remainder(a, 12) == (if a >= 0 || a % 12 == 0 then a % 12 else a % 12 - 12)
  {
  }

  /** `Math.floor(a / b)`: the quotient rounded towards minus infinity. */
  function FloorDiv(a: int, b: int): (q: int)
    requires b > 0
    ensures q * b <= a < q * b + b
  {
    a / b
  }

  /** x = q * k + r with 0 <= r < k has quotient q and remainder r. */
  lemma DivideExactly(x: int, q: int, r: int, k: int)
    requires 0 <= r < k && x == q * k + r
    ensures x / k == q && x % k == r
  {
    var d := q - x / k;
    assert d * k == x % k - r;
    if d >= 1 {
      assert d * k == (d - 1) * k + k;
      MulNonNegative(d - 1, k);
    } else if d <= -1 {
      assert d * k == -((-d - 1) * k) - k;
      MulNonNegative(-d - 1, k);
    }
  }

  lemma MulNonNegative(a: int, b: int)
    requires a >= 0 && b >= 0
    ensures a * b >= 0
  {
  }
}
