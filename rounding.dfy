/** Exact-real counterparts of the Python built-ins the two log planners use:
    `min`, `max`, `math.floor`, `math.ceil` and `round(x, 2)`.
    Python's `round` rounds half to even; on exact reals that is the rule below. */
module Rounding {

  function Min(a: real, b: real): (r: real)
    ensures r <= a && r <= b
  {
    if a <= b then a else b
  }

  function Max(a: real, b: real): (r: real)
    ensures r >= a && r >= b
  {
    if a >= b then a else b
  }

  /** Python's `min(a, b, c)`. */
  function Min3(a: real, b: real, c: real): (r: real)
    ensures r <= a && r <= b && r <= c
  {
    Min(Min(a, b), c)
  }

  /** `min` and `max` return one of their arguments. */
  lemma MinIsArgument(a: real, b: real)
    ensures Min(a, b) == a || Min(a, b) == b
  {
  }

  lemma MaxIsArgument(a: real, b: real)
    ensures Max(a, b) == a || Max(a, b) == b
  {
  }

  lemma Min3IsArgument(a: real, b: real, c: real)
    ensures Min3(a, b, c) == a || Min3(a, b, c) == b || Min3(a, b, c) == c
  {
  }

  /** `math.floor`: the greatest integer not above `x`. */
  function Floor(x: real): (n: int)
    ensures n as real <= x < n as real + 1.0
  {
    x.Floor
  }

  /** `math.ceil`: the least integer not below `x`. */
  function Ceil(x: real): (n: int)
    ensures n as real - 1.0 < x <= n as real
  {
    -Floor(-x)
  }

  /** The integer nearest to `y`, a tie going to the even neighbour. */
  function RoundHalfEven(y: real): (n: int)
    ensures -0.5 <= n as real - y <= 0.5
    ensures (n as real - y == 0.5 || n as real - y == -0.5) ==> n % 2 == 0
  {
    var f := Floor(y);
    var frac := y - f as real;
    if frac < 0.5 then f
    else if frac > 0.5 then f + 1
    else if f % 2 == 0 then f
    else f + 1
  }

  /** `round(x, digits)`: move the decimal point `digits` places right, round
      half to even, move it back. */
  function RoundTo(x: real, digits: nat): real
    decreases digits
  {
    if digits == 0 then RoundHalfEven(x) as real
    else RoundTo(10.0 * x, digits - 1) / 10.0
  }

  /** `round(x, 2)`: it moves `x` by at most half a hundredth. */
  function Round2(x: real): (r: real)
    ensures -0.005 <= r - x <= 0.005
  {
    RoundToHundredths(x);
    RoundTo(x, 2)
  }

  /** Two decimal places is one rounding of `100 * x` to an integer. */
  lemma RoundToHundredths(x: real)
    ensures RoundTo(x, 2) == RoundHalfEven(100.0 * x) as real / 100.0
  {
    assert RoundTo(x, 2) == RoundTo(10.0 * x, 1) / 10.0;
    assert RoundTo(10.0 * x, 1) == RoundTo(10.0 * (10.0 * x), 0) / 10.0;
    assert 10.0 * (10.0 * x) == 100.0 * x;
  }

  /** `round(x, 2)` keeps a whole number of hundredths: the one nearest to `x`. */
  lemma Round2Hundredths(x: real)
    ensures Round2(x) == RoundHalfEven(100.0 * x) as real / 100.0
  {
    RoundToHundredths(x);
  }

  /** A value that already is a whole number of hundredths is left as it is. */
  lemma Round2Exact(k: int)
    ensures Round2(k as real / 100.0) == k as real / 100.0
  {
    var x := k as real / 100.0;
    Round2Hundredths(x);
    assert 100.0 * x == k as real;
    var n := RoundHalfEven(100.0 * x);
    assert -0.5 <= (n - k) as real <= 0.5;
  }

  /** Rounding never crosses a whole number of hundredths `k / 100`. */
  lemma Round2Between(x: real, k: int)
    ensures x <= k as real / 100.0 ==> Round2(x) <= k as real / 100.0
    ensures x >= k as real / 100.0 ==> Round2(x) >= k as real / 100.0
  {
    Round2Hundredths(x);
    var n := RoundHalfEven(100.0 * x);
    var f := Floor(100.0 * x);
    if x <= k as real / 100.0 {
      assert 100.0 * x <= k as real;
      assert f <= k;
      if f == k {
        assert 100.0 * x == k as real;
      }
      assert n <= k;
    }
    if x >= k as real / 100.0 {
      assert 100.0 * x >= k as real;
      assert f >= k;
      assert n >= k;
    }
  }

  /** Anything from 0 to half a hundredth rounds to 0: the tie goes to the even 0. */
  lemma Round2Tiny(x: real)
    requires 0.0 <= x <= 0.005
    ensures Round2(x) == 0.0
  {
    Round2Hundredths(x);
    var n := RoundHalfEven(100.0 * x);
    assert n <= 1;
    assert n != 1;
    Round2Between(x, 0);
  }
}
