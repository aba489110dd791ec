/** Models of the JavaScript number operations the colour transforms use,
    over exact reals: `Math.round`, the remainder operator `%`, `Math.abs`,
    and `Math.max` / `Math.min` of three values. */
module JsMath {

  /** `Math.round(x)`: the nearest integer, a half rounded up (towards
      positive infinity), so `Round(2.5) == 3` and `Round(-2.5) == -2`. */
  function Round(x: real): (n: int)
    ensures x - 0.5 < n as real <= x + 0.5
  {
    (x + 0.5).Floor
  }

  /** Rounding a value between two integers stays between them. */
  lemma RoundWithin(x: real, lo: int, hi: int)
    requires lo as real <= x <= hi as real
    ensures lo <= Round(x) <= hi
  {
  }

  lemma RoundOfInt(n: int)
    ensures Round(n as real) == n
  {
  }

  /** Truncation towards zero, the integer part `%` divides out. */
  function Trunc(x: real): (n: int)
    ensures 0.0 <= x ==> 0 <= n && n as real <= x < n as real + 1.0
    ensures x < 0.0 ==> n <= 0 && n as real - 1.0 < x <= n as real
  {
    if x >= 0.0 then x.Floor else -((-x).Floor)
  }

  /** `x % y` on numbers: the remainder takes the sign of the dividend.
      The colour code only divides by 2 and by 6; `RemTwoBounds` and
      `RemSixOfSmall` state what it relies on. */
  function Rem(x: real, y: real): real
    requires y != 0.0
  {
    x - y * (Trunc(x / y) as real)
  }

  /** A non-negative number modulo 2 lies in [0, 2). */
  lemma RemTwoBounds(x: real)
    requires 0.0 <= x
    ensures 0.0 <= Rem(x, 2.0) < 2.0
  {
  }

  /** A number strictly between -6 and 6 is its own remainder modulo 6. */
  lemma RemSixOfSmall(x: real)
    requires -6.0 < x < 6.0
    ensures Rem(x, 6.0) == x
  {
  }

  lemma MulNonneg(a: real, b: real)
    requires 0.0 <= a && 0.0 <= b
    ensures 0.0 <= a * b
  {
  }

  lemma StrictScaleMono(a: real, b: real, y: real)
    requires a < b && 0.0 < y
    ensures a * y < b * y
  {
  }

  function Abs(x: real): (r: real)
    ensures r >= 0.0 && (r == x || r == -x)
  {
    if x < 0.0 then -x else x
  }

  /** `Math.max(a, b, c)` */
  function Max3(a: real, b: real, c: real): (m: real)
    ensures m == a || m == b || m == c
    ensures a <= m && b <= m && c <= m
  {
    if a >= b && a >= c then a else if b >= c then b else c
  }

  /** `Math.min(a, b, c)` */
  function Min3(a: real, b: real, c: real): (m: real)
    ensures m == a || m == b || m == c
    ensures m <= a && m <= b && m <= c
  {
    if a <= b && a <= c then a else if b <= c then b else c
  }
}
