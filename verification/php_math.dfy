/** The PHP numeric built-ins the model relies on: `min`, `max`, a clamp
    written as `min(max(v, lo), hi)`, and the `(int)` / `intval` cast of a
    float, which truncates toward zero. */
module PhpMath {

  function Max(a: int, b: int): (m: int)
    ensures m >= a && m >= b && (m == a || m == b)
  {
    if a >= b then a else b
  }

  function Min(a: int, b: int): (m: int)
    ensures m <= a && m <= b && (m == a || m == b)
  {
    if a <= b then a else b
  }

  /** `min(max(v, lo), hi)`: the point of [lo, hi] nearest to v, so v
      itself when it is in range and the bound it passes otherwise. */
  function Clamp(v: int, lo: int, hi: int): (r: int)
    requires lo <= hi
    ensures lo <= r <= hi
    ensures forall z :: lo <= z <= hi ==> Dist(r, v) <= Dist(z, v)
    ensures lo <= v <= hi ==> r == v
    ensures v < lo ==> r == lo
    ensures v > hi ==> r == hi
  {
    Min(Max(v, lo), hi)
  }

  function Dist(a: int, b: int): nat
  {
    if a >= b then a - b else b - a
  }

  /** The same clamp on reals, as `min(1, max(0, d))` does for densities. */
  function ClampReal(v: real, lo: real, hi: real): (r: real)
    requires lo <= hi
    ensures lo <= r <= hi
    ensures lo <= v <= hi ==> r == v
    ensures v < lo ==> r == lo
    ensures v > hi ==> r == hi
  {
    if v < lo then lo else if v > hi then hi else v
  }

  /** `(int)` of a float: truncation toward zero. */
  function Trunc(x: real): (n: int)
    ensures x >= 0.0 ==> n as real <= x < n as real + 1.0
    ensures x < 0.0 ==> n as real - 1.0 < x <= n as real
  {
    if x >= 0.0 then x.Floor else -((-x).Floor)
  }
}
