/** Small facts about real numbers. */
module Reals {

  function Max(a: real, b: real): (m: real) { if a >= b then a else b }

  function Min(a: real, b: real): (m: real) { if a <= b then a else b }

  function Ceil(x: real): (n: int)
    ensures n as real - 1.0 < x <= n as real
  {
    -((-x).Floor)
  }

  lemma TimesPositive(x: real, y: real, d: real)
    requires d > 0.0
    ensures x <= y <==> x * d <= y * d
    ensures x < y <==> x * d < y * d
  {
    if x < y {
      assert (y - x) * d > 0.0;
    } else {
      assert (x - y) * d >= 0.0;
    }
  }
}
