/** Facts about `*` and `%` that the address arithmetic rests on. */
module Arith {

  lemma MulGrows(k: int, d: int)
    requires d > 0
    ensures k >= 1 ==> k * d >= d
    ensures k <= -1 ==> k * d <= -d
  {
  }

  /** The remainder is the only number below `d` that differs from `x` by a multiple of `d`. */
  lemma ModIs(x: int, d: int, q: int, r: int)
    requires d > 0 && 0 <= r < d
    requires x == q * d + r
    ensures x % d == r
  {
    var k := x / d - q;
    assert x == x / d * d + x % d;
    assert k * d == x / d * d - q * d;
    MulGrows(k, d);
  }

  lemma ModPlusMultiple(x: int, k: int, d: int)
    requires d > 0
    ensures (x + k * d) % d == x % d
  {
    assert x + k * d == (x / d + k) * d + x % d;
    ModIs(x + k * d, d, x / d + k, x % d);
  }
}
