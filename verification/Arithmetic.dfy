/**
 Facts about remainders.
 */
module Arithmetic {

  type Positive = n: nat | n > 0 witness 1

  lemma ModUnique(x: int, q: int, r: int, d: Positive)
    requires 0 <= r < d && x == q * d + r
    ensures x % d == r
  {
    var e := q - x / d;
    assert e * d == x % d - r by {
      assert x == x / d * d + x % d;
      assert e * d == q * d - x / d * d;
    }
    assert e >= 1 ==> e * d >= d;
    assert e <= -1 ==> e * d + d <= 0;
  }

  lemma AddOnce(x: int, d: Positive)
    ensures (x + d) % d == x % d
  {
    assert x + d == (x / d + 1) * d + x % d by {
      assert x == x / d * d + x % d;
      assert (x / d + 1) * d == x / d * d + d;
    }
    ModUnique(x + d, x / d + 1, x % d, d);
  }

  lemma ModLaws(x: int, y: int, d: Positive)
    requires x % d == 0 && y % d == 0
    ensures (x - y) % d == 0 && (x + y) % d == 0
    ensures x > 0 ==> x >= d
  {
    var m, n := x / d, y / d;
    assert x == m * d && y == n * d;
    assert (m - n) * d == m * d - n * d;
    assert (m + n) * d == m * d + n * d;
    ModUnique(x - y, m - n, 0, d);
    ModUnique(x + y, m + n, 0, d);
    assert m <= 0 ==> m * d <= 0;
  }

  /** The only multiple of `d` from `d` up to twice that. */
  lemma OneMultiple(n: int, d: Positive)
    requires n % d == 0 && d <= n < 2 * d
    ensures n == d
  {
    AddOnce(0, d);
    ModLaws(n, d, d);
    ModLaws(n - d, 0, d);
  }
}
