/**
 Facts about multiplication and division that the solver needs spelled out.
 */
module Arithmetic {

  lemma DivideSum(n: nat, r: nat, g: nat)
    requires g > 0
    ensures (n * g + r) / g == n + r / g
  {
    var k := n + r / g;
    assert n * g + r == k * g + r % g;
    QuotientUnique(n * g + r, g, k);
  }

  lemma Gap(a: int, b: int, g: int)
    requires g > 0
    ensures a < b ==> a * g + g <= b * g
  {
    if a < b {
      var n: nat := b - a - 1;
      assert b * g == (a + 1 + n) * g == a * g + g + n * g;
      assert n * g >= 0;
    }
  }

  lemma QuotientUnique(x: int, g: int, k: int)
    requires g > 0 && k * g <= x < k * g + g
    ensures x / g == k
  {
    Gap(x / g, k, g);
    Gap(k, x / g, g);
    assert x == x / g * g + x % g;
  }

  lemma TurnsCancel(n: nat, y: nat, s: nat)
    requires s > 0
    ensures (n * s + y) % s == y % s
  {
    DivideSum(n, y, s);
  }

  lemma MulMonotone(a: nat, b: nat, g: nat)
    ensures a <= b ==> a * g <= b * g
  {
    if a <= b {
      var n: nat := b - a;
      assert b * g == (a + n) * g == a * g + n * g;
    }
  }
}
