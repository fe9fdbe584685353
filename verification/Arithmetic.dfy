/** Small facts about powers of two, integer division and products of reals. */
module Arithmetic {

  function Pow2(n: nat): (p: nat)
    ensures p >= 1
  {
    if n == 0 then 1 else 2 * Pow2(n - 1)
  }

  lemma {:induction false} Pow2Grows(m: nat, n: nat)
    requires m <= n
    ensures Pow2(m) <= Pow2(n)
    ensures m < n ==> Pow2(m) < Pow2(n)
    decreases n - m
  {
    if m < n {
      Pow2Grows(m + 1, n);
    }
  }

  lemma Pow2Next(n: nat)
    ensures Pow2(n + 1) == 2 * Pow2(n)
  {
  }

  lemma UniqueRemainder(v: int, d: nat, k: int, r: int)
    requires d >= 1 && v == d * k + r && 0 <= r < d
    ensures v % d == r && v / d == k
  {
    var k', r' := v / d, v % d;
    MultipleGap(d, k, k', r, r');
  }

  lemma MultipleGap(d: int, k: int, k': int, r: int, r': int)
    requires d >= 1 && 0 <= r < d && 0 <= r' < d
    requires d * k + r == d * k' + r'
    ensures k == k'
  {
    if k > k' {
      AtLeastFactor(d, k - k');
    } else if k < k' {
      AtLeastFactor(d, k' - k);
    }
  }

  lemma AtLeastFactor(d: int, n: int)
    requires d >= 1 && n >= 1
    ensures d * n >= d
  {
    assert d * n == d * (n - 1) + d;
  }

  lemma ProductPositive(x: real, u: real)
    requires x >= 0.0 && u > 0.0
    ensures x * u >= 0.0 && (x * u > 0.0 <==> x > 0.0)
  {
    if x > 0.0 {
      assert x * u > 0.0;
    } else {
      assert x * u == 0.0;
    }
  }

  lemma Monotone(x: real, y: real, u: real)
    requires u > 0.0
    ensures x <= y ==> x * u <= y * u
    ensures x < y ==> x * u < y * u
    ensures 0.0 * u == 0.0 && 1.0 * u == u
  {
    if x < y {
      assert (y - x) * u > 0.0;
    }
  }

  lemma CrossProducts(x: real, y: real, u: real, v: real)
    requires x <= y && v <= u
    ensures x * u + y * v <= y * u + x * v
    ensures x < y && v < u ==> x * u + y * v < y * u + x * v
  {
    var d := (y - x) * (u - v);
    assert d >= 0.0 && (x < y && v < u ==> d > 0.0);
    assert d == y * u - y * v - x * u + x * v;
  }

  lemma Ratio(x: real, y: real)
    requires 0.0 <= x <= y
    ensures y > 0.0 ==> 0.0 <= x / y <= 1.0 && (x / y == 1.0 <==> x == y)
  {
    if y > 0.0 {
      DivideMultiply(x, y);
      Quotient(x, y, x / y);
    }
  }

  lemma DivideMultiply(x: real, y: real)
    requires y > 0.0
    ensures (x / y) * y == x
  {
  }

  lemma Quotient(x: real, y: real, q: real)
    requires 0.0 <= x <= y && y > 0.0 && q * y == x
    ensures 0.0 <= q <= 1.0 && (q == 1.0 <==> x == y)
  {
    Monotone(1.0, q, y);
    Monotone(q, 1.0, y);
    Monotone(q, 0.0, y);
  }

  lemma DivideOrder(x: real, y: real, d: real)
    requires x <= y && d > 0.0
    ensures x / d <= y / d
  {
    DivideMultiply(x, d);
    DivideMultiply(y, d);
    Monotone(y / d, x / d, d);
  }

  lemma ExceedsOne(x: real, y: real)
    requires x > y > 0.0
    ensures x / y > 1.0
  {
    DivideMultiply(x, y);
    Monotone(x / y, 1.0, y);
  }
}
