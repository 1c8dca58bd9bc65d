/** Division, multiples and powers of two. */
module Arith {

  function Max(a: nat, b: nat): nat {
    if a < b then b else a
  }

  function Pow2(n: nat): (r: nat)
    ensures r > 0
  {
    if n == 0 then 1 else 2 * Pow2(n - 1)
  }

  lemma {:induction false} Pow2Double(n: nat)
    ensures Pow2(2 * n) == Pow2(n) * Pow2(n)
  {
    if n == 0 {
    } else {
      Pow2Double(n - 1);
      assert Pow2(2 * n) == 2 * (2 * Pow2(2 * (n - 1)));
    }
  }

  lemma {:induction false} Pow2Monotone(a: nat, b: nat)
    requires a <= b
    ensures Pow2(a) <= Pow2(b)
    decreases b - a
  {
    if a == b {
    } else {
      Pow2Monotone(a, b - 1);
    }
  }

  lemma {:induction false} MultipleAtLeast(d: nat, a: nat)
    requires d > 0
    ensures d * a >= a
  {
    if d > 1 {
      MultipleAtLeast(d - 1, a);
      assert d * a == (d - 1) * a + a;
    }
  }

  lemma NoSmallMultiple(d: int, a: nat)
    requires a > 0
    ensures d > 0 ==> d * a >= a
    ensures d < 0 ==> d * a <= -(a as int)
  {
    if d > 0 {
      MultipleAtLeast(d, a);
    } else if d < 0 {
      MultipleAtLeast(-d, a);
      assert d * a == -(-d * a);
    }
  }

  /** Quotient and remainder are unique. */
  lemma DivUnique(x: nat, a: nat, q: nat, r: nat)
    requires r < a && x == q * a + r
    ensures x / a == q && x % a == r
  {
    var d := x / a - q;
    assert x == x / a * a + x % a;
    assert d * a == x / a * a - q * a;
    NoSmallMultiple(d, a);
  }

  lemma AddMultiple(x: nat, q: nat, a: nat)
    requires a > 0
    ensures (x + q * a) / a == x / a + q && (x + q * a) % a == x % a
  {
    assert x == x / a * a + x % a;
    assert (x / a + q) * a == x / a * a + q * a;
    DivUnique(x + q * a, a, x / a + q, x % a);
  }

  lemma HalveThenDivide(x: nat, m: nat)
    requires m > 0
    ensures x / (2 * m) == x / 2 / m
  {
    var q, r := x / 2 / m, x / 2 % m;
    assert x / 2 == q * m + r;
    assert q * (2 * m) == 2 * (q * m);
    DivUnique(x, 2 * m, q, 2 * r + x % 2);
  }

  /** utils.h: the position of the highest one. */
  function Log2Floor(x: nat): nat
    requires x > 0
  {
    if x == 1 then 0 else 1 + Log2Floor(x / 2)
  }

  lemma {:induction false} Log2FloorBounds(x: nat)
    requires x > 0
    ensures Pow2(Log2Floor(x)) <= x < 2 * Pow2(Log2Floor(x))
  {
    if x > 1 {
      Log2FloorBounds(x / 2);
    }
  }

  lemma QuotientIsPositive(x: nat, m: nat)
    requires m > 0
    ensures x / m > 0 <==> x >= m
    ensures x / m == 1 <==> m <= x < 2 * m
  {
    assert x == x / m * m + x % m;
    NoSmallMultiple(x / m - 1, m);
    NoSmallMultiple(x / m - 2, m);
    assert (x / m - 1) * m == x / m * m - m && (x / m - 2) * m == x / m * m - 2 * m;
  }

  /** A number has as many places as there are powers of two up to it. */
  lemma LogDivides(x: nat, n: nat)
    requires x > 0
    ensures x / Pow2(n) > 0 <==> n <= Log2Floor(x)
    ensures x / Pow2(n) == 1 <==> n == Log2Floor(x)
  {
    var k := Log2Floor(x);
    Log2FloorBounds(x);
    QuotientIsPositive(x, Pow2(n));
    if n <= k {
      Pow2Monotone(n, k);
      if n < k {
        Pow2Monotone(n + 1, k);
      }
    } else {
      Pow2Monotone(k + 1, n);
    }
  }

  /** utils.h: the least power of two that reaches x. */
  function Log2Ceil(x: nat): nat {
    if x <= 1 then 0 else Log2Floor(x - 1) + 1
  }

  lemma Log2CeilBounds(x: nat)
    ensures x <= Pow2(Log2Ceil(x))
    ensures Log2Ceil(x) > 0 ==> Pow2(Log2Ceil(x) - 1) < x
  {
    if x > 1 {
      Log2FloorBounds(x - 1);
    }
  }
}
