/** Facts about integer multiplication, division and remainder that the
    bit and pixel arithmetic of the other modules rests on. */
module Arith {
  /** Division with remainder is unique: a quotient and a remainder in [0, d)
      that rebuild x are x / d and x % d. */
  lemma DivModUnique(x: int, d: int, a: int, m: int)
    requires d > 0 && 0 <= m < d && x == d * a + m
    ensures x / d == a && x % d == m
  {
    var a' := x / d;
    var m' := x % d;
    assert d * (a' - a) == m - m';
    if a' > a {
      MulAtLeast(d, a' - a);
    } else if a' < a {
      MulAtLeast(d, a - a');
    }
  }

  /** A positive multiple of d is at least d. */
  lemma {:induction false} MulAtLeast(d: int, t: int)
    requires d > 0 && t >= 1
    ensures d * t >= d
    decreases t
  {
    if t > 1 {
      MulAtLeast(d, t - 1);
      assert d * t == d * (t - 1) + d;
    }
  }

  /** Halving, reducing and doubling back reduces modulo twice the modulus. */
  lemma ModDouble(x: nat, p: nat)
    requires p >= 1
    ensures x % (2 * p) == 2 * ((x / 2) % p) + x % 2
  {
    var q := x / 2;
    var a := q / p;
    var m := q % p;
    assert q == p * a + m;
    assert x == (2 * p) * a + (2 * m + x % 2);
    DivModUnique(x, 2 * p, a, 2 * m + x % 2);
  }

  /** Doubling one factor doubles the product. */
  lemma MulDouble(x: int, y: int)
    ensures 2 * (x * y) == x * (2 * y)
  {
  }

  /** Products are monotone in both factors. */
  lemma MulLe(a: nat, b: nat, c: nat, d: nat)
    requires a <= b && c <= d
    ensures a * c <= b * d
  {
    assert a * c <= b * c;
    assert b * c <= b * d;
  }

  /** Eight n bits are exactly n bytes. */
  lemma EightTimes(n: nat)
    ensures (8 * n) % 8 == 0 && (8 * n) / 8 == n
  {
    DivModUnique(8 * n, 8, n, 0);
  }

  /** Below the i-th group of k there are still k positions before n groups end. */
  lemma MulBelow(i: nat, n: nat, k: nat)
    requires i < n
    ensures i * k + k <= n * k
  {
    MulLe(i + 1, n, k, k);
  }

  /** Dividing a number below n * d by d leaves a quotient below n. */
  lemma DivBelow(i: nat, n: nat, d: nat)
    requires i < n * d
    ensures d > 0 && i / d < n && i == i / d * d + i % d
  {
    if d == 0 {
      MulZero(n);
    } else if i / d >= n {
      MulLe(n, i / d, d, d);
    }
  }

  /** Anything times zero is zero. */
  lemma MulZero(n: nat)
    ensures n * 0 == 0
  {
  }

  /** Multiplication distributes over addition. */
  lemma MulAdd(a: int, b: int, c: int)
    ensures a * (b + c) == a * b + a * c
  {
  }
}
