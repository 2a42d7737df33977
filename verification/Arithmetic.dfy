/** Nonlinear facts about integers, each proved once and then used by name. */
module Arithmetic {
  lemma MulMonotone(a: int, b: int, c: int)
    requires a <= b && 0 <= c
    ensures a * c <= b * c
  {
    assert 0 <= (b - a) * c;
  }

  lemma DivBounds(y: nat, x: nat)
    requires x > 0
    ensures x * (y / x) <= y < x * (y / x + 1)
  {
    assert y == x * (y / x) + y % x;
  }

  lemma QuotientAtMost(y: nat, x: nat, q: int)
    requires x > 0 && x * q <= y < x * (q + 1)
    ensures 0 <= q <= y
  {
    if q < 0 {
      MulMonotone(q + 1, 0, x);
    } else {
      MulMonotone(1, x, q);
    }
  }

  lemma DivAtMost(y: nat, x: nat)
    requires x > 0
    ensures 0 <= y / x <= y
  {
    DivBounds(y, x);
    QuotientAtMost(y, x, y / x);
  }

  lemma ProductMonotone(a: nat, b: nat, c: nat, d: nat)
    requires a <= b && c <= d
    ensures a * c <= b * d
  {
    MulMonotone(a, b, c);
    MulMonotone(c, d, b);
  }

  lemma CancelFactor(a: int, b: int, c: nat)
    requires c > 0 && a * c <= b * c
    ensures a <= b
  {
    if a > b {
      MulMonotone(b + 1, a, c);
    }
  }

  lemma CancelStrict(a: int, b: int, c: nat)
    requires a * c < b * c
    ensures a < b
  {
    if b <= a {
      MulMonotone(b, a, c);
    }
  }

  lemma AddModulo(a: int, b: int, m: int)
    requires m > 0
    ensures (a % m + b) % m == (a + b) % m
  {
    ModShift(a % m + b, a / m, m);
    assert a == m * (a / m) + a % m;
  }

  lemma ModShift(x: int, k: int, m: int)
    requires m > 0
    ensures (x + m * k) % m == x % m
  {
    var q, r := x / m, x % m;
    assert x + m * k == m * (q + k) + r by {
      assert x == m * q + r;
    }
    ModUnique(x + m * k, q + k, r, m);
  }

  lemma ModUnique(x: int, q: int, r: int, m: int)
    requires m > 0 && x == m * q + r && 0 <= r < m
    ensures x % m == r
  {
    var q', r' := x / m, x % m;
    assert m * q + r == m * q' + r';
    assert m * (q - q') == r' - r;
    if q - q' >= 1 {
      MulMonotone(1, q - q', m);
    } else if q - q' <= -1 {
      MulMonotone(q - q', -1, m);
    }
  }

  function Pow(base: nat, n: nat): (p: nat)
    requires base > 0
    ensures p > 0
  {
    if n == 0 then 1 else base * Pow(base, n - 1)
  }

  lemma DigitBound(n: nat, base: nat, p: nat)
    requires base > 0 && n < base * p
    ensures n / base < p
  {
    DivBounds(n, base);
    CancelStrict(n / base, p, base);
  }
}
