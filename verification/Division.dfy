/** Facts about quotients and remainders. */
module Division {
  lemma Euclid(x: int, m: int)
    requires m > 0
    ensures x == m * (x / m) + x % m && 0 <= x % m < m
  {
  }

  lemma Commute(a: int, b: int)
    ensures a * b == b * a
  {
  }

  lemma Assoc(a: int, b: int, c: int)
    ensures a * (b * c) == (a * b) * c
  {
  }

  lemma Scaled(a: int, b: int, m: int)
    requires a <= b && m >= 0
    ensures a * m <= b * m && m * a <= m * b
  {
    NonNegative(b - a, m);
    Distribute(m, b, a);
    Commute(m, a);
    Commute(m, b);
    Commute(m, b - a);
  }

  lemma NonNegative(a: nat, b: nat)
    ensures a * b >= 0
  {
  }

  lemma AtLeast(m: int, d: int)
    requires m >= 0
    ensures d > 0 ==> m * d >= m
    ensures d < 0 ==> m * d <= -m
  {
    if d > 0 {
      NonNegative(m, d - 1);
      Distribute(m, d, 1);
    } else if d < 0 {
      NonNegative(m, -1 - d);
      Distribute(m, -1, d);
    }
  }

  lemma SmallMultiple(m: int, d: int)
    requires -m < m * d < m
    ensures d == 0
  {
    AtLeast(m, d);
  }

  /** Quotient and remainder are determined by what they satisfy. */
  lemma DivisionIs(x: int, m: int, q: int, r: int)
    requires x == m * q + r && 0 <= r < m
    ensures x / m == q && x % m == r
  {
    Euclid(x, m);
    var k, s := x / m, x % m;
    Distribute(m, k, q);
    SmallMultiple(m, k - q);
  }

  lemma Distribute(m: int, a: int, b: int)
    ensures m * (a - b) == m * a - m * b
  {
  }

  /** Dividing twice. */
  lemma DivideTwice(x: nat, a: nat, b: nat)
    requires a > 0 && b > 0
    ensures a * b > 0 && x / a / b == x / (a * b)
  {
    Euclid(x, a);
    Euclid(x / a, b);
    var q, r := x / a / b, x / a % b;
    var s := x % a;
    assert x == a * (b * q + r) + s;
    assert a * (b * q + r) == (a * b) * q + a * r by {
      Regroup(a, b, q, r);
    }
    Remainder(a, b, r, s);
    DivisionIs(x, a * b, q, a * r + s);
  }

  lemma Regroup(a: int, b: int, q: int, r: int)
    ensures a * (b * q + r) == (a * b) * q + a * r
  {
    assert a * (b * q) == (a * b) * q;
  }

  lemma Remainder(a: int, b: int, r: int, s: int)
    requires 0 <= r < b && 0 <= s < a
    ensures 0 <= a * r + s < a * b
  {
    assert 0 <= a * r;
    AtLeast(a, b - r);
    Distribute(a, b, r);
  }

  /** Multiples of the divisor do not change the remainder. */
  lemma AddMultiple(x: int, m: int, q: int)
    requires m > 0
    ensures (x + m * q) % m == x % m && (x + m * q) / m == x / m + q
  {
    Euclid(x, m);
    assert m * (x / m + q) == m * (x / m) + m * q;
    DivisionIs(x + m * q, m, x / m + q, x % m);
  }
}
