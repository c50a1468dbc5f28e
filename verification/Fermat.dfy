/** Fermat's little theorem for the field prime, if it is one. */
module Fermat {
  import opened Division
  import opened FieldWords
  import opened FieldValues

  ghost predicate IsPrime(p: int) {
    1 < p && forall d :: 1 < d < p ==> p % d != 0
  }

  /** A prime that divides a product divides a factor. */
  lemma {:induction false} PrimeDivides(p: nat, a: nat, b: nat)
    requires IsPrime(p) && a * b % p == 0
    ensures a % p == 0 || b % p == 0
    decreases a
  {
    if a >= p {
      SubtractPrime(p, a, b);
      PrimeDivides(p, a - p, b);
    } else if a > 1 {
      Euclid(p, a);
      var k, r := p / a, p % a;
      RemainderTimes(p, a, b, k, r);
      PrimeDivides(p, r, b);
      DivisionIs(r, p, 0, r);
    }
  }

  lemma SubtractPrime(p: nat, a: nat, b: nat)
    requires p > 0 && a >= p
    ensures (a - p) * b % p == a * b % p && (a - p) % p == a % p
  {
    Distribute(b, a, p);
    Distribute(p, 0, b);
    Commute(b, a - p);
    Commute(b, a);
    Commute(b, p);
    AddMultiple(a * b, p, 0 - b);
    AddMultiple(a, p, -1);
  }

  /** p = k*a + r: if p divides a*b it divides r*b. */
  lemma RemainderTimes(p: nat, a: nat, b: nat, k: nat, r: nat)
    requires p > 0 && p == a * k + r && a * b % p == 0
    ensures r * b % p == 0
  {
    Euclid(a * b, p);
    var m := a * b / p;
    assert r * b == p * b - k * (a * b);
    assert k * (p * m) == p * (k * m);
    assert r * b == 0 + p * (b - k * m);
    AddMultiple(0, p, b - k * m);
    DivisionIs(0, p, 0, 0);
  }

  /** The product modulo the prime. */
  ghost function Product(s: seq<nat>): nat {
    if s == [] then 1 else Product(s[..|s| - 1]) * s[|s| - 1] % PRIME
  }

  lemma {:induction false} ProductWithout(s: seq<nat>, i: nat)
    requires i < |s|
    ensures Product(s) == Product(s[..i] + s[i + 1..]) * s[i] % PRIME
  {
    var n := |s| - 1;
    var rest := s[..i] + s[i + 1..];
    if i < n {
      ProductWithout(s[..n], i);
      assert rest[..n - 1] == s[..n][..i] + s[..n][i + 1..] && rest[n - 1] == s[n];
      Exchange(Product(rest[..n - 1]), s[i], s[n]);
    } else {
      assert rest == s[..n];
    }
  }

  lemma Exchange(x: nat, a: nat, b: nat)
    ensures (x * a % PRIME) * b % PRIME == (x * b % PRIME) * a % PRIME
  {
    MulMod(x * a, b);
    MulMod(x * b, a);
    assert x * a * b == x * b * a;
  }

  /** The order of the factors does not matter. */
  lemma {:induction false} ProductPermuted(s: seq<nat>, t: seq<nat>)
    requires multiset(s) == multiset(t)
    ensures Product(s) == Product(t)
    decreases |s|
  {
    if s == [] {
      assert |multiset(t)| == 0;
    } else {
      var n := |s| - 1;
      assert s[n] in multiset(t);
      var i :| 0 <= i < |t| && t[i] == s[n];
      BothWithout(s, t, i);
      ProductPermuted(s[..n], t[..i] + t[i + 1..]);
      ProductWithout(t, i);
    }
  }

  lemma BothWithout(s: seq<nat>, t: seq<nat>, i: nat)
    requires s != [] && multiset(s) == multiset(t) && i < |t| && t[i] == s[|s| - 1]
    ensures multiset(s[..|s| - 1]) == multiset(t[..i] + t[i + 1..])
  {
    var x, y, z := t[..i], [t[i]], t[i + 1..];
    assert s == s[..|s| - 1] + [s[|s| - 1]] && t == x + y + z;
    assert multiset(t) == multiset(x) + multiset(y) + multiset(z);
    assert multiset(x + z) == multiset(t) - multiset{t[i]};
  }

  /** The first n multiples of a modulo the prime. */
  ghost function Multiples(a: nat, n: nat): (s: seq<nat>)
    ensures |s| == n && forall i :: 0 <= i < n ==> s[i] == a * (i + 1) % PRIME
  {
    seq(n, i requires 0 <= i < n => a * (i + 1) % PRIME)
  }

  lemma {:induction false} ProductOfMultiples(a: nat, n: nat)
    ensures Product(Multiples(a, n)) == Power(a, n) * Product(Multiples(1, n)) % PRIME
  {
    if n > 0 {
      ProductOfMultiples(a, n - 1);
      assert Multiples(a, n)[..n - 1] == Multiples(a, n - 1) && Multiples(1, n)[..n - 1] == Multiples(1, n - 1);
      var q, w := Product(Multiples(1, n - 1)), Power(a, n - 1);
      OneMoreMultiple(w, q, a, n);
    }
  }

  /** (w*q) * (a*n) = (a*w) * (q*n), with remainders taken everywhere. */
  lemma OneMoreMultiple(w: nat, q: nat, a: nat, n: nat)
    ensures (w * q % PRIME) * (a * n % PRIME) % PRIME == (a * w % PRIME) * (q * (1 * n % PRIME) % PRIME) % PRIME
  {
    Reduced(q, n);
    ModBoth(w * q, a * n);
    ModBoth(a * w, q * n);
    Rearranged(w, q, a, n);
  }

  lemma Rearranged(w: nat, q: nat, a: nat, n: nat)
    ensures (w * q) * (a * n) == (a * w) * (q * n)
  {
    assert (w * q) * (a * n) == w * (q * (a * n)) == w * (a * (q * n));
  }

  lemma Reduced(x: nat, y: nat)
    ensures x * (1 * y % PRIME) % PRIME == x * y % PRIME
  {
    var r := y % PRIME;
    assert 1 * y == y;
    MulMod(y, x);
    hide PRIME;
    Commute(y, x);
    Commute(r, x);
  }

  lemma ModBoth(x: nat, y: nat)
    ensures x * y % PRIME == (x % PRIME) * (y % PRIME) % PRIME
    ensures x % PRIME % PRIME == x % PRIME
  {
    MulMod(x, y);
    MulMod(y, x % PRIME);
    Commute(y, x % PRIME);
    Commute(y % PRIME, x % PRIME);
    Euclid(x, PRIME);
    DivisionIs(x % PRIME, PRIME, 0, x % PRIME);
  }

  lemma ResidueIsZero(x: nat)
    requires x < PRIME && x % PRIME == 0
    ensures x == 0
  {
    DivisionIs(x, PRIME, 0, x);
  }

  /** Different multiples are different, and none is zero. */
  lemma MultiplesDiffer(a: nat, i: nat, j: nat)
    requires IsPrime(PRIME) && a % PRIME != 0 && i < j < PRIME
    ensures a * i % PRIME != a * j % PRIME
  {
    if a * i % PRIME == a * j % PRIME {
      SameResidue(a * i, a * j);
      Distribute(a, j, i);
      assert a * j - a * i >= 0 by {
        Scaled(i, j, a);
      }
      PrimeDivides(PRIME, a, j - i);
      ResidueIsZero(j - i);
      assert false;
    }
  }

  lemma SameResidue(x: nat, y: nat)
    requires x % PRIME == y % PRIME
    ensures (y - x) % PRIME == 0
  {
    Euclid(x, PRIME);
    Euclid(y, PRIME);
    var m, k := x / PRIME, y / PRIME;
    Distribute(PRIME, k, m);
    AddMultiple(0, PRIME, k - m);
    DivisionIs(0, PRIME, 0, 0);
  }

  /** The positive numbers below n. */
  ghost function Below(n: nat): (s: set<nat>)
    ensures forall x :: x in s <==> 1 <= x < n
  {
    if n <= 1 then {} else Below(n - 1) + {n - 1}
  }

  lemma {:induction false} BelowSize(n: nat)
    ensures |Below(n + 1)| == n
  {
    if n > 0 {
      BelowSize(n - 1);
    }
  }

  ghost function Elements(s: seq<nat>): set<nat> {
    set x <- s
  }

  ghost predicate Distinct(s: seq<nat>) {
    forall i, j :: 0 <= i < j < |s| ==> s[i] != s[j]
  }

  lemma {:induction false} DistinctSize(s: seq<nat>)
    requires Distinct(s)
    ensures |Elements(s)| == |s|
  {
    if s != [] {
      var n := |s| - 1;
      DistinctSize(s[..n]);
      assert s == s[..n] + [s[n]];
      assert Elements(s) == Elements(s[..n]) + {s[n]};
    }
  }

  lemma SameSet(s: set<nat>, t: set<nat>)
    requires s <= t && |s| == |t|
    ensures s == t
  {
    assert |t - s| == |t| - |s|;
  }

  lemma {:induction false} OnceEach(s: seq<nat>)
    requires Distinct(s)
    ensures multiset(s) == multiset(Elements(s))
  {
    if s != [] {
      var n := |s| - 1;
      OnceEach(s[..n]);
      assert s == s[..n] + [s[n]];
      assert Elements(s) == Elements(s[..n]) + {s[n]};
    }
  }

  /** All multiples of a number that the prime does not divide are all numbers below it, in some order. */
  lemma AllResidues(a: nat)
    requires IsPrime(PRIME) && a % PRIME != 0
    ensures multiset(Multiples(a, PRIME - 1)) == multiset(Multiples(1, PRIME - 1))
  {
    DivisionIs(1, PRIME, 0, 1);
    hide PRIME, IsPrime, Multiples, Distinct, Elements, Below;
    ResiduesCover(a);
    ResiduesCover(1);
    OnceEach(Multiples(a, PRIME - 1));
    OnceEach(Multiples(1, PRIME - 1));
  }

  lemma ResiduesCover(a: nat)
    requires IsPrime(PRIME) && a % PRIME != 0
    ensures Distinct(Multiples(a, PRIME - 1)) && Elements(Multiples(a, PRIME - 1)) == Below(PRIME)
  {
    hide IsPrime, Multiples, Distinct, Elements, Below;
    MultiplesDistinct(a, PRIME - 1);
    MultiplesWithin(a, PRIME - 1);
    DistinctSize(Multiples(a, PRIME - 1));
    BelowSize(PRIME - 1);
    SameSet(Elements(Multiples(a, PRIME - 1)), Below(PRIME));
  }

  lemma MultiplesDistinct(a: nat, n: nat)
    requires IsPrime(PRIME) && a % PRIME != 0 && n < PRIME
    ensures Distinct(Multiples(a, n))
  {
    hide PRIME, IsPrime, Multiples;
    var s := Multiples(a, n);
    forall i, j | 0 <= i < j < n ensures s[i] != s[j] {
      MultiplesDiffer(a, i + 1, j + 1);
    }
  }

  lemma MultiplesWithin(a: nat, n: nat)
    requires IsPrime(PRIME) && a % PRIME != 0 && n < PRIME
    ensures Elements(Multiples(a, n)) <= Below(PRIME)
  {
    hide PRIME, IsPrime, Multiples, Below;
    var s := Multiples(a, n);
    forall i | 0 <= i < n ensures s[i] in Below(PRIME) {
      InRange(a, i + 1);
    }
  }

  lemma InRange(a: nat, i: nat)
    requires IsPrime(PRIME) && a % PRIME != 0 && 0 < i < PRIME
    ensures 1 <= a * i % PRIME < PRIME
  {
    MultiplesDiffer(a, 0, i);
    Euclid(a * i, PRIME);
    DivisionIs(0, PRIME, 0, 0);
    assert a * 0 == 0;
  }

  lemma {:induction false} ProductNotZero(n: nat)
    requires IsPrime(PRIME) && n < PRIME
    ensures Product(Multiples(1, n)) % PRIME != 0
  {
    hide PRIME;
    if n > 0 {
      ProductNotZero(n - 1);
      assert Multiples(1, n)[..n - 1] == Multiples(1, n - 1);
      var q := Product(Multiples(1, n - 1));
      DivisionIs(n, PRIME, 0, n);
      Euclid(q * n, PRIME);
      DivisionIs(q * n % PRIME, PRIME, 0, q * n % PRIME);
      if q * n % PRIME == 0 {
        PrimeDivides(PRIME, q, n);
        assert false;
      }
    } else {
      DivisionIs(1, PRIME, 0, 1);
    }
  }

  /** Fermat's little theorem. */
  lemma LittleTheorem(a: nat)
    requires IsPrime(PRIME) && a % PRIME != 0
    ensures Power(a, PRIME - 1) == 1
  {
    var n, q := PRIME - 1, Product(Multiples(1, PRIME - 1));
    AllResidues(a);
    ProductPermuted(Multiples(a, n), Multiples(1, n));
    ProductOfMultiples(a, n);
    ProductNotZero(n);
    PowerReduced(a, n);
    Euclid(q, PRIME);
    hide Product, Multiples, Power;
    CancelFactor(Power(a, n), q);
  }

  lemma CancelFactor(w: nat, q: nat)
    requires IsPrime(PRIME) && q % PRIME != 0 && w < PRIME && w * q % PRIME == q % PRIME
    ensures w == 1
  {
    if w == 0 {
      DivisionIs(0, PRIME, 0, 0);
    } else {
      SameResidue(q, w * q);
      assert w * q - q == (w - 1) * q;
      PrimeDivides(PRIME, w - 1, q);
      ResidueIsZero(w - 1);
    }
  }

  /** What Inverse computes is the inverse. */
  lemma InversePower(a: nat)
    requires IsPrime(PRIME) && a % PRIME != 0
    ensures a * Power(a, PRIME - 2) % PRIME == 1
  {
    LittleTheorem(a);
  }
}
