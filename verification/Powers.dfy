/** Powers of ten and two. */
module Powers {
  import opened Division

  function Pow10(n: nat): (r: nat)
    ensures r > 0
  {
    if n == 0 then 1 else 10 * Pow10(n - 1)
  }

  function Pow5(n: nat): (r: nat)
    ensures r > 0
  {
    if n == 0 then 1 else 5 * Pow5(n - 1)
  }

  function Pow2(n: nat): (r: nat)
    ensures r > 0
  {
    if n == 0 then 1 else 2 * Pow2(n - 1)
  }

  lemma {:induction false} Pow10Adds(m: nat, n: nat)
    ensures Pow10(m + n) == Pow10(m) * Pow10(n)
  {
    if m > 0 {
      Pow10Adds(m - 1, n);
      Assoc(10, Pow10(m - 1), Pow10(n));
    }
  }

  lemma {:induction false} Pow2Adds(m: nat, n: nat)
    ensures Pow2(m + n) == Pow2(m) * Pow2(n)
  {
    if m > 0 {
      Pow2Adds(m - 1, n);
      Assoc(2, Pow2(m - 1), Pow2(n));
    }
  }

  lemma {:induction false} FivesAndTwos(n: nat)
    ensures Pow5(n) * Pow2(n) == Pow10(n)
  {
    if n > 0 {
      FivesAndTwos(n - 1);
      var a, b := Pow5(n - 1), Pow2(n - 1);
      assert (5 * a) * (2 * b) == 10 * (a * b);
    }
  }

  lemma {:induction false} Pow10Monotone(m: nat, n: nat)
    requires m <= n
    ensures Pow10(m) <= Pow10(n)
  {
    if m < n {
      Pow10Monotone(m, n - 1);
    }
  }

  /** Ten to an integer power. */
  function P10(e: int): (r: real)
    ensures r > 0.0
  {
    if e >= 0 then Pow10(e) as real else 1.0 / Pow10(-e) as real
  }

  /** A product, as a name the solver can leave alone. */
  function Times(x: real, y: real): real {
    x * y
  }

  lemma TimesZero(x: real)
    ensures Times(0.0, x) == 0.0
  {
  }

  lemma TimesAssoc(x: real, y: real, z: real)
    ensures Times(Times(x, y), z) == Times(x, Times(y, z))
  {
    assert x * y * z == x * (y * z);
  }

  lemma P10Step(e: int)
    ensures P10(e + 1) == 10.0 * P10(e)
  {
    if e < -1 {
      InverseStep(Pow10(-e - 1));
    }
  }

  lemma InverseStep(p: nat)
    requires p > 0
    ensures 1.0 / p as real == 10.0 * (1.0 / (10 * p) as real)
  {
  }

  lemma {:induction false} P10Adds(e: int, n: nat)
    ensures P10(e + n) == Times(Pow10(n) as real, P10(e))
  {
    hide P10;
    if n > 0 {
      P10Adds(e, n - 1);
      assert Pow10(n) == 10 * Pow10(n - 1);
      hide Pow10;
      P10Step(e + n - 1);
      RealRegroup(Pow10(n - 1), P10(e));
    } else {
      assert Pow10(0) as real == 1.0;
    }
  }

  lemma RealRegroup(p: nat, x: real)
    ensures 10.0 * (p as real * x) == (10 * p) as real * x
  {
  }

  lemma P10Sum(e: int, f: int)
    ensures P10(e + f) == Times(P10(e), P10(f))
  {
    hide P10, Times;
    if f >= 0 {
      P10Adds(e, f);
      P10OfNat(f);
      TimesCommutes(P10(f), P10(e));
    } else {
      P10Adds(e + f, -f);
      P10OfNat(-f);
      P10Inverse(-f);
      CancelFactor(P10(e), P10(-f), P10(e + f), P10(f));
    }
  }

  lemma P10OfNat(n: nat)
    ensures P10(n) == Pow10(n) as real
  {
  }

  lemma P10Inverse(n: int)
    requires n >= 0
    ensures Times(P10(n), P10(-n)) == 1.0
  {
  }

  lemma TimesCommutes(x: real, y: real)
    ensures Times(x, y) == Times(y, x)
  {
  }

  lemma CancelFactor(x: real, p: real, y: real, q: real)
    requires x == Times(p, y) && Times(p, q) == 1.0
    ensures y == Times(x, q)
  {
    assert (p * y) * q == (p * q) * y;
  }

  lemma {:induction false} P10Increases(e: int, f: int)
    requires e < f
    ensures P10(e) < P10(f)
    decreases f - e
  {
    hide P10;
    P10Step(f - 1);
    if e < f - 1 {
      P10Increases(e, f - 1);
    }
  }
}
