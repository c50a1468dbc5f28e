/** Abelian groups, given as values, and integer multiples of their elements. */
module Groups {
  datatype Group<!G> = Group(zero: G, add: (G, G) -> G, neg: G -> G)

  ghost predicate Abelian<G(!new)>(g: Group<G>) {
    && (forall x, y :: g.add(x, y) == g.add(y, x))
    && (forall x, y, z :: g.add(g.add(x, y), z) == g.add(x, g.add(y, z)))
    && (forall x :: g.add(x, g.zero) == x)
    && (forall x :: g.add(x, g.neg(x)) == g.zero)
  }

  /** n times p for a natural number n. */
  ghost function Multiple<G>(g: Group<G>, n: nat, p: G): G {
    if n == 0 then g.zero else g.add(p, Multiple(g, n - 1, p))
  }

  /** n times p for any integer n. */
  ghost function Scale<G>(g: Group<G>, n: int, p: G): G {
    if n >= 0 then Multiple(g, n, p) else g.neg(Multiple(g, -n, p))
  }

  lemma Commute<G(!new)>(g: Group<G>, x: G, y: G)
    requires Abelian(g)
    ensures g.add(x, y) == g.add(y, x)
  {
  }

  lemma Assoc<G(!new)>(g: Group<G>, x: G, y: G, z: G)
    requires Abelian(g)
    ensures g.add(g.add(x, y), z) == g.add(x, g.add(y, z))
  {
  }

  lemma Unit<G(!new)>(g: Group<G>, x: G)
    requires Abelian(g)
    ensures g.add(x, g.zero) == x && g.add(g.zero, x) == x
  {
  }

  lemma Inverse<G(!new)>(g: Group<G>, x: G)
    requires Abelian(g)
    ensures g.add(x, g.neg(x)) == g.zero
  {
  }

  lemma InverseUnique<G(!new)>(g: Group<G>, x: G, y: G)
    requires Abelian(g) && g.add(x, y) == g.zero
    ensures y == g.neg(x)
  {
    hide Abelian;
    var n := g.neg(x);
    Assoc(g, n, x, y);
    Inverse(g, x);
    Commute(g, n, x);
    Unit(g, n);
    Unit(g, y);
  }

  lemma Exchange<G(!new)>(g: Group<G>, a: G, b: G, c: G, d: G)
    requires Abelian(g)
    ensures g.add(g.add(a, b), g.add(c, d)) == g.add(g.add(a, c), g.add(b, d))
  {
    hide Abelian;
    Assoc(g, a, b, g.add(c, d));
    Assoc(g, b, c, d);
    Commute(g, b, c);
    Assoc(g, c, b, d);
    Assoc(g, a, c, g.add(b, d));
  }

  lemma NegSum<G(!new)>(g: Group<G>, a: G, b: G)
    requires Abelian(g)
    ensures g.neg(g.add(a, b)) == g.add(g.neg(a), g.neg(b))
  {
    hide Abelian;
    Exchange(g, a, b, g.neg(a), g.neg(b));
    Inverse(g, a);
    Inverse(g, b);
    Unit(g, g.zero);
    InverseUnique(g, g.add(a, b), g.add(g.neg(a), g.neg(b)));
  }

  lemma NegNeg<G(!new)>(g: Group<G>, a: G)
    requires Abelian(g)
    ensures g.neg(g.neg(a)) == a
  {
    hide Abelian;
    Inverse(g, a);
    Commute(g, a, g.neg(a));
    InverseUnique(g, g.neg(a), a);
  }

  lemma NegZero<G(!new)>(g: Group<G>)
    requires Abelian(g)
    ensures g.neg(g.zero) == g.zero
  {
    hide Abelian;
    Unit(g, g.zero);
    InverseUnique(g, g.zero, g.zero);
  }

  lemma {:induction false} ScaleStep<G(!new)>(g: Group<G>, n: int, p: G)
    requires Abelian(g)
    ensures Scale(g, n + 1, p) == g.add(p, Scale(g, n, p))
  {
    hide Abelian;
    if n < 0 {
      var m := Multiple(g, -n - 1, p);
      NegSum(g, p, m);
      Assoc(g, p, g.neg(p), g.neg(m));
      Inverse(g, p);
      Unit(g, g.neg(m));
      NegZero(g);
    }
  }

  lemma {:induction false} ScaleAdds<G(!new)>(g: Group<G>, m: int, n: int, p: G)
    requires Abelian(g)
    ensures Scale(g, m + n, p) == g.add(Scale(g, m, p), Scale(g, n, p))
    decreases if m >= 0 then m else -m
  {
    hide Abelian, Scale;
    if m == 0 {
      assert Scale(g, 0, p) == g.zero by { ScaleZero(g, p); }
      Unit(g, Scale(g, n, p));
    } else if m > 0 {
      ScaleAdds(g, m - 1, n, p);
      ScaleStep(g, m - 1 + n, p);
      ScaleStep(g, m - 1, p);
      Assoc(g, p, Scale(g, m - 1, p), Scale(g, n, p));
    } else {
      ScaleAdds(g, m + 1, n, p);
      ScaleStep(g, m + n, p);
      ScaleStep(g, m, p);
      Assoc(g, p, Scale(g, m, p), Scale(g, n, p));
      Cancel(g, p, Scale(g, m + n, p), g.add(Scale(g, m, p), Scale(g, n, p)));
    }
  }

  lemma ScaleZero<G>(g: Group<G>, p: G)
    ensures Scale(g, 0, p) == g.zero
  {
  }

  lemma Cancel<G(!new)>(g: Group<G>, p: G, x: G, y: G)
    requires Abelian(g) && g.add(p, x) == g.add(p, y)
    ensures x == y
  {
    hide Abelian;
    var n := g.neg(p);
    Assoc(g, n, p, x);
    Assoc(g, n, p, y);
    Inverse(g, p);
    Commute(g, p, n);
    Unit(g, x);
    Unit(g, y);
  }

  lemma {:induction false} ScaleOfScale<G(!new)>(g: Group<G>, m: int, n: int, p: G)
    requires Abelian(g)
    ensures Scale(g, m * n, p) == Scale(g, m, Scale(g, n, p))
    decreases if m >= 0 then m else -m
  {
    hide Abelian, Scale;
    if m == 0 {
      ScaleZero(g, p);
      ScaleZero(g, Scale(g, n, p));
    } else if m > 0 {
      ScaleOfScale(g, m - 1, n, p);
      ScaleAdds(g, n, (m - 1) * n, p);
      ScaleStep(g, m - 1, Scale(g, n, p));
      assert n + (m - 1) * n == m * n;
    } else {
      ScaleOfScale(g, m + 1, n, p);
      ScaleAdds(g, n, m * n, p);
      ScaleStep(g, m, Scale(g, n, p));
      assert n + m * n == (m + 1) * n;
      Cancel(g, Scale(g, n, p), Scale(g, m * n, p), Scale(g, m, Scale(g, n, p)));
    }
  }

  lemma ScaleNeg<G(!new)>(g: Group<G>, n: int, p: G)
    requires Abelian(g)
    ensures Scale(g, n, g.neg(p)) == Scale(g, -n, p)
  {
    hide *;
    ScaleOfScale(g, n, -1, p);
    MinusOne(g, p);
  }

  lemma One<G(!new)>(g: Group<G>, p: G)
    requires Abelian(g)
    ensures Scale(g, 1, p) == p
  {
    hide Abelian;
    assert Multiple(g, 1, p) == g.add(p, Multiple(g, 0, p));
    Unit(g, p);
  }

  lemma MinusOne<G(!new)>(g: Group<G>, p: G)
    requires Abelian(g)
    ensures Scale(g, -1, p) == g.neg(p)
  {
    hide Abelian;
    assert Multiple(g, 1, p) == g.add(p, Multiple(g, 0, p));
    Unit(g, p);
  }

  lemma ScaleOfZero<G(!new)>(g: Group<G>, n: int)
    requires Abelian(g)
    ensures Scale(g, n, g.zero) == g.zero
  {
    hide Abelian, Scale;
    ScaleOfScale(g, n, 0, g.zero);
    ScaleZero(g, g.zero);
    assert n * 0 == 0;
  }

  /** In a group whose order divides n, multiples depend on the factor modulo n only. */
  lemma ScaleModulo<G(!new)>(g: Group<G>, n: int, a: int, m: int, p: G)
    requires Abelian(g) && Scale(g, n, p) == g.zero
    ensures Scale(g, a + m * n, p) == Scale(g, a, p)
  {
    hide Abelian, Scale;
    ScaleAdds(g, a, m * n, p);
    ScaleOfScale(g, m, n, p);
    ScaleOfZero(g, m);
    Unit(g, Scale(g, a, p));
  }
}
