/** Polynomials over GF(2^8) as lists of coefficients, lowest first, and why their values at enough points determine
    them. */
module Polynomials {
  import opened GaloisTables
  import opened GaloisField

  function Eval(p: seq<bv8>, x: bv8): bv8 {
    if p == [] then 0 else Add(Mult(Eval(p[1..], x), x), p[0])
  }

  /** Horner's method, from the highest coefficient down. */
  method Evaluate(p: seq<bv8>, x: bv8) returns (out: bv8)
    requires p != []
    ensures out == Eval(p, x)
  {
    hide Mult, Add;
    if x == 0 {
      EvalAtZero(p);
      return p[0];
    }
    var degree := |p| - 1;
    out := p[degree];
    LeadingCoefficient(p[degree], x);
    assert p[degree..] == [p[degree]];
    var i := degree - 1;
    while i >= 0
      invariant -1 <= i < degree && out == Eval(p[i + 1..], x)
    {
      out := Add(Mult(out, x), p[i]);
      assert p[i..][1..] == p[i + 1..];
      i := i - 1;
    }
    assert p[0..] == p;
  }

  lemma LeadingCoefficient(c: bv8, x: bv8)
    ensures Eval([c], x) == c
  {
    hide Mult, Add;
    MultZero(x);
    AddLaws(c, 0, 0);
    assert [c][1..] == [];
  }

  lemma EvalAtZero(p: seq<bv8>)
    requires p != []
    ensures Eval(p, 0) == p[0]
  {
    hide Mult, Add;
    MultZero(Eval(p[1..], 0));
    AddLaws(p[0], 0, 0);
  }

  ghost function Plus(p: seq<bv8>, q: seq<bv8>): (r: seq<bv8>)
    requires |p| == |q|
    ensures |r| == |p|
  {
    if p == [] then [] else [Add(p[0], q[0])] + Plus(p[1..], q[1..])
  }

  ghost function Scale(c: bv8, p: seq<bv8>): (r: seq<bv8>)
    ensures |r| == |p|
  {
    if p == [] then [] else [Mult(c, p[0])] + Scale(c, p[1..])
  }

  lemma {:induction false} EvalPlus(p: seq<bv8>, q: seq<bv8>, x: bv8)
    requires |p| == |q|
    ensures Eval(Plus(p, q), x) == Add(Eval(p, x), Eval(q, x))
  {
    hide Mult, Add;
    if p == [] {
      AddLaws(0, 0, 0);
    } else {
      var p', q' := p[1..], q[1..];
      EvalPlus(p', q', x);
      assert Plus(p, q)[1..] == Plus(p', q');
      MultDistributes(x, Eval(p', x), Eval(q', x));
      AddSwaps(Mult(Eval(p', x), x), Mult(Eval(q', x), x), p[0], q[0]);
    }
  }

  lemma {:induction false} EvalScale(c: bv8, p: seq<bv8>, x: bv8)
    ensures Eval(Scale(c, p), x) == Mult(c, Eval(p, x))
  {
    hide Mult, Add;
    if p == [] {
      MultZero(c);
    } else {
      var p' := p[1..];
      EvalScale(c, p', x);
      assert Scale(c, p)[1..] == Scale(c, p');
      MultAssoc(c, Eval(p', x), x);
      MultDistributes(c, Mult(Eval(p', x), x), p[0]);
    }
  }

  /** p multiplied by (t - r). */
  ghost function TimesLinear(p: seq<bv8>, r: bv8): (q: seq<bv8>)
    ensures |q| == |p| + 1
  {
    Plus([0] + p, Scale(r, p) + [0])
  }

  lemma {:induction false} EvalPadded(p: seq<bv8>, x: bv8)
    ensures Eval(p + [0], x) == Eval(p, x)
  {
    hide Mult, Add;
    if p == [] {
      LeadingCoefficient(0, x);
      assert p + [0] == [0];
    } else {
      EvalPadded(p[1..], x);
      assert (p + [0])[1..] == p[1..] + [0];
    }
  }

  lemma EvalTimesLinear(p: seq<bv8>, r: bv8, x: bv8)
    ensures Eval(TimesLinear(p, r), x) == Mult(Add(x, r), Eval(p, x))
  {
    hide Mult, Add;
    EvalPlus([0] + p, Scale(r, p) + [0], x);
    EvalPadded(Scale(r, p), x);
    EvalScale(r, p, x);
    assert ([0] + p)[1..] == p;
    var v := Eval(p, x);
    AddLaws(Mult(v, x), 0, 0);
    MultComm(v, x);
    MultDistributes(v, x, r);
  }

  /** Synthetic division by (t - r). */
  ghost function Quotient(p: seq<bv8>, r: bv8): (q: seq<bv8>)
    requires p != []
    ensures |q| == |p| - 1
  {
    if |p| == 1 then [] else [Eval(p[1..], r)] + Quotient(p[1..], r)
  }

  lemma {:induction false} QuotientIs(p: seq<bv8>, r: bv8, x: bv8)
    requires p != []
    ensures Eval(p, x) == Add(Mult(Add(x, r), Eval(Quotient(p, r), x)), Eval(p, r))
  {
    hide Mult, Add;
    var d := Add(x, r);
    if |p| == 1 {
      assert p == [p[0]];
      LeadingCoefficient(p[0], x);
      LeadingCoefficient(p[0], r);
      MultZero(d);
      AddLaws(p[0], 0, 0);
    } else {
      var p' := p[1..];
      QuotientIs(p', r, x);
      var q, v := Eval(Quotient(p', r), x), Eval(p', r);
      assert Quotient(p, r)[1..] == Quotient(p', r);
      QuotientStep(d, q, v, x, r, p[0]);
    }
  }

  /** ((d*q + v)*x + c) = d*(q*x + v) + (v*r + c) where d = x - r. */
  lemma QuotientStep(d: bv8, q: bv8, v: bv8, x: bv8, r: bv8, c: bv8)
    requires d == Add(x, r)
    ensures Add(Mult(Add(Mult(d, q), v), x), c) == Add(Mult(d, Add(Mult(q, x), v)), Add(Mult(v, r), c))
  {
    hide Mult, Add;
    var dqx, dv, vr, vx := Mult(d, Mult(q, x)), Mult(d, v), Mult(v, r), Mult(v, x);
    MultDistributes(x, Mult(d, q), v);
    MultAssoc(d, q, x);
    MultDistributes(d, Mult(q, x), v);
    MultDistributes(v, x, r);
    MultComm(d, v);
    assert Add(Mult(Add(Mult(d, q), v), x), c) == Add(Add(dqx, vx), c);
    assert dv == Add(vx, vr);
    AddCancels(dqx, vx, vr, c);
  }

  lemma AddCancels(a: bv8, b: bv8, c: bv8, e: bv8)
    ensures Add(Add(a, b), e) == Add(Add(a, Add(b, c)), Add(c, e))
  {
    assert (a ^ b) ^ e == (a ^ (b ^ c)) ^ (c ^ e);
  }

  /** A polynomial with at most n coefficients and n distinct roots is zero everywhere. */
  lemma {:induction false} TooManyRoots(p: seq<bv8>, roots: seq<bv8>, x: bv8)
    requires |p| <= |roots| && forall i, j :: 0 <= i < j < |roots| ==> roots[i] != roots[j]
    requires forall i :: 0 <= i < |roots| ==> Eval(p, roots[i]) == 0
    ensures Eval(p, x) == 0
    decreases |p|
  {
    hide Mult, Add;
    if p != [] {
      var r := roots[0];
      var q := Quotient(p, r);
      forall i | 0 <= i < |roots| - 1 ensures Eval(q, roots[1..][i]) == 0 {
        var s := roots[i + 1];
        QuotientIs(p, r, s);
        RootOfQuotient(s, r, Eval(q, s));
      }
      TooManyRoots(q, roots[1..], x);
      QuotientIs(p, r, x);
      MultZero(Add(x, r));
      AddLaws(0, 0, 0);
    }
  }

  lemma RootOfQuotient(s: bv8, r: bv8, v: bv8)
    requires s != r && Add(Mult(Add(s, r), v), 0) == 0
    ensures v == 0
  {
    AddLaws(Mult(Add(s, r), v), 0, 0);
    AddLaws(s, r, 0);
    NoZeroDivisors(Add(s, r), v);
  }

  /** Polynomials with at most n coefficients that agree at n points agree everywhere. */
  lemma AgreeEverywhere(p: seq<bv8>, q: seq<bv8>, xs: seq<bv8>, x: bv8)
    requires |p| == |q| <= |xs| && forall i, j :: 0 <= i < j < |xs| ==> xs[i] != xs[j]
    requires forall i :: 0 <= i < |xs| ==> Eval(p, xs[i]) == Eval(q, xs[i])
    ensures Eval(p, x) == Eval(q, x)
  {
    hide Mult, Add;
    forall i | 0 <= i < |xs| ensures Eval(Plus(p, q), xs[i]) == 0 {
      EvalPlus(p, q, xs[i]);
      AddLaws(Eval(p, xs[i]), Eval(q, xs[i]), 0);
    }
    TooManyRoots(Plus(p, q), xs, x);
    EvalPlus(p, q, x);
    AddLaws(Eval(p, x), Eval(q, x), 0);
  }

  /** Leading zero coefficients. */
  ghost function Padded(p: seq<bv8>, n: nat): (q: seq<bv8>)
    ensures |q| == |p| + n
  {
    if n == 0 then p else Padded(p, n - 1) + [0]
  }

  lemma {:induction false} EvalPaddedBy(p: seq<bv8>, n: nat, x: bv8)
    ensures Eval(Padded(p, n), x) == Eval(p, x)
  {
    if n > 0 {
      EvalPaddedBy(p, n - 1, x);
      EvalPadded(Padded(p, n - 1), x);
    }
  }
}
