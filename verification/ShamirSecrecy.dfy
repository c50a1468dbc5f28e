/** What fewer shares than the threshold say about a secret: nothing. For every secret there is exactly one choice of
    the random coefficients that leads to them. */
module ShamirSecrecy {
  import opened GaloisTables
  import opened GaloisField
  import opened Polynomials
  import opened Interpolation
  import opened Shamir

  ghost predicate AllZero(p: seq<bv8>) {
    forall i :: 0 <= i < |p| ==> p[i] == 0
  }

  /** Only the zero polynomial has the root r and leaves nothing when divided by t - r. */
  lemma {:induction false} OnlyZeroDivided(p: seq<bv8>, r: bv8)
    requires p != [] && Eval(p, r) == 0 && AllZero(Quotient(p, r))
    ensures AllZero(p)
  {
    hide Mult, Add;
    if |p| == 1 {
      assert p == [p[0]];
      LeadingCoefficient(p[0], r);
    } else {
      var rest := p[1..];
      assert Quotient(p, r)[0] == 0 && Quotient(p, r)[1..] == Quotient(rest, r);
      MultZero(r);
      AddLaws(p[0], 0, 0);
      OnlyZeroDivided(rest, r);
      assert p == [p[0]] + rest;
    }
  }

  /** A polynomial with at least as many distinct roots as coefficients has none but zero coefficients. */
  lemma {:induction false} OnlyZeroVanishes(p: seq<bv8>, roots: seq<bv8>)
    requires |p| <= |roots| && Distinct(roots) && forall i :: 0 <= i < |roots| ==> Eval(p, roots[i]) == 0
    ensures AllZero(p)
    decreases |p|
  {
    hide Mult, Add, Eval, Quotient;
    if p != [] {
      var r := roots[0];
      forall i | 0 <= i < |roots| - 1 ensures Eval(Quotient(p, r), roots[1..][i]) == 0 {
        QuotientIs(p, r, roots[i + 1]);
        RootOfQuotient(roots[i + 1], r, Eval(Quotient(p, r), roots[i + 1]));
      }
      OnlyZeroVanishes(Quotient(p, r), roots[1..]);
      OnlyZeroDivided(p, r);
    }
  }

  /** Polynomials of n coefficients that agree at n points are the same. */
  lemma OnePolynomial(p: seq<bv8>, q: seq<bv8>, xs: seq<bv8>)
    requires |p| == |q| <= |xs| && Distinct(xs) && forall i :: 0 <= i < |xs| ==> Eval(p, xs[i]) == Eval(q, xs[i])
    ensures p == q
  {
    hide Mult, Add, Eval;
    forall i | 0 <= i < |xs| ensures Eval(Plus(p, q), xs[i]) == 0 {
      EvalPlus(p, q, xs[i]);
      AddLaws(Eval(p, xs[i]), Eval(q, xs[i]), 0);
    }
    OnlyZeroVanishes(Plus(p, q), xs);
    NoDifference(p, q);
  }

  lemma {:induction false} NoDifference(p: seq<bv8>, q: seq<bv8>)
    requires |p| == |q| && AllZero(Plus(p, q))
    ensures p == q
  {
    hide Add;
    if p != [] {
      assert Plus(p, q)[0] == Add(p[0], q[0]) && Plus(p, q)[1..] == Plus(p[1..], q[1..]);
      AddLaws(p[0], q[0], 0);
      NoDifference(p[1..], q[1..]);
      assert p == [p[0]] + p[1..] && q == [q[0]] + q[1..];
    }
  }

  /** Zero and the abscissas of shares. */
  ghost function WithOrigin(xs: seq<bv8>): seq<bv8> {
    [0] + xs
  }

  /** The coefficients that lead from a byte of the secret to its given shares. */
  ghost function CoefficientsFor(s: bv8, xs: seq<bv8>, ys: seq<bv8>): (c: seq<bv8>)
    requires Distinct(WithOrigin(xs)) && |xs| == |ys|
    ensures |c| == |xs|
  {
    InterpolationPoly(WithOrigin(xs), [s] + ys, |xs| + 1)[1..]
  }

  lemma CoefficientsExist(s: bv8, xs: seq<bv8>, ys: seq<bv8>)
    requires Distinct(WithOrigin(xs)) && |xs| == |ys|
    ensures forall i :: 0 <= i < |xs| ==> Eval(MakePolynomial(s, CoefficientsFor(s, xs, ys)), xs[i]) == ys[i]
  {
    hide Eval, InterpolationPoly, Interpolated;
    var all, values, n := WithOrigin(xs), [s] + ys, |xs| + 1;
    var p := InterpolationPoly(all, values, n);
    InterpolatedIsPoly(all, values, all[0], n);
    InterpolatedAtSample(all, values, 0, n);
    EvalAtZero(p);
    assert p == MakePolynomial(s, CoefficientsFor(s, xs, ys));
    forall i | 0 <= i < |xs| ensures Eval(p, xs[i]) == ys[i] {
      assert all[i + 1] == xs[i] && values[i + 1] == ys[i];
      InterpolatedIsPoly(all, values, all[i + 1], n);
      InterpolatedAtSample(all, values, i + 1, n);
    }
  }

  lemma CoefficientsUnique(s: bv8, xs: seq<bv8>, c: seq<bv8>, d: seq<bv8>)
    requires Distinct(WithOrigin(xs)) && |xs| == |c| == |d|
    requires forall i :: 0 <= i < |xs| ==> Eval(MakePolynomial(s, c), xs[i]) == Eval(MakePolynomial(s, d), xs[i])
    ensures c == d
  {
    hide Eval;
    var all, p, q := WithOrigin(xs), MakePolynomial(s, c), MakePolynomial(s, d);
    EvalAtZero(p);
    EvalAtZero(q);
    forall i | 0 <= i < |all| ensures Eval(p, all[i]) == Eval(q, all[i]) {
      assert i > 0 ==> all[i] == xs[i - 1];
    }
    OnePolynomial(p, q, all);
    assert c == p[1..] && d == q[1..];
  }

  /** The shares at the abscissas xs that these coefficients give for the secret. */
  ghost predicate LeadsTo(secret: seq<bv8>, random: seq<seq<bv8>>, xs: seq<bv8>, parts: seq<seq<bv8>>) {
    && |random| == |secret| && (forall k :: 0 <= k < |random| ==> |random[k]| == |xs|)
    && |parts| == |xs| && forall i :: 0 <= i < |xs| ==> parts[i] == Share(secret, random, xs[i])
  }

  /** Given one share less than the threshold, whatever they are, every secret of that length is possible, and by
      exactly one choice of the coefficients each. */
  lemma SharesTellNothing(secret: seq<bv8>, xs: seq<bv8>, parts: seq<seq<bv8>>)
    requires Distinct(xs) && 0 !in xs && |parts| == |xs|
    requires forall i :: 0 <= i < |parts| ==> |parts[i]| == |secret| + 1 && Last(parts[i]) == xs[i]
    ensures exists random :: LeadsTo(secret, random, xs, parts)
    ensures forall r, r' :: LeadsTo(secret, r, xs, parts) && LeadsTo(secret, r', xs, parts) ==> r == r'
  {
    OriginApart(xs);
    SomeCoefficients(secret, xs, parts);
    forall r, r' | LeadsTo(secret, r, xs, parts) && LeadsTo(secret, r', xs, parts) ensures r == r' {
      SameCoefficients(secret, xs, parts, r, r');
    }
  }

  lemma OriginApart(xs: seq<bv8>)
    requires Distinct(xs) && 0 !in xs
    ensures Distinct(WithOrigin(xs))
  {
  }

  /** Byte k of every share. */
  ghost function Bytes(parts: seq<seq<bv8>>, k: nat): seq<bv8>
    requires forall i :: 0 <= i < |parts| ==> k < |parts[i]|
  {
    seq(|parts|, i requires 0 <= i < |parts| => parts[i][k])
  }

  lemma SomeCoefficients(secret: seq<bv8>, xs: seq<bv8>, parts: seq<seq<bv8>>)
    requires Distinct(WithOrigin(xs)) && |parts| == |xs|
    requires forall i :: 0 <= i < |parts| ==> |parts[i]| == |secret| + 1 && Last(parts[i]) == xs[i]
    ensures exists random :: LeadsTo(secret, random, xs, parts)
  {
    hide Eval, CoefficientsFor;
    var random := seq(|secret|, k requires 0 <= k < |secret| => CoefficientsFor(secret[k], xs, Bytes(parts, k)));
    forall i | 0 <= i < |xs| ensures parts[i] == Share(secret, random, xs[i]) {
      forall k | 0 <= k < |secret| ensures parts[i][k] == Share(secret, random, xs[i])[k] {
        CoefficientsExist(secret[k], xs, Bytes(parts, k));
      }
    }
    assert LeadsTo(secret, random, xs, parts);
  }

  lemma SameCoefficients(secret: seq<bv8>, xs: seq<bv8>, parts: seq<seq<bv8>>, r: seq<seq<bv8>>, r': seq<seq<bv8>>)
    requires Distinct(WithOrigin(xs)) && LeadsTo(secret, r, xs, parts) && LeadsTo(secret, r', xs, parts)
    ensures r == r'
  {
    hide Eval;
    forall k | 0 <= k < |secret| ensures r[k] == r'[k] {
      forall i | 0 <= i < |xs| ensures
        Eval(MakePolynomial(secret[k], r[k]), xs[i]) == Eval(MakePolynomial(secret[k], r'[k]), xs[i]) {
        assert parts[i][k] == Share(secret, r, xs[i])[k] == Share(secret, r', xs[i])[k];
      }
      CoefficientsUnique(secret[k], xs, r[k], r'[k]);
    }
  }
}
