/** interpolatePolynomial: the value at x of the polynomial through the given points. */
module Interpolation {
  import opened Wrappers
  import opened GaloisTables
  import opened GaloisField
  import opened Polynomials

  predicate Distinct(xs: seq<bv8>) {
    forall i, j :: 0 <= i < j < |xs| ==> xs[i] != xs[j]
  }

  /** The product over the first n samples but the i-th of (x - xs[j]) / (xs[i] - xs[j]). */
  ghost function Basis(xs: seq<bv8>, i: nat, x: bv8, n: nat): bv8
    requires Distinct(xs) && i < |xs| && n <= |xs|
  {
    if n == 0 then 1
    else if i == n - 1 then Basis(xs, i, x, n - 1)
    else
      AddLaws(xs[i], xs[n - 1], 0);
      DivTimes(Add(x, xs[n - 1]), Add(xs[i], xs[n - 1]));
      Mult(Basis(xs, i, x, n - 1), Div(Add(x, xs[n - 1]), Add(xs[i], xs[n - 1])).value)
  }

  /** The sum of the first n terms. */
  ghost function Interpolated(xs: seq<bv8>, ys: seq<bv8>, x: bv8, n: nat): bv8
    requires Distinct(xs) && |xs| == |ys| && n <= |xs|
  {
    if n == 0 then 0 else Add(Interpolated(xs, ys, x, n - 1), Mult(ys[n - 1], Basis(xs, n - 1, x, |xs|)))
  }

  method InterpolatePolynomial(xs: seq<bv8>, ys: seq<bv8>, x: bv8) returns (result: bv8)
    requires Distinct(xs) && |xs| == |ys|
    ensures result == Interpolated(xs, ys, x, |xs|)
  {
    hide Mult, Add, Div;
    var limit := |xs|;
    result := 0;
    for i := 0 to limit
      invariant result == Interpolated(xs, ys, x, i)
    {
      var basis := 1;
      for j := 0 to limit
        invariant basis == Basis(xs, i, x, j)
      {
        if i == j {
          continue;
        }
        var num := Add(x, xs[j]);
        var denom := Add(xs[i], xs[j]);
        AddLaws(xs[i], xs[j], 0);
        DivTimes(num, denom);
        var term := Div(num, denom);
        basis := Mult(basis, term.value);
      }
      var group := Mult(ys[i], basis);
      result := Add(result, group);
    }
  }

  /** The basis as a list of coefficients. */
  ghost function BasisPoly(xs: seq<bv8>, i: nat, n: nat): (p: seq<bv8>)
    requires Distinct(xs) && i < |xs| && n <= |xs|
    ensures |p| == if i < n then n else n + 1
  {
    if n == 0 then [1]
    else if i == n - 1 then BasisPoly(xs, i, n - 1)
    else
      AddLaws(xs[i], xs[n - 1], 0);
      DivTimes(1, Add(xs[i], xs[n - 1]));
      TimesLinear(Scale(Div(1, Add(xs[i], xs[n - 1])).value, BasisPoly(xs, i, n - 1)), xs[n - 1])
  }

  /** Division is multiplication by the inverse. */
  lemma DivIsInverse(a: bv8, b: bv8)
    requires b != 0
    ensures Div(a, b).Some? && Div(1, b).Some? && Div(a, b).value == Mult(a, Div(1, b).value)
  {
    hide Mult, Add, Div;
    DivTimes(a, b);
    DivTimes(1, b);
    var q, v := Div(a, b).value, Div(1, b).value;
    MultAssoc(a, v, b);
    MultOne(a);
    MultDistributes(b, q, Mult(a, v));
    AddLaws(Mult(q, b), Mult(Mult(a, v), b), 0);
    NoZeroDivisors(Add(q, Mult(a, v)), b);
    AddLaws(q, Mult(a, v), 0);
  }

  lemma {:induction false} BasisIsPoly(xs: seq<bv8>, i: nat, x: bv8, n: nat)
    requires Distinct(xs) && i < |xs| && n <= |xs|
    ensures Eval(BasisPoly(xs, i, n), x) == Basis(xs, i, x, n)
  {
    hide Mult, Add, Div, Eval, TimesLinear, Scale;
    if n == 0 {
      LeadingCoefficient(1, x);
    } else {
      BasisIsPoly(xs, i, x, n - 1);
      if i != n - 1 {
        var d, r := Add(xs[i], xs[n - 1]), xs[n - 1];
        AddLaws(xs[i], r, 0);
        DivIsInverse(Add(x, r), d);
        var v, b := Div(1, d).value, BasisPoly(xs, i, n - 1);
        EvalTimesLinear(Scale(v, b), r, x);
        EvalScale(v, b, x);
        var e, f := Eval(b, x), Add(x, r);
        MultAssoc(f, v, e);
        MultComm(Mult(f, v), e);
      }
    }
  }

  ghost function InterpolationPoly(xs: seq<bv8>, ys: seq<bv8>, n: nat): (p: seq<bv8>)
    requires Distinct(xs) && |xs| == |ys| && n <= |xs|
    ensures |p| == |xs|
  {
    if n == 0 then seq(|xs|, i => 0)
    else Plus(InterpolationPoly(xs, ys, n - 1), Scale(ys[n - 1], BasisPoly(xs, n - 1, |xs|)))
  }

  lemma {:induction false} EvalZeros(n: nat, x: bv8)
    ensures Eval(seq(n, i => 0), x) == 0
  {
    hide Mult, Add;
    if n > 0 {
      EvalZeros(n - 1, x);
      assert seq(n, i => 0 as bv8)[1..] == seq(n - 1, i => 0 as bv8);
      MultZero(x);
      AddLaws(0, 0, 0);
    }
  }

  lemma {:induction false} InterpolatedIsPoly(xs: seq<bv8>, ys: seq<bv8>, x: bv8, n: nat)
    requires Distinct(xs) && |xs| == |ys| && n <= |xs|
    ensures Eval(InterpolationPoly(xs, ys, n), x) == Interpolated(xs, ys, x, n)
  {
    hide Mult, Add, Eval, Plus, Scale, BasisPoly, Basis;
    if n == 0 {
      EvalZeros(|xs|, x);
    } else {
      InterpolatedIsPoly(xs, ys, x, n - 1);
      var b := BasisPoly(xs, n - 1, |xs|);
      EvalPlus(InterpolationPoly(xs, ys, n - 1), Scale(ys[n - 1], b), x);
      EvalScale(ys[n - 1], b, x);
      BasisIsPoly(xs, n - 1, x, |xs|);
    }
  }

  /** The basis is one at its own sample and zero at the others. */
  lemma {:induction false} BasisAtSample(xs: seq<bv8>, i: nat, k: nat, n: nat)
    requires Distinct(xs) && i < |xs| && k < |xs| && n <= |xs|
    ensures i == k ==> Basis(xs, i, xs[k], n) == 1
    ensures i != k && k < n ==> Basis(xs, i, xs[k], n) == 0
  {
    hide Mult, Add, Div;
    if n > 0 {
      BasisAtSample(xs, i, k, n - 1);
      if i != n - 1 {
        var num, d := Add(xs[k], xs[n - 1]), Add(xs[i], xs[n - 1]);
        AddLaws(xs[i], xs[n - 1], 0);
        AddLaws(xs[k], xs[n - 1], 0);
        if i == k {
          DivSelf(d);
          MultOne(1);
        } else if k == n - 1 {
          DivIsInverse(0, d);
          MultZero(Div(1, d).value);
          MultZero(Basis(xs, i, xs[k], n - 1));
        } else if k < n - 1 {
          DivTimes(num, d);
          MultZero(Div(num, d).value);
        }
      }
    }
  }

  lemma {:induction false} InterpolatedAtSample(xs: seq<bv8>, ys: seq<bv8>, k: nat, n: nat)
    requires Distinct(xs) && |xs| == |ys| && n <= |xs| && k < |xs|
    ensures Interpolated(xs, ys, xs[k], n) == if k < n then ys[k] else 0
  {
    hide Mult, Add, Basis;
    if n > 0 {
      InterpolatedAtSample(xs, ys, k, n - 1);
      BasisAtSample(xs, n - 1, k, |xs|);
      var before := Interpolated(xs, ys, xs[k], n - 1);
      MultZero(ys[n - 1]);
      MultOne(ys[n - 1]);
      AddLaws(before, 0, 0);
      AddLaws(ys[n - 1], 0, 0);
    }
  }

  /** Interpolation recovers a polynomial from at least as many of its values as it has coefficients. */
  lemma InterpolationRecovers(p: seq<bv8>, xs: seq<bv8>, ys: seq<bv8>, x: bv8)
    requires Distinct(xs) && |p| <= |xs| == |ys| && forall i :: 0 <= i < |xs| ==> ys[i] == Eval(p, xs[i])
    ensures Interpolated(xs, ys, x, |xs|) == Eval(p, x)
  {
    hide Mult, Add, Eval, InterpolationPoly, Interpolated, Padded;
    var n := |xs|;
    var q, r := InterpolationPoly(xs, ys, n), Padded(p, n - |p|);
    forall i | 0 <= i < n ensures Eval(q, xs[i]) == Eval(r, xs[i]) {
      InterpolatedIsPoly(xs, ys, xs[i], n);
      InterpolatedAtSample(xs, ys, i, n);
      EvalPaddedBy(p, n - |p|, xs[i]);
    }
    AgreeEverywhere(q, r, xs, x);
    InterpolatedIsPoly(xs, ys, x, n);
    EvalPaddedBy(p, n - |p|, x);
  }
}
