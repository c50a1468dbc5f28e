/** From Jacobian coordinates in limbs to affine coordinates. */
module AffinePoints {
  import opened Bytes
  import opened Division
  import opened FieldWords
  import opened FieldNormalForm
  import opened FieldValues
  import opened ModularArithmetic
  import opened Fermat
  import CurveFormulas

  /** x/z^2 and y/z^3, with Fermat powers in place of the quotients; the point itself is scaled to z = 1. */
  method JacobianToAffine(x: FieldVal, y: FieldVal, z: FieldVal) returns (x3: nat, y3: nat)
    requires x != y && x != z && y != z && Mag(x.n, 8) && Mag(y.n, 8) && Mag(z.n, 8)
    modifies x, y, z
    ensures x3 == old(Eval(x.n)) * Power(old(Eval(z.n)), 2 * (PRIME - 2)) % PRIME
    ensures y3 == old(Eval(y.n)) * Power(old(Eval(z.n)), 3 * (PRIME - 2)) % PRIME
    ensures Eval(x.n) == x3 && Eval(y.n) == y3 && Eval(z.n) == 1
  {
    hide Power, Eval, Mag, NormalizedValue, OnceFolded;
    ghost var w := Eval(z.n);
    ghost var e := PRIME - 2;
    var zInv := new FieldVal();
    var tempZ := new FieldVal();
    zInv.Set(z);
    zInv.Inverse();
    tempZ.PowerSquare(zInv, w, e);
    Multiply(x, tempZ, w, 2 * e);
    tempZ.PowerMul2(tempZ, zInv, w, 2 * e, e);
    Multiply(y, tempZ, w, 3 * e);
    z.SetInt(1);
    x3 := Coordinate(x);
    y3 := Coordinate(y);
  }

  /** The product with a power. */
  method Multiply(f: FieldVal, g: FieldVal, ghost w: nat, ghost e: nat)
    requires f != g && Mag(f.n, 8) && g.HasPower(w, e)
    modifies f
    ensures Eval(f.n) % PRIME == old(Eval(f.n)) * Power(w, e) % PRIME && Mag(f.n, 1)
  {
    hide Power, Eval, Mag;
    ghost var a, b := Eval(f.n), Eval(g.n);
    f.Mul(g);
    MulMod(b, a);
    assert a * b == b * a && Power(w, e) * a == a * Power(w, e);
  }

  /** The residue of a product, by way of its bytes. */
  method Coordinate(f: FieldVal) returns (c: nat)
    requires Mag(f.n, 1)
    modifies f
    ensures c == Eval(f.n) == old(Eval(f.n)) % PRIME
  {
    hide Eval, NormalizedValue, OnceFolded;
    MagMono(f.n, 1, 63);
    MagnitudeOneIsSafe(f.n);
    f.Normalize();
    var bytes := new byte[32];
    f.PutBytes(bytes);
    c := FromBytes(bytes[..]);
  }

  /** The result stands for the same point, for any z to which Fermat's theorem applies. */
  lemma AffineIsRepresented(p: CurveFormulas.Jacobian, a: nat, b: nat)
    requires p.x >= 0 && p.y >= 0 && p.z >= 0 && Power(p.z, PRIME - 1) == 1
    requires a == p.x * Power(p.z, 2 * (PRIME - 2)) % PRIME && b == p.y * Power(p.z, 3 * (PRIME - 2)) % PRIME
    ensures CurveFormulas.Represents(p, a, b)
  {
    hide Power;
    var z: nat := p.z;
    PowersCancel(z, 2, PRIME - 2);
    PowersCancel(z, 3, PRIME - 2);
    PowerOne(z);
    PowerSum(z, 1, 1, z, z);
    PowerSum(z, 2, 1, z * z, z);
    Cancelled(p.x, Power(z, 2 * (PRIME - 2)), z * z, a);
    Cancelled(p.y, Power(z, 3 * (PRIME - 2)), z * z * z, b);
    assert CurveFormulas.Square(z) == z * z;
  }

  /** For any z that the prime does not divide. */
  lemma FinitePointIsRepresented(p: CurveFormulas.Jacobian, a: nat, b: nat)
    requires IsPrime(PRIME) && p.x >= 0 && p.y >= 0 && p.z >= 0 && p.z % PRIME != 0
    requires a == p.x * Power(p.z, 2 * (PRIME - 2)) % PRIME && b == p.y * Power(p.z, 3 * (PRIME - 2)) % PRIME
    ensures CurveFormulas.Represents(p, a, b)
  {
    LittleTheorem(p.z);
    AffineIsRepresented(p, a, b);
  }

  /** Two points of different x have a chord, and a point of y other than zero has a tangent. */
  lemma SlopeExists(run: int, rise: int)
    requires IsPrime(PRIME) && !Cong(run, 0)
    ensures exists l: int :: Cong(l * run, rise)
  {
    var w := InverseOf(run);
    hide Cong, IsPrime;
    SlopeIs(run, rise, w);
    assert Cong(rise * w * run, rise);
  }

  lemma InverseOf(run: int) returns (w: nat)
    requires IsPrime(PRIME) && !Cong(run, 0)
    ensures Cong(run * w, 1)
  {
    CongIsResidue(run, 0);
    var a := Residue(run);
    InversePower(a);
    w := Power(a, PRIME - 2);
    hide Power, Cong, IsPrime;
    CongIsResidue(a * w, 1);
    CongRefl(w);
    CongMul(run, a, w, w);
    CongTrans(run * w, a * w, 1);
  }

  lemma Residue(x: int) returns (a: nat)
    ensures Cong(x, a) && a % PRIME == x % PRIME
  {
    Euclid(x, PRIME);
    a := x % PRIME;
    DivisionIs(a, PRIME, 0, a);
    CongIsResidue(x, a);
  }

  lemma SlopeIs(run: int, rise: int, w: int)
    requires Cong(run * w, 1)
    ensures Cong(rise * w * run, rise)
  {
    hide Cong;
    CongRefl(rise);
    CongMul(rise, rise, run * w, 1);
    assert rise * (run * w) == rise * w * run;
  }

  lemma PowersCancel(z: nat, k: nat, e: nat)
    requires Power(z, e + 1) == 1
    ensures Power(z, k * e) * Power(z, k) % PRIME == 1
  {
    hide Power;
    PowerAdds(z, k * e, k);
    PowerOfOne(z, k, e + 1);
    assert k * e + k == k * (e + 1);
  }

  lemma {:induction false} PowerOfOne(z: nat, k: nat, e: nat)
    requires Power(z, e) == 1
    ensures Power(z, k * e) == 1
  {
    hide Power;
    if k > 0 {
      PowerOfOne(z, k - 1, e);
      OneMore(k, e);
      PowerAdds(z, (k - 1) * e, e);
    } else {
      NoPower(z);
    }
  }

  lemma OneMore(k: nat, e: nat)
    requires k > 0
    ensures k * e == (k - 1) * e + e
  {
  }

  lemma NoPower(z: nat)
    ensures Power(z, 0) == 1
  {
  }

  lemma Cancelled(x: nat, w: nat, t: nat, a: nat)
    requires a == x * w % PRIME && w * (t % PRIME) % PRIME == 1
    ensures Cong(x, a * t)
  {
    MulMod(x * w, t);
    Assoc(x, w, t);
    Commute(x, w * t);
    MulMod(w * t, x);
    Commute(t, w);
    MulMod(t, w);
    Commute(t % PRIME, w);
    CongIsResidue(x, a * t);
  }

  /** Infinity becomes (0, 0). */
  lemma InfinityIsOrigin(x: nat, z: nat, k: nat)
    requires z % PRIME == 0 && k > 0
    ensures x * Power(z, k) % PRIME == 0
  {
    MulMod(z, Power(z, k - 1));
    assert Power(z, k) == 0;
  }
}
