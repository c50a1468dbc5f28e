/** When the point routines are right about affine points, and two points of the curve on which they are not. */
module PointLosses {
  import opened FieldWords
  import opened FieldReduction
  import opened FieldNormalForm
  import opened ModularArithmetic
  import opened CurveFormulas
  import opened FieldElements
  import opened PointValues

  /** What the callers pass: results of these routines, numbers of 32 bytes, and their negatives. */
  lemma CallersAreKept(a: Elem)
    requires a.Valid() && (a.v <= 2 * PRIME || a.mag <= 1)
    ensures a.Lost() == 0
  {
    assert UNIT < 2 * PRIME;
  }

  /** Two finite points of different x: if no carry is lost that matters, the result represents the third point of their
      chord. */
  lemma AddedIsChord(p: Triple, q: Triple, a1: int, b1: int, a2: int, b2: int, l: int)
    requires p.Input() && q.Input() && p.Kept() && q.Kept() && p.z.Normalize().v != 0
    requires !SameX(p.Coordinates(), q.Coordinates()) && AddedKept(p, q)
    requires Represents(p.Coordinates(), a1, b1) && Represents(q.Coordinates(), a2, b2) && Cong(l * (a2 - a1), b2 - b1)
    ensures Represents(Added(p, q).Coordinates(), ThirdX(a1, a2, l), ThirdY(a1, b1, a2, l))
  {
    hide Cong, Added, AddedKept, SumOf, SameX, SameY, GenericSum, SameZSum, Elem.Normalize, Elem.Lost;
    var p1, q1 := p.Coordinates(), q.Coordinates();
    AddedRight(p, q);
    SumOfIsSum(p1, q1);
    SumIsChord(p1, q1, SumOf(p1, q1), a1, b1, a2, b2, l);
    RepresentsCong(Added(p, q).Coordinates(), SumOf(p1, q1), ThirdX(a1, a2, l), ThirdY(a1, b1, a2, l));
  }

  /** A finite point: if no carry is lost that matters, the result represents the third point of the tangent. */
  lemma DoubledIsTangent(p: Triple, a: int, b: int, l: int)
    requires p.Input() && p.z.Lost() == 0 && p.y.v != 0 && p.z.v != 0 && DoubledKept(p)
    requires Represents(p.Coordinates(), a, b) && Cong(l * (2 * b), 3 * CurveFormulas.Square(a))
    ensures Represents(Doubled(p).Coordinates(), ThirdX(a, a, l), ThirdY(a, b, a, l))
  {
    hide Cong, Doubled, DoubledKept, DoubleOf, Elem.Lost;
    DoubledRight(p);
    DoubleIsTangent(p.Coordinates(), a, b, l);
    RepresentsCong(Doubled(p).Coordinates(), DoubleOf(p.Coordinates()), ThirdX(a, a, l), ThirdY(a, b, a, l));
  }

  ghost predicate OnCurve(a: int, b: int) {
    Cong(b * b, a * a * a + 7)
  }

  /** A number below the prime as SetBytes reads it. */
  function Number(v: nat): (r: Elem)
    requires v < PRIME
    ensures r.Normal() && r.v == v && r.g == v && r.Lost() == 0
  {
    CongRefl(v);
    Elem(v, 1, v)
  }

  const Y1: nat := 0x4218f20ae6c646b363db68605822fb14264ca8d2587fdd6fbc750d587e76a7ee
  const X2: nat := 0x8000_01EA
  const Y2: nat := 0x97f4ed2fa45f52fd9d97624bff1b6485a6a774f87d483a6aedd2566928cc2ddc
  const SLOPE: nat := 0x55b56f9f3c9387f40f94b630ed57ecec9409b31573a7705873e5880b4a2364d3

  /** Two points of the curve with z = 1: twice the difference of their x coordinates is just above a multiple of 2^256
      when z is normalized, so a carry is lost, and what addJacobian leaves does not represent the third point of the
      chord. */
  lemma AddLosesCarry()
    ensures var p, q := Triple(Number(1), Number(Y1), Number(1)), Triple(Number(X2), Number(Y2), Number(1));
      OnCurve(1, Y1) && OnCurve(X2, Y2) && Cong(SLOPE * (X2 - 1), Y2 - Y1) && p.Input() && q.Input() && p.Kept()
        && q.Kept()
        && !AddedKept(p, q) && !Represents(Plus(p, q).Coordinates(), ThirdX(1, X2, SLOPE), ThirdY(1, Y1, X2, SLOPE))
  {
    NumbersOnCurve();
    LastDifference();
    hide OnCurve, Cong, OnesOf, Plus, NormalizedValue, LostCarry, AddedKept, Represents, ThirdX, ThirdY, Elem.Lost,
      Elem.Valid, SLOPE, X2, Y1, Y2;
    WrongSum(Number(1), Number(Y1), Number(X2), Number(Y2));
  }

  /** Such operands of which z loses its carry are not added right. */
  lemma WrongSum(x1: Elem, y1: Elem, x2: Elem, y2: Elem)
    requires x1.Normal() && y1.Normal() && x2.Normal() && y2.Normal() && x1.v != x2.v && y1.v != 0 && y2.v != 0
    requires x1.g == 1 && y1.g == Y1 && x2.g == X2 && y2.g == Y2 && OnesOf(x1, y1, x2, y2).z.Lost() == FOLD
    ensures var p, q := Triple(x1, y1, Number(1)), Triple(x2, y2, Number(1));
      !AddedKept(p, q) && !Represents(Plus(p, q).Coordinates(), ThirdX(1, X2, SLOPE), ThirdY(1, Y1, X2, SLOPE))
  {
    hide OnesOf, OnesSum, Plus, AddedKept, Cong, Represents, Elem.Lost, Elem.Normalize, NormalizedValue, ThirdX, ThirdY;
    hide SLOPE, X2, Y1, Y2;
    var raw := OnesOf(x1, y1, x2, y2);
    PicksOnes(Triple(x1, y1, Number(1)), Triple(x2, y2, Number(1)));
    OnesAreSum(x1, y1, x2, y2);
    EitherLost(raw.x);
    WrongPoint(Finished(raw).Coordinates(), raw.x.Lost());
  }

  lemma EitherLost(a: Elem)
    ensures a.Lost() == 0 || a.Lost() == FOLD
  {
  }

  /** On normal operands with z = 1 and different x the result is that of addZ1AndZ2EqualsOne. */
  lemma PicksOnes(p: Triple, q: Triple)
    requires p.x.Normal() && p.y.Normal() && q.x.Normal() && q.y.Normal() && p.x.v != q.x.v && p.y.v != 0 && q.y.v != 0
    requires p.z == q.z == Number(1)
    ensures var raw := OnesOf(p.x, p.y, q.x, q.y);
      p.Input() && q.Input() && Plus(p, q) == Finished(raw) && (AddedKept(p, q) <==> raw.Kept())
  {
    hide OnesOf, Elem.Normalize, Elem.Lost, NormalizedValue, EqualX, EqualXKept, Cong;
    hide AddSameZ, AddMixed, AddGeneric, AddSameZKept, AddMixedKept, AddGenericKept;
    NormalIsItself(p.x);
    NormalIsItself(p.y);
    NormalIsItself(q.x);
    NormalIsItself(q.y);
    NormalIsItself(p.z);
  }

  /** The z coordinate loses its carry. */
  lemma LastDifference()
    ensures OnesOf(Number(1), Number(Y1), Number(X2), Number(Y2)).z.Lost() == FOLD
  {
    hide Elem.Mul, Elem.Square, Elem.Valid, Elem.Lost;
    var z := OnesOf(Number(1), Number(Y1), Number(X2), Number(Y2)).z;
    assert z.v == 2 * (2 * PRIME - 1 + X2);
    Overflows(z);
  }

  lemma Overflows(z: Elem)
    requires z.v == 2 * (2 * PRIME - 1 + X2)
    ensures z.Lost() == FOLD
  {
  }

  lemma NumbersOnCurve()
    ensures OnCurve(1, Y1) && OnCurve(X2, Y2) && Cong(SLOPE * (X2 - 1), Y2 - Y1) && X2 != 1 && Y1 != 0 && Y2 != 0
  {
    CongIsResidue(Y1 * Y1, 8);
    CongIsResidue(Y2 * Y2, X2 * X2 * X2 + 7);
    CongIsResidue(SLOPE * (X2 - 1), Y2 - Y1);
  }

  /** With the carry taken off z, x is not that of the third point, whether or not x has lost its own. */
  lemma WrongPoint(r: Jacobian, lost: int)
    requires lost == 0 || lost == FOLD
    requires var sum := OnesSum(Jacobian(1, Y1, 1), Jacobian(X2, Y2, 1)); r.x == sum.x - lost && r.z == sum.z - FOLD
    ensures !Represents(r, ThirdX(1, X2, SLOPE), ThirdY(1, Y1, X2, SLOPE))
  {
    CongIsResidue(r.x, ThirdX(1, X2, SLOPE) * CurveFormulas.Square(r.z));
  }
}
