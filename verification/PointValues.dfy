/** The point routines of KoblitzCurve on field values, with every call of Normalize, and exactly when what they compute
    is the formula they stand for. */
module PointValues {
  import opened FieldWords
  import opened FieldNormalForm
  import opened ModularArithmetic
  import opened CurveFormulas
  import opened FieldElements

  datatype Triple = Triple(x: Elem, y: Elem, z: Elem) {
    ghost function Coordinates(): Jacobian {
      Jacobian(x.g, y.g, z.g)
    }

    /** What a point routine may be given: the comments count magnitude 1, negated points have magnitude 2. */
    ghost predicate Input() {
      x.Within(2) && y.Within(2) && z.Within(2)
    }

    /** What a point routine leaves: magnitude 1. */
    ghost predicate Output() {
      x.Normal() && y.Normal() && z.Within(1)
    }

    /** Normalizing the coordinates loses no carry. */
    ghost predicate Kept() {
      x.Lost() == 0 && y.Lost() == 0 && z.Lost() == 0
    }

    /** The test the dispatcher makes before anything else, on the limbs as they stand. */
    predicate AtInfinity() {
      (x.v == 0 && y.v == 0) || z.v == 0
    }
  }

  /** The point at infinity as the routines write it. */
  function Infinity(): (r: Triple)
    ensures r.Output() && r.Coordinates() == Jacobian(0, 0, 0)
  {
    Triple(SetInt(0), SetInt(0), SetInt(0))
  }

  /** The last lines of a routine. */
  function Finished(raw: Triple): (r: Triple)
    requires raw.x.Within(63) && raw.y.Within(63) && raw.z.Within(63)
    ensures r.Output()
    ensures r.Coordinates() == Jacobian(raw.x.g - raw.x.Lost(), raw.y.g - raw.y.Lost(), raw.z.g - raw.z.Lost())
  {
    Triple(raw.x.Normalize(), raw.y.Normalize(), raw.z.Normalize())
  }

  /** The last lines of a routine whose z is a product already. */
  function FinishedXY(raw: Triple): (r: Triple)
    requires raw.x.Within(63) && raw.y.Within(63) && raw.z.Within(1)
    ensures r.Output()
    ensures r.Coordinates() == Jacobian(raw.x.g - raw.x.Lost(), raw.y.g - raw.y.Lost(), raw.z.g)
  {
    Triple(raw.x.Normalize(), raw.y.Normalize(), raw.z)
  }

  /** The value normalized half-way through a routine, and the coordinates before they are normalized at its end. */
  datatype Run = Run(inner: Elem, raw: Triple)

  /** doubleGeneric and doubleZ1EqualsOne, which differ in how they compute z. */
  function DoublingOf(x: Elem, y: Elem, z3: Elem): (r: Run)
    requires x.Within(2) && y.Within(2) && z3.Within(4)
    ensures r.raw.x.Within(18) && r.raw.y.Within(10) && r.raw.z == z3 && r.inner.Within(27)
  {
    var a := x.Square();
    var c := y.Square().Square();
    var d := a.Add(c).Negate(2).Add(y.Square().Add(x).Square()).MulInt(2);
    var e := a.MulInt(3);
    var x3 := d.MulInt(2).Negate(16).Add(e.Square());
    var f := x3.Negate(18).Add(d);
    var y3 := c.MulInt(8).Negate(8).Add(f.Normalize().Mul(e));
    Run(f, Triple(x3, y3, z3))
  }

  /** No carry is lost that matters: one lost from the inner value is multiplied by 3 x^2 and ends up in y. */
  ghost predicate DoublingKept(x: Elem, r: Run) {
    r.raw.x.Lost() == 0 && r.raw.z.Lost() == 0 && Cong(Times(x.g, x.g) * 3 * r.inner.Lost() + r.raw.y.Lost(), 0)
  }

  lemma DoubleSteps(x: int, y: int, z: int, a: int, yy: int, c: int, b: int, d: int, e: int, x3: int, y3: int,
      lost: int)
    requires a == Times(x, x) && yy == Times(y, y) && c == Times(yy, yy) && b == Times(yy + x, yy + x)
    requires d == (-(a + c) + b) * 2 && e == a * 3 && x3 == -(d * 2) + Times(e, e)
    requires y3 == -(c * 8) + Times(-x3 + d - lost, e)
    ensures Jacobian(x3, y3 + e * lost, y * z * 2) == DoubleOf(Jacobian(x, y, z))
  {
    assert Times(-x3 + d - lost, e) == (d - x3) * e - lost * e;
  }

  /** The doubling formula comes out if and only if no carry is lost that matters. */
  lemma DoublingRight(x: Elem, y: Elem, z3: Elem, z: int)
    requires x.Within(2) && y.Within(2) && z3.Within(4) && z3.g == y.g * z * 2
    ensures var r := DoublingOf(x, y, z3);
      CongPoint(Finished(r.raw).Coordinates(), DoubleOf(Jacobian(x.g, y.g, z))) <==> DoublingKept(x, r)
  {
    hide Cong, Times, DoubleOf, Elem.Valid, Elem.Mul, Elem.Square, Elem.Add, Elem.MulInt, Elem.Negate, Elem.Normalize,
      Elem.Lost;
    var r := DoublingOf(x, y, z3);
    var a, b := x.Square(), y.Square();
    var c, b2 := b.Square(), b.Add(x).Square();
    var d := a.Add(c).Negate(2).Add(b2).MulInt(2);
    var e := a.MulInt(3);
    var out := Finished(r.raw).Coordinates();
    var s := DoubleOf(Jacobian(x.g, y.g, z));
    DoubleSteps(x.g, y.g, z, a.g, b.g, c.g, b2.g, d.g, e.g, r.raw.x.g, r.raw.y.g, r.inner.Lost());
    Loss(s.x, r.raw.x);
    Loss(s.z, r.raw.z);
    LossOf(s.y, e.g * r.inner.Lost() + r.raw.y.Lost());
    assert out == Jacobian(s.x - r.raw.x.Lost(), s.y - (e.g * r.inner.Lost() + r.raw.y.Lost()), s.z - r.raw.z.Lost());
  }

  /** A lost carry is never congruent to zero. */
  lemma Loss(s: int, a: Elem)
    ensures Cong(s - a.Lost(), s) <==> a.Lost() == 0
  {
    LossOf(s, a.Lost());
    CongIsResidue(a.Lost(), 0);
  }

  lemma LossOf(s: int, l: int)
    ensures Cong(s - l, s) <==> Cong(l, 0)
  {
    if Cong(s - l, s) {
      CongRefl(s);
      CongAdd(s, s, s - l, s);
    }
    if Cong(l, 0) {
      CongRefl(s);
      CongAdd(s, s, l, 0);
    }
  }

  /** doubleJacobian */
  function Doubled(p: Triple): (r: Triple)
    requires p.Input()
    ensures r.Output()
  {
    if p.y.v == 0 || p.z.v == 0 then Infinity() else Finished(DoublingRun(p).raw)
  }

  function DoublingRun(p: Triple): (r: Run)
    requires p.Input()
    ensures r.raw.x.Within(18) && r.raw.y.Within(10) && r.raw.z.Within(4) && r.inner.Within(27)
  {
    var z := p.z.Normalize();
    DoublingOf(p.x, p.y, if z.v == 1 then p.y.MulInt(2) else p.y.Mul(z).MulInt(2))
  }

  /** Whether a finite point is doubled right. */
  ghost predicate DoubledKept(p: Triple)
    requires p.Input()
  {
    p.y.v == 0 || p.z.v == 0 || DoublingKept(p.x, DoublingRun(p))
  }

  lemma DoubledRight(p: Triple)
    requires p.Input() && p.z.Lost() == 0 && p.y.v != 0 && p.z.v != 0
    ensures CongPoint(Doubled(p).Coordinates(), DoubleOf(p.Coordinates())) <==> DoubledKept(p)
  {
    hide Cong, DoubleOf, DoublingOf, Elem.Normalize, Elem.Mul, Elem.MulInt, Elem.Lost, DoublingKept;
    var z := p.z.Normalize();
    if z.v == 1 {
      var s := DoubleOf(Jacobian(p.x.g, p.y.g, 1));
      DoublingRight(p.x, p.y, p.y.MulInt(2), 1);
      OneIsOne(z);
      CongRefl(p.x.g);
      CongRefl(p.y.g);
      DoubleCong(Jacobian(p.x.g, p.y.g, 1), p.Coordinates());
      CongPointEither(Doubled(p).Coordinates(), s, DoubleOf(p.Coordinates()));
    } else {
      assert Times(p.y.g, z.g) == p.y.g * z.g;
      DoublingRight(p.x, p.y, p.y.Mul(z).MulInt(2), z.g);
    }
  }

  lemma OneIsOne(z: Elem)
    requires z.Valid() && z.v == 1
    ensures Cong(1, z.g)
  {
  }

  lemma CongPointEither(p: Jacobian, q: Jacobian, r: Jacobian)
    requires CongPoint(q, r)
    ensures CongPoint(p, q) <==> CongPoint(p, r)
  {
    CongEither(q.x, r.x, p.x);
    CongEither(q.y, r.y, p.y);
    CongEither(q.z, r.z, p.z);
  }

  lemma CongEither(b: int, c: int, a: int)
    requires Cong(b, c)
    ensures Cong(a, b) <==> Cong(a, c)
  {
    CongSym(b, c);
    if Cong(a, b) {
      CongTrans(a, b, c);
    }
    if Cong(a, c) {
      CongTrans(a, c, b);
    }
  }

  /** What a routine does when it finds equal x coordinates. */
  function EqualX(p: Triple, sameY: bool): (r: Triple)
    requires p.Input()
    ensures r.Output()
  {
    if sameY then Doubled(p) else Infinity()
  }

  /** addZ1AndZ2EqualsOne past its checks. */
  function OnesOf(x1: Elem, y1: Elem, x2: Elem, y2: Elem): (raw: Triple)
    requires x1.Within(1) && y1.Within(1) && x2.Within(1) && y2.Within(1)
    ensures raw.x.Within(6) && raw.y.Within(4) && raw.z.Within(6)
  {
    var h := x1.Negate(1).Add(x2);
    var i := h.Square().MulInt(4);
    var j := h.Mul(i);
    var r := y1.Negate(1).Add(y2).MulInt(2);
    var v := x1.Mul(i);
    var x3 := r.Square().Add(j.Negate(1)).Add(v.MulInt(2).Negate(2));
    Triple(x3, v.Add(x3.Negate(6)).Mul(r).Add(j.Mul(y1).MulInt(2).Negate(2)), h.MulInt(2))
  }

  lemma OnesSteps(x1: int, y1: int, x2: int, y2: int, h: int, i: int, j: int, r: int, v: int, x3: int, y3: int, z3: int)
    requires h == -x1 + x2 && i == Times(h, h) * 4 && j == Times(h, i) && r == (-y1 + y2) * 2 && v == Times(x1, i)
    requires x3 == Times(r, r) + -j + -(v * 2) && y3 == Times(v + -x3, r) + -(Times(j, y1) * 2) && z3 == h * 2
    ensures Jacobian(x3, y3, z3) == OnesSum(Jacobian(x1, y1, 1), Jacobian(x2, y2, 1))
  {
    assert h == x2 - x1 && r == (y2 - y1) * 2;
  }

  /** Before its last lines the routine has the formula, with no reduction lost. */
  lemma OnesAreSum(x1: Elem, y1: Elem, x2: Elem, y2: Elem)
    requires x1.Within(1) && y1.Within(1) && x2.Within(1) && y2.Within(1)
    ensures OnesOf(x1, y1, x2, y2).Coordinates() == OnesSum(Jacobian(x1.g, y1.g, 1), Jacobian(x2.g, y2.g, 1))
  {
    hide Cong, Times, OnesSum, Elem.Valid, Elem.Mul, Elem.Square, Elem.Add, Elem.MulInt, Elem.Negate, Elem.Normalize,
      Elem.Lost;
    var raw := OnesOf(x1, y1, x2, y2);
    var h := x1.Negate(1).Add(x2);
    var i := h.Square().MulInt(4);
    var j, v := h.Mul(i), x1.Mul(i);
    var r := y1.Negate(1).Add(y2).MulInt(2);
    OnesSteps(x1.g, y1.g, x2.g, y2.g, h.g, i.g, j.g, r.g, v.g, raw.x.g, raw.y.g, raw.z.g);
  }

  lemma OnesRight(x1: Elem, y1: Elem, x2: Elem, y2: Elem)
    requires x1.Within(1) && y1.Within(1) && x2.Within(1) && y2.Within(1)
    ensures var raw := OnesOf(x1, y1, x2, y2);
      CongPoint(Finished(raw).Coordinates(), OnesSum(Jacobian(x1.g, y1.g, 1), Jacobian(x2.g, y2.g, 1))) <==> raw.Kept()
  {
    OnesAreSum(x1, y1, x2, y2);
    AllLosses(OnesOf(x1, y1, x2, y2));
  }

  lemma AllLosses(raw: Triple)
    requires raw.x.Within(63) && raw.y.Within(63) && raw.z.Within(63)
    ensures CongPoint(Finished(raw).Coordinates(), raw.Coordinates()) <==> raw.Kept()
  {
    hide Cong, Elem.Valid, Elem.Normalize, Elem.Lost;
    Loss(raw.x.g, raw.x);
    Loss(raw.y.g, raw.y);
    Loss(raw.z.g, raw.z);
  }

  lemma LossesXY(raw: Triple)
    requires raw.x.Within(63) && raw.y.Within(63) && raw.z.Within(1)
    ensures CongPoint(FinishedXY(raw).Coordinates(), raw.Coordinates()) <==> raw.x.Lost() == 0 && raw.y.Lost() == 0
  {
    hide Cong, Elem.Valid, Elem.Normalize, Elem.Lost;
    Loss(raw.x.g, raw.x);
    Loss(raw.y.g, raw.y);
    CongRefl(raw.z.g);
  }

  /** addZ1EqualsZ2 past its checks. */
  function SameZOf(x1: Elem, y1: Elem, z1: Elem, x2: Elem, y2: Elem): (r: Run)
    requires x1.Within(1) && y1.Within(1) && z1.Within(2) && x2.Within(1) && y2.Within(1)
    ensures r.raw.x.Within(5) && r.raw.y.Within(5) && r.raw.z.Within(1) && r.inner.Within(6)
  {
    var a := x1.Negate(1).Add(x2);
    var b := a.Square();
    var c := y1.Negate(1).Add(y2);
    var e, f := x1.Mul(b), x2.Mul(b);
    var x3 := e.Add(f).Negate(3).Add(c.Square());
    var n := x3.Negate(5);
    var y3 := y1.Mul(f.Add(e.Negate(1))).Negate(3).Add(e.Add(n.Normalize()).Mul(c));
    Run(n, Triple(x3, y3, z1.Mul(a)))
  }

  /** A carry lost from the inner value is multiplied by the difference of the y coordinates and ends up in y. */
  ghost predicate SameZKept(y1: Elem, y2: Elem, r: Run) {
    r.raw.x.Lost() == 0 && Cong((y2.g - y1.g) * r.inner.Lost() + r.raw.y.Lost(), 0)
  }

  lemma SameZSteps(p: Jacobian, q: Jacobian, a: int, b: int, c: int, e: int, f: int, x3: int, y3: int, lost: int)
    requires a == -p.x + q.x && b == Times(a, a) && c == -p.y + q.y && e == Times(p.x, b) && f == Times(q.x, b)
    requires x3 == -(e + f) + Times(c, c) && y3 == -Times(p.y, f + -e) + Times(e + (-x3 - lost), c)
    ensures Jacobian(x3, y3 + c * lost, Times(p.z, a)) == SameZSum(p, q)
  {
    assert a == q.x - p.x && c == q.y - p.y;
    assert Times(e + (-x3 - lost), c) == (e - x3) * c - c * lost;
  }

  lemma SameZRight(x1: Elem, y1: Elem, z1: Elem, x2: Elem, y2: Elem)
    requires x1.Within(1) && y1.Within(1) && z1.Within(2) && x2.Within(1) && y2.Within(1)
    ensures var r := SameZOf(x1, y1, z1, x2, y2);
      var sum := SameZSum(Jacobian(x1.g, y1.g, z1.g), Jacobian(x2.g, y2.g, z1.g));
      CongPoint(FinishedXY(r.raw).Coordinates(), sum) <==> SameZKept(y1, y2, r)
  {
    hide Cong, Times, SameZSum, Elem.Valid, Elem.Mul, Elem.Square, Elem.Add, Elem.MulInt, Elem.Negate, Elem.Normalize,
      Elem.Lost;
    var r := SameZOf(x1, y1, z1, x2, y2);
    var p, q := Jacobian(x1.g, y1.g, z1.g), Jacobian(x2.g, y2.g, z1.g);
    var a := x1.Negate(1).Add(x2);
    var b := a.Square();
    var c := y1.Negate(1).Add(y2);
    var e, f := x1.Mul(b), x2.Mul(b);
    var s := SameZSum(p, q);
    SameZSteps(p, q, a.g, b.g, c.g, e.g, f.g, r.raw.x.g, r.raw.y.g, r.inner.Lost());
    Loss(s.x, r.raw.x);
    LossOf(s.y, c.g * r.inner.Lost() + r.raw.y.Lost());
    CongRefl(s.z);
    assert c.g == y2.g - y1.g;
  }

  /** addZ2EqualsOne past its checks; u2 and s2 are the second point scaled to z1. */
  function MixedOf(x1: Elem, y1: Elem, z1: Elem, u2: Elem, s2: Elem): (raw: Triple)
    requires x1.Within(1) && y1.Within(1) && z1.Within(2) && u2.Within(1) && s2.Within(1)
    ensures raw.x.Within(5) && raw.y.Within(4) && raw.z.Within(4)
  {
    var h := u2.Add(x1.Negate(1));
    var hh := h.Square();
    var i := hh.MulInt(4);
    var j, v := h.Mul(i), x1.Mul(i);
    var r := s2.Add(y1.Negate(1)).MulInt(2);
    var x3 := v.MulInt(2).Add(j).Negate(3).Add(r.Square());
    var y3 := y1.Mul(j).MulInt(2).Negate(2).Add(v.Add(x3.Negate(5)).Mul(r));
    Triple(x3, y3, z1.Add(h).Square().Add(z1.Square().Add(hh).Negate(2)))
  }

  lemma MixedSteps(p: Jacobian, q: Jacobian, zz: int, u2: int, s2: int, h: int, hh: int, i: int, j: int, r: int, v: int,
      x3: int, y3: int, z3: int)
    requires q.z == 1 && zz == Times(p.z, p.z) && u2 == Times(q.x, zz) && s2 == Times(Times(q.y, zz), p.z)
    requires h == u2 + -p.x && hh == Times(h, h) && i == hh * 4 && j == Times(h, i) && r == (s2 + -p.y) * 2
    requires v == Times(p.x, i) && x3 == -(v * 2 + j) + Times(r, r)
    requires y3 == -(Times(p.y, j) * 2) + Times(v + -x3, r) && z3 == Times(p.z + h, p.z + h) + -(zz + hh)
    ensures Jacobian(x3, y3, z3) == MixedSum(p, q)
  {
    assert h == u2 - p.x && r == (s2 - p.y) * 2;
  }

  lemma MixedRight(x1: Elem, y1: Elem, z1: Elem, u2: Elem, s2: Elem, q: Jacobian)
    requires x1.Within(1) && y1.Within(1) && z1.Within(2) && u2.Within(1) && s2.Within(1)
    requires q.z == 1 && u2.g == Times(q.x, Times(z1.g, z1.g)) && s2.g == Times(Times(q.y, Times(z1.g, z1.g)), z1.g)
    ensures var raw := MixedOf(x1, y1, z1, u2, s2);
      CongPoint(Finished(raw).Coordinates(), MixedSum(Jacobian(x1.g, y1.g, z1.g), q)) <==> raw.Kept()
  {
    hide Cong, Times, MixedSum, Elem.Valid, Elem.Mul, Elem.Square, Elem.Add, Elem.MulInt, Elem.Negate, Elem.Normalize,
      Elem.Lost;
    var raw := MixedOf(x1, y1, z1, u2, s2);
    var p := Jacobian(x1.g, y1.g, z1.g);
    var h := u2.Add(x1.Negate(1));
    var hh := h.Square();
    var i := hh.MulInt(4);
    var j, v := h.Mul(i), x1.Mul(i);
    var r := s2.Add(y1.Negate(1)).MulInt(2);
    MixedSteps(p, q, z1.Square().g, u2.g, s2.g, h.g, hh.g, i.g, j.g, r.g, v.g, raw.x.g, raw.y.g, raw.z.g);
    AllLosses(raw);
  }

  /** addGeneric past its checks; u1, s1, u2 and s2 are the points scaled to z1 * z2. */
  function GenericOf(u1: Elem, s1: Elem, z1: Elem, u2: Elem, s2: Elem, z2: Elem): (raw: Triple)
    requires u1.Within(1) && s1.Within(1) && z1.Within(2) && u2.Within(1) && s2.Within(1) && z2.Within(2)
    ensures raw.x.Within(5) && raw.y.Within(4) && raw.z.Within(1)
  {
    var h := u2.Add(u1.Negate(1));
    var i := h.MulInt(2).Square();
    var j, v := h.Mul(i), u1.Mul(i);
    var r := s2.Add(s1.Negate(1)).MulInt(2);
    var x3 := v.MulInt(2).Add(j).Negate(3).Add(r.Square());
    var y3 := s1.Mul(j).MulInt(2).Negate(2).Add(v.Add(x3.Negate(5)).Mul(r));
    Triple(x3, y3, z1.Add(z2).Square().Add(z1.Square().Add(z2.Square()).Negate(2)).Mul(h))
  }

  lemma GenericSteps(p: Jacobian, q: Jacobian, zz1: int, zz2: int, u1: int, u2: int, s1: int, s2: int,
      h: int, i: int, j: int, r: int, v: int, x3: int, y3: int, z3: int)
    requires zz1 == Times(p.z, p.z) && zz2 == Times(q.z, q.z) && u1 == Times(p.x, zz2) && u2 == Times(q.x, zz1)
    requires s1 == Times(Times(p.y, zz2), q.z) && s2 == Times(Times(q.y, zz1), p.z)
    requires h == u2 + -u1 && i == Times(h * 2, h * 2) && j == Times(h, i) && r == (s2 + -s1) * 2 && v == Times(u1, i)
    requires x3 == -(v * 2 + j) + Times(r, r) && y3 == -(Times(s1, j) * 2) + Times(v + -x3, r)
    requires z3 == Times(Times(p.z + q.z, p.z + q.z) + -(zz1 + zz2), h)
    ensures Jacobian(x3, y3, z3) == GenericSum(p, q)
  {
    assert h == u2 - u1 && r == (s2 - s1) * 2;
  }

  lemma GenericRight(p: Jacobian, q: Jacobian, u1: Elem, s1: Elem, z1: Elem, u2: Elem, s2: Elem, z2: Elem)
    requires u1.Within(1) && s1.Within(1) && z1.Within(2) && u2.Within(1) && s2.Within(1) && z2.Within(2)
    requires z1.g == p.z && z2.g == q.z && u1.g == Times(p.x, Times(q.z, q.z)) && u2.g == Times(q.x, Times(p.z, p.z))
    requires s1.g == Times(Times(p.y, Times(q.z, q.z)), q.z) && s2.g == Times(Times(q.y, Times(p.z, p.z)), p.z)
    ensures var raw := GenericOf(u1, s1, z1, u2, s2, z2);
      CongPoint(FinishedXY(raw).Coordinates(), GenericSum(p, q)) <==> raw.x.Lost() == 0 && raw.y.Lost() == 0
  {
    hide Cong, Times, GenericSum, Elem.Valid, Elem.Mul, Elem.Square, Elem.Add, Elem.MulInt, Elem.Negate, Elem.Normalize,
      Elem.Lost;
    var raw := GenericOf(u1, s1, z1, u2, s2, z2);
    var h := u2.Add(u1.Negate(1));
    var i := h.MulInt(2).Square();
    var j, v := h.Mul(i), u1.Mul(i);
    var r := s2.Add(s1.Negate(1)).MulInt(2);
    var zz1, zz2 := z1.Square().g, z2.Square().g;
    GenericSteps(p, q, zz1, zz2, u1.g, u2.g, s1.g, s2.g, h.g, i.g, j.g, r.g, v.g, raw.x.g, raw.y.g, raw.z.g);
    LossesXY(raw);
  }

  /** addZ1AndZ2EqualsOne */
  function AddOnes(p: Triple, x2: Elem, y2: Elem): (r: Triple)
    requires p.Input() && x2.Within(2) && y2.Within(2)
    ensures r.Output()
  {
    var x1, y1, u2, s2 := p.x.Normalize(), p.y.Normalize(), x2.Normalize(), y2.Normalize();
    if x1.v == u2.v then EqualX(Triple(x1, y1, p.z), y1.v == s2.v)
    else Finished(OnesOf(x1, y1, u2, s2))
  }

  /** addZ1EqualsZ2 */
  function AddSameZ(p: Triple, x2: Elem, y2: Elem): (r: Triple)
    requires p.Input() && x2.Within(2) && y2.Within(2)
    ensures r.Output()
  {
    var x1, y1, u2, s2 := p.x.Normalize(), p.y.Normalize(), x2.Normalize(), y2.Normalize();
    if x1.v == u2.v then EqualX(Triple(x1, y1, p.z), y1.v == s2.v)
    else FinishedXY(SameZOf(x1, y1, p.z, u2, s2).raw)
  }

  /** addZ2EqualsOne */
  function AddMixed(p: Triple, x2: Elem, y2: Elem): (r: Triple)
    requires p.Input() && x2.Within(2) && y2.Within(2)
    ensures r.Output()
  {
    var x1, y1, z1z1 := p.x.Normalize(), p.y.Normalize(), p.z.Square();
    var u2, s2 := x2.Mul(z1z1).Normalize(), y2.Mul(z1z1).Mul(p.z).Normalize();
    if x1.v == u2.v then EqualX(Triple(x1, y1, p.z), y1.v == s2.v)
    else Finished(MixedOf(x1, y1, p.z, u2, s2))
  }

  /** addGeneric */
  function AddGeneric(p: Triple, q: Triple): (r: Triple)
    requires p.Input() && q.Input()
    ensures r.Output()
  {
    var z1z1, z2z2 := p.z.Square(), q.z.Square();
    var u1, u2 := p.x.Mul(z2z2).Normalize(), q.x.Mul(z1z1).Normalize();
    var s1, s2 := p.y.Mul(z2z2).Mul(q.z).Normalize(), q.y.Mul(z1z1).Mul(p.z).Normalize();
    if u1.v == u2.v then EqualX(p, s1.v == s2.v)
    else FinishedXY(GenericOf(u1, s1, p.z, u2, s2, q.z))
  }

  /** addJacobian for two finite points: the cheapest routine that applies. */
  function Added(p: Triple, q: Triple): (r: Triple)
    requires p.Input() && q.Input()
    ensures r.Output()
  {
    var p1, q1 := p.(z := p.z.Normalize()), q.(z := q.z.Normalize());
    if p1.z.v == 1 && q1.z.v == 1 then AddOnes(p1, q.x, q.y)
    else if p1.z.v == q1.z.v then AddSameZ(p1, q.x, q.y)
    else if q1.z.v == 1 then AddMixed(p1, q.x, q.y)
    else AddGeneric(p1, q1)
  }

  /** addJacobian */
  function Plus(p: Triple, q: Triple): (r: Triple)
    requires p.Input() && q.Input()
    ensures r.Input()
  {
    if p.AtInfinity() then q else if q.AtInfinity() then p else Added(p, q)
  }

  lemma NormalizeTwice(a: Elem)
    requires a.Within(63)
    ensures a.Normalize().Normalize() == a.Normalize()
  {
    hide Elem.Normalize, Elem.Lost, NormalizedValue;
    NormalIsItself(a.Normalize());
  }

  lemma NormalIsItself(a: Elem)
    requires a.Normal()
    ensures a.Normalize() == a
  {
  }

  /** Whether each routine loses no carry that matters, past the normalization of its inputs. */
  ghost predicate EqualXKept(p: Triple, sameY: bool)
    requires p.Input()
  {
    sameY ==> DoubledKept(p)
  }

  ghost predicate AddOnesKept(p: Triple, x2: Elem, y2: Elem)
    requires p.Input() && x2.Within(2) && y2.Within(2)
  {
    var x1, y1, u2, s2 := p.x.Normalize(), p.y.Normalize(), x2.Normalize(), y2.Normalize();
    if x1.v == u2.v then EqualXKept(Triple(x1, y1, p.z), y1.v == s2.v) else OnesOf(x1, y1, u2, s2).Kept()
  }

  ghost predicate AddSameZKept(p: Triple, x2: Elem, y2: Elem)
    requires p.Input() && x2.Within(2) && y2.Within(2)
  {
    var x1, y1, u2, s2 := p.x.Normalize(), p.y.Normalize(), x2.Normalize(), y2.Normalize();
    if x1.v == u2.v then EqualXKept(Triple(x1, y1, p.z), y1.v == s2.v)
    else SameZKept(y1, s2, SameZOf(x1, y1, p.z, u2, s2))
  }

  ghost predicate AddMixedKept(p: Triple, x2: Elem, y2: Elem)
    requires p.Input() && x2.Within(2) && y2.Within(2)
  {
    var x1, y1, z1z1 := p.x.Normalize(), p.y.Normalize(), p.z.Square();
    var u2, s2 := x2.Mul(z1z1).Normalize(), y2.Mul(z1z1).Mul(p.z).Normalize();
    if x1.v == u2.v then EqualXKept(Triple(x1, y1, p.z), y1.v == s2.v) else MixedOf(x1, y1, p.z, u2, s2).Kept()
  }

  ghost predicate AddGenericKept(p: Triple, q: Triple)
    requires p.Input() && q.Input()
  {
    var z1z1, z2z2 := p.z.Square(), q.z.Square();
    var u1, u2 := p.x.Mul(z2z2).Normalize(), q.x.Mul(z1z1).Normalize();
    var s1, s2 := p.y.Mul(z2z2).Mul(q.z).Normalize(), q.y.Mul(z1z1).Mul(p.z).Normalize();
    if u1.v == u2.v then EqualXKept(p, s1.v == s2.v)
    else
      var raw := GenericOf(u1, s1, p.z, u2, s2, q.z);
      raw.x.Lost() == 0 && raw.y.Lost() == 0
  }

  ghost predicate AddedKept(p: Triple, q: Triple)
    requires p.Input() && q.Input()
  {
    var p1, q1 := p.(z := p.z.Normalize()), q.(z := q.z.Normalize());
    if p1.z.v == 1 && q1.z.v == 1 then AddOnesKept(p1, q.x, q.y)
    else if p1.z.v == q1.z.v then AddSameZKept(p1, q.x, q.y)
    else if q1.z.v == 1 then AddMixedKept(p1, q.x, q.y)
    else AddGenericKept(p1, q1)
  }

  /** The result for equal x coordinates is twice the point exactly if no carry is lost that matters, or infinity. */
  ghost predicate EqualXRight(p: Triple, sameY: bool, r: Triple, kept: bool) {
    if sameY && p.y.v != 0 then CongPoint(r.Coordinates(), DoubleOf(p.Coordinates())) <==> kept
    else r == Infinity() && kept
  }

  lemma EqualXIsRight(p: Triple, sameY: bool)
    requires p.Input() && p.z.Lost() == 0 && p.z.v != 0
    ensures EqualXRight(p, sameY, EqualX(p, sameY), EqualXKept(p, sameY))
  {
    hide Cong, DoubleOf, DoublingOf, Elem.Lost, DoublingKept, DoublingRun;
    if sameY && p.y.v != 0 {
      DoubledRight(p);
    }
  }

  /** Normalizing a kept point changes none of its coordinates modulo the prime. */
  lemma NormalizedPoint(p: Triple)
    requires p.Input() && p.x.Lost() == 0 && p.y.Lost() == 0
    ensures Triple(p.x.Normalize(), p.y.Normalize(), p.z).Coordinates() == p.Coordinates()
    ensures Cong(p.y.g, 0) <==> p.y.Normalize().v == 0
  {
    hide Cong, Elem.Normalize, Elem.Lost;
    NormalEquality(p.y.Normalize(), SetInt(0));
  }

  lemma AddOnesRight(p: Triple, x2: Elem, y2: Elem)
    requires p.Input() && p.Kept() && p.z.v != 0
    requires x2.Within(2) && y2.Within(2) && x2.Lost() == 0 && y2.Lost() == 0
    ensures var r, kept := AddOnes(p, x2, y2), AddOnesKept(p, x2, y2);
      var p1, q1 := p.Coordinates().(z := 1), Jacobian(x2.g, y2.g, 1);
      if Cong(p.x.g, x2.g) then EqualXRight(Triple(p.x, p.y.Normalize(), p.z), Cong(p.y.g, y2.g), r, kept)
      else CongPoint(r.Coordinates(), OnesSum(p1, q1)) <==> kept
  {
    hide Cong, OnesSum, DoubleOf, EqualX, EqualXKept, OnesOf, Elem.Normalize, Elem.Lost;
    var x1, y1, u2, s2 := p.x.Normalize(), p.y.Normalize(), x2.Normalize(), y2.Normalize();
    NormalEquality(x1, u2);
    NormalEquality(y1, s2);
    EqualXIsRight(Triple(x1, y1, p.z), y1.v == s2.v);
    OnesRight(x1, y1, u2, s2);
  }

  lemma AddSameZRight(p: Triple, x2: Elem, y2: Elem)
    requires p.Input() && p.Kept() && p.z.v != 0
    requires x2.Within(2) && y2.Within(2) && x2.Lost() == 0 && y2.Lost() == 0
    ensures var r, kept := AddSameZ(p, x2, y2), AddSameZKept(p, x2, y2);
      if Cong(p.x.g, x2.g) then EqualXRight(Triple(p.x, p.y.Normalize(), p.z), Cong(p.y.g, y2.g), r, kept)
      else CongPoint(r.Coordinates(), SameZSum(p.Coordinates(), Jacobian(x2.g, y2.g, p.z.g))) <==> kept
  {
    hide Cong, SameZSum, DoubleOf, EqualX, EqualXKept, SameZOf, SameZKept, Elem.Normalize, Elem.Lost;
    var x1, y1, u2, s2 := p.x.Normalize(), p.y.Normalize(), x2.Normalize(), y2.Normalize();
    NormalEquality(x1, u2);
    NormalEquality(y1, s2);
    EqualXIsRight(Triple(x1, y1, p.z), y1.v == s2.v);
    SameZRight(x1, y1, p.z, u2, s2);
  }

  lemma AddMixedRight(p: Triple, x2: Elem, y2: Elem)
    requires p.Input() && p.Kept() && p.z.v != 0 && x2.Within(2) && y2.Within(2)
    ensures var r, kept := AddMixed(p, x2, y2), AddMixedKept(p, x2, y2);
      var p1, q1 := p.Coordinates(), Jacobian(x2.g, y2.g, 1);
      if Cong(p1.x, q1.x * CurveFormulas.Square(p1.z)) then
        EqualXRight(Triple(p.x, p.y.Normalize(), p.z), Cong(p1.y, q1.y * CurveFormulas.Square(p1.z) * p1.z), r, kept)
      else CongPoint(r.Coordinates(), MixedSum(p1, q1)) <==> kept
  {
    ScaledX(p.Coordinates(), Jacobian(x2.g, y2.g, 1));
    hide Cong, Times, CurveFormulas.Square, MixedSum, DoubleOf, EqualX, EqualXKept, MixedOf;
    hide Elem.Normalize, Elem.Mul, Elem.Square, Elem.Lost;
    var x1, y1, z1z1 := p.x.Normalize(), p.y.Normalize(), p.z.Square();
    var u2, s2 := x2.Mul(z1z1).Normalize(), y2.Mul(z1z1).Mul(p.z).Normalize();
    NormalEquality(x1, u2);
    NormalEquality(y1, s2);
    EqualXIsRight(Triple(x1, y1, p.z), y1.v == s2.v);
    MixedRight(x1, y1, p.z, u2, s2, Jacobian(x2.g, y2.g, 1));
  }

  lemma AddGenericRight(p: Triple, q: Triple)
    requires p.Input() && q.Input() && p.z.Lost() == 0 && p.z.v != 0
    ensures var r, kept := AddGeneric(p, q), AddGenericKept(p, q);
      var p1, q1 := p.Coordinates(), q.Coordinates();
      var w1, w2 := CurveFormulas.Square(p1.z), CurveFormulas.Square(q1.z);
      if Cong(p1.x * w2, q1.x * w1) then EqualXRight(p, Cong(p1.y * w2 * q1.z, q1.y * w1 * p1.z), r, kept)
      else CongPoint(r.Coordinates(), GenericSum(p1, q1)) <==> kept
  {
    ScaledX(p.Coordinates(), q.Coordinates());
    ScaledX(q.Coordinates(), p.Coordinates());
    hide Cong, Times, CurveFormulas.Square, GenericSum, DoubleOf, EqualX, EqualXKept, GenericOf;
    hide Elem.Normalize, Elem.Mul, Elem.Square, Elem.Lost;
    var z1z1, z2z2 := p.z.Square(), q.z.Square();
    var u1, u2 := p.x.Mul(z2z2).Normalize(), q.x.Mul(z1z1).Normalize();
    var s1, s2 := p.y.Mul(z2z2).Mul(q.z).Normalize(), q.y.Mul(z1z1).Mul(p.z).Normalize();
    NormalEquality(u1, u2);
    NormalEquality(s1, s2);
    EqualXIsRight(p, s1.v == s2.v);
    GenericRight(p.Coordinates(), q.Coordinates(), u1, s1, p.z, u2, s2, q.z);
  }

  /** The scaled coordinates the routines compare, as products. */
  lemma ScaledX(p: Jacobian, q: Jacobian)
    ensures Times(q.x, Times(p.z, p.z)) == q.x * Square(p.z)
    ensures Times(Times(q.y, Times(p.z, p.z)), p.z) == q.y * Square(p.z) * p.z
  {
  }

  /** Equal affine x coordinates; for equal z the unscaled coordinates are compared. */
  ghost predicate SameX(p: Jacobian, q: Jacobian) {
    if Cong(p.z, q.z) then Cong(p.x, q.x) else Cong(p.x * Square(q.z), q.x * Square(p.z))
  }

  ghost predicate SameY(p: Jacobian, q: Jacobian) {
    if Cong(p.z, q.z) then Cong(p.y, q.y) else Cong(p.y * Square(q.z) * q.z, q.y * Square(p.z) * p.z)
  }

  /** With q.z = 1 the scaled coordinates of p are its own. */
  lemma ScaledByOne(p: Jacobian, q: Jacobian)
    requires Cong(q.z, 1)
    ensures Cong(p.x, q.x * Square(p.z)) <==> Cong(p.x * Square(q.z), q.x * Square(p.z))
    ensures Cong(p.y, q.y * Square(p.z) * p.z) <==> Cong(p.y * Square(q.z) * q.z, q.y * Square(p.z) * p.z)
  {
    var w := Square(q.z);
    CongSquare(q.z, 1);
    CongRefl(p.x);
    CongRefl(p.y);
    assert Square(1) == 1;
    hide Cong, CurveFormulas.Square;
    CongMul(p.x, p.x, w, 1);
    CongMul(p.y, p.y, w, 1);
    CongMul(p.y * w, p.y, q.z, 1);
    CongSwap(p.x * w, p.x, q.x * Square(p.z));
    CongSwap(p.y * w * q.z, p.y, q.y * Square(p.z) * p.z);
  }

  lemma OnesSumIsSum(p: Jacobian, q: Jacobian)
    requires Cong(p.z, 1) && Cong(q.z, 1)
    ensures Cong(p.z, q.z) && IsSum(p, q, OnesSum(p.(z := 1), q.(z := 1)))
  {
    hide Cong, OnesSum, GenericSum;
    CongSym(p.z, 1);
    CongSym(q.z, 1);
    CongTrans(p.z, 1, q.z);
    CongPointRefl(p);
    CongPointRefl(q);
    OnesAreGeneric(p.(z := 1), q.(z := 1));
    GenericSumCong(p.(z := 1), q.(z := 1), p, q);
  }

  lemma MixedSumIsSum(p: Jacobian, q: Jacobian)
    requires Cong(q.z, 1)
    ensures IsSum(p, q, MixedSum(p, q.(z := 1)))
  {
    hide Cong, MixedSum, GenericSum;
    CongSym(q.z, 1);
    CongPointRefl(p);
    CongPointRefl(q);
    MixedIsGeneric(p, q.(z := 1));
    GenericSumCong(p, q.(z := 1), p, q);
  }

  lemma SameZSumIsSum(p: Jacobian, q: Jacobian)
    requires Cong(p.z, q.z)
    ensures IsSum(p, q, SameZSum(p, q.(z := p.z)))
  {
    hide Cong, SameZSum;
    CongPointRefl(p);
    CongPointRefl(q);
    SameZSumCong(p, q.(z := p.z), p, q);
  }

  lemma CongSwap(a: int, b: int, c: int)
    requires Cong(a, b)
    ensures Cong(b, c) <==> Cong(a, c)
  {
    CongSym(a, b);
    if Cong(b, c) {
      CongTrans(a, b, c);
    }
    if Cong(a, c) {
      CongTrans(b, a, c);
    }
  }

  /** The formula of the routine that addJacobian picks. */
  ghost function SumOf(p: Jacobian, q: Jacobian): Jacobian {
    if Cong(p.z, 1) && Cong(q.z, 1) then OnesSum(p.(z := 1), q.(z := 1))
    else if Cong(p.z, q.z) then SameZSum(p, q.(z := p.z))
    else if Cong(q.z, 1) then MixedSum(p, q.(z := 1))
    else GenericSum(p, q)
  }

  lemma SumOfIsSum(p: Jacobian, q: Jacobian)
    ensures IsSum(p, q, SumOf(p, q))
  {
    hide Cong, GenericSum, OnesSum, MixedSum, SameZSum;
    CongPointRefl(GenericSum(p, q));
    if Cong(p.z, 1) && Cong(q.z, 1) {
      OnesSumIsSum(p, q);
    } else if Cong(p.z, q.z) {
      SameZSumIsSum(p, q);
    } else if Cong(q.z, 1) {
      MixedSumIsSum(p, q);
    }
  }

  lemma CongPointRefl(p: Jacobian)
    ensures CongPoint(p, p)
  {
    CongRefl(p.x);
    CongRefl(p.y);
    CongRefl(p.z);
  }

  /** Adding two finite points with kept coordinates: the sum or the double comes out if and only if no carry is lost
      that matters; a point and its negative always give infinity. A point of order two may be doubled either way. */
  lemma AddedRight(p: Triple, q: Triple)
    requires p.Input() && q.Input() && p.Kept() && q.Kept()
    requires p.z.Normalize().v != 0
    ensures var r, kept, p1, q1 := Added(p, q), AddedKept(p, q), p.Coordinates(), q.Coordinates();
      if !SameX(p1, q1) then CongPoint(r.Coordinates(), SumOf(p1, q1)) <==> kept
      else if SameY(p1, q1) then
        (CongPoint(r.Coordinates(), DoubleOf(p1)) <==> kept) || (Cong(p1.y, 0) && r == Infinity() && kept)
      else r == Infinity() && kept
  {
    hide Cong, CurveFormulas.Square, GenericSum, OnesSum, MixedSum, SameZSum, DoubleOf;
    hide AddOnes, AddSameZ, AddMixed, AddGeneric, AddOnesKept, AddSameZKept, AddMixedKept, AddGenericKept;
    hide Elem.Normalize, Elem.Lost;
    var p1, q1 := p.(z := p.z.Normalize()), q.(z := q.z.Normalize());
    NormalEquality(p1.z, q1.z);
    NormalEquality(p1.z, SetInt(1));
    NormalEquality(q1.z, SetInt(1));
    NormalizedPoint(p);
    NormalIsKept(p1.z);
    if p1.z.v == 1 && q1.z.v == 1 {
      BothOne(p.z.g, q.z.g);
      AddOnesRight(p1, q.x, q.y);
    } else if p1.z.v == q1.z.v {
      AddSameZRight(p1, q.x, q.y);
    } else if q1.z.v == 1 {
      ScaledByOne(p.Coordinates(), q.Coordinates());
      AddMixedRight(p1, q.x, q.y);
    } else {
      AddGenericRight(p1, q1);
      if p.y.v == 0 {
        ZeroIsCong(p.y);
      }
    }
  }

  lemma NormalIsKept(a: Elem)
    requires a.Normal()
    ensures a.Lost() == 0
  {
  }

  lemma ZeroIsCong(a: Elem)
    requires a.Valid() && a.v == 0
    ensures Cong(a.g, 0)
  {
    CongSym(0, a.g);
  }

  lemma BothOne(a: int, b: int)
    requires Cong(a, 1) && Cong(b, 1)
    ensures Cong(a, b)
  {
    CongSym(b, 1);
    CongTrans(a, 1, b);
  }
}
