/** KoblitzCurve: Jacobian point addition and doubling on mutable field values. Outputs may be the same objects as
    inputs of the same coordinate, as in the scalar multiplication loop. PointValues says what the values written amount
    to. */
module JacobianPoints {
  import opened FieldReduction
  import opened FieldNormalForm
  import opened FieldElements
  import opened PointValues

  /** A fieldVal a point routine has a pointer to. */
  class FieldRef {
    var f: Elem

    constructor (f0: Elem)
      ensures f == f0
    {
      f := f0;
    }
  }

  /** No x coordinate object is also a y or z coordinate object, and so on; equal coordinates may be shared. */
  ghost predicate Slots(xs: set<FieldRef>, ys: set<FieldRef>, zs: set<FieldRef>) {
    xs !! ys && xs !! zs && ys !! zs
  }

  ghost function Point(x: FieldRef, y: FieldRef, z: FieldRef): Triple
    reads x, y, z
  {
    Triple(x.f, y.f, z.f)
  }

  /** What a routine may do to an operand that is not one of its outputs. */
  ghost predicate Operand(was: Elem, now: Elem)
    requires was.Within(2)
  {
    now == was || now == was.Normalize()
  }

  method DoubleGeneric(x1: FieldRef, y1: FieldRef, z1: FieldRef, x3: FieldRef, y3: FieldRef, z3: FieldRef)
    requires Slots({x1, x3}, {y1, y3}, {z1, z3}) && Point(x1, y1, z1).Input()
    modifies x3, y3, z3
    ensures var p := old(Point(x1, y1, z1));
      Point(x3, y3, z3) == Finished(DoublingOf(p.x, p.y, p.y.Mul(p.z).MulInt(2)).raw)
  {
    hide ReducedValue, NormalizedValue, Elem.Lost, NatTimes;
    hide Elem.Valid, Elem.Mul, Elem.Square, Elem.Add, Elem.MulInt, Elem.Negate, Elem.Normalize;
    z3.f := y1.f.Mul(z1.f).MulInt(2);
    var a := x1.f.Square();
    var b := y1.f.Square();
    var c := b.Square();
    b := b.Add(x1.f).Square();
    var d := a.Add(c).Negate(2);
    d := d.Add(b).MulInt(2);
    var e := a.MulInt(3);
    var f := e.Square();
    x3.f := d.MulInt(2).Negate(16);
    x3.f := x3.f.Add(f);
    f := x3.f.Negate(18).Add(d).Normalize();
    y3.f := c.MulInt(8).Negate(8);
    f := f.Mul(e);
    y3.f := y3.f.Add(f);
    x3.f := x3.f.Normalize();
    y3.f := y3.f.Normalize();
    z3.f := z3.f.Normalize();
  }

  /** Doubling for z = 1, which is not passed. */
  method DoubleZ1EqualsOne(x1: FieldRef, y1: FieldRef, x3: FieldRef, y3: FieldRef, z3: FieldRef)
    requires Slots({x1, x3}, {y1, y3}, {z3}) && x1.f.Within(2) && y1.f.Within(2)
    modifies x3, y3, z3
    ensures Point(x3, y3, z3) == Finished(DoublingOf(old(x1.f), old(y1.f), old(y1.f).MulInt(2)).raw)
  {
    hide ReducedValue, NormalizedValue, Elem.Lost, NatTimes;
    hide Elem.Valid, Elem.Mul, Elem.Square, Elem.Add, Elem.MulInt, Elem.Negate, Elem.Normalize;
    z3.f := y1.f.MulInt(2);
    var a := x1.f.Square();
    var b := y1.f.Square();
    var c := b.Square();
    b := b.Add(x1.f).Square();
    var d := a.Add(c).Negate(2);
    d := d.Add(b).MulInt(2);
    var e := a.MulInt(3);
    var f := e.Square();
    x3.f := d.MulInt(2).Negate(16);
    x3.f := x3.f.Add(f);
    f := x3.f.Negate(18).Add(d).Normalize();
    y3.f := c.MulInt(8).Negate(8);
    f := f.Mul(e);
    y3.f := y3.f.Add(f);
    x3.f := x3.f.Normalize();
    y3.f := y3.f.Normalize();
    z3.f := z3.f.Normalize();
  }

  /** 2p, or the point at infinity if y1 or z1 has zero limbs. */
  method DoubleJacobian(x1: FieldRef, y1: FieldRef, z1: FieldRef, x3: FieldRef, y3: FieldRef, z3: FieldRef)
    requires Slots({x1, x3}, {y1, y3}, {z1, z3}) && Point(x1, y1, z1).Input()
    modifies z1, x3, y3, z3
    ensures Point(x3, y3, z3) == Doubled(old(Point(x1, y1, z1)))
    ensures z1 != z3 ==> Operand(old(z1.f), z1.f)
  {
    hide ReducedValue, NormalizedValue, Elem.Lost, Elem.Normalize, Elem.Valid, DoublingOf;
    if y1.f.IsZero() || z1.f.IsZero() {
      SetInfinity(x3, y3, z3);
      return;
    }
    z1.f := z1.f.Normalize();
    if z1.f.Equals(SetInt(1)) {
      DoubleZ1EqualsOne(x1, y1, x3, y3, z3);
      return;
    }
    DoubleGeneric(x1, y1, z1, x3, y3, z3);
  }

  method SetInfinity(x3: FieldRef, y3: FieldRef, z3: FieldRef)
    requires Slots({x3}, {y3}, {z3})
    modifies x3, y3, z3
    ensures Point(x3, y3, z3) == Infinity()
  {
    x3.f := SetInt(0);
    y3.f := SetInt(0);
    z3.f := SetInt(0);
  }

  /** The branch for equal x coordinates, the same in all four routines. */
  method EqualX(x1: FieldRef, y1: FieldRef, z1: FieldRef, sameY: bool, x3: FieldRef, y3: FieldRef, z3: FieldRef)
    requires Slots({x1, x3}, {y1, y3}, {z1, z3}) && Point(x1, y1, z1).Input()
    modifies z1, x3, y3, z3
    ensures Point(x3, y3, z3) == PointValues.EqualX(old(Point(x1, y1, z1)), sameY)
    ensures z1 != z3 ==> Operand(old(z1.f), z1.f)
  {
    if sameY {
      DoubleJacobian(x1, y1, z1, x3, y3, z3);
      return;
    }
    SetInfinity(x3, y3, z3);
  }

  /** The sum of two points with z = 1. */
  method AddZ1AndZ2EqualsOne(x1: FieldRef, y1: FieldRef, z1: FieldRef, x2: FieldRef, y2: FieldRef,
      x3: FieldRef, y3: FieldRef, z3: FieldRef)
    requires Slots({x1, x2, x3}, {y1, y2, y3}, {z1, z3})
    requires Point(x1, y1, z1).Input() && Point(x2, y2, z1).Input()
    modifies x1, y1, z1, x2, y2, x3, y3, z3
    ensures Point(x3, y3, z3) == AddOnes(old(Point(x1, y1, z1)), old(x2.f), old(y2.f))
    ensures x1 != x3 ==> x1.f == old(x1.f).Normalize()
    ensures y1 != y3 ==> y1.f == old(y1.f).Normalize()
    ensures z1 != z3 ==> Operand(old(z1.f), z1.f)
    ensures x2 != x3 ==> x2.f == old(x2.f).Normalize()
    ensures y2 != y3 ==> y2.f == old(y2.f).Normalize()
  {
    hide ReducedValue, NormalizedValue, Elem.Lost, NatTimes;
    hide Elem.Valid, Elem.Mul, Elem.Square, Elem.Add, Elem.MulInt, Elem.Negate, Elem.Normalize, Doubled;
    NormalizeTwice(x1.f);
    NormalizeTwice(y1.f);
    x1.f := x1.f.Normalize();
    y1.f := y1.f.Normalize();
    x2.f := x2.f.Normalize();
    y2.f := y2.f.Normalize();
    if x1.f.Equals(x2.f) {
      EqualX(x1, y1, z1, y1.f.Equals(y2.f), x3, y3, z3);
      return;
    }
    var h := x1.f.Negate(1).Add(x2.f);
    var i := h.Square().MulInt(4);
    var j := h.Mul(i);
    var r := y1.f.Negate(1).Add(y2.f).MulInt(2);
    var v := x1.f.Mul(i);
    var negJ := j.Negate(1);
    var neg2V := v.MulInt(2).Negate(2);
    x3.f := r.Square().Add(negJ).Add(neg2V);
    var negX3 := x3.f.Negate(6);
    j := j.Mul(y1.f).MulInt(2).Negate(2);
    y3.f := v.Add(negX3).Mul(r).Add(j);
    z3.f := h.MulInt(2);
    x3.f := x3.f.Normalize();
    y3.f := y3.f.Normalize();
    z3.f := z3.f.Normalize();
  }

  /** The sum of two points with the same z. */
  method AddZ1EqualsZ2(x1: FieldRef, y1: FieldRef, z1: FieldRef, x2: FieldRef, y2: FieldRef,
      x3: FieldRef, y3: FieldRef, z3: FieldRef)
    requires Slots({x1, x2, x3}, {y1, y2, y3}, {z1, z3})
    requires Point(x1, y1, z1).Input() && Point(x2, y2, z1).Input()
    modifies x1, y1, z1, x2, y2, x3, y3, z3
    ensures Point(x3, y3, z3) == AddSameZ(old(Point(x1, y1, z1)), old(x2.f), old(y2.f))
    ensures x1 != x3 ==> x1.f == old(x1.f).Normalize()
    ensures y1 != y3 ==> y1.f == old(y1.f).Normalize()
    ensures z1 != z3 ==> Operand(old(z1.f), z1.f)
    ensures x2 != x3 ==> x2.f == old(x2.f).Normalize()
    ensures y2 != y3 ==> y2.f == old(y2.f).Normalize()
  {
    hide ReducedValue, NormalizedValue, Elem.Lost, NatTimes;
    hide Elem.Valid, Elem.Mul, Elem.Square, Elem.Add, Elem.MulInt, Elem.Negate, Elem.Normalize, Doubled;
    NormalizeTwice(x1.f);
    NormalizeTwice(y1.f);
    x1.f := x1.f.Normalize();
    y1.f := y1.f.Normalize();
    x2.f := x2.f.Normalize();
    y2.f := y2.f.Normalize();
    if x1.f.Equals(x2.f) {
      EqualX(x1, y1, z1, y1.f.Equals(y2.f), x3, y3, z3);
      return;
    }
    var negX1 := x1.f.Negate(1);
    var negY1 := y1.f.Negate(1);
    var a := negX1.Add(x2.f);
    var b := a.Square();
    var c := negY1.Add(y2.f);
    var d := c.Square();
    var e := x1.f.Mul(b);
    var negE := e.Negate(1);
    var f := x2.f.Mul(b);
    x3.f := e.Add(f).Negate(3).Add(d);
    var negX3 := x3.f.Negate(5).Normalize();
    f := f.Add(negE);
    y3.f := y1.f.Mul(f).Negate(3);
    e := e.Add(negX3).Mul(c);
    y3.f := y3.f.Add(e);
    z3.f := z1.f.Mul(a);
    x3.f := x3.f.Normalize();
    y3.f := y3.f.Normalize();
  }

  /** The sum of two points of which the second has z = 1. */
  method AddZ2EqualsOne(x1: FieldRef, y1: FieldRef, z1: FieldRef, x2: FieldRef, y2: FieldRef,
      x3: FieldRef, y3: FieldRef, z3: FieldRef)
    requires Slots({x1, x2, x3}, {y1, y2, y3}, {z1, z3})
    requires Point(x1, y1, z1).Input() && Point(x2, y2, z1).Input()
    requires (x1 == x2 ==> x1.f == x1.f.Normalize()) && (y1 == y2 ==> y1.f == y1.f.Normalize())
    modifies x1, y1, z1, x3, y3, z3
    ensures Point(x3, y3, z3) == AddMixed(old(Point(x1, y1, z1)), old(x2.f), old(y2.f))
    ensures x1 != x3 ==> x1.f == old(x1.f).Normalize()
    ensures y1 != y3 ==> y1.f == old(y1.f).Normalize()
    ensures z1 != z3 ==> Operand(old(z1.f), z1.f)
  {
    hide ReducedValue, NormalizedValue, Elem.Lost, NatTimes;
    hide Elem.Valid, Elem.Mul, Elem.Square, Elem.Add, Elem.MulInt, Elem.Negate, Elem.Normalize, Doubled;
    x1.f := x1.f.Normalize();
    y1.f := y1.f.Normalize();
    var z1z1 := z1.f.Square();
    var u2 := x2.f.Mul(z1z1).Normalize();
    var s2 := y2.f.Mul(z1z1).Mul(z1.f).Normalize();
    if x1.f.Equals(u2) {
      EqualX(x1, y1, z1, y1.f.Equals(s2), x3, y3, z3);
      return;
    }
    var negX1 := x1.f.Negate(1);
    var h := u2.Add(negX1);
    var hh := h.Square();
    var i := hh.MulInt(4);
    var j := h.Mul(i);
    var negY1 := y1.f.Negate(1);
    var r := s2.Add(negY1).MulInt(2);
    var rr := r.Square();
    var v := x1.f.Mul(i);
    x3.f := v.MulInt(2).Add(j).Negate(3);
    x3.f := x3.f.Add(rr);
    var negX3 := x3.f.Negate(5);
    y3.f := y1.f.Mul(j).MulInt(2).Negate(2);
    v := v.Add(negX3).Mul(r);
    y3.f := y3.f.Add(v);
    z3.f := z1.f.Add(h).Square();
    z1z1 := z1z1.Add(hh).Negate(2);
    z3.f := z3.f.Add(z1z1);
    x3.f := x3.f.Normalize();
    y3.f := y3.f.Normalize();
    z3.f := z3.f.Normalize();
  }

  /** The sum of two points, nothing assumed about their z. */
  method AddGeneric(x1: FieldRef, y1: FieldRef, z1: FieldRef, x2: FieldRef, y2: FieldRef, z2: FieldRef,
      x3: FieldRef, y3: FieldRef, z3: FieldRef)
    requires Slots({x1, x2, x3}, {y1, y2, y3}, {z1, z2, z3})
    requires Point(x1, y1, z1).Input() && Point(x2, y2, z2).Input()
    modifies z1, x3, y3, z3
    ensures Point(x3, y3, z3) == PointValues.AddGeneric(old(Point(x1, y1, z1)), old(Point(x2, y2, z2)))
    ensures z1 != z3 ==> Operand(old(z1.f), z1.f)
  {
    hide ReducedValue, NormalizedValue, Elem.Lost, NatTimes;
    hide Elem.Valid, Elem.Mul, Elem.Square, Elem.Add, Elem.MulInt, Elem.Negate, Elem.Normalize, Doubled;
    var z1z1 := z1.f.Square();
    var z2z2 := z2.f.Square();
    var u1 := x1.f.Mul(z2z2).Normalize();
    var u2 := x2.f.Mul(z1z1).Normalize();
    var s1 := y1.f.Mul(z2z2).Mul(z2.f).Normalize();
    var s2 := y2.f.Mul(z1z1).Mul(z1.f).Normalize();
    if u1.Equals(u2) {
      EqualX(x1, y1, z1, s1.Equals(s2), x3, y3, z3);
      return;
    }
    var negU1 := u1.Negate(1);
    var h := u2.Add(negU1);
    var i := h.MulInt(2).Square();
    var j := h.Mul(i);
    var negS1 := s1.Negate(1);
    var r := s2.Add(negS1).MulInt(2);
    var rr := r.Square();
    var v := u1.Mul(i);
    x3.f := v.MulInt(2).Add(j).Negate(3);
    x3.f := x3.f.Add(rr);
    var negX3 := x3.f.Negate(5);
    y3.f := s1.Mul(j).MulInt(2).Negate(2);
    v := v.Add(negX3).Mul(r);
    y3.f := y3.f.Add(v);
    z3.f := z1.f.Add(z2.f).Square();
    z1z1 := z1z1.Add(z2z2).Negate(2);
    z3.f := z3.f.Add(z1z1);
    z3.f := z3.f.Mul(h);
    x3.f := x3.f.Normalize();
    y3.f := y3.f.Normalize();
  }

  /** The sum of two points, whatever their z: the cheapest routine that applies. */
  method AddJacobian(x1: FieldRef, y1: FieldRef, z1: FieldRef, x2: FieldRef, y2: FieldRef, z2: FieldRef,
      x3: FieldRef, y3: FieldRef, z3: FieldRef)
    requires Slots({x1, x2, x3}, {y1, y2, y3}, {z1, z2, z3})
    requires Point(x1, y1, z1).Input() && Point(x2, y2, z2).Input()
    requires (x1 == x2 ==> x1.f == x1.f.Normalize()) && (y1 == y2 ==> y1.f == y1.f.Normalize())
    modifies x1, y1, z1, x2, y2, z2, x3, y3, z3
    ensures Point(x3, y3, z3) == Plus(old(Point(x1, y1, z1)), old(Point(x2, y2, z2)))
    ensures (x1 != x3 ==> Operand(old(x1.f), x1.f)) && (x2 != x3 ==> Operand(old(x2.f), x2.f))
    ensures (y1 != y3 ==> Operand(old(y1.f), y1.f)) && (y2 != y3 ==> Operand(old(y2.f), y2.f))
    ensures (z1 != z3 ==> Operand(old(z1.f), z1.f)) && (z2 != z3 ==> Operand(old(z2.f), z2.f))
  {
    hide ReducedValue, NormalizedValue, Elem.Lost, Elem.Normalize, Elem.Valid, AddOnes, AddSameZ, AddMixed,
      PointValues.AddGeneric;
    NormalizeTwice(z1.f);
    NormalizeTwice(z2.f);
    if (x1.f.IsZero() && y1.f.IsZero()) || z1.f.IsZero() {
      x3.f, y3.f, z3.f := x2.f, y2.f, z2.f;
      return;
    }
    if (x2.f.IsZero() && y2.f.IsZero()) || z2.f.IsZero() {
      x3.f, y3.f, z3.f := x1.f, y1.f, z1.f;
      return;
    }
    z1.f := z1.f.Normalize();
    z2.f := z2.f.Normalize();
    var isZ1One := z1.f.Equals(SetInt(1));
    var isZ2One := z2.f.Equals(SetInt(1));
    if isZ1One && isZ2One {
      AddZ1AndZ2EqualsOne(x1, y1, z1, x2, y2, x3, y3, z3);
    } else if z1.f.Equals(z2.f) {
      AddZ1EqualsZ2(x1, y1, z1, x2, y2, x3, y3, z3);
    } else if isZ2One {
      AddZ2EqualsOne(x1, y1, z1, x2, y2, x3, y3, z3);
    } else {
      AddGeneric(x1, y1, z1, x2, y2, z2, x3, y3, z3);
    }
  }
}
