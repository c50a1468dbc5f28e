/** The Jacobian addition and doubling formulas of the curve as integer polynomials, and what they mean for affine
    points. */
module CurveFormulas {
  import opened FieldWords
  import opened ModularArithmetic

  /** (x, y, z) stands for the affine point (x / z^2, y / z^3). */
  datatype Jacobian = Jacobian(x: int, y: int, z: int)

  ghost function Square(x: int): int {
    x * x
  }

  /** addGeneric past its checks for equal and opposite points. */
  ghost function GenericSum(p: Jacobian, q: Jacobian): Jacobian {
    var z1z1, z2z2 := Square(p.z), Square(q.z);
    var u1, u2, s1, s2 := p.x * z2z2, q.x * z1z1, p.y * z2z2 * q.z, q.y * z1z1 * p.z;
    var h := u2 - u1;
    var r := (s2 - s1) * 2;
    SumFrom(h, r, u1, s1, (Square(p.z + q.z) - (z1z1 + z2z2)) * h)
  }

  /** The part of the formula shared by all cases: h and r are the differences, u1 and s1 the scaled first point. */
  ghost function SumFrom(h: int, r: int, u1: int, s1: int, z3: int): Jacobian {
    var i := Square(h * 2);
    var j := h * i;
    var v := u1 * i;
    var x3 := Square(r) - (v * 2 + j);
    Jacobian(x3, (v - x3) * r - s1 * j * 2, z3)
  }

  /** addZ1AndZ2EqualsOne past its checks. */
  ghost function OnesSum(p: Jacobian, q: Jacobian): Jacobian {
    var h := q.x - p.x;
    var i := Square(h) * 4;
    var j := h * i;
    var r := (q.y - p.y) * 2;
    var v := p.x * i;
    var x3 := Square(r) - j - v * 2;
    Jacobian(x3, (v - x3) * r - j * p.y * 2, h * 2)
  }

  /** addZ2EqualsOne past its checks. */
  ghost function MixedSum(p: Jacobian, q: Jacobian): Jacobian {
    var z1z1 := Square(p.z);
    var u2, s2 := q.x * z1z1, q.y * z1z1 * p.z;
    var h := u2 - p.x;
    var hh := Square(h);
    var i := hh * 4;
    var j := h * i;
    var r := (s2 - p.y) * 2;
    var v := p.x * i;
    var x3 := Square(r) - (v * 2 + j);
    Jacobian(x3, (v - x3) * r - p.y * j * 2, Square(p.z + h) - (z1z1 + hh))
  }

  /** addZ1EqualsZ2 past its checks. */
  ghost function SameZSum(p: Jacobian, q: Jacobian): Jacobian {
    var a := q.x - p.x;
    var b := Square(a);
    var c := q.y - p.y;
    var e := p.x * b;
    var f := q.x * b;
    var x3 := Square(c) - (e + f);
    Jacobian(x3, (e - x3) * c - p.y * (f - e), p.z * a)
  }

  /** doubleGeneric */
  ghost function DoubleOf(p: Jacobian): Jacobian {
    var a := Square(p.x);
    var b := Square(p.y);
    var c := Square(b);
    var d := (Square(b + p.x) - (a + c)) * 2;
    var e := a * 3;
    var x3 := Square(e) - d * 2;
    Jacobian(x3, (d - x3) * e - c * 8, p.y * p.z * 2)
  }

  /** With both z equal to 1 the short formula is the generic one. */
  lemma OnesAreGeneric(p: Jacobian, q: Jacobian)
    requires p.z == 1 && q.z == 1
    ensures OnesSum(p, q) == GenericSum(p, q)
  {
    var h := q.x - p.x;
    assert Square(h) * 4 == Square(h * 2);
    assert h * Square(h * 2) * p.y == p.y * (h * Square(h * 2));
  }

  /** With the second z equal to 1 the mixed formula is the generic one. */
  lemma MixedIsGeneric(p: Jacobian, q: Jacobian)
    requires q.z == 1
    ensures MixedSum(p, q) == GenericSum(p, q)
  {
    var h := q.x * Square(p.z) - p.x;
    assert Square(h) * 4 == Square(h * 2);
    SquareOfSum(p.z, h);
    SquareOfSum(p.z, 1);
    assert 2 * (p.z * h) == 2 * p.z * h;
  }

  lemma SquareOfSum(a: int, b: int)
    ensures Square(a + b) - (Square(a) + Square(b)) == 2 * (a * b)
  {
  }

  /** (a*b) * (c*d) regrouped. */
  lemma Regroup(a: int, b: int, c: int, d: int)
    ensures (a * b) * (c * d) == (a * c) * (b * d)
  {
    assert (a * b) * (c * d) == a * (b * (c * d)) == a * (c * (b * d));
  }

  lemma SquareOfProduct(a: int, b: int)
    ensures Square(a * b) == Square(a) * Square(b)
  {
    Regroup(a, b, a, b);
  }

  /** Scaling the differences by the weights of Jacobian coordinates scales the sum. */
  lemma Homogeneous(h: int, r: int, u: int, s: int, z3: int, t: int)
    ensures var w := Square(t);
      var k := w * t;
      SumFrom(h * w, r * k, u * w, s * k, z3)
        == Jacobian(SumFrom(h, r, u, s, z3).x * Square(k), SumFrom(h, r, u, s, z3).y * (Square(k) * k), z3)
  {
    var w := Square(t);
    var k := w * t;
    var m := Square(k);
    var i := Square(h * 2);
    var j := h * i;
    var v := u * i;
    var x3 := Square(r) - (v * 2 + j);
    SquareOfProduct(w, t);
    assert m == Square(w) * w;
    SquareOfProduct(h * 2, w);
    assert Square(h * w * 2) == i * Square(w) by { assert h * w * 2 == h * 2 * w; }
    Regroup(h, w, i, Square(w));
    assert (h * w) * (i * Square(w)) == j * m by { assert w * Square(w) == m; }
    Regroup(u, w, i, Square(w));
    assert (u * w) * (i * Square(w)) == v * m by { assert w * Square(w) == m; }
    SquareOfProduct(r, k);
    var x' := Square(r * k) - (v * m * 2 + j * m);
    Distribute3(Square(r), v, j, m);
    assert x' == x3 * m;
    Subtract(v, x3, m);
    Regroup(v - x3, m, r, k);
    Regroup(s, k, j, m);
    Subtract2((v - x3) * r, s * j, m * k);
    assert k * m == m * k;
  }

  lemma Distribute3(a: int, v: int, j: int, m: int)
    ensures a * m - (v * m * 2 + j * m) == (a - (v * 2 + j)) * m
  {
  }

  lemma Subtract(a: int, b: int, m: int)
    ensures a * m - b * m == (a - b) * m
  {
  }

  lemma Subtract2(a: int, b: int, m: int)
    ensures a * m - (b * m) * 2 == (a - b * 2) * m
  {
  }

  /** The addition formula on the affine points (a1, b1) and (a1 + d, b1 + l*d): the chord of slope l. */
  lemma AffineChord(a1: int, b1: int, d: int, l: int, z3: int)
    ensures var a3 := Square(l) - a1 - (a1 + d);
      var b3 := l * (a1 - a3) - b1;
      SumFrom(d, l * d * 2, a1, b1, z3) == Jacobian(a3 * Square(2 * d), b3 * (Square(2 * d) * (2 * d)), z3)
  {
    var a3 := Square(l) - a1 - (a1 + d);
    var i := Square(2 * d);
    var j := d * i;
    var v := a1 * i;
    assert d * 2 == 2 * d;
    SquareOfProduct(l, 2 * d);
    assert l * d * 2 == l * (2 * d);
    var x3 := Square(l) * i - (v * 2 + j);
    assert x3 == a3 * i by {
      Distribute3(Square(l), a1, d, i);
    }
    Subtract(a1, a3, i);
    Regroup(a1 - a3, i, l, 2 * d);
    assert b1 * j * 2 == b1 * (i * (2 * d)) by {
      assert b1 * (d * i) == b1 * (i * d);
    }
    Subtract(l * (a1 - a3), b1, i * (2 * d));
    assert (a1 - a3) * l == l * (a1 - a3);
  }

  /** A pair of Jacobian triples whose coordinates are congruent. */
  ghost predicate CongPoint(p: Jacobian, q: Jacobian) {
    Cong(p.x, q.x) && Cong(p.y, q.y) && Cong(p.z, q.z)
  }

  /** p stands for the affine point (a, b). */
  ghost predicate Represents(p: Jacobian, a: int, b: int) {
    Cong(p.x, a * Square(p.z)) && Cong(p.y, b * (Square(p.z) * p.z))
  }

  /** (a3, b3) is where the line of slope l through (a1, b1) that also meets abscissa a2 meets the curve again,
      reflected. */
  ghost function ThirdX(a1: int, a2: int, l: int): int {
    Square(l) - a1 - a2
  }

  ghost function ThirdY(a1: int, b1: int, a2: int, l: int): int {
    l * (a1 - ThirdX(a1, a2, l)) - b1
  }

  lemma CongSquare(a: int, b: int)
    requires Cong(a, b)
    ensures Cong(Square(a), Square(b))
  {
    CongMul(a, b, a, b);
  }

  lemma CongTimes(a: int, b: int, c: int)
    requires Cong(a, b)
    ensures Cong(a * c, b * c) && Cong(c * a, c * b)
  {
    CongRefl(c);
    CongMul(a, b, c, c);
    CongMul(c, c, a, b);
  }

  lemma SumFromCong(h: int, r: int, u: int, s: int, z: int, h': int, r': int, u': int, s': int, z': int)
    requires Cong(h, h') && Cong(r, r') && Cong(u, u') && Cong(s, s') && Cong(z, z')
    ensures CongPoint(SumFrom(h, r, u, s, z), SumFrom(h', r', u', s', z'))
  {
    hide Cong;
    CongTimes(h, h', 2);
    CongSquare(h * 2, h' * 2);
    var i, i' := Square(h * 2), Square(h' * 2);
    CongMul(h, h', i, i');
    CongMul(u, u', i, i');
    var j, j', v, v' := h * i, h' * i', u * i, u' * i';
    CongSquare(r, r');
    CongTimes(v, v', 2);
    CongAdd(v * 2, v' * 2, j, j');
    CongAdd(Square(r), Square(r'), v * 2 + j, v' * 2 + j');
    var x, x' := Square(r) - (v * 2 + j), Square(r') - (v' * 2 + j');
    CongAdd(v, v', x, x');
    CongMul(v - x, v' - x', r, r');
    CongMul(s, s', j, j');
    CongTimes(s * j, s' * j', 2);
    CongAdd((v - x) * r, (v' - x') * r', s * j * 2, s' * j' * 2);
  }

  /** Congruent points have congruent sums. */
  lemma GenericSumCong(p: Jacobian, q: Jacobian, p': Jacobian, q': Jacobian)
    requires CongPoint(p, p') && CongPoint(q, q')
    ensures CongPoint(GenericSum(p, q), GenericSum(p', q'))
  {
    hide Cong;
    CongSquare(p.z, p'.z);
    CongSquare(q.z, q'.z);
    var z1, z1', z2, z2' := Square(p.z), Square(p'.z), Square(q.z), Square(q'.z);
    CongMul(p.x, p'.x, z2, z2');
    CongMul(q.x, q'.x, z1, z1');
    CongMul(p.y, p'.y, z2, z2');
    CongMul(q.y, q'.y, z1, z1');
    CongMul(p.y * z2, p'.y * z2', q.z, q'.z);
    CongMul(q.y * z1, q'.y * z1', p.z, p'.z);
    var u1, u1', u2, u2' := p.x * z2, p'.x * z2', q.x * z1, q'.x * z1';
    var s1, s1', s2, s2' := p.y * z2 * q.z, p'.y * z2' * q'.z, q.y * z1 * p.z, q'.y * z1' * p'.z;
    CongAdd(u2, u2', u1, u1');
    CongAdd(s2, s2', s1, s1');
    CongTimes(s2 - s1, s2' - s1', 2);
    CongAdd(p.z, p'.z, q.z, q'.z);
    CongSquare(p.z + q.z, p'.z + q'.z);
    CongAdd(z1, z1', z2, z2');
    CongAdd(Square(p.z + q.z), Square(p'.z + q'.z), z1 + z2, z1' + z2');
    CongMul(Square(p.z + q.z) - (z1 + z2), Square(p'.z + q'.z) - (z1' + z2'), u2 - u1, u2' - u1');
    SumFromCong(u2 - u1, (s2 - s1) * 2, u1, s1, (Square(p.z + q.z) - (z1 + z2)) * (u2 - u1),
      u2' - u1', (s2' - s1') * 2, u1', s1', (Square(p'.z + q'.z) - (z1' + z2')) * (u2' - u1'));
  }

  /** The exact representatives of the affine point (a, b) with a given z. */
  ghost function Lift(a: int, b: int, z: int): Jacobian {
    Jacobian(a * Square(z), b * (Square(z) * z), z)
  }

  /** The scaled quantities u1, s1, h, r and z3 of the generic formula on exact representatives. */
  lemma LiftedDifferences(a1: int, b1: int, d: int, l: int, z1: int, z2: int)
    ensures var t := z1 * z2;
      var w, k := Square(t), Square(t) * t;
      GenericSum(Lift(a1, b1, z1), Lift(a1 + d, b1 + l * d, z2)) ==
        SumFrom(d * w, l * d * 2 * k, a1 * w, b1 * k, 2 * d * k)
  {
    var t := z1 * z2;
    var w, k := Square(t), Square(t) * t;
    var a2, b2 := a1 + d, b1 + l * d;
    SquareOfProduct(z1, z2);
    assert a1 * Square(z1) * Square(z2) == a1 * w;
    assert a2 * Square(z2) * Square(z1) == a2 * w;
    RegroupCube(b1, z1, z2);
    RegroupCube(b2, z2, z1);
    assert z2 * z1 == t;
    SquareOfSum(z1, z2);
    var h := a2 * w - a1 * w;
    var r := (b2 * k - b1 * k) * 2;
    hide Square;
    Subtract(a2, a1, w);
    Subtract(b2, b1, k);
    assert h == d * w && r == l * d * 2 * k;
    assert 2 * t * (d * w) == 2 * d * k by {
      assert t * (d * w) == d * (w * t);
    }
  }

  lemma ScaledChord(a1: int, b1: int, d: int, l: int, t: int)
    ensures var w, k := Square(t), Square(t) * t;
      SumFrom(d * w, l * d * 2 * k, a1 * w, b1 * k, 2 * d * k)
        == Lift(ThirdX(a1, a1 + d, l), ThirdY(a1, b1, a1 + d, l), 2 * d * k)
  {
    var w, k := Square(t), Square(t) * t;
    var a3, b3 := ThirdX(a1, a1 + d, l), ThirdY(a1, b1, a1 + d, l);
    Homogeneous(d, l * d * 2, a1, b1, 2 * d * k, t);
    AffineChord(a1, b1, d, l, 2 * d * k);
    hide SumFrom;
    SquareOfProduct(2 * d, k);
    CubeOfProduct(2 * d, k);
    hide Square;
    assert a3 * Square(2 * d) * Square(k) == a3 * (Square(2 * d) * Square(k));
    assert b3 * (Square(2 * d) * (2 * d)) * (Square(k) * k) == b3 * ((Square(2 * d) * (2 * d)) * (Square(k) * k));
  }

  /** On exact representatives of (a1, b1) and (a1 + d, b1 + l*d) the generic formula gives one of the chord's third
      point. */
  lemma LiftedChord(a1: int, b1: int, d: int, l: int, z1: int, z2: int)
    ensures var r := GenericSum(Lift(a1, b1, z1), Lift(a1 + d, b1 + l * d, z2));
      r == Lift(ThirdX(a1, a1 + d, l), ThirdY(a1, b1, a1 + d, l), r.z)
  {
    LiftedDifferences(a1, b1, d, l, z1, z2);
    ScaledChord(a1, b1, d, l, z1 * z2);
    hide GenericSum, SumFrom;
  }

  /** The generic formula adds: on representatives of two affine points it gives a representative of the third point of
      their chord, whatever the z coordinates are. */
  lemma GenericIsChord(p: Jacobian, q: Jacobian, a1: int, b1: int, a2: int, b2: int, l: int)
    requires Represents(p, a1, b1) && Represents(q, a2, b2) && Cong(l * (a2 - a1), b2 - b1)
    ensures Represents(GenericSum(p, q), ThirdX(a1, a2, l), ThirdY(a1, b1, a2, l))
  {
    hide Cong, GenericSum;
    var d := a2 - a1;
    var b2' := b1 + l * d;
    CongRefl(p.z);
    CongRefl(q.z);
    CongRefl(b1);
    CongAdd(l * d, b2 - b1, b1, b1);
    CongTimes(l * d + b1, b2, Square(q.z) * q.z);
    CongSym(b2' * (Square(q.z) * q.z), b2 * (Square(q.z) * q.z));
    CongTrans(q.y, b2 * (Square(q.z) * q.z), b2' * (Square(q.z) * q.z));
    var p', q' := Lift(a1, b1, p.z), Lift(a1 + d, b2', q.z);
    GenericSumCong(p, q, p', q');
    LiftedChord(a1, b1, d, l, p.z, q.z);
    LiftCong(GenericSum(p, q), GenericSum(p', q').z, ThirdX(a1, a2, l), ThirdY(a1, b1, a2, l));
  }

  /** What is congruent to an exact representative represents the same point. */
  lemma LiftCong(p: Jacobian, z: int, a: int, b: int)
    requires CongPoint(p, Lift(a, b, z))
    ensures Represents(p, a, b)
  {
    hide Cong;
    CongSym(p.z, z);
    CongSquare(z, p.z);
    CongMul(Square(z), Square(p.z), z, p.z);
    CongTimes(Square(z), Square(p.z), a);
    CongTimes(Square(z) * z, Square(p.z) * p.z, b);
    CongTrans(p.x, a * Square(z), a * Square(p.z));
    CongTrans(p.y, b * (Square(z) * z), b * (Square(p.z) * p.z));
  }

  /** With equal z coordinates the short formula gives the generic result with its z divided by 2*z^3: the same affine
      point. */
  lemma SameZIsScaled(p: Jacobian, q: Jacobian)
    requires p.z == q.z
    ensures var s := SameZSum(p, q);
      var k := 2 * (Square(p.z) * p.z);
      GenericSum(p, q) == Jacobian(s.x * Square(k), s.y * (Square(k) * k), s.z * k)
  {
    var z := p.z;
    var w, k := Square(z), Square(z) * z;
    var a, c := q.x - p.x, q.y - p.y;
    SquareOfSum(z, z);
    Subtract(q.x, p.x, w);
    assert p.y * w * z == p.y * k && q.y * w * z == q.y * k;
    Subtract(q.y, p.y, k);
    assert c * k * 2 == c * 2 * k;
    var z3 := 2 * (z * z) * (a * w);
    assert z3 == z * a * (2 * k) by {
      assert 2 * (z * z) * (a * w) == z * a * (2 * (w * z));
    }
    assert GenericSum(p, q) == SumFrom(a * w, c * 2 * k, p.x * w, p.y * k, z3);
    hide GenericSum;
    Homogeneous(a, c * 2, p.x, p.y, z3, z);
    SameZUnscaled(p, q, z3);
    hide SumFrom, SameZSum;
    var s := SameZSum(p, q);
    assert Square(2 * k) == 4 * Square(k);
    hide Square;
    assert s.x * 4 * Square(k) == s.x * (4 * Square(k));
    assert s.y * 8 * (Square(k) * k) == s.y * (4 * Square(k) * (2 * k));
  }

  lemma SameZUnscaled(p: Jacobian, q: Jacobian, z3: int)
    requires p.z == q.z
    ensures var s := SameZSum(p, q);
      SumFrom(q.x - p.x, (q.y - p.y) * 2, p.x, p.y, z3) == Jacobian(s.x * 4, s.y * 8, z3)
  {
    var a, c := q.x - p.x, q.y - p.y;
    var b := Square(a);
    var e, f := p.x * b, q.x * b;
    Subtract(q.x, p.x, b);
    SquareOfDouble(a);
    SquareOfDouble(c);
    hide Square;
    TimesFour(a, b);
    TimesFour(p.x, b);
    var x3 := Square(c) - (e + f);
    TimesEight(e - x3, c);
    TimesFour(p.y, f - e);
  }

  lemma SquareOfDouble(a: int)
    ensures Square(a * 2) == 4 * Square(a)
  {
  }

  lemma TimesFour(a: int, b: int)
    ensures a * (4 * b) == 4 * (a * b)
  {
  }

  lemma TimesEight(a: int, c: int)
    ensures (4 * a) * (c * 2) == 8 * (a * c)
  {
  }

  lemma SameZSumCong(p: Jacobian, q: Jacobian, p': Jacobian, q': Jacobian)
    requires CongPoint(p, p') && CongPoint(q, q')
    ensures CongPoint(SameZSum(p, q), SameZSum(p', q'))
  {
    hide Cong;
    CongAdd(q.x, q'.x, p.x, p'.x);
    CongAdd(q.y, q'.y, p.y, p'.y);
    var a, a', c, c' := q.x - p.x, q'.x - p'.x, q.y - p.y, q'.y - p'.y;
    CongSquare(a, a');
    CongSquare(c, c');
    var b, b' := Square(a), Square(a');
    CongMul(p.x, p'.x, b, b');
    CongMul(q.x, q'.x, b, b');
    var e, e', f, f' := p.x * b, p'.x * b', q.x * b, q'.x * b';
    CongAdd(e, e', f, f');
    CongAdd(Square(c), Square(c'), e + f, e' + f');
    var x, x' := Square(c) - (e + f), Square(c') - (e' + f');
    CongAdd(e, e', x, x');
    CongMul(e - x, e' - x', c, c');
    CongAdd(f, f', e, e');
    CongMul(p.y, p'.y, f - e, f' - e');
    CongAdd((e - x) * c, (e' - x') * c', p.y * (f - e), p'.y * (f' - e'));
    CongMul(p.z, p'.z, a, a');
  }

  lemma SameZLifted(a1: int, b1: int, d: int, l: int, z: int)
    ensures var r := SameZSum(Lift(a1, b1, z), Lift(a1 + d, b1 + l * d, z));
      r == Lift(ThirdX(a1, a1 + d, l), ThirdY(a1, b1, a1 + d, l), r.z)
  {
    var w, k := Square(z), Square(z) * z;
    var a2, b2, a3 := a1 + d, b1 + l * d, ThirdX(a1, a1 + d, l);
    var dw := d * w;
    var b := Square(dw);
    var m := w * b;
    Subtract(a2, a1, w);
    Subtract(b2, b1, k);
    assert a2 * w - a1 * w == dw && b2 * k - b1 * k == l * d * k;
    var z3 := z * dw;
    SquareOfProduct(z, dw);
    SquareOfProduct(l, z3);
    hide Square;
    TimesProduct(a1, w, b);
    TimesProduct(a2, w, b);
    SlopeTimes(l, d, w, z);
    var r := SameZSum(Lift(a1, b1, z), Lift(a2, b2, z));
    assert r.z == z3 && r.x == Square(l) * m - (a1 * m + a2 * m)
      && r.y == (a1 * m - r.x) * (l * z3) - b1 * k * (a2 * m - a1 * m);
    hide SameZSum;
    SumTimes(Square(l), a1, a2, m);
    Subtract(a2, a1, m);
    BaseTimes(b1, w, z, d, m);
    TangentY(a1, a3, b1, l, m, z3);
  }

  lemma TimesProduct(a: int, w: int, b: int)
    ensures a * w * b == a * (w * b)
  {
  }

  lemma SlopeTimes(l: int, d: int, w: int, z: int)
    ensures l * d * (w * z) == l * (z * (d * w))
  {
    Regroup(l, d, w, z);
    assert l * d * (w * z) == l * (d * (w * z));
    assert d * (w * z) == z * (d * w);
  }

  lemma BaseTimes(b: int, w: int, z: int, d: int, m: int)
    ensures b * (w * z) * (d * m) == b * (m * (z * (d * w)))
  {
    Regroup(w, z, d, m);
    assert (w * z) * (d * m) == (w * d) * (z * m) == m * (z * (d * w));
    TimesProduct(b, w * z, d * m);
  }

  lemma SumTimes(s: int, a: int, b: int, m: int)
    ensures s * m - (a * m + b * m) == (s - a - b) * m
  {
  }

  /** With equal z coordinates the short formula adds as well. */
  lemma SameZIsChord(p: Jacobian, q: Jacobian, a1: int, b1: int, a2: int, b2: int, l: int)
    requires Represents(p, a1, b1) && Represents(q, a2, b2) && Cong(l * (a2 - a1), b2 - b1) && Cong(p.z, q.z)
    ensures Represents(SameZSum(p, q), ThirdX(a1, a2, l), ThirdY(a1, b1, a2, l))
  {
    hide Cong, SameZSum;
    var d := a2 - a1;
    var b2' := b1 + l * d;
    CongRefl(p.z);
    CongRefl(b1);
    CongAdd(l * d, b2 - b1, b1, b1);
    CongTimes(l * d + b1, b2, Square(q.z) * q.z);
    CongSym(b2' * (Square(q.z) * q.z), b2 * (Square(q.z) * q.z));
    CongTrans(q.y, b2 * (Square(q.z) * q.z), b2' * (Square(q.z) * q.z));
    CongSym(p.z, q.z);
    CongSquare(q.z, p.z);
    CongMul(Square(q.z), Square(p.z), q.z, p.z);
    CongTimes(Square(q.z), Square(p.z), a2);
    CongTimes(Square(q.z) * q.z, Square(p.z) * p.z, b2');
    CongTrans(q.x, a2 * Square(q.z), a2 * Square(p.z));
    CongTrans(q.y, b2' * (Square(q.z) * q.z), b2' * (Square(p.z) * p.z));
    var p', q' := Lift(a1, b1, p.z), Lift(a1 + d, b2', p.z);
    SameZSumCong(p, q, p', q');
    SameZLifted(a1, b1, d, l, p.z);
    LiftCong(SameZSum(p, q), SameZSum(p', q').z, ThirdX(a1, a2, l), ThirdY(a1, b1, a2, l));
  }

  /** r is the sum of p and q, by the generic formula or, for equal z coordinates, by the short one. */
  ghost predicate IsSum(p: Jacobian, q: Jacobian, r: Jacobian) {
    CongPoint(r, GenericSum(p, q)) || (Cong(p.z, q.z) && CongPoint(r, SameZSum(p, q)))
  }

  /** Whatever formula made it, the sum of representatives of two affine points represents the third point of their
      chord. */
  lemma SumIsChord(p: Jacobian, q: Jacobian, r: Jacobian, a1: int, b1: int, a2: int, b2: int, l: int)
    requires IsSum(p, q, r) && Represents(p, a1, b1) && Represents(q, a2, b2) && Cong(l * (a2 - a1), b2 - b1)
    ensures Represents(r, ThirdX(a1, a2, l), ThirdY(a1, b1, a2, l))
  {
    hide Cong, GenericSum, SameZSum;
    var a3, b3 := ThirdX(a1, a2, l), ThirdY(a1, b1, a2, l);
    if CongPoint(r, GenericSum(p, q)) {
      GenericIsChord(p, q, a1, b1, a2, b2, l);
      RepresentsCong(r, GenericSum(p, q), a3, b3);
    } else {
      SameZIsChord(p, q, a1, b1, a2, b2, l);
      RepresentsCong(r, SameZSum(p, q), a3, b3);
    }
  }

  lemma RepresentsCong(r: Jacobian, s: Jacobian, a: int, b: int)
    requires CongPoint(r, s) && Represents(s, a, b)
    ensures Represents(r, a, b)
  {
    hide Cong;
    CongTrans(r.x, s.x, a * Square(s.z));
    CongTrans(r.y, s.y, b * (Square(s.z) * s.z));
    LiftCong(r, s.z, a, b);
  }

  lemma DoubleCong(p: Jacobian, p': Jacobian)
    requires CongPoint(p, p')
    ensures CongPoint(DoubleOf(p), DoubleOf(p'))
  {
    hide Cong;
    CongSquare(p.x, p'.x);
    CongSquare(p.y, p'.y);
    var a, a', b, b' := Square(p.x), Square(p'.x), Square(p.y), Square(p'.y);
    CongSquare(b, b');
    var c, c' := Square(b), Square(b');
    CongAdd(b, b', p.x, p'.x);
    CongSquare(b + p.x, b' + p'.x);
    CongAdd(a, a', c, c');
    CongAdd(Square(b + p.x), Square(b' + p'.x), a + c, a' + c');
    CongTimes(Square(b + p.x) - (a + c), Square(b' + p'.x) - (a' + c'), 2);
    var d, d' := (Square(b + p.x) - (a + c)) * 2, (Square(b' + p'.x) - (a' + c')) * 2;
    CongTimes(a, a', 3);
    CongSquare(a * 3, a' * 3);
    CongTimes(d, d', 2);
    CongAdd(Square(a * 3), Square(a' * 3), d * 2, d' * 2);
    var x, x' := Square(a * 3) - d * 2, Square(a' * 3) - d' * 2;
    CongAdd(d, d', x, x');
    CongMul(d - x, d' - x', a * 3, a' * 3);
    CongTimes(c, c', 8);
    CongAdd((d - x) * (a * 3), (d' - x') * (a' * 3), c * 8, c' * 8);
    CongMul(p.y, p'.y, p.z, p'.z);
    CongTimes(p.y * p.z, p'.y * p'.z, 2);
  }

  /** The doubling formula follows the tangent: its result represents the third point of the line of slope l with 2*b*l
      = 3*a^2. */
  lemma DoubleIsTangent(p: Jacobian, a: int, b: int, l: int)
    requires Represents(p, a, b) && Cong(l * (2 * b), 3 * Square(a))
    ensures Represents(DoubleOf(p), ThirdX(a, a, l), ThirdY(a, b, a, l))
  {
    hide Cong;
    var z3 := p.y * p.z * 2;
    var e, d, c8 := Square(p.x) * 3, 4 * p.x * Square(p.y), 8 * Square(Square(p.y));
    DoubleTerms(p);
    TangentSlope(p, a, b, l);
    TangentCentre(p, a, b);
    TangentBase(p, a, b);
    assert Cong(e, l * z3) && Cong(d, a * Square(z3)) && Cong(c8, b * (Square(z3) * z3));
    var a3 := ThirdX(a, a, l);
    CongSquare(e, l * z3);
    SquareOfProduct(l, z3);
    CongTimes(d, a * Square(z3), 2);
    CongAdd(Square(e), Square(l) * Square(z3), d * 2, a * Square(z3) * 2);
    var x3 := Square(e) - d * 2;
    assert Square(l) * Square(z3) - a * Square(z3) * 2 == a3 * Square(z3);
    CongAdd(d, a * Square(z3), x3, a3 * Square(z3));
    CongMul(d - x3, a * Square(z3) - a3 * Square(z3), e, l * z3);
    CongAdd((d - x3) * e, (a * Square(z3) - a3 * Square(z3)) * (l * z3), c8, b * (Square(z3) * z3));
    TangentY(a, a3, b, l, Square(z3), z3);
  }

  lemma TangentY(a: int, a3: int, b: int, l: int, s: int, z: int)
    ensures (a * s - a3 * s) * (l * z) - b * (s * z) == (l * (a - a3) - b) * (s * z)
  {
    Subtract(a, a3, s);
    Regroup(a - a3, s, l, z);
    assert (a - a3) * l == l * (a - a3);
  }

  lemma DoubleTerms(p: Jacobian)
    ensures var e, d := Square(p.x) * 3, 4 * p.x * Square(p.y);
      var x3 := Square(e) - d * 2;
      DoubleOf(p) == Jacobian(x3, (d - x3) * e - 8 * Square(Square(p.y)), p.y * p.z * 2)
  {
    SquareOfSum(Square(p.y), p.x);
    assert 2 * (Square(p.y) * p.x) * 2 == 4 * p.x * Square(p.y);
  }

  lemma TangentSlope(p: Jacobian, a: int, b: int, l: int)
    requires Represents(p, a, b) && Cong(l * (2 * b), 3 * Square(a))
    ensures Cong(Square(p.x) * 3, l * (p.y * p.z * 2))
  {
    hide Cong;
    var w, z := Square(p.z), p.z;
    CongSquare(p.x, a * w);
    SquareOfProduct(a, w);
    CongTimes(Square(p.x), Square(a) * Square(w), 3);
    CongSym(l * (2 * b), 3 * Square(a));
    CongTimes(3 * Square(a), l * (2 * b), Square(w));
    assert Square(a) * Square(w) * 3 == 3 * Square(a) * Square(w);
    CongTrans(Square(p.x) * 3, 3 * Square(a) * Square(w), l * (2 * b) * Square(w));
    CongSym(p.y, b * (w * z));
    CongTimes(b * (w * z), p.y, l * (z * 2));
    assert b * (w * z) * (l * (z * 2)) == l * (2 * b) * Square(w) by {
      assert Square(w) == w * (z * z);
      SlopeProduct(b, w, z, l);
    }
    assert p.y * (l * (z * 2)) == l * (p.y * z * 2);
    CongTrans(Square(p.x) * 3, l * (2 * b) * Square(w), l * (p.y * z * 2));
  }

  lemma SlopeProduct(b: int, w: int, z: int, l: int)
    ensures b * (w * z) * (l * (z * 2)) == l * (2 * b) * (w * (z * z))
  {
    Regroup(b, w * z, l, z * 2);
    assert (w * z) * (z * 2) == 2 * (w * (z * z));
    assert (b * l) * (2 * (w * (z * z))) == l * (2 * b) * (w * (z * z));
  }

  lemma TangentCentre(p: Jacobian, a: int, b: int)
    requires Represents(p, a, b)
    ensures Cong(4 * p.x * Square(p.y), a * Square(p.y * p.z * 2))
  {
    hide Cong;
    CongTimes(p.x, a * Square(p.z), 4 * Square(p.y));
    SquareOfProduct(p.y, p.z);
    assert Square(p.y * p.z * 2) == 4 * (Square(p.y) * Square(p.z));
    hide Square;
    assert p.x * (4 * Square(p.y)) == 4 * p.x * Square(p.y);
    assert a * Square(p.z) * (4 * Square(p.y)) == a * (4 * (Square(p.y) * Square(p.z)));
  }

  lemma TangentBase(p: Jacobian, a: int, b: int)
    requires Represents(p, a, b)
    ensures var z3 := p.y * p.z * 2;
      Cong(8 * Square(Square(p.y)), b * (Square(z3) * z3))
  {
    hide Cong;
    var y3, k, z3 := Square(p.y) * p.y, Square(p.z) * p.z, p.y * p.z * 2;
    CongTimes(p.y, b * k, 8 * y3);
    assert p.y * (8 * y3) == 8 * Square(Square(p.y)) by {
      assert Square(Square(p.y)) == p.y * y3;
    }
    CubeOfProduct(p.y, p.z);
    assert Square(z3) * z3 == 8 * (Square(p.y * p.z) * (p.y * p.z)) by {
      Regroup(4, Square(p.y * p.z), 2, p.y * p.z);
      SquareOfProduct(2, p.y * p.z);
    }
    assert b * k * (8 * y3) == b * (8 * (y3 * k));
  }

  lemma CubeOfProduct(x: int, y: int)
    ensures Square(x * y) * (x * y) == (Square(x) * x) * (Square(y) * y)
  {
    SquareOfProduct(x, y);
    Regroup(Square(x), Square(y), x, y);
  }

  lemma RegroupCube(b: int, x: int, y: int)
    ensures b * (Square(x) * x) * Square(y) * y == b * (Square(x * y) * (x * y))
  {
    CubeOfProduct(x, y);
    assert b * (Square(x) * x) * Square(y) * y == b * ((Square(x) * x) * (Square(y) * y));
  }
}
