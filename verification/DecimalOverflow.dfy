/** What QuoRem yields when its int32 exponents wrap around, which it does not notice. */
module DecimalOverflow {
  import opened Powers
  import opened Division
  import opened Decimals

  /** The exponent of the quotient, before it is stored in an int32. */
  function QuotientExponent(d: Decimal, d2: Decimal, precision: int32): int {
    d.exp as int - d2.exp as int + precision as int
  }

  /** The exponent of the remainder of a shifted dividend, before it is stored in an int32. */
  function RemainderExponent(d2: Decimal, precision: int32): int {
    d2.exp as int - precision as int
  }

  /** The quotient is less than a unit. */
  ghost predicate LessThanUnit(d: Decimal, d2: Decimal, precision: int32) {
    RealAbs(Number(d)) < Times(RealAbs(Number(d2)), P10(0 - precision as int))
  }

  /** The operands on which the exponents are right in the end, or do not matter. */
  predicate Harmless(d: Decimal, d2: Decimal, precision: int32)
    requires d2.value != 0
  {
    var e, t := QuotientExponent(d, d2, precision), RemainderExponent(d2, precision);
    MIN32 < precision &&
    if e > MAX32 then Abs(d.value) * Pow10(e) < Abs(d2.value)
    else if e >= 0 then t >= MIN32 || Rem(d.value * Pow10(e), d2.value) == 0
    else if e >= MIN32 then true
    else if e + TWO_32 < 0 then Abs(d.value) < Abs(d2.value) * Pow10(-(e + TWO_32))
    else if t > MAX32 then Abs(d.value) * Pow10(e + TWO_32) < Abs(d2.value)
    else d.value == 0
  }

  /** QuoRem keeps its promise on exactly these operands. */
  lemma QuoRemExact(d: Decimal, d2: Decimal, precision: int32)
    requires d2.value != 0
    ensures var o := QuoRem(d, d2, precision);
      o.Some? && (Divides(d, d2, precision, o.value.q, o.value.r) <==> Harmless(d, d2, precision))
  {
    hide P10, Times, Units, Number, Pow10, Quo, Rem, Divides, QuoRem, LessThanUnit, Wrap;
    var e := QuotientExponent(d, d2, precision);
    Computed(d, d2, precision);
    if precision == MIN32 {
      LeastPrecision(d, d2);
    } else {
      Wrapped(d, d2, precision);
      if NoWrap(d, d2, precision) {
        QuoRemDivides(d, d2, precision);
      } else if MIN32 <= e <= MAX32 {
        LostRemainder(d, d2, precision);
      } else if e > MAX32 {
        LargeExponent(d, d2, precision);
      } else {
        SmallExponent(d, d2, precision);
      }
    }
  }

  lemma LargeExponent(d: Decimal, d2: Decimal, precision: int32)
    requires d2.value != 0 && MIN32 < precision && QuotientExponent(d, d2, precision) > MAX32
    ensures var o := QuoRem(d, d2, precision);
      o.Some? && (Divides(d, d2, precision, o.value.q, o.value.r) <==> Harmless(d, d2, precision))
  {
    hide P10, Times, Units, Number, Pow10, Quo, Rem, Divides, QuoRem, LessThanUnit, Wrap;
    var e := QuotientExponent(d, d2, precision);
    Wrapped(d, d2, precision);
    UnitInIntegers(d, d2, precision);
    var k := e - TWO_32;
    if k < 0 {
      ShiftedDivisor(d, d2, precision);
      SmallerDividend(d.value, d2.value, e, -k);
    } else {
      ShiftedDividend(d, d2, precision);
      SmallerShift(d.value, d2.value, k, e);
    }
  }

  lemma SmallExponent(d: Decimal, d2: Decimal, precision: int32)
    requires d2.value != 0 && MIN32 < precision && QuotientExponent(d, d2, precision) < MIN32
    ensures var o := QuoRem(d, d2, precision);
      o.Some? && (Divides(d, d2, precision, o.value.q, o.value.r) <==> Harmless(d, d2, precision))
  {
    hide P10, Times, Units, Number, Pow10, Quo, Rem, Divides, QuoRem, LessThanUnit, Wrap;
    var e := QuotientExponent(d, d2, precision);
    Wrapped(d, d2, precision);
    UnitInIntegers(d, d2, precision);
    var k := e + TWO_32;
    if k < 0 {
      ShiftedDivisor(d, d2, precision);
      LargerDivisor(d.value, d2.value, -k, -e);
    } else if RemainderExponent(d2, precision) > MAX32 {
      ShiftedDividend(d, d2, precision);
      SmallerDividend(d.value, d2.value, k, -e);
    } else {
      OtherScale(d, d2, precision);
    }
  }

  /** The exponents wrap around once at most. */
  lemma Wrapped(d: Decimal, d2: Decimal, precision: int32)
    requires MIN32 < precision
    ensures var e, t := QuotientExponent(d, d2, precision), RemainderExponent(d2, precision);
      && Wrap(e) == (if e > MAX32 then e - TWO_32 else if e < MIN32 then e + TWO_32 else e)
      && Wrap(t) == (if t > MAX32 then t - TWO_32 else if t < MIN32 then t + TWO_32 else t)
      && (MIN32 <= e <= MAX32 && !NoWrap(d, d2, precision) ==> e >= 0 && t < MIN32)
      && (e < MIN32 ==> t >= 0) && (e - TWO_32 >= 0 ==> t < MIN32)
  {
  }

  /** What QuoRem computes, in terms of the exponent of the quotient. */
  lemma Computed(d: Decimal, d2: Decimal, precision: int32)
    requires d2.value != 0
    ensures var o, e, t := QuoRem(d, d2, precision), Wrap(QuotientExponent(d, d2, precision)),
      Wrap(RemainderExponent(d2, precision));
      && o.Some? && o.value.q.exp == Wrap(0 - precision as int)
      && (e < 0 ==>
        var n := d2.value * Pow10(0 - e as int);
        n != 0 && o.value.q.value == Quo(d.value, n) && o.value.r == Decimal(Rem(d.value, n), d.exp))
      && (e >= 0 ==>
        var a := d.value * Pow10(e);
        o.value.q.value == Quo(a, d2.value) && o.value.r == Decimal(Rem(a, d2.value), t))
  {
    hide Pow10, Quo, Rem, Wrap;
    var x, y, p := d.exp as int, d2.exp as int, precision as int;
    WrapSum(x - y, p);
    WrapSum(y, p);
    var e: int := Wrap(x - y + p);
    if e < 0 {
      PositivePower(d2.value, -e);
    }
  }

  /** -(-2^31) is not an int32. */
  lemma LeastPrecision(d: Decimal, d2: Decimal)
    requires d2.value != 0 && QuoRem(d, d2, MIN32).Some? && QuoRem(d, d2, MIN32).value.q.exp == Wrap(0 - MIN32)
    ensures var o := QuoRem(d, d2, MIN32).value;
      !Divides(d, d2, MIN32, o.q, o.r)
  {
    hide QuoRem, Number, P10, Times;
  }

  /** aa = q*nn + r in units of u, where nn units are b times w; the products that QuoRem stands for are in units of z
      and v. */
  lemma Mismatch(aa: int, nn: int, b: int, q: int, r: int, u: real, w: real, z: real, v: real)
    requires aa == q * nn + r && Times(nn as real, u) == Times(b as real, w)
    ensures var same := Times(aa as real, u) == Times((q * b) as real, z) + Times(r as real, v);
      && (v == u && z != w ==> (same <==> q * b == 0))
      && (v != u && z == w ==> (same <==> r == 0))
      && (u == w && v == z && z != u ==> (same <==> q * b + r == 0))
  {
    hide Times;
    IntProduct(q, nn);
    IntProduct(q, b);
    assert aa as real == (q * nn) as real + r as real;
    TimesSum((q * nn) as real, r as real, u);
    TimesAssoc(q as real, nn as real, u);
    TimesAssoc(q as real, b as real, w);
    assert Times(aa as real, u) == Times((q * b) as real, w) + Times(r as real, u);
    Different(q * b, z, w);
    Different(r, v, u);
    TimesSum((q * b) as real, r as real, u);
    TimesSum((q * b) as real, r as real, z);
    Different(q * b + r, z, u);
    assert (q * b + r) as real == (q * b) as real + r as real;
  }

  lemma Different(m: int, p: real, q: real)
    ensures p != q ==> (Times(m as real, p) == Times(m as real, q) <==> m == 0)
  {
    if p < q {
      DifferentScale(m, p, q);
    } else if q < p {
      DifferentScale(m, q, p);
    }
  }

  /** The product of divisor and quotient. */
  lemma ProductNumber(d: Decimal, d2: Decimal, precision: int32, q: Decimal)
    requires q.exp == 0 - precision as int
    ensures Times(Number(d2), Number(q)) == Times((q.value * d2.value) as real, P10(RemainderExponent(d2, precision)))
  {
    hide P10, Times, Units, Number;
    NumberIs(d2);
    NumberIs(q);
    P10Sum(d2.exp, q.exp);
    RearrangeFour(d2.value as real, P10(d2.exp), q.value as real, P10(q.exp));
    IntProduct(q.value, d2.value);
  }

  /** The divisor has been multiplied by the wrong power. */
  lemma ShiftedDivisor(d: Decimal, d2: Decimal, precision: int32)
    requires d2.value != 0 && MIN32 < precision
    requires var e := QuotientExponent(d, d2, precision);
      Wrap(e) < 0 && Wrap(e) != e
    ensures var o := QuoRem(d, d2, precision);
      o.Some? && (Divides(d, d2, precision, o.value.q, o.value.r) <==>
        Abs(d.value) < Abs(d2.value) * Pow10(0 - Wrap(QuotientExponent(d, d2, precision)) as int)
          && LessThanUnit(d, d2, precision))
  {
    hide P10, Times, Units, Number, Pow10, Quo, Rem, QuoRem;
    var e, t := QuotientExponent(d, d2, precision), RemainderExponent(d2, precision);
    Computed(d, d2, precision);
    WrapInRange(0 - precision as int);
    var o, k := QuoRem(d, d2, precision).value, 0 - Wrap(e) as int;
    var n := d2.value * Pow10(k);
    hide Wrap;
    QuoRemInts(d.value, n);
    ProductNumber(d, d2, precision, o.q);
    NumberIs(d);
    NumberIs(o.r);
    IntProduct(d2.value, Pow10(k));
    P10Adds(d.exp, k);
    TimesAssoc(d2.value as real, Pow10(k) as real, P10(d.exp));
    DifferentPowers(d.exp + k, t);
    Mismatch(d.value, n, d2.value, o.q.value, o.r.value, P10(d.exp), P10(d.exp + k), P10(t), P10(d.exp));
    NonZero(o.q.value, d2.value);
    NoQuotient(d.value, n, o.q.value, o.r.value);
    AbsOfProduct(d2.value, Pow10(k));
  }

  lemma DifferentPowers(e: int, f: int)
    requires e != f
    ensures P10(e) != P10(f)
  {
    if e < f {
      P10Increases(e, f);
    } else {
      P10Increases(f, e);
    }
  }

  lemma AbsOfProduct(b: int, p: nat)
    ensures Abs(b * p) == Abs(b) * p
  {
    SignedProduct(Abs(b), p);
    NonNegative(Abs(b), p);
  }

  lemma NonZero(q: int, b: int)
    requires b != 0
    ensures q * b == 0 <==> q == 0
  {
    AbsOfProductInt(q, b);
    if q != 0 {
      AtLeast(Abs(q), Abs(b));
    }
  }

  lemma AbsOfProductInt(q: int, b: int)
    ensures Abs(q * b) == Abs(q) * Abs(b)
  {
    if b >= 0 {
      AbsOfProduct(q, b);
    } else {
      AbsOfProduct(q, -b);
      assert q * b == -(q * -b);
    }
  }

  lemma NoQuotient(a: int, n: int, q: int, r: int)
    requires n != 0 && a == q * n + r && Abs(r) < Abs(n) && (r != 0 ==> Sign(r) == Sign(a))
      && (q != 0 ==> Sign(q) == Sign(a) * Sign(n))
    ensures q == 0 <==> Abs(a) < Abs(n)
    ensures q == 0 ==> r == a
  {
    if q != 0 {
      AbsOfProductInt(q, n);
      AtLeast(Abs(n), Abs(q));
      Commute(Abs(n), Abs(q));
      SameSide(a, n, q, r);
    }
  }

  /** The product and the remainder have the same sign. */
  lemma SameSide(a: int, n: int, q: int, r: int)
    requires n != 0 && a == q * n + r && q != 0 && Sign(q) == Sign(a) * Sign(n) && (r != 0 ==> Sign(r) == Sign(a))
    ensures Abs(a) == Abs(q * n) + Abs(r)
  {
    if (q > 0) == (n > 0) {
      assert q * n > 0;
    } else {
      assert q * n < 0;
    }
  }

  /** The dividend has been multiplied by the wrong power, and the exponent of the remainder is wrong to match. */
  lemma ShiftedDividend(d: Decimal, d2: Decimal, precision: int32)
    requires d2.value != 0 && MIN32 < precision
    requires var e, t := QuotientExponent(d, d2, precision), RemainderExponent(d2, precision);
      Wrap(e) >= 0 && Wrap(e) != e && Wrap(t) == d.exp as int - Wrap(e) as int
    ensures var o := QuoRem(d, d2, precision);
      o.Some? && (Divides(d, d2, precision, o.value.q, o.value.r) <==>
        Abs(d.value) * Pow10(Wrap(QuotientExponent(d, d2, precision))) < Abs(d2.value)
          && LessThanUnit(d, d2, precision))
  {
    hide P10, Times, Units, Number, Pow10, Quo, Rem, QuoRem;
    var e, t := QuotientExponent(d, d2, precision), RemainderExponent(d2, precision);
    Computed(d, d2, precision);
    WrapInRange(0 - precision as int);
    var o, k: nat := QuoRem(d, d2, precision).value, Wrap(e);
    var a := d.value * Pow10(k);
    hide Wrap;
    QuoRemInts(a, d2.value);
    ProductNumber(d, d2, precision, o.q);
    ShiftedNumber(d, k);
    NumberIs(o.r);
    DifferentPowers(d.exp - k, t);
    Mismatch(a, d2.value, d2.value, o.q.value, o.r.value, P10(d.exp - k), P10(d.exp - k), P10(t), P10(d.exp - k));
    NonZero(o.q.value, d2.value);
    NoQuotient(a, d2.value, o.q.value, o.r.value);
    AbsOfProduct(d.value, Pow10(k));
    SameSign(d.value, Pow10(k));
  }

  lemma ShiftedNumber(d: Decimal, k: nat)
    ensures Number(d) == Times((d.value * Pow10(k)) as real, P10(d.exp - k))
  {
    hide P10, Times, Units, Number, Pow10;
    NumberIs(d);
    P10Adds(d.exp - k, k);
    IntProduct(d.value, Pow10(k));
    TimesAssoc(d.value as real, Pow10(k) as real, P10(d.exp - k));
  }

  /** The dividend has been multiplied by the wrong power, but the exponent of the remainder is that of the right
      one. */
  lemma OtherScale(d: Decimal, d2: Decimal, precision: int32)
    requires d2.value != 0 && MIN32 < precision
    requires var e, t := QuotientExponent(d, d2, precision), RemainderExponent(d2, precision);
      Wrap(e) >= 0 && Wrap(e) != e && Wrap(t) == t
    ensures var o := QuoRem(d, d2, precision);
      o.Some? && (Divides(d, d2, precision, o.value.q, o.value.r) <==> d.value == 0)
  {
    hide P10, Times, Units, Number, Pow10, Quo, Rem, QuoRem;
    var e, t := QuotientExponent(d, d2, precision), RemainderExponent(d2, precision);
    Computed(d, d2, precision);
    WrapInRange(0 - precision as int);
    var o, k: nat := QuoRem(d, d2, precision).value, Wrap(e);
    var a := d.value * Pow10(k);
    hide Wrap;
    QuoRemInts(a, d2.value);
    ProductNumber(d, d2, precision, o.q);
    ShiftedNumber(d, k);
    NumberIs(o.r);
    DifferentPowers(d.exp - k, t);
    Mismatch(a, d2.value, d2.value, o.q.value, o.r.value, P10(d.exp - k), P10(d.exp - k), P10(t), P10(t));
    NonZero(d.value, Pow10(k));
    SameSign(d.value, Pow10(k));
    NothingLeft(d2, o.r, precision);
  }

  /** A remainder of zero is small enough. */
  lemma NothingLeft(d2: Decimal, r: Decimal, precision: int32)
    requires d2.value != 0
    ensures r.value == 0 ==> Number(r) == 0.0 && 0.0 < Times(RealAbs(Number(d2)), P10(0 - precision as int))
  {
    hide P10;
    var x, y := P10(d2.exp), P10(0 - precision as int);
    if d2.value > 0 {
      assert d2.value as real * x > 0.0;
    } else {
      assert d2.value as real * x < 0.0;
    }
    assert RealAbs(Number(d2)) * y > 0.0;
  }

  /** Only the exponent of the remainder wraps around. */
  lemma LostRemainder(d: Decimal, d2: Decimal, precision: int32)
    requires d2.value != 0 && MIN32 < precision
    requires var e, t := QuotientExponent(d, d2, precision), RemainderExponent(d2, precision);
      Wrap(e) == e >= 0 && Wrap(t) != t
    ensures var o, e := QuoRem(d, d2, precision), QuotientExponent(d, d2, precision);
      o.Some? && (Divides(d, d2, precision, o.value.q, o.value.r) <==> Rem(d.value * Pow10(e), d2.value) == 0)
  {
    hide P10, Times, Units, Number, Pow10, Quo, Rem, QuoRem;
    var e, t := QuotientExponent(d, d2, precision), RemainderExponent(d2, precision);
    Computed(d, d2, precision);
    WrapInRange(0 - precision as int);
    var o := QuoRem(d, d2, precision).value;
    var a := d.value * Pow10(e);
    var t' := Wrap(t);
    hide Wrap;
    QuoRemInts(a, d2.value);
    ProductNumber(d, d2, precision, o.q);
    ShiftedNumber(d, e);
    NumberIs(o.r);
    DifferentPowers(t', t);
    Mismatch(a, d2.value, d2.value, o.q.value, o.r.value, P10(t), P10(t), P10(t), P10(t'));
    SameSign(d.value, Pow10(e));
    NothingLeft(d2, o.r, precision);
  }

  /** The comparison with a unit on the integers. */
  lemma UnitInIntegers(d: Decimal, d2: Decimal, precision: int32)
    ensures var e := QuotientExponent(d, d2, precision);
      && (e >= 0 ==> (LessThanUnit(d, d2, precision) <==> Abs(d.value) * Pow10(e) < Abs(d2.value)))
      && (e < 0 ==> (LessThanUnit(d, d2, precision) <==> Abs(d.value) < Abs(d2.value) * Pow10(-e)))
  {
    hide P10, Times, Units, Number, Pow10;
    var e, t := QuotientExponent(d, d2, precision), RemainderExponent(d2, precision);
    AbsNumber(d);
    AbsNumber(d2);
    NumberIs(AbsOf(d));
    NumberIs(AbsOf(d2));
    P10Sum(d2.exp, 0 - precision as int);
    TimesAssoc(Abs(d2.value) as real, P10(d2.exp), P10(0 - precision as int));
    if e >= 0 {
      ShiftedNumber(AbsOf(d), e);
      TimesOrder((Abs(d.value) * Pow10(e)) as real, Abs(d2.value) as real, P10(t));
    } else {
      P10Adds(d.exp, -e);
      IntProduct(Abs(d2.value), Pow10(-e));
      TimesAssoc(Abs(d2.value) as real, Pow10(-e) as real, P10(d.exp));
      TimesOrder(Abs(d.value) as real, (Abs(d2.value) * Pow10(-e)) as real, P10(d.exp));
    }
  }

  lemma SmallerDividend(a: int, b: int, j: nat, k: nat)
    ensures Abs(a) * Pow10(j) < Abs(b) ==> Abs(a) < Abs(b) * Pow10(k)
  {
    AtLeast(Abs(a), Pow10(j));
    AtLeast(Abs(b), Pow10(k));
  }

  lemma SmallerShift(a: int, b: int, j: nat, k: nat)
    requires j <= k
    ensures Abs(a) * Pow10(k) < Abs(b) ==> Abs(a) * Pow10(j) < Abs(b)
  {
    Pow10Monotone(j, k);
    Scaled(Pow10(j), Pow10(k), Abs(a));
  }

  lemma LargerDivisor(a: int, b: int, j: nat, k: nat)
    requires j <= k
    ensures Abs(a) < Abs(b) * Pow10(j) ==> Abs(a) < Abs(b) * Pow10(k)
  {
    Pow10Monotone(j, k);
    Scaled(Pow10(j), Pow10(k), Abs(b));
  }
}
