/** What DivRound yields, whatever its int32 exponents do. */
module DecimalRounding {
  import opened Wrappers
  import opened Powers
  import opened Division
  import opened Decimals
  import opened DecimalOverflow

  /** a / b * 10^e */
  function Scale(a: int, b: int, e: int): real
    requires b != 0
  {
    Times(a as real / b as real, P10(e))
  }

  lemma ScaleAdds(a: int, b: int, e: int, f: int)
    requires b != 0
    ensures Scale(a, b, e + f) == Times(Scale(a, b, e), P10(f))
  {
    hide P10, Times;
    P10Sum(e, f);
    TimesAssoc(a as real / b as real, P10(e), P10(f));
  }

  /** The product of the divisor and the ratio. */
  lemma ScaleTimes(a: int, b: int, e: int)
    requires b != 0
    ensures Times(Scale(a, b, e), b as real) == Times(a as real, P10(e))
  {
    hide P10, Times;
    var x := a as real / b as real;
    assert Times(x, b as real) == a as real by {
      QuotientTimes(a as real, b as real);
    }
    TimesAssoc(x, P10(e), b as real);
    TimesCommutes(P10(e), b as real);
    TimesAssoc(x, b as real, P10(e));
  }

  lemma QuotientTimes(a: real, b: real)
    requires b != 0.0
    ensures Times(a / b, b) == a
  {
  }

  /** A product of which one factor is known has one other factor at most. */
  lemma SameFactor(x: real, y: real, b: real)
    requires b != 0.0 && Times(x, b) == Times(y, b)
    ensures x == y
  {
    assert (x - y) * b == 0.0;
  }

  lemma AbsOfTimes(x: real, b: real)
    ensures RealAbs(Times(x, b)) == Times(RealAbs(x), RealAbs(b))
  {
  }

  /** Comparing the scaled ratio with c / 2 on integers. */
  lemma ScaleInIntegers(a: int, b: int, e: int, c: nat)
    requires b != 0
    ensures e >= 0 ==> (2.0 * RealAbs(Scale(a, b, e)) < c as real <==> 2 * Abs(a) * Pow10(e) < c * Abs(b))
    ensures e < 0 ==> (2.0 * RealAbs(Scale(a, b, e)) < c as real <==> 2 * Abs(a) < c * (Abs(b) * Pow10(-e)))
  {
    hide P10, Times, Pow10, Scale;
    var x := RealAbs(Scale(a, b, e));
    ScaleTimes(a, b, e);
    AbsOfTimes(Scale(a, b, e), b as real);
    AbsTimes(a as real, P10(e));
    assert Times(x, Abs(b) as real) == Times(Abs(a) as real, P10(e));
    TimesOrder(2.0 * x, c as real, Abs(b) as real);
    Doubled(x, Abs(b) as real);
    IntProduct(c, Abs(b));
    if e >= 0 {
      P10OfNat(e);
      IntProduct(Abs(a), Pow10(e));
      Commuted(Abs(a), Pow10(e));
    } else {
      P10Inverse(-e);
      P10OfNat(-e);
      TimesOrder(2.0 * Times(Abs(a) as real, P10(e)), (c * Abs(b)) as real, P10(-e));
      Doubled(Abs(a) as real, P10(e));
      TimesAssoc(2.0 * Abs(a) as real, P10(e), P10(-e));
      TimesCommutes(P10(e), P10(-e));
      TimesOneReal(2.0 * Abs(a) as real);
      IntProduct(c * Abs(b), Pow10(-e));
      Assoc(c, Abs(b), Pow10(-e));
    }
  }

  lemma Commuted(a: nat, p: nat)
    ensures 2 * (a * p) == 2 * a * p
  {
  }

  lemma Doubled(x: real, y: real)
    ensures Times(2.0 * x, y) == 2.0 * Times(x, y)
  {
  }

  /** q is y cut towards zero. */
  ghost predicate IsCutOf(q: int, y: real) {
    if y < 0.0 then q <= 0 && q as real - 1.0 < y <= q as real else q >= 0 && q as real <= y < q as real + 1.0
  }

  lemma CutOf(a: int, b: int, q: int, r: int, y: real)
    requires b != 0 && a == q * b + r && Abs(r) < Abs(b) && Times(y, b as real) == a as real
    requires (r != 0 ==> Sign(r) == Sign(a)) && (q != 0 ==> Sign(q) == Sign(a) * Sign(b))
    ensures IsCutOf(q, y) && Times(y - q as real, b as real) == r as real && (y < 0.0 <==> Sign(a) * Sign(b) < 0)
  {
    hide Times;
    IntProduct(q, b);
    TimesSum(y, q as real, b as real);
    var f := y - q as real;
    SignOfFactor(y, b);
    SignOfFactor(f, b);
    AbsOfTimes(f, b as real);
    TimesOrder(RealAbs(f), 1.0, Abs(b) as real);
    TimesCommutes(1.0, Abs(b) as real);
    TimesOneReal(Abs(b) as real);
  }

  lemma SignOfFactor(y: real, b: int)
    requires b != 0
    ensures y < 0.0 <==> if b < 0 then Times(y, b as real) > 0.0 else Times(y, b as real) < 0.0
    ensures y == 0.0 <==> Times(y, b as real) == 0.0
  {
    if b > 0 {
      TimesOrder(y, 0.0, b as real);
      TimesOrder(0.0, y, b as real);
    } else {
      TimesOrder(y, 0.0, -b as real);
      TimesOrder(0.0, y, -b as real);
    }
  }

  /** The division that QuoRem does at the exponent e. */
  ghost predicate DividesAt(a: int, b: int, e: int, q: int, r: int)
    requires b != 0
  {
    && (e >= 0 ==> q == Quo(a * Pow10(e), b) && r == Rem(a * Pow10(e), b))
    && (e < 0 ==> b * Pow10(-e) != 0 && q == Quo(a, b * Pow10(-e)) && r == Rem(a, b * Pow10(-e)))
  }

  lemma DivisionAt(a: int, b: int, e: int, q: int, r: int)
    requires b != 0 && DividesAt(a, b, e, q, r)
    ensures var y := Scale(a, b, e);
      IsCutOf(q, y) && y - q as real == Scale(r, b, if e < 0 then e else 0) && (y < 0.0 <==> Sign(a) * Sign(b) < 0)
  {
    hide P10, Times, Pow10, Quo, Rem, Scale, IsCutOf;
    var y := Scale(a, b, e);
    ScaleTimes(a, b, e);
    if e >= 0 {
      P10OfNat(e);
      IntProduct(a, Pow10(e));
      QuoRemInts(a * Pow10(e), b);
      SameSign(a, Pow10(e));
      CutOf(a * Pow10(e), b, q, r, y);
      ScaleTimes(r, b, 0);
      UnitPower(r as real);
      SameFactor(y - q as real, Scale(r, b, 0), b as real);
    } else {
      var n := b * Pow10(-e);
      QuoRemInts(a, n);
      PositivePower(b, -e);
      ByPower(y, a, b, e);
      CutOf(a, n, q, r, y);
      ScaleTimes(r, b, e);
      ByPower(Scale(r, b, e), r, b, e);
      SameFactor(y - q as real, Scale(r, b, e), n as real);
    }
  }

  lemma UnitPower(x: real)
    ensures Times(x, P10(0)) == x
  {
    assert Pow10(0) == 1;
  }

  lemma ByPower(y: real, a: int, b: int, e: int)
    requires e < 0 && Times(y, b as real) == Times(a as real, P10(e))
    ensures Times(y, (b * Pow10(-e)) as real) == a as real
  {
    hide P10, Times, Pow10;
    IntProduct(b, Pow10(-e));
    P10OfNat(-e);
    P10Inverse(-e);
    TimesAssoc(y, b as real, P10(-e));
    TimesAssoc(a as real, P10(e), P10(-e));
    TimesCommutes(P10(e), P10(-e));
    TimesOneReal(a as real);
  }

  /** The cut quotient, or the next integer away from zero if twice the rest, times a factor, is at least 1. */
  function RoundedBy(q: int, y: real, factor: real): int {
    if Times(2.0 * RealAbs(y - q as real), factor) < 1.0 then q else if y < 0.0 then q - 1 else q + 1
  }

  /** What DivRound is off by in the exponent when it compares twice the remainder with the divisor: nothing, or the
      size of an int32. */
  function Excess(d: Decimal, d2: Decimal, precision: int32): int {
    var e: int := Wrap(QuotientExponent(d, d2, precision));
    if e >= 0 then 0 else Wrap(d.exp as int + precision as int) as int - (d2.exp as int + e)
  }

  /** DivRound cuts the quotient at the exponent it has computed and rounds by a comparison that is off by some
      exponent. */
  lemma DivRoundComputes(d: Decimal, d2: Decimal, precision: int32) returns (q: int)
    requires d2.value != 0
    ensures var o := DivRound(d, d2, precision);
      var e := Wrap(QuotientExponent(d, d2, precision));
      var y := Scale(d.value, d2.value, e);
      && o.Some? && o.value == Decimal(RoundedBy(q, y, P10(Excess(d, d2, precision))), Wrap(0 - precision as int))
      && IsCutOf(q, y)
      && (e < 0 ==> var n := d2.value * Pow10(0 - e as int);
            n != 0 && y - q as real == Scale(Rem(d.value, n), d2.value, e))
  {
    hide P10, Times, Units, Number, Pow10, Quo, Rem, QuoRem, Wrap, Cmp, Scale, IsCutOf, Add, Sub;
    Computed(d, d2, precision);
    var e: int := Wrap(QuotientExponent(d, d2, precision));
    var Parts(cut, r) := QuoRem(d, d2, precision).value;
    q := cut.value;
    DivisionAt(d.value, d2.value, e, q, r.value);
    ComparedExponent(d2, precision);
    RestCompared(r.value, d2, Wrap(r.exp as int + precision as int), if e < 0 then e else 0, Excess(d, d2, precision));
    OneUnit(cut);
  }

  lemma ComparedExponent(d2: Decimal, precision: int32)
    ensures Wrap(Wrap(RemainderExponent(d2, precision)) as int + precision as int) == d2.exp
  {
    hide Wrap;
    var k := WrapDiffers(RemainderExponent(d2, precision));
    WrapPlus(d2.exp as int, k);
    WrapInRange(d2.exp as int);
  }

  lemma RestCompared(r: int, d2: Decimal, e: int32, u: int, g: int)
    requires d2.value != 0 && e as int == d2.exp as int + u + g
    ensures Cmp(Decimal(2 * Abs(r), e), AbsOf(d2)) < 0 <==> Times(2.0 * RealAbs(Scale(r, d2.value, u)), P10(g)) < 1.0
  {
    hide P10, Times, Units, Number, Cmp, Scale;
    var r2, b := Decimal(2 * Abs(r), e), Abs(d2.value) as real;
    CmpCompares(r2, AbsOf(d2));
    NumberIs(r2);
    NumberIs(AbsOf(d2));
    P10Sum(u + g, d2.exp);
    TimesAssoc(r2.value as real, P10(u + g), P10(d2.exp));
    TimesOrder(Times(r2.value as real, P10(u + g)), b, P10(d2.exp));
    var f := RealAbs(Scale(r, d2.value, u + g));
    ScaleTimes(r, d2.value, u + g);
    AbsOfTimes(Scale(r, d2.value, u + g), d2.value as real);
    AbsTimes(r as real, P10(u + g));
    Doubled(Abs(r) as real, P10(u + g));
    Doubled(f, b);
    TimesOrder(2.0 * f, 1.0, b);
    TimesCommutes(1.0, b);
    TimesOneReal(b);
    ScaleAdds(r, d2.value, u, g);
    AbsTimes(Scale(r, d2.value, u), P10(g));
    Doubled(RealAbs(Scale(r, d2.value, u)), P10(g));
  }

  lemma OneUnit(q: Decimal)
    ensures Add(q, Decimal(1, q.exp)) == q.(value := q.value + 1)
      && Sub(q, Decimal(1, q.exp)) == q.(value := q.value - 1)
  {
    assert Pow10(0) == 1;
  }

  /** The nearest multiple of 10^-precision is that with the nearest factor. */
  lemma NearestFactor(d: Decimal, d2: Decimal, precision: int32, m: Decimal)
    requires d2.value != 0 && m.exp == -(precision as int)
    ensures NearestQuotient(Number(d), Number(d2), Number(m), P10(-(precision as int))) <==>
      NearestAway(m.value, Scale(d.value, d2.value, QuotientExponent(d, d2, precision)))
  {
    hide P10, Times, Units, Number, Scale;
    var e, t, s := QuotientExponent(d, d2, precision), RemainderExponent(d2, precision), 0 - precision as int;
    var x := Scale(d.value, d2.value, e);
    NumberIs(d);
    NumberIs(d2);
    NumberIs(m);
    ScaleTimes(d.value, d2.value, e);
    P10Sum(e, t);
    P10Sum(d2.exp, s);
    TimesAssoc(x, d2.value as real, P10(t));
    TimesAssoc(d.value as real, P10(e), P10(t));
    TimesAssoc(d2.value as real, P10(d2.exp), P10(s));
    NonZeroTimes(d2.value as real, P10(d2.exp));
    NearestScaled(Number(d), Number(d2), P10(s), x, m.value);
  }

  lemma NonZeroTimes(b: real, p: real)
    requires b != 0.0 && p > 0.0
    ensures Times(b, p) != 0.0
  {
    TimesOrder(b, 0.0, p);
    TimesOrder(0.0, b, p);
    TimesZero(p);
  }

  lemma NearestScaled(d: real, e: real, u: real, x: real, m: int)
    requires e != 0.0 && u > 0.0 && d == Times(x, Times(e, u))
    ensures NearestQuotient(d, e, Times(m as real, u), u) <==> NearestAway(m, x)
  {
    hide Times;
    var w := Times(RealAbs(e), u);
    NonZeroTimes(RealAbs(e), u);
    TimesOrder(0.0, RealAbs(e), u);
    TimesZero(u);
    AbsTimes(e, u);
    TimesCommutes(m as real, u);
    TimesAssoc(e, u, m as real);
    TimesCommutes(Times(e, u), m as real);
    TimesSum(x, m as real, Times(e, u));
    AbsOfTimes(x - m as real, Times(e, u));
    AbsOfTimes(m as real, Times(e, u));
    AbsOfTimes(x, Times(e, u));
    Doubled(RealAbs(x - m as real), w);
    TimesOrder(2.0 * RealAbs(x - m as real), 1.0, w);
    TimesCommutes(1.0, w);
    TimesOneReal(w);
    TimesOrder(RealAbs(x), RealAbs(m as real), w);
  }

  /** Rounding at the right exponent, by a comparison that may be off. */
  lemma RightExponent(q: int, y: real, factor: real)
    requires IsCutOf(q, y) && factor >= 1.0
    ensures var rest := 2.0 * RealAbs(y - q as real);
      NearestAway(RoundedBy(q, y, factor), y) <==> rest >= 1.0 || Times(rest, factor) < 1.0
  {
    var rest := 2.0 * RealAbs(y - q as real);
    assert rest <= rest * factor;
  }

  /** Rounding at too small an exponent. */
  lemma SmallerExponent(q: int, y: real, x: real, large: real, factor: real)
    requires IsCutOf(q, y) && large >= 4.0 && x == Times(y, large) && (factor == 1.0 || factor == large)
    ensures NearestAway(RoundedBy(q, y, factor), x) <==> 2.0 * RealAbs(x) < if factor == 1.0 then 1.0 else 3.0
  {
    hide Times;
    FarApart(y, large, 4.0);
    Doubled(RealAbs(y), large);
    AbsTimes(y, large);
    TimesOneReal(2.0 * RealAbs(y - q as real));
    if q != 0 {
      TooFar(RoundedBy(q, y, factor), y, x);
    }
  }

  /** Nothing nearest, or next, to a number other than zero is nearest to one four times as large. */
  lemma TooFar(m: int, y: real, x: real)
    requires RealAbs(x) >= 4.0 * RealAbs(y) && RealAbs(y) >= 1.0 && RealAbs(m as real) <= RealAbs(y) + 1.0
    ensures !NearestAway(m, x) && 2.0 * RealAbs(x) >= 3.0
  {
  }

  lemma FarApart(y: real, factor: real, k: real)
    requires k > 0.0
    ensures factor >= k ==> RealAbs(Times(y, factor)) >= k * RealAbs(y) && (y < 0.0 <==> Times(y, factor) < 0.0)
    ensures 0.0 < factor <= k ==> RealAbs(Times(y, factor)) <= k * RealAbs(y) && (y < 0.0 <==> Times(y, factor) < 0.0)
  {
    var a := RealAbs(y);
    assert (factor - k) * a == factor * a - k * a;
    if factor > 0.0 {
      AbsTimes(y, factor);
      TimesOrder(y, 0.0, factor);
      TimesZero(factor);
    }
  }

  /** Rounding at too large an exponent. */
  lemma LargerExponent(q: int, y: real, x: real, small: real)
    requires IsCutOf(q, y) && 0.0 < small <= 0.25 && x == Times(y, small)
    ensures NearestAway(RoundedBy(q, y, 1.0), x) <==> 2.0 * RealAbs(y) < 1.0
  {
    hide Times;
    FarApart(y, small, 0.25);
    TimesOneReal(2.0 * RealAbs(y - q as real));
    var m := RoundedBy(q, y, 1.0);
    if m != 0 {
      TooNear(m, y, x);
    }
  }

  lemma TooNear(m: int, y: real, x: real)
    requires 4.0 * RealAbs(x) <= RealAbs(y) && m != 0 && RealAbs(y) < RealAbs(m as real) + 1.0
    ensures !NearestAway(m, x)
  {
  }

  /** The operands on which the exponents are right in the end, or do not matter. */
  predicate RoundsRight(d: Decimal, d2: Decimal, precision: int32)
    requires d2.value != 0
  {
    var a, b, e, shown := Abs(d.value), Abs(d2.value), QuotientExponent(d, d2, precision),
      d.exp as int + precision as int;
    MIN32 < precision &&
    if e > MAX32 then 2 * a * Pow10(e) < (if e < TWO_32 && shown <= MAX32 then 3 else 1) * b
    else if e >= 0 then true
    else if e >= MIN32 then
      shown >= MIN32 ||
      var n := d2.value * Pow10(-e);
      PositivePower(d2.value, -e);
      var twice := 2 * Abs(Rem(d.value, n));
      twice >= b * Pow10(-e) || twice * Pow10(e + TWO_32) < b
    else if e + TWO_32 >= 0 then 2 * a * Pow10(e + TWO_32) < b
    else 2 * a < b * Pow10(-(e + TWO_32))
  }

  /** DivRound yields the nearest multiple on exactly these operands. */
  lemma DivRoundExact(d: Decimal, d2: Decimal, precision: int32)
    requires d2.value != 0
    ensures var o, s := DivRound(d, d2, precision), 0 - precision as int;
      && o.Some?
      && (o.value.exp == s && NearestQuotient(Number(d), Number(d2), Number(o.value), P10(s)) <==>
        RoundsRight(d, d2, precision))
  {
    hide P10, Number, Wrap, Scale, IsCutOf, DivRound, Excess, RoundedBy, NearestAway, NearestQuotient;
    var q := DivRoundComputes(d, d2, precision);
    if precision > MIN32 {
      var e := QuotientExponent(d, d2, precision);
      WrapInRange(0 - precision as int);
      NearestFactor(d, d2, precision, DivRound(d, d2, precision).value);
      Wrapped(d, d2, precision);
      if MIN32 <= e <= MAX32 {
        RoundedInRange(d, d2, precision, q);
      } else {
        RoundedBeyond(d, d2, precision, q);
      }
    }
  }

  lemma RoundedInRange(d: Decimal, d2: Decimal, precision: int32, q: int)
    requires d2.value != 0 && MIN32 < precision && MIN32 <= QuotientExponent(d, d2, precision) <= MAX32
    requires var e := QuotientExponent(d, d2, precision);
      var y := Scale(d.value, d2.value, e);
      IsCutOf(q, y) && (e < 0 ==> var n := d2.value * Pow10(-e);
        n != 0 && y - q as real == Scale(Rem(d.value, n), d2.value, e))
    ensures var y := Scale(d.value, d2.value, QuotientExponent(d, d2, precision));
      NearestAway(RoundedBy(q, y, P10(Excess(d, d2, precision))), y) <==> RoundsRight(d, d2, precision)
  {
    hide P10, Times, Pow10, Rem, Scale, IsCutOf, Excess, RoundedBy, NearestAway;
    var e := QuotientExponent(d, d2, precision);
    var y := Scale(d.value, d2.value, e);
    Powers32();
    Excesses(d, d2, precision);
    RightExponent(q, y, P10(Excess(d, d2, precision)));
    TimesOneReal(2.0 * RealAbs(y - q as real));
    if e < 0 {
      RestInIntegers(d.value, d2.value, e, y - q as real);
    }
  }

  lemma RoundedBeyond(d: Decimal, d2: Decimal, precision: int32, q: int)
    requires d2.value != 0 && MIN32 < precision && !(MIN32 <= QuotientExponent(d, d2, precision) <= MAX32)
    requires IsCutOf(q, Scale(d.value, d2.value, Wrap(QuotientExponent(d, d2, precision))))
    ensures var e := QuotientExponent(d, d2, precision);
      var m := RoundedBy(q, Scale(d.value, d2.value, Wrap(e)), P10(Excess(d, d2, precision)));
      NearestAway(m, Scale(d.value, d2.value, e)) <==> RoundsRight(d, d2, precision)
  {
    hide P10, Times, Pow10, Rem, Scale, IsCutOf, Excess, RoundedBy, NearestAway, Wrap;
    var e := QuotientExponent(d, d2, precision);
    var k: int := Wrap(e);
    var x, y := Scale(d.value, d2.value, e), Scale(d.value, d2.value, k);
    Wrapped(d, d2, precision);
    ScaleAdds(d.value, d2.value, k, e - k);
    Powers32();
    Excesses(d, d2, precision);
    if e > MAX32 {
      SmallerExponent(q, y, x, P10(TWO_32), P10(Excess(d, d2, precision)));
      ScaleInIntegers(d.value, d2.value, e, 1);
      ScaleInIntegers(d.value, d2.value, e, 3);
    } else {
      LargerExponent(q, y, x, P10(-TWO_32));
      ScaleInIntegers(d.value, d2.value, k, 1);
    }
  }

  lemma Powers32()
    ensures P10(0) == 1.0 && P10(TWO_32) >= 4.0 && 0.0 < P10(-TWO_32) <= 0.25
  {
    assert Pow10(0) == 1 && Pow10(1) == 10;
    assert P10(1) == 10.0 && P10(-1) == 0.1;
    hide P10, Pow10;
    P10Increases(1, TWO_32);
    P10Increases(-TWO_32, -1);
  }

  /** The possible errors of the comparison. */
  lemma Excesses(d: Decimal, d2: Decimal, precision: int32)
    requires MIN32 < precision
    ensures var e, shown, g := QuotientExponent(d, d2, precision), d.exp as int + precision as int,
      Excess(d, d2, precision);
      && (e > MAX32 ==> g == if e < TWO_32 && shown <= MAX32 then TWO_32 else 0)
      && (0 <= e <= MAX32 ==> g == 0)
      && (MIN32 <= e < 0 ==> g == if shown >= MIN32 then 0 else TWO_32)
      && (e < MIN32 ==> g == 0)
  {
    Wrapped(d, d2, precision);
  }

  /** The rest of the quotient on integers. */
  lemma RestInIntegers(a: int, b: int, e: int, f: real)
    requires b != 0 && MIN32 <= e < 0 && b * Pow10(-e) != 0 && f == Scale(Rem(a, b * Pow10(-e)), b, e)
    ensures var twice := 2 * Abs(Rem(a, b * Pow10(-e)));
      && (2.0 * RealAbs(f) >= 1.0 <==> twice >= Abs(b) * Pow10(-e))
      && (Times(2.0 * RealAbs(f), P10(TWO_32)) < 1.0 <==> twice * Pow10(e + TWO_32) < Abs(b))
  {
    hide P10, Times, Pow10, Rem, Scale;
    var r := Rem(a, b * Pow10(-e));
    ScaleInIntegers(r, b, e, 1);
    ScaleInIntegers(r, b, e + TWO_32, 1);
    ScaleAdds(r, b, e, TWO_32);
    AbsTimes(f, P10(TWO_32));
    Doubled(RealAbs(f), P10(TWO_32));
  }

  lemma FirstPowers()
    ensures Pow10(0) == 1 && Pow10(1) == 10
  {
  }

  /** Nothing above 1 is less than a unit of the least exponent. */
  lemma NotLess(r: Decimal)
    requires r.value > 1
    ensures Cmp(r, Decimal(1, MIN32)) == 1
  {
    hide Pow10;
    FirstPowers();
    if r.exp != MIN32 {
      AtLeast(Pow10(r.exp - MIN32), r.value);
      Commute(Pow10(r.exp - MIN32), r.value);
    }
  }

  /** 10^(2^31 - 1) by 10^(-2^31): the exponent of the quotient wraps around to -1, so that the quotient is 0, and 1
      when rounded. */
  lemma QuotientOverflows(d: Decimal, d2: Decimal)
    requires d == Decimal(1, MAX32) && d2 == Decimal(1, MIN32)
    ensures QuoRem(d, d2, 0) == Some(Parts(Decimal(0, 0), d)) && !Divides(d, d2, 0, Decimal(0, 0), d)
    ensures DivRound(d, d2, 0) == Some(Decimal(1, 0))
      && !NearestQuotient(Number(d), Number(d2), Number(Decimal(1, 0)), P10(0))
  {
    hide Pow10, P10, Number, Divides, NearestQuotient, Cmp, Quo, Rem, Add, Sub, QuoRem, DivRound;
    FirstPowers();
    Computed(d, d2, 0);
    OneByTen(1);
    NotLess(Decimal(2, MAX32));
    OneUnit(Decimal(0, 0));
    DivRoundOf(d, d2, 0, Decimal(0, 0), d);
    Pow10Monotone(1, TWO_32 - 1);
    QuoRemExact(d, d2, 0);
    DivRoundExact(d, d2, 0);
  }

  lemma OneByTen(a: int)
    requires 0 <= a < 10
    ensures Quo(a, 10) == 0 && Rem(a, 10) == a
  {
  }

  lemma DivRoundOf(d: Decimal, d2: Decimal, precision: int32, q: Decimal, r: Decimal)
    requires QuoRem(d, d2, precision) == Some(Parts(q, r)) && d.value > 0 && d2.value > 0
    requires Cmp(Decimal(2 * Abs(r.value), Wrap(r.exp as int + precision as int)), d2) >= 0
    ensures DivRound(d, d2, precision) == Some(Add(q, Decimal(1, Wrap(0 - precision as int))))
  {
    hide QuoRem, Add, Sub, Cmp, Wrap;
  }

  /** 4 by 1 in units of 10^(-2^31), rounded to tens: the division is right, but the result is 10. */
  lemma RoundingOverflows(d: Decimal, d2: Decimal)
    requires d == Decimal(4, MIN32) && d2 == Decimal(1, MIN32)
    ensures NoWrap(d, d2, -1) && DivRound(d, d2, -1) == Some(Decimal(1, 1))
    ensures !NearestQuotient(Number(d), Number(d2), Number(Decimal(1, 1)), P10(1))
  {
    hide Pow10, P10, Number, NearestQuotient, Cmp, Quo, Rem, Add, Sub, QuoRem, DivRound;
    FirstPowers();
    Computed(d, d2, -1);
    OneByTen(4);
    NotLess(Decimal(8, MAX32));
    OneUnit(Decimal(0, 1));
    DivRoundOf(d, d2, -1, Decimal(0, 1), d);
    DivRoundExact(d, d2, -1);
    NotRight(d, d2);
  }

  lemma NotRight(d: Decimal, d2: Decimal)
    requires d == Decimal(4, MIN32) && d2 == Decimal(1, MIN32)
    ensures !RoundsRight(d, d2, -1)
  {
    hide Pow10, Rem;
    FirstPowers();
    OneByTen(4);
    AtLeast(Pow10(TWO_32 - 1), 8);
  }
}
