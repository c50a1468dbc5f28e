/** Decimal: arbitrary-precision fixed-point numbers with an int32 exponent. */
module Decimals {
  import opened Wrappers
  import opened Powers
  import opened Division

  const MIN32 := -0x8000_0000
  const MAX32 := 0x7FFF_FFFF
  const TWO_32 := 0x1_0000_0000

  type int32 = x: int | MIN32 <= x <= MAX32

  /** int32 arithmetic wraps around. */
  function Wrap(x: int): int32 {
    (x - MIN32) % TWO_32 + MIN32
  }

  lemma WrapInRange(x: int)
    ensures MIN32 <= x <= MAX32 ==> Wrap(x) == x
  {
  }

  lemma WrapSum(x: int, p: int)
    ensures Wrap(Wrap(x) as int - Wrap(0 - p) as int) == Wrap(x + p)
    ensures Wrap(Wrap(0 - p) as int + x) == Wrap(x - p)
  {
    hide Wrap;
    var j := WrapDiffers(x);
    var k := WrapDiffers(0 - p);
    WrapPlus(x + p, j - k);
    WrapPlus(x - p, k);
  }

  lemma WrapDiffers(x: int) returns (k: int)
    ensures Wrap(x) == x + TWO_32 * k
  {
    Euclid(x - MIN32, TWO_32);
    k := -((x - MIN32) / TWO_32);
  }

  lemma WrapPlus(x: int, k: int)
    ensures Wrap(x + TWO_32 * k) == Wrap(x)
  {
    AddMultiple(x - MIN32, TWO_32, k);
  }

  datatype Decimal = Decimal(value: int, exp: int32)

  /** The number in units of 10^e. */
  ghost function Units(d: Decimal, e: int): real {
    Times(d.value as real, P10(d.exp - e))
  }

  ghost function Number(d: Decimal): real {
    Units(d, 0)
  }

  lemma UnitsOf(d: Decimal, e: int, f: int)
    ensures Units(d, e) == Times(Units(d, f), P10(f - e))
  {
    hide P10, Times;
    P10Sum(d.exp - f, f - e);
    TimesAssoc(d.value as real, P10(d.exp - f), P10(f - e));
  }

  function Floor(x: nat, y: nat): nat
    requires y > 0
  {
    x / y
  }

  lemma FloorIs(x: nat, y: nat)
    requires y > 0
    ensures x == y * Floor(x, y) + x % y && x % y < y
  {
    Euclid(x, y);
  }

  /** big.Int.Quo: towards zero. */
  function Quo(a: int, b: int): int
    requires b != 0
  {
    var q: int := Floor(Abs(a), Abs(b));
    if (a < 0) != (b < 0) then -q else q
  }

  /** big.Int.Rem */
  function Rem(a: int, b: int): int
    requires b != 0
  {
    a - Quo(a, b) * b
  }

  function Abs(x: int): nat {
    if x < 0 then -x else x
  }

  function Sign(x: int): int {
    if x < 0 then -1 else if x > 0 then 1 else 0
  }

  function RealAbs(x: real): real {
    if x < 0.0 then -x else x
  }

  lemma QuoRemInts(a: int, b: int)
    requires b != 0
    ensures a == Quo(a, b) * b + Rem(a, b) && Abs(Rem(a, b)) < Abs(b)
    ensures Rem(a, b) != 0 ==> Sign(Rem(a, b)) == Sign(a)
    ensures Quo(a, b) != 0 ==> Sign(Quo(a, b)) == Sign(a) * Sign(b)
  {
    FloorIs(Abs(a), Abs(b));
    hide Floor;
    SignedQuotient(a, b, Floor(Abs(a), Abs(b)), Abs(a) % Abs(b));
  }

  lemma SignedQuotient(a: int, b: int, q: int, s: int)
    requires b != 0 && Abs(a) == Abs(b) * q + s && 0 <= s < Abs(b) && q >= 0
    ensures var q' := if (a < 0) != (b < 0) then -q else q;
      var r := a - q' * b;
      Abs(r) == s && (r != 0 ==> Sign(r) == Sign(a)) && (q' != 0 ==> Sign(q') == Sign(a) * Sign(b))
  {
    SignedProduct(q, b);
    if a == 0 && q > 0 {
      AtLeast(Abs(b), q);
    }
  }

  lemma SignedProduct(q: int, b: int)
    requires q >= 0
    ensures (-q) * b == -(q * b) && Abs(b) * q == if b < 0 then -(q * b) else q * b
  {
  }

  function Rescale(d: Decimal, exp: int32): (r: Decimal)
    ensures r.exp == exp
  {
    if exp > d.exp then Decimal(Quo(d.value, Pow10(exp - d.exp)), exp)
    else Decimal(d.value * Pow10(d.exp - exp), exp)
  }

  /** Rescaling is exact towards smaller exponents and cuts towards zero otherwise. */
  lemma RescaleCuts(d: Decimal, exp: int32)
    ensures var x, m := Units(d, exp), Rescale(d, exp).value;
      exp <= d.exp ==> m as real == x
    ensures var x, m := Units(d, exp), Rescale(d, exp).value;
      if d.value >= 0 then m >= 0 && m as real <= x < m as real + 1.0 else m <= 0 && m as real - 1.0 < x <= m as real
  {
    hide P10, Times;
    if exp <= d.exp {
      var n := d.exp - exp;
      P10OfNat(n);
      IntProduct(d.value, Pow10(n));
      hide Pow10;
      SignOfProduct(d.value, Pow10(n));
    } else {
      var n := exp - d.exp;
      P10OfNat(n);
      P10Inverse(n);
      hide Pow10;
      QuoRemInts(d.value, Pow10(n));
      CutQuotient(d.value, Pow10(n), Quo(d.value, Pow10(n)), Rem(d.value, Pow10(n)), P10(-n));
    }
  }

  lemma IntProduct(a: int, b: int)
    ensures (a * b) as real == Times(a as real, b as real)
  {
  }

  lemma SignOfProduct(a: int, p: nat)
    requires p > 0
    ensures a >= 0 ==> a * p >= 0
    ensures a < 0 ==> a * p < 0
  {
    AtLeast(p, a);
  }

  lemma CutQuotient(a: int, p: nat, q: int, r: int, y: real)
    requires p > 0 && a == q * p + r && Abs(r) < p && (r != 0 ==> Sign(r) == Sign(a))
      && (q != 0 ==> Sign(q) == Sign(a) * Sign(p))
    requires Times(p as real, y) == 1.0
    ensures var x := Times(a as real, y);
      if a >= 0 then q >= 0 && q as real <= x < q as real + 1.0 else q <= 0 && q as real - 1.0 < x <= q as real
  {
    assert y > 0.0 by {
      PositiveFactor(p as real, y);
    }
    IntProduct(q, p);
    CutReal(a as real, p as real, q as real, r as real, y);
  }

  lemma PositiveFactor(p: real, y: real)
    requires p > 0.0 && Times(p, y) == 1.0
    ensures y > 0.0
  {
    NotPositive(p, y);
  }

  lemma NotPositive(p: real, y: real)
    requires p > 0.0
    ensures y <= 0.0 ==> Times(p, y) <= 0.0
  {
  }

  lemma CutReal(a: real, p: real, q: real, r: real, y: real)
    requires a == Times(q, p) + r && -p < r < p && y > 0.0 && Times(p, y) == 1.0
    ensures Times(a, y) == q + Times(r, y) && -1.0 < Times(r, y) < 1.0
    ensures r >= 0.0 ==> Times(r, y) >= 0.0
    ensures r <= 0.0 ==> Times(r, y) <= 0.0
  {
    hide Times;
    TimesSum(Times(q, p), r, y);
    TimesAssoc(q, p, y);
    TimesOneReal(q);
    TimesOrder(r, p, y);
    TimesOrder(-p, r, y);
    TimesNegated(p, y);
    TimesOrder(r, 0.0, y);
    TimesZero(y);
  }

  function Min(x: int32, y: int32): int32 {
    if x <= y then x else y
  }

  function Add(d: Decimal, d2: Decimal): Decimal {
    var e := Min(d.exp, d2.exp);
    Decimal(Rescale(d, e).value + Rescale(d2, e).value, e)
  }

  function Sub(d: Decimal, d2: Decimal): Decimal {
    var e := Min(d.exp, d2.exp);
    Decimal(Rescale(d, e).value - Rescale(d2, e).value, e)
  }

  function AbsOf(d: Decimal): Decimal {
    Decimal(Abs(d.value), d.exp)
  }

  function Cmp(d: Decimal, d2: Decimal): int {
    if d.exp == d2.exp then Sign(d.value - d2.value)
    else
      var e := Min(d.exp, d2.exp);
      Sign(Rescale(d, e).value - Rescale(d2, e).value)
  }

  lemma UnitsOwn(d: Decimal)
    ensures Units(d, d.exp) == d.value as real
  {
  }

  lemma NumberFrom(d: Decimal, e: int)
    ensures Number(d) == Times(Units(d, e), P10(e))
  {
    UnitsOf(d, 0, e);
  }

  lemma AddIsExact(d: Decimal, d2: Decimal)
    ensures Number(Add(d, d2)) == Number(d) + Number(d2)
  {
    hide P10, Times, Rescale, Number, Units;
    var e := Min(d.exp, d2.exp);
    RescaleCuts(d, e);
    RescaleCuts(d2, e);
    UnitsOwn(Add(d, d2));
    NumberFrom(Add(d, d2), e);
    NumberFrom(d, e);
    NumberFrom(d2, e);
    TimesSum(Units(d, e), Units(d2, e), P10(e));
  }

  lemma SubIsExact(d: Decimal, d2: Decimal)
    ensures Number(Sub(d, d2)) == Number(d) - Number(d2)
  {
    hide P10, Times, Rescale, Number, Units;
    var e := Min(d.exp, d2.exp);
    RescaleCuts(d, e);
    RescaleCuts(d2, e);
    UnitsOwn(Sub(d, d2));
    NumberFrom(Sub(d, d2), e);
    NumberFrom(d, e);
    NumberFrom(d2, e);
    TimesSum(Units(d, e), Units(d2, e), P10(e));
  }

  lemma TimesSum(x: real, y: real, p: real)
    ensures Times(x + y, p) == Times(x, p) + Times(y, p) && Times(x - y, p) == Times(x, p) - Times(y, p)
  {
  }

  /** Cmp compares the numbers. */
  lemma CmpCompares(d: Decimal, d2: Decimal)
    ensures Cmp(d, d2) == if Number(d) < Number(d2) then -1 else if Number(d) == Number(d2) then 0 else 1
  {
    hide P10, Times, Rescale, Number, Units;
    var e := Min(d.exp, d2.exp);
    RescaleCuts(d, e);
    RescaleCuts(d2, e);
    UnitsOwn(d);
    UnitsOwn(d2);
    NumberFrom(d, e);
    NumberFrom(d2, e);
    TimesOrder(Units(d, e), Units(d2, e), P10(e));
  }

  lemma TimesOrder(x: real, y: real, p: real)
    requires p > 0.0
    ensures x < y <==> Times(x, p) < Times(y, p)
    ensures x == y <==> Times(x, p) == Times(y, p)
  {
    if x < y {
      assert (y - x) * p > 0.0;
    } else if y < x {
      assert (x - y) * p > 0.0;
    }
  }

  lemma AbsNumber(d: Decimal)
    ensures Number(AbsOf(d)) == RealAbs(Number(d))
    ensures Sign(d.value) == if Number(d) < 0.0 then -1 else if Number(d) == 0.0 then 0 else 1
  {
    hide P10, Times;
    TimesOrder(d.value as real, 0.0, P10(d.exp));
    TimesOrder(0.0, d.value as real, P10(d.exp));
    TimesSum(0.0, d.value as real, P10(d.exp));
    TimesZero(P10(d.exp));
  }

  /** m is the integer nearest to x, and of two the one away from zero. */
  ghost predicate NearestAway(m: int, x: real) {
    var gap := RealAbs(x - m as real);
    gap < 0.5 || (gap == 0.5 && RealAbs(m as real) > RealAbs(x))
  }

  /** m is the integer nearest to x, and of two the even one. */
  ghost predicate NearestEven(m: int, x: real) {
    var gap := RealAbs(x - m as real);
    gap < 0.5 || (gap == 0.5 && m % 2 == 0)
  }

  lemma NearestUnique(m: int, n: int, x: real)
    ensures NearestAway(m, x) && NearestAway(n, x) ==> m == n
    ensures NearestEven(m, x) && NearestEven(n, x) ==> m == n
  {
    if m < n {
      assert m as real + 1.0 <= n as real;
      if n as real == m as real + 1.0 {
        assert n == m + 1;
      }
    } else if n < m {
      assert n as real + 1.0 <= m as real;
      if m as real == n as real + 1.0 {
        assert m == n + 1;
      }
    }
  }

  /** Half a unit away from zero, cut towards zero. */
  function RoundTenth(v: int): int {
    var shifted := if v < 0 then v - 5 else v + 5;
    var q, m := shifted / 10, shifted % 10;
    if q < 0 && m != 0 then q + 1 else q
  }

  /** The exponent of one digit more than places: -places - 1 in int32. */
  function OneMore(places: int32): int32 {
    var negated: int := Wrap(0 - places as int);
    Wrap(negated - 1)
  }

  method Round(d: Decimal, places: int32) returns (ret: Decimal)
    ensures ret == Rounded(d, places)
  {
    ret := Rescale(d, OneMore(places));
    if Sign(ret.value) < 0 {
      ret := ret.(value := ret.value - 5);
    } else {
      ret := ret.(value := ret.value + 5);
    }
    var m := ret.value % 10;
    ret := ret.(value := ret.value / 10);
    ret := ret.(exp := Wrap(ret.exp as int + 1));
    if Sign(ret.value) < 0 && m != 0 {
      ret := ret.(value := ret.value + 1);
    }
  }

  ghost function Rounded(d: Decimal, places: int32): Decimal {
    var cut := Rescale(d, OneMore(places));
    Decimal(RoundTenth(cut.value), Wrap(cut.exp as int + 1))
  }

  lemma OneMoreIs(places: int32)
    ensures OneMore(places) == -(places as int) - 1
    ensures Wrap(OneMore(places) as int + 1) == if places == MIN32 then MIN32 else -(places as int)
  {
  }

  /** The digits of the result are those of the nearest multiple of 10^-places, ties away from zero; at the least int32
      the exponent wraps around, and then the result is right only if it is zero. */
  lemma RoundIsNearest(d: Decimal, places: int32)
    ensures var e, r := 0 - places as int, Rounded(d, places);
      NearestAway(r.value, Units(d, e)) && (places > MIN32 ==> r.exp == e)
      && (Number(r) == Times(r.value as real, P10(e)) <==> places > MIN32 || RealAbs(Units(d, e)) < 0.5)
  {
    hide P10, Times, Rescale, Units, RoundTenth, Wrap, OneMore, Number, NearestAway;
    RoundedUnits(d, places);
    var e, r := 0 - places as int, Rounded(d, places);
    NumberFrom(r, r.exp);
    UnitsOwn(r);
    NearestZero(r.value, Units(d, e));
    if places == MIN32 {
      P10Increases(MIN32, e);
      DifferentScale(r.value, P10(MIN32), P10(e));
    }
  }

  lemma RoundedUnits(d: Decimal, places: int32)
    ensures var e, r := 0 - places as int, Rounded(d, places);
      NearestAway(r.value, Units(d, e)) && r.exp == if places > MIN32 then e else MIN32
  {
    hide P10, Times, Rescale, Units, RoundTenth, Wrap, OneMore, NearestAway;
    OneMoreIs(places);
    var e := 0 - places as int;
    RescaleCuts(d, e - 1);
    UnitsOf(d, e - 1, e);
    TenUnits();
    TimesTen(Units(d, e));
    NearestOfCut(Rescale(d, e - 1).value, Units(d, e - 1), Units(d, e), d.value >= 0);
  }

  lemma NearestZero(m: int, x: real)
    requires NearestAway(m, x)
    ensures m == 0 <==> RealAbs(x) < 0.5
  {
  }

  lemma DifferentScale(m: int, p: real, q: real)
    requires p < q
    ensures Times(m as real, p) == Times(m as real, q) <==> m == 0
  {
    if m > 0 {
      assert m as real * (q - p) > 0.0;
    } else if m < 0 {
      assert m as real * (q - p) < 0.0;
    }
  }

  lemma TenUnits()
    ensures P10(1) == 10.0
  {
    assert Pow10(1) == 10 * Pow10(0);
  }

  lemma TimesTen(x: real)
    ensures Times(x, 10.0) == 10.0 * x
  {
  }

  lemma NearestOfCut(v: int, y: real, x: real, positive: bool)
    requires y == 10.0 * x
    requires if positive then v >= 0 && v as real <= y < v as real + 1.0 else v <= 0 && v as real - 1.0 < y <= v as real
    ensures NearestAway(RoundTenth(v), x)
  {
    var m := RoundTenth(v);
    if v >= 0 {
      assert 10 * m - 5 <= v <= 10 * m + 4;
    } else {
      assert 10 * m - 4 <= v <= 10 * m + 5;
    }
  }

  /** r is the nearest multiple of 10^-places, of two the even one. */
  ghost predicate BankRounded(d: Decimal, places: int32, r: Decimal) {
    EvenMultiple(r, 0 - places as int, Units(d, 0 - places as int))
  }

  ghost predicate EvenMultiple(r: Decimal, e: int, x: real) {
    exists m: int :: IsMultiple(r, m, e) && NearestEven(m, x)
  }

  ghost predicate IsMultiple(r: Decimal, m: int, e: int) {
    Number(r) == Times(m as real, P10(e))
  }

  method RoundBank(d: Decimal, places: int32) returns (round: Decimal)
    ensures places > MIN32 ==> round.exp == -(places as int) && NearestEven(round.value, Units(d, -(places as int)))
    ensures BankRounded(d, places, round) <==> places > MIN32 || RealAbs(Units(d, 0 - places as int)) < 0.5
  {
    hide P10, Times, Rescale, Units, Wrap, OneMore, Number, BankRounded, NearestAway, NearestEven, Rounded, Cmp, Sub;
    ghost var x := Units(d, 0 - places as int);
    round := Round(d, places);
    ghost var r := round;
    var remainder := AbsOf(Sub(d, round));
    var half := Decimal(5, OneMore(places));
    HalfUnit(d, places, round, remainder, half);
    var tie := Cmp(remainder, half) == 0;
    if tie && round.value % 2 != 0 {
      if Sign(round.value) < 0 {
        round := round.(value := round.value + 1);
      } else {
        round := round.(value := round.value - 1);
      }
    }
    if places > MIN32 {
      EvenOne(x, r.value, round.value, tie);
      EvenNumber(d, places, round);
    } else {
      LeastPlaces(d, r, round, tie);
    }
  }

  /** 10^(2^31) at the least int32 of places: both yield 10^(-2^31). */
  method LeastPlacesOverflow(d: Decimal) returns (r: Decimal, bank: Decimal)
    requires d == Decimal(10, MAX32)
    ensures r.value == 1 && r.exp == MIN32 && Number(r) != Number(d) && Number(d) == P10(0 - MIN32)
    ensures !BankRounded(d, MIN32, bank)
  {
    hide P10, Times, Units, Number, BankRounded, NearestAway, Rounded;
    var e := 0 - MIN32;
    TenUnitsOfLargest(d);
    RoundedUnits(d, MIN32);
    RoundIsNearest(d, MIN32);
    r := Round(d, MIN32);
    OneNearest(r.value);
    OneTimes(P10(e), 0);
    bank := RoundBank(d, MIN32);
  }

  lemma OneNearest(m: int)
    ensures NearestAway(m, 1.0) <==> m == 1
  {
  }

  lemma TenUnitsOfLargest(d: Decimal)
    requires d == Decimal(10, MAX32)
    ensures Units(d, 0 - MIN32) == 1.0 && Number(d) == P10(0 - MIN32)
  {
    hide P10;
    P10Step(MAX32);
    P10Step(-1);
    assert P10(0) == 1.0 by {
      P10Inverted(0);
    }
  }

  /** Moving an odd result towards zero on a tie. */
  lemma EvenOne(x: real, m: int, n: int, tie: bool)
    requires NearestAway(m, x) && (tie <==> RealAbs(x - m as real) == 0.5)
    requires n == if tie && m % 2 != 0 then m - Sign(m) else m
    ensures NearestEven(n, x)
  {
  }

  lemma EvenNumber(d: Decimal, places: int32, r: Decimal)
    requires places > MIN32 && r.exp == 0 - places as int && NearestEven(r.value, Units(d, 0 - places as int))
    ensures BankRounded(d, places, r)
  {
    hide P10, Times, NearestEven;
    NumberFrom(r, r.exp);
    UnitsOwn(r);
    assert IsMultiple(r, r.value, r.exp);
  }

  /** At the least int32 the exponent is too small by 2^32. */
  lemma LeastPlaces(d: Decimal, r: Decimal, round: Decimal, tie: bool)
    requires r == Rounded(d, MIN32) && round.exp == r.exp
    requires round.value == if tie && r.value % 2 != 0 then r.value - Sign(r.value) else r.value
    requires tie <==> Cmp(AbsOf(Sub(d, r)), Decimal(5, OneMore(MIN32))) == 0
    ensures BankRounded(d, MIN32, round) <==> RealAbs(Units(d, 0 - MIN32)) < 0.5
  {
    hide P10, Times, Rescale, Units, Wrap, OneMore, Number, NearestAway, NearestEven, Rounded, Cmp, Sub;
    var e := 0 - MIN32;
    var x, p, q := Units(d, e), P10(MIN32), P10(e);
    RoundedUnits(d, MIN32);
    OneMoreIs(MIN32);
    NearestZero(r.value, x);
    NumberFrom(round, MIN32);
    NumberFrom(r, MIN32);
    UnitsOwn(round);
    UnitsOwn(r);
    NumberFrom(d, e);
    var half := Decimal(5, OneMore(MIN32));
    HalfNumber(half, e);
    CmpCompares(AbsOf(Sub(d, r)), half);
    AbsNumber(Sub(d, r));
    SubIsExact(d, r);
    P10Step(e - 1);
    P10Increases(MIN32, e - 1);
    if RealAbs(x) < 0.5 {
      NearZero(x);
      TimesZero(p);
      TimesZero(q);
      assert round.value == 0;
      assert IsMultiple(round, 0, e) && NearestEven(0, x);
    } else {
      forall m: int | NearestEven(m, x) ensures Times(round.value as real, p) != Times(m as real, q) {
        FarApart(x, p, q, r.value, round.value, m, tie);
      }
    }
  }

  lemma NearZero(x: real)
    requires RealAbs(x) < 0.5
    ensures NearestEven(0, x)
  {
  }

  lemma HalfNumber(half: Decimal, e: int)
    requires half.value == 5 && half.exp == e - 1
    ensures Number(half) == 0.5 * P10(e)
  {
    hide P10;
    NumberIs(half);
    P10Step(e - 1);
  }

  /** The digits v at the scale p are not those of m at the scale q. */
  lemma FarApart(x: real, p: real, q: real, m0: int, v: int, m: int, tie: bool)
    requires 0.0 < 2.0 * p < q && RealAbs(x) >= 0.5 && NearestAway(m0, x) && NearestEven(m, x)
    requires v == if tie && m0 % 2 != 0 then m0 - Sign(m0) else m0
    requires tie <==> RealAbs(Times(x, q) - Times(m0 as real, p)) == 0.5 * q
    ensures Times(v as real, p) != Times(m as real, q)
  {
    if m == 0 {
      assert RealAbs(x) == 0.5 && Abs(m0) == 1;
      TimesHalf(x, q, m0, p);
      assert !tie && v == m0;
      assert Times(m as real, q) == 0.0;
      assert Times(v as real, p) == if v == 1 then p else -p;
    } else {
      assert Abs(v) <= 2 * Abs(m);
      Larger(v, p, m, q);
    }
  }

  lemma TimesHalf(x: real, q: real, m0: int, p: real)
    requires RealAbs(x) == 0.5 && Abs(m0) == 1 && (x > 0.0 <==> m0 > 0) && 0.0 < 2.0 * p < q
    ensures RealAbs(Times(x, q) - Times(m0 as real, p)) == 0.5 * q - p
  {
    assert x == 0.5 || x == -0.5;
    assert m0 == 1 || m0 == -1;
  }

  lemma Larger(v: int, p: real, m: int, q: real)
    requires m != 0 && Abs(v) <= 2 * Abs(m) && 0.0 < 2.0 * p < q
    ensures Times(v as real, p) != Times(m as real, q)
  {
    AbsTimes(v as real, p);
    AbsTimes(m as real, q);
    var a, b := Abs(v) as real, Abs(m) as real;
    assert a * p <= (2.0 * b) * p;
    assert b * (2.0 * p) < b * q;
  }

  /** The comparison tells whether the digits cut off are exactly half a unit. */
  lemma HalfUnit(d: Decimal, places: int32, round: Decimal, remainder: Decimal, half: Decimal)
    requires round == Rounded(d, places) && remainder == AbsOf(Sub(d, round)) && half == Decimal(5, OneMore(places))
    ensures places > MIN32 ==>
      round.exp == -(places as int) && NearestAway(round.value, Units(d, -(places as int)))
      && (Cmp(remainder, half) == 0 <==> RealAbs(Units(d, -(places as int)) - round.value as real) == 0.5)
  {
    hide P10, Times, Rescale, Units, Wrap, OneMore, Number, RoundTenth;
    RoundIsNearest(d, places);
    OneMoreIs(places);
    CmpCompares(remainder, half);
    AbsNumber(Sub(d, round));
    SubIsExact(d, round);
    if places > MIN32 {
      var e := 0 - places as int;
      NumberFrom(d, e);
      NumberFrom(round, e);
      NumberFrom(half, e);
      UnitsOwn(round);
      UnitsOwn(half);
      UnitsOf(half, e - 1, e);
      TenUnits();
      TimesTen(Units(half, e));
      TimesSum(Units(d, e), round.value as real, P10(e));
      TimesOrder(Units(d, e) - round.value as real, 0.5, P10(e));
      TimesOrder(Units(d, e) - round.value as real, -0.5, P10(e));
      TimesNegated(0.5, P10(e));
    }
  }

  lemma TimesNegated(x: real, p: real)
    ensures Times(-x, p) == -Times(x, p)
  {
  }

  datatype Parts = Parts(q: Decimal, r: Decimal)

  /** QuoRem, with its int32 exponents; None where the source panics. */
  function QuoRem(d: Decimal, d2: Decimal, precision: int32): Option<Parts> {
    if d2.value == 0 then None
    else
      var scale := Wrap(0 - precision as int);
      var e := Wrap(Wrap(d.exp as int - d2.exp as int) as int - scale as int);
      if e < 0 then
        var bb := d2.value * Pow10(0 - e as int);
        PositivePower(d2.value, 0 - e as int);
        Some(Parts(Decimal(Quo(d.value, bb), scale), Decimal(Rem(d.value, bb), d.exp)))
      else
        var aa := d.value * Pow10(e);
        Some(Parts(Decimal(Quo(aa, d2.value), scale), Decimal(Rem(aa, d2.value), Wrap(scale as int + d2.exp as int))))
  }

  lemma PositivePower(b: int, n: nat)
    requires b != 0
    ensures b * Pow10(n) != 0 && Sign(b * Pow10(n)) == Sign(b)
  {
    AtLeast(Pow10(n), b);
  }

  /** None of the exponents that QuoRem computes leaves the range of int32. */
  predicate NoWrap(d: Decimal, d2: Decimal, precision: int32) {
    var e := d.exp as int - d2.exp as int + precision as int;
    MIN32 < precision && MIN32 <= e <= MAX32 && (e >= 0 ==> MIN32 <= d2.exp as int - precision as int)
  }

  /** The exponents without wrap-around. */
  lemma Exponents(d: Decimal, d2: Decimal, precision: int32)
    requires NoWrap(d, d2, precision)
    ensures var scale := Wrap(0 - precision as int);
      var e := Wrap(Wrap(d.exp as int - d2.exp as int) as int - scale as int);
      scale == -(precision as int) && e == d.exp as int - d2.exp as int + precision as int
      && (e >= 0 ==> Wrap(scale as int + d2.exp as int) == d.exp as int - e as int)
  {
    hide Wrap;
    WrapSum(d.exp as int - d2.exp as int, precision);
    WrapSum(d2.exp, precision);
    WrapInRange(0 - precision as int);
    WrapInRange(d.exp as int - d2.exp as int + precision as int);
    WrapInRange(d2.exp as int - precision as int);
  }

  /** d is d2 times the quotient plus the remainder; the remainder is less than a unit of the quotient times d2 and has
      the sign of d. */
  ghost predicate Divides(d: Decimal, d2: Decimal, precision: int, q: Decimal, r: Decimal) {
    && Number(d) == Times(Number(d2), Number(q)) + Number(r)
    && RealAbs(Number(r)) < Times(RealAbs(Number(d2)), P10(-precision))
    && (r.value != 0 ==> Sign(r.value) == Sign(d.value))
    && q.exp == -precision
  }

  lemma QuoRemDivides(d: Decimal, d2: Decimal, precision: int32)
    requires d2.value != 0 && NoWrap(d, d2, precision)
    ensures var o := QuoRem(d, d2, precision);
      o.Some? && Divides(d, d2, precision, o.value.q, o.value.r)
  {
    hide P10, Times, Units, Wrap, Number, Pow10, Quo, Rem;
    Exponents(d, d2, precision);
    var e, s := d.exp as int - d2.exp as int + precision as int, 0 - precision as int;
    var o := QuoRem(d, d2, precision).value;
    NumberIs(d);
    NumberIs(d2);
    NumberIs(o.q);
    NumberIs(o.r);
    P10Sum(d2.exp, s);
    if e < 0 {
      var p := Pow10(-e);
      PositivePower(d2.value, -e);
      QuoRemInts(d.value, d2.value * p);
      P10OfNat(-e);
      P10Sum(-e, d.exp);
      DivisionNumbers(d.value, d2.value, p, o.q.value, o.r.value, P10(d.exp), P10(d2.exp), P10(s));
    } else {
      var p := Pow10(e);
      QuoRemInts(d.value * p, d2.value);
      SameSign(d.value, p);
      P10OfNat(e);
      P10Sum(e, d2.exp + s);
      IntProduct(d.value, p);
      TimesAssoc(d.value as real, p as real, P10(d2.exp + s));
      OneTimes(P10(d2.exp + s), d2.value);
      DivisionNumbers(d.value * p, d2.value, 1, o.q.value, o.r.value, P10(d2.exp + s), P10(d2.exp), P10(s));
    }
  }

  lemma NumberIs(d: Decimal)
    ensures Number(d) == Times(d.value as real, P10(d.exp))
  {
  }

  lemma SameSign(a: int, p: nat)
    requires p > 0
    ensures Sign(a * p) == Sign(a)
  {
    AtLeast(p, a);
  }

  lemma OneTimes(x: real, b: int)
    ensures Times(1 as real, x) == x && b * 1 == b
  {
  }

  /** a = q*(b*p) + r, carried over to numbers: x is the unit of a and r, y that of b, s that of q, and y*s = p*x. */
  lemma DivisionNumbers(a: int, b: int, p: nat, q: int, r: int, x: real, y: real, s: real)
    requires a == q * (b * p) + r && Abs(r) < Abs(b * p) && Times(y, s) == Times(p as real, x)
    requires x > 0.0 && y > 0.0 && s > 0.0
    ensures Times(a as real, x) == Times(Times(b as real, y), Times(q as real, s)) + Times(r as real, x)
    ensures RealAbs(Times(r as real, x)) < Times(RealAbs(Times(b as real, y)), s)
  {
    hide Times;
    RearrangeFour(b as real, y, q as real, s);
    var n := b * p;
    IntProduct(b, p);
    IntProduct(q, n);
    TimesAssoc(b as real, p as real, x);
    TimesAssoc(q as real, n as real, x);
    TimesSum((q * n) as real, r as real, x);
    TimesCommutes(q as real, b as real);
    TimesAssoc(q as real, b as real, Times(p as real, x));
    assert a as real == (q * n) as real + r as real;
    AbsTimes(r as real, x);
    AbsTimes(n as real, x);
    AbsTimes(b as real, y);
    TimesOrder(RealAbs(r as real), RealAbs(n as real), x);
    TimesAssoc(RealAbs(b as real), y, s);
    TimesAssoc(RealAbs(b as real), p as real, x);
    AbsProduct(b, p);
  }

  lemma RearrangeFour(b: real, y: real, q: real, s: real)
    ensures Times(Times(b, y), Times(q, s)) == Times(Times(q, b), Times(y, s))
  {
    assert (b * y) * (q * s) == (q * b) * (y * s);
  }

  lemma AbsTimes(v: real, x: real)
    requires x > 0.0
    ensures RealAbs(Times(v, x)) == Times(RealAbs(v), x)
  {
    TimesOrder(v, 0.0, x);
    TimesZero(x);
    TimesNegated(v, x);
  }

  lemma AbsProduct(b: int, p: nat)
    ensures RealAbs((b * p) as real) == Times(RealAbs(b as real), p as real)
  {
    NonNegative(Abs(b), p);
    IntProduct(b, p);
    TimesNegated(b as real, p as real);
  }

  /** 2 * |r| * 10^precision against |d2|. */
  function DivRound(d: Decimal, d2: Decimal, precision: int32): Option<Decimal> {
    match QuoRem(d, d2, precision)
    case None => None
    case Some(Parts(q, r)) =>
      var r2 := Decimal(2 * Abs(r.value), Wrap(r.exp as int + precision as int));
      var unit := Decimal(1, Wrap(0 - precision as int));
      if Cmp(r2, AbsOf(d2)) < 0 then Some(q)
      else if Sign(d.value) * Sign(d2.value) < 0 then Some(Sub(q, unit))
      else Some(Add(q, unit))
  }

  /** m is the multiple of the unit nearest to d / d2, and of two the one away from zero; multiplied by d2. */
  ghost predicate NearestQuotient(d: real, d2: real, m: real, unit: real) {
    var gap := RealAbs(d - Times(d2, m));
    2.0 * gap < Times(RealAbs(d2), unit)
      || (2.0 * gap == Times(RealAbs(d2), unit) && RealAbs(Times(d2, m)) > RealAbs(d))
  }

  lemma DivRoundIsNearest(d: Decimal, d2: Decimal, precision: int32)
    requires d2.value != 0 && NoWrap(d, d2, precision)
    requires MIN32 <= d.exp as int + precision as int
    ensures var o := DivRound(d, d2, precision);
      o.Some? && o.value.exp == -(precision as int)
      && NearestQuotient(Number(d), Number(d2), Number(o.value), P10(-(precision as int)))
  {
    hide P10, Times, Units, Wrap, Number, QuoRem, Divides, Cmp, Sub, Add, NearestQuotient;
    QuoRemDivides(d, d2, precision);
    var Parts(q, r) := QuoRem(d, d2, precision).value;
    var unit := Decimal(1, Wrap(0 - precision as int));
    var r2 := Decimal(2 * Abs(r.value), Wrap(r.exp as int + precision as int));
    DivRoundExponents(d, d2, precision);
    CmpCompares(r2, AbsOf(d2));
    AbsNumber(d2);
    AbsNumber(d);
    AbsNumber(r);
    DoubledNumber(r, precision);
    P10Inverted(precision);
    NumberIs(unit);
    OneTimes(P10(-(precision as int)), 0);
    AddIsExact(q, unit);
    SubIsExact(q, unit);
    DividesNumbers(d, d2, precision, q, r);
    ResultExponents(q, unit);
    RoundQuotient(Number(d), Number(d2), Number(q), Number(r), P10(-(precision as int)), P10(precision));
  }

  lemma DividesNumbers(d: Decimal, d2: Decimal, precision: int, q: Decimal, r: Decimal)
    requires Divides(d, d2, precision, q, r)
    ensures Number(d) == Times(Number(d2), Number(q)) + Number(r)
    ensures RealAbs(Number(r)) < Times(RealAbs(Number(d2)), P10(-precision))
    ensures Number(r) == 0.0 || (Number(r) < 0.0 && Number(d) < 0.0) || (Number(r) > 0.0 && Number(d) > 0.0)
    ensures q.exp == -precision
  {
    hide P10, Times, Number, Units;
    AbsNumber(d);
    AbsNumber(r);
  }

  lemma ResultExponents(q: Decimal, unit: Decimal)
    requires q.exp == unit.exp
    ensures Add(q, unit).exp == Sub(q, unit).exp == q.exp
  {
  }

  lemma DivRoundExponents(d: Decimal, d2: Decimal, precision: int32)
    requires d2.value != 0 && NoWrap(d, d2, precision) && MIN32 <= d.exp as int + precision as int
    ensures Wrap(0 - precision as int) == -(precision as int)
    ensures var r := QuoRem(d, d2, precision).value.r;
      Wrap(r.exp as int + precision as int) == r.exp as int + precision as int
  {
    hide Pow10, Quo, Rem, Wrap;
    Exponents(d, d2, precision);
    WrapInRange(QuoRem(d, d2, precision).value.r.exp as int + precision as int);
  }

  lemma DoubledNumber(r: Decimal, precision: int)
    requires MIN32 <= r.exp as int + precision <= MAX32
    ensures Number(Decimal(2 * Abs(r.value), r.exp as int + precision)) ==
      Times(2.0 * RealAbs(Number(r)), P10(precision))
  {
    hide P10, Times, Number, Units;
    var r2 := Decimal(2 * Abs(r.value), r.exp as int + precision);
    NumberIs(r2);
    NumberIs(AbsOf(r));
    AbsNumber(r);
    P10Sum(r.exp, precision);
    TimesAssoc(r2.value as real, P10(r.exp), P10(precision));
    Twice(Abs(r.value), P10(r.exp));
  }

  lemma Twice(a: nat, x: real)
    ensures Times((2 * a) as real, x) == 2.0 * Times(a as real, x)
  {
  }

  lemma P10Inverted(e: int)
    ensures Times(P10(e), P10(-e)) == 1.0
  {
    hide P10, Times;
    P10Sum(e, -e);
    P10OfNat(0);
    assert Pow10(0) as real == 1.0;
  }

  /** Whether twice the remainder reaches a unit decides between the cut quotient and the next one away from zero. */
  lemma RoundQuotient(d: real, e: real, q: real, r: real, u: real, v: real)
    requires d == Times(e, q) + r && RealAbs(r) < Times(RealAbs(e), u) 
    requires r == 0.0 || (r < 0.0 && d < 0.0) || (r > 0.0 && d > 0.0)
    requires u > 0.0 && v > 0.0 && Times(v, u) == 1.0 && e != 0.0
    ensures Times(2.0 * RealAbs(r), v) < RealAbs(e) ==> NearestQuotient(d, e, q, u)
    ensures Times(2.0 * RealAbs(r), v) >= RealAbs(e) ==> d != 0.0
    ensures Times(2.0 * RealAbs(r), v) >= RealAbs(e) ==>
      NearestQuotient(d, e, if (d < 0.0) != (e < 0.0) then q - u else q + u, u)
  {
    hide Times;
    TimesOrder(Times(2.0 * RealAbs(r), v), RealAbs(e), u);
    TimesAssoc(2.0 * RealAbs(r), v, u);
    TimesOneReal(2.0 * RealAbs(r));
    if Times(2.0 * RealAbs(r), v) >= RealAbs(e) {
      TimesZero(v);
      NextQuotient(e, q, u);
    }
  }

  lemma TimesOneReal(x: real)
    ensures Times(x, 1.0) == x
  {
  }

  lemma NextQuotient(e: real, q: real, u: real)
    ensures Times(e, q + u) == Times(e, q) + Times(e, u) && Times(e, q - u) == Times(e, q) - Times(e, u)
    ensures Times(RealAbs(e), u) == if e < 0.0 then -Times(e, u) else Times(e, u)
  {
  }
}
