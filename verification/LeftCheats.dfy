/** The table that predicts how many digits a left shift adds. */
module LeftCheats {
  import opened Powers
  import opened Division
  import opened DecimalDigits

  /** The cutoff is the number the string spells. */
  datatype Cheat = Cheat(delta: nat, cutoff: nat)

  function Leftcheats(k: nat): Cheat
    requires k <= 60
  {
    match k
    case 0 => Cheat(0, 0)
    case 1 => Cheat(1, 5)
    case 2 => Cheat(1, 25)
    case 3 => Cheat(1, 125)
    case 4 => Cheat(2, 625)
    case 5 => Cheat(2, 3125)
    case 6 => Cheat(2, 15625)
    case 7 => Cheat(3, 78125)
    case 8 => Cheat(3, 390625)
    case 9 => Cheat(3, 1953125)
    case 10 => Cheat(4, 9765625)
    case 11 => Cheat(4, 48828125)
    case 12 => Cheat(4, 244140625)
    case 13 => Cheat(4, 1220703125)
    case 14 => Cheat(5, 6103515625)
    case 15 => Cheat(5, 30517578125)
    case 16 => Cheat(5, 152587890625)
    case 17 => Cheat(6, 762939453125)
    case 18 => Cheat(6, 3814697265625)
    case 19 => Cheat(6, 19073486328125)
    case 20 => Cheat(7, 95367431640625)
    case 21 => Cheat(7, 476837158203125)
    case 22 => Cheat(7, 2384185791015625)
    case 23 => Cheat(7, 11920928955078125)
    case 24 => Cheat(8, 59604644775390625)
    case 25 => Cheat(8, 298023223876953125)
    case 26 => Cheat(8, 1490116119384765625)
    case 27 => Cheat(9, 7450580596923828125)
    case 28 => Cheat(9, 37252902984619140625)
    case 29 => Cheat(9, 186264514923095703125)
    case 30 => Cheat(10, 931322574615478515625)
    case 31 => Cheat(10, 4656612873077392578125)
    case 32 => Cheat(10, 23283064365386962890625)
    case 33 => Cheat(10, 116415321826934814453125)
    case 34 => Cheat(11, 582076609134674072265625)
    case 35 => Cheat(11, 2910383045673370361328125)
    case 36 => Cheat(11, 14551915228366851806640625)
    case 37 => Cheat(12, 72759576141834259033203125)
    case 38 => Cheat(12, 363797880709171295166015625)
    case 39 => Cheat(12, 1818989403545856475830078125)
    case 40 => Cheat(13, 9094947017729282379150390625)
    case 41 => Cheat(13, 45474735088646411895751953125)
    case 42 => Cheat(13, 227373675443232059478759765625)
    case 43 => Cheat(13, 1136868377216160297393798828125)
    case 44 => Cheat(14, 5684341886080801486968994140625)
    case 45 => Cheat(14, 28421709430404007434844970703125)
    case 46 => Cheat(14, 142108547152020037174224853515625)
    case 47 => Cheat(15, 710542735760100185871124267578125)
    case 48 => Cheat(15, 3552713678800500929355621337890625)
    case 49 => Cheat(15, 17763568394002504646778106689453125)
    case 50 => Cheat(16, 88817841970012523233890533447265625)
    case 51 => Cheat(16, 444089209850062616169452667236328125)
    case 52 => Cheat(16, 2220446049250313080847263336181640625)
    case 53 => Cheat(16, 11102230246251565404236316680908203125)
    case 54 => Cheat(17, 55511151231257827021181583404541015625)
    case 55 => Cheat(17, 277555756156289135105907917022705078125)
    case 56 => Cheat(17, 1387778780781445675529539585113525390625)
    case 57 => Cheat(18, 6938893903907228377647697925567626953125)
    case 58 => Cheat(18, 34694469519536141888238489627838134765625)
    case 59 => Cheat(18, 173472347597680709441192448139190673828125)
    case _ => Cheat(19, 867361737988403547205962240695953369140625)
  }

  lemma PowersOfTen()
    ensures Pow10(0) == 1 && Pow10(1) == 10 && Pow10(2) == 100 && Pow10(3) == 1000 && Pow10(4) == 10000
      && Pow10(5) == 100000
    ensures Pow10(6) == 1000000 && Pow10(7) == 10000000 && Pow10(8) == 100000000 && Pow10(9) == 1000000000
      && Pow10(10) == 10000000000 && Pow10(11) == 100000000000
    ensures Pow10(12) == 1000000000000 && Pow10(13) == 10000000000000 && Pow10(14) == 100000000000000
      && Pow10(15) == 1000000000000000 && Pow10(16) == 10000000000000000 && Pow10(17) == 100000000000000000
    ensures Pow10(18) == 1000000000000000000 && Pow10(19) == 10000000000000000000 && Pow10(20) == 100000000000000000000
      && Pow10(21) == 1000000000000000000000 && Pow10(22) == 10000000000000000000000
      && Pow10(23) == 100000000000000000000000
    ensures Pow10(24) == 1000000000000000000000000 && Pow10(25) == 10000000000000000000000000
      && Pow10(26) == 100000000000000000000000000 && Pow10(27) == 1000000000000000000000000000
      && Pow10(28) == 10000000000000000000000000000 && Pow10(29) == 100000000000000000000000000000
    ensures Pow10(30) == 1000000000000000000000000000000 && Pow10(31) == 10000000000000000000000000000000
      && Pow10(32) == 100000000000000000000000000000000 && Pow10(33) == 1000000000000000000000000000000000
      && Pow10(34) == 10000000000000000000000000000000000 && Pow10(35) == 100000000000000000000000000000000000
    ensures Pow10(36) == 1000000000000000000000000000000000000 && Pow10(37) == 10000000000000000000000000000000000000
      && Pow10(38) == 100000000000000000000000000000000000000 && Pow10(39) == 1000000000000000000000000000000000000000
      && Pow10(40) == 10000000000000000000000000000000000000000
      && Pow10(41) == 100000000000000000000000000000000000000000
    ensures Pow10(42) == 1000000000000000000000000000000000000000000
  {
  }

  predicate CheatIsRight(k: nat)
    requires 1 <= k <= 60
  {
    var c := Leftcheats(k);
    c.delta <= k && Pow10(k - c.delta) <= c.cutoff < Pow10(k + 1 - c.delta)
    && c.cutoff == if k == 1 then 5 else 5 * Leftcheats(k - 1).cutoff
  }

  lemma Cheats1To15(k: nat)
    requires 1 <= k <= 15
    ensures CheatIsRight(k)
  {
    PowersOfTen();
    hide Pow10;
    match k
    case 1 => case 2 => case 3 => case 4 => case 5 => case 6 => case 7 => case 8 => case 9 => case 10 => case 11 =>
    case 12 => case 13 => case 14 => case _ =>
  }

  lemma Cheats16To28(k: nat)
    requires 16 <= k <= 28
    ensures CheatIsRight(k)
  {
    PowersOfTen();
    hide Pow10;
    match k
    case 16 => case 17 => case 18 => case 19 => case 20 => case 21 => case 22 => case 23 => case 24 => case 25 =>
    case 26 => case 27 => case _ =>
  }

  lemma Cheats29To39(k: nat)
    requires 29 <= k <= 39
    ensures CheatIsRight(k)
  {
    PowersOfTen();
    hide Pow10;
    match k
    case 29 => case 30 => case 31 => case 32 => case 33 => case 34 => case 35 => case 36 => case 37 => case 38 =>
    case _ =>
  }

  lemma Cheats40To50(k: nat)
    requires 40 <= k <= 50
    ensures CheatIsRight(k)
  {
    PowersOfTen();
    hide Pow10;
    match k
    case 40 => case 41 => case 42 => case 43 => case 44 => case 45 => case 46 => case 47 => case 48 => case 49 =>
    case _ =>
  }

  lemma Cheats51To60(k: nat)
    requires 51 <= k <= 60
    ensures CheatIsRight(k)
  {
    PowersOfTen();
    hide Pow10;
    match k
    case 51 => case 52 => case 53 => case 54 => case 55 => case 56 => case 57 => case 58 => case 59 => case _ =>
  }

  lemma CheatRow(k: nat)
    requires 1 <= k <= 60
    ensures CheatIsRight(k)
  {
    hide CheatIsRight;
    if k <= 15 {
      Cheats1To15(k);
    } else if k <= 28 {
      Cheats16To28(k);
    } else if k <= 39 {
      Cheats29To39(k);
    } else if k <= 50 {
      Cheats40To50(k);
    } else {
      Cheats51To60(k);
    }
  }

  /** The cutoff for k is 5^k, and delta is k + 1 less its number of digits. */
  lemma {:induction false} CheatIsPowerOfFive(k: nat)
    requires 1 <= k <= 60
    ensures var c := Leftcheats(k);
      c.cutoff == Pow5(k) && c.delta <= k && |Digits(c.cutoff)| == k + 1 - c.delta
  {
    hide Leftcheats, Digits, Pow10;
    CheatRow(k);
    DigitsLength(Leftcheats(k).cutoff, k - Leftcheats(k).delta);
    if k > 1 {
      CheatIsPowerOfFive(k - 1);
    } else {
      assert Pow5(1) == 5 * Pow5(0) == 5;
    }
  }

  /** Whether the digits b, as a decimal fraction, are less than the fraction with the digits s. */
  ghost predicate FractionLess(b: seq<digit>, s: seq<digit>) {
    Num(b) * Pow10(|s|) < Num(s) * Pow10(|b|)
  }

  method PrefixIsLessThan(b: seq<digit>, s: seq<digit>) returns (less: bool)
    requires s == [] || s[|s| - 1] != 0
    ensures less <==> FractionLess(b, s)
  {
    hide FractionLess;
    for i := 0 to |s|
      invariant i <= |b| && b[..i] == s[..i]
    {
      if i >= |b| {
        ProperPrefix(b, s);
        return true;
      }
      if b[i] != s[i] {
        if b[i] < s[i] {
          FirstDifference(b, s, i);
        } else {
          FirstDifference(s, b, i);
          LessIsStrict(b, s);
        }
        return b[i] < s[i];
      }
      assert b[..i + 1] == b[..i] + [b[i]] && s[..i + 1] == s[..i] + [s[i]];
    }
    assert s[..|s|] == s;
    WholePrefix(b, s);
    return false;
  }

  lemma LessIsStrict(b: seq<digit>, s: seq<digit>)
    ensures !(FractionLess(b, s) && FractionLess(s, b))
  {
  }

  lemma FirstDifference(b: seq<digit>, s: seq<digit>, i: nat)
    requires i < |b| && i < |s| && b[..i] == s[..i] && b[i] < s[i]
    ensures FractionLess(b, s)
  {
    PrefixBounds(b, i + 1);
    PrefixBounds(s, i + 1);
    NumTake(b, i + 1);
    NumTake(s, i + 1);
    Pow10Adds(|b| - (i + 1), |s|);
    Pow10Adds(|s| - (i + 1), |b|);
    hide Num, Pow10;
    Between(Num(b), Num(s), Num(b[..i + 1]), Num(s[..i + 1]), Pow10(|b| - (i + 1)), Pow10(|s| - (i + 1)), Pow10(|b|),
      Pow10(|s|));
  }

  lemma Between(b: nat, s: nat, c: nat, d: nat, p: nat, q: nat, bb: nat, ss: nat)
    requires c < d && b < (c + 1) * p && d * q <= s && p * ss == q * bb && ss > 0 && p > 0
    ensures b * ss < s * bb
  {
    var e := (c + 1) * p;
    Scaled(b, e - 1, ss);
    assert e * ss == (c + 1) * (p * ss) by { Assoc(c + 1, p, ss); }
    Scaled(c + 1, d, p * ss);
    assert d * (q * bb) == d * q * bb by { Assoc(d, q, bb); }
    Scaled(d * q, s, bb);
    Distribute(ss, e, 1);
  }

  lemma ProperPrefix(b: seq<digit>, s: seq<digit>)
    requires b < s && s[|s| - 1] != 0
    ensures FractionLess(b, s)
  {
    var k := |s| - 1;
    PrefixBounds(s[..k], |b|);
    NumTake(s, |s|);
    assert s[..|s|] == s && s[..k][..|b|] == b;
    Pow10Adds(|s| - |b|, |b|);
    assert Pow10(k + 1 - |b|) == 10 * Pow10(k - |b|);
    hide Num, Pow10;
    LongerPrefix(Num(b), Num(s), Num(s[..k]), Pow10(k - |b|), Pow10(|b|));
  }

  lemma LongerPrefix(b: nat, s: nat, s': nat, p: nat, t: nat)
    requires b * p <= s' && s > 10 * s' && t > 0
    ensures b * (10 * p * t) < s * t
  {
    assert b * (10 * p) == 10 * (b * p);
    Scaled(b * (10 * p) + 1, s, t);
    Assoc(b, 10 * p, t);
    Distribute(t, b * (10 * p), -1);
    Commute(t, b * (10 * p));
    Commute(t, b * (10 * p) + 1);
  }

  lemma WholePrefix(b: seq<digit>, s: seq<digit>)
    requires s <= b
    ensures !FractionLess(b, s)
  {
    PrefixBounds(b, |s|);
    Pow10Adds(|b| - |s|, |s|);
    hide Num, Pow10;
    assert b[..|s|] == s;
    Scaled(Num(s) * Pow10(|b| - |s|), Num(b), Pow10(|s|));
    Assoc(Num(s), Pow10(|b| - |s|), Pow10(|s|));
  }

  /** How many digits the shift by k gives a number of nd digits. */
  ghost function NewDigits(nd: nat, k: nat, less: bool): int
    requires k <= 60
  {
    nd + Leftcheats(k).delta - if less then 1 else 0
  }

  /** The prediction is exact. */
  lemma NewDigitsExact(s: seq<digit>, k: nat)
    requires 1 <= k <= 60 && s != [] && s[0] != 0
    ensures var less := FractionLess(s, Digits(Leftcheats(k).cutoff));
      var n := NewDigits(|s|, k, less);
      n >= |s| && Pow10(n - 1) <= Num(s) * Pow2(k) < Pow10(n)
  {
    hide Leftcheats, CheatIsRight, Pow2, Num, Digits;
    CheatIsPowerOfFive(k);
    CheatPositive(k);
    CheatBounds(k);
    var delta, cutoff := Leftcheats(k).delta, Leftcheats(k).cutoff;
    DigitsNumber(cutoff);
    NumBound(s);
    LeadingDigit(s);
    var nd := |s|;
    hide Pow5;
    Pow10Adds(nd, delta);
    Pow10Adds(nd - 1, delta - 1);
    Pow10Adds(nd, delta - 1);
    hide Pow10;
    ShiftBounds(Num(s), Pow2(k), Pow10(nd - 1), Pow10(nd), Pow10(delta - 1), Pow10(delta));
    ShiftCutoff(Num(s), Pow2(k), cutoff, Pow10(k + 1 - delta), Pow10(nd), Pow10(delta - 1));
  }

  /** The power of two has as many digits as the table adds, or one less; and it is to the cutoff as powers of ten. */
  lemma CheatBounds(k: nat)
    requires 1 <= k <= 60
    ensures var c := Leftcheats(k);
      1 <= c.delta <= k && Pow10(c.delta - 1) <= Pow2(k) <= Pow10(c.delta)
      && c.cutoff * Pow2(k) == Pow10(k + 1 - c.delta) * Pow10(c.delta - 1)
  {
    hide Leftcheats, Digits, Pow5, Pow2;
    CheatRow(k);
    CheatIsPowerOfFive(k);
    CheatPositive(k);
    FivesAndTwos(k);
    var delta, cutoff := Leftcheats(k).delta, Leftcheats(k).cutoff;
    var len := k + 1 - delta;
    Pow10Adds(len, delta - 1);
    Pow10Adds(len - 1, delta);
    hide Pow10;
    PowerOfTwoBounds(Pow2(k), cutoff, Pow10(len - 1), Pow10(delta), Pow10(len), Pow10(delta - 1));
  }

  lemma CheatPositive(k: nat)
    requires 1 <= k <= 60
    ensures Leftcheats(k).delta >= 1
  {
  }

  lemma PowerOfTwoBounds(two: nat, five: nat, tenLow: nat, tenDelta: nat, ten: nat, tenDelta1: nat)
    requires tenLow <= five < ten && five * two == ten * tenDelta1 == tenLow * tenDelta && tenLow > 0 && two > 0
      && tenDelta1 > 0
    ensures tenDelta1 <= two <= tenDelta
  {
    Scaled(tenLow, five, two);
    Order(tenDelta, two, tenLow);
    Commute(tenDelta, tenLow);
    Commute(two, tenLow);
    Scaled(five, ten, two);
    Order(two, tenDelta1, ten);
    Commute(tenDelta1, ten);
    Commute(two, ten);
  }

  lemma ShiftBounds(x: nat, two: nat, low: nat, high: nat, tenDelta1: nat, tenDelta: nat)
    requires low <= x < high && tenDelta1 <= two <= tenDelta && tenDelta > 0
    ensures low * tenDelta1 <= x * two < high * tenDelta
  {
    Scaled(low, x, tenDelta1);
    Scaled(tenDelta1, two, x);
    Scaled(two, tenDelta, x);
    Scaled(x + 1, high, tenDelta);
    assert (x + 1) * tenDelta == x * tenDelta + tenDelta;
  }

  lemma ShiftCutoff(x: nat, two: nat, five: nat, ten: nat, tenNd: nat, tenDelta1: nat)
    requires five * two == ten * tenDelta1 && ten > 0 && two > 0
    ensures x * ten < five * tenNd <==> x * two < tenNd * tenDelta1
  {
    assert (x * ten) * two == ten * (x * two);
    assert (five * tenNd) * two == ten * (tenNd * tenDelta1) by {
      assert (five * tenNd) * two == tenNd * (five * two);
      assert tenNd * (ten * tenDelta1) == ten * (tenNd * tenDelta1);
    }
    Order(x * ten, five * tenNd, two);
    Order(x * two, tenNd * tenDelta1, ten);
    assert ten * (x * two) == (x * two) * ten && ten * (tenNd * tenDelta1) == (tenNd * tenDelta1) * ten;
  }

  lemma Order(a: int, b: int, m: nat)
    requires m > 0
    ensures a < b <==> a * m < b * m
  {
    if a < b {
      Scaled(a + 1, b, m);
      assert (a + 1) * m == a * m + m;
    } else {
      Scaled(b, a, m);
    }
  }
}
