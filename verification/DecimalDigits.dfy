/** Decimal digit strings, most significant digit first, as numbers. */
module DecimalDigits {
  import opened Powers
  import opened Division

  type digit = x: int | 0 <= x < 10

  function Num(s: seq<digit>): nat {
    if s == [] then 0 else 10 * Num(s[..|s| - 1]) + s[|s| - 1]
  }

  lemma NumSnoc(s: seq<digit>, c: digit)
    ensures Num(s + [c]) == 10 * Num(s) + c
  {
    assert (s + [c])[..|s + [c]| - 1] == s;
  }

  lemma NumTake(s: seq<digit>, i: nat)
    requires 0 < i <= |s|
    ensures Num(s[..i]) == 10 * Num(s[..i - 1]) + s[i - 1]
  {
    assert s[..i][..i - 1] == s[..i - 1];
  }

  lemma {:induction false} NumBound(s: seq<digit>)
    ensures Num(s) < Pow10(|s|)
  {
    if s != [] {
      NumBound(s[..|s| - 1]);
    }
  }

  /** A prefix of a digit string determines its number up to the remaining digits. */
  lemma {:induction false} PrefixBounds(s: seq<digit>, i: nat)
    requires i <= |s|
    ensures Num(s[..i]) * Pow10(|s| - i) <= Num(s) < (Num(s[..i]) + 1) * Pow10(|s| - i)
    decreases |s| - i
  {
    if i == |s| {
      assert s[..i] == s;
    } else {
      PrefixBounds(s, i + 1);
      NumTake(s, i + 1);
      PrefixStep(Num(s[..i]), s[i], Pow10(|s| - i - 1));
    }
  }

  lemma PrefixStep(a: nat, c: digit, p: nat)
    requires p > 0
    ensures a * (10 * p) <= (10 * a + c) * p && (10 * a + c + 1) * p <= (a + 1) * (10 * p)
  {
    assert (10 * a + c) * p == a * (10 * p) + c * p;
    assert (10 * a + c + 1) * p == a * (10 * p) + (c + 1) * p;
    assert (a + 1) * (10 * p) == a * (10 * p) + 10 * p;
    NonNegative(c, p);
    Distribute(p, 10, c + 1);
    NonNegative(p, 9 - c);
  }

  /** A nonzero leading digit fixes the order of magnitude. */
  lemma LeadingDigit(s: seq<digit>)
    requires s != [] && s[0] != 0
    ensures Pow10(|s| - 1) <= Num(s)
  {
    PrefixBounds(s, 1);
    assert s[..1] == [s[0]] && [s[0]][..0] == [];
    AtLeast(Pow10(|s| - 1), s[0]);
  }

  /** The last n digits of x. */
  function LastDigits(x: nat, n: nat): (s: seq<digit>)
    ensures |s| == n
  {
    if n == 0 then [] else LastDigits(x / 10, n - 1) + [x % 10]
  }

  lemma {:induction false} LastDigitsNumber(x: nat, n: nat)
    requires x < Pow10(n)
    ensures Num(LastDigits(x, n)) == x
  {
    if n > 0 {
      LastDigitsNumber(x / 10, n - 1);
      NumSnoc(LastDigits(x / 10, n - 1), x % 10);
    }
  }

  lemma {:induction false} LastDigitsLeading(x: nat, n: nat)
    requires n > 0 && Pow10(n - 1) <= x < Pow10(n)
    ensures LastDigits(x, n)[0] != 0
  {
    if n > 1 {
      LastDigitsLeading(x / 10, n - 1);
    }
  }

  /** The digits of x without leading zeros. */
  function Digits(x: nat): seq<digit> {
    if x == 0 then [] else Digits(x / 10) + [x % 10]
  }

  lemma {:induction false} DigitsNumber(x: nat)
    ensures Num(Digits(x)) == x
  {
    if x > 0 {
      DigitsNumber(x / 10);
      NumSnoc(Digits(x / 10), x % 10);
    }
  }

  lemma {:induction false} DigitsLength(x: nat, n: nat)
    requires Pow10(n) <= x < Pow10(n + 1)
    ensures |Digits(x)| == n + 1
  {
    if n > 0 {
      DigitsLength(x / 10, n - 1);
    } else {
      assert x / 10 == 0;
    }
  }

  /** The number written with the digits s and the decimal point before digit dp. */
  ghost function Value(s: seq<digit>, dp: int): real {
    Times(Num(s) as real, P10(dp - |s|))
  }

  /** Zeros at the end do not count. */
  lemma ValueTrailingZero(s: seq<digit>, dp: int)
    requires s != [] && s[|s| - 1] == 0
    ensures Value(s[..|s| - 1], dp) == Value(s, dp)
  {
    hide P10, Num, Times;
    NumTake(s, |s|);
    assert s[..|s|] == s;
    P10Step(dp - |s|);
    Tenfold(Num(s[..|s| - 1]), P10(dp - |s|));
  }

  lemma Tenfold(n: nat, x: real)
    ensures Times((10 * n) as real, x) == Times(n as real, 10.0 * x)
  {
  }

  /** s without its trailing zeros. */
  function Trimmed(s: seq<digit>): (t: seq<digit>)
    ensures t <= s && (t == [] || t[|t| - 1] != 0)
  {
    if s != [] && s[|s| - 1] == 0 then Trimmed(s[..|s| - 1]) else s
  }

  lemma {:induction false} TrimmedValue(s: seq<digit>, dp: int)
    ensures Value(Trimmed(s), dp) == Value(s, dp)
  {
    hide Value;
    if s != [] && s[|s| - 1] == 0 {
      ValueTrailingZero(s, dp);
      TrimmedValue(s[..|s| - 1], dp);
    }
  }

  lemma {:induction false} TrimmedZero(s: seq<digit>)
    ensures Trimmed(s) == [] <==> forall i :: 0 <= i < |s| ==> s[i] == 0
  {
    if s != [] && s[|s| - 1] == 0 {
      TrimmedZero(s[..|s| - 1]);
    }
  }
}
