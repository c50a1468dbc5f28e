/** What the in-place shifts leave: a digit string cut off at the capacity of the array, and its value. */
module DecimalCut {
  import opened Powers
  import opened Division
  import opened DecimalDigits

  const CAPACITY := 800

  ghost function Kept(full: seq<digit>): seq<digit> {
    if |full| <= CAPACITY then full else full[..CAPACITY]
  }

  /** A nonzero digit lies beyond the array. */
  ghost predicate Lost(full: seq<digit>) {
    exists i :: CAPACITY <= i < |full| && full[i] != 0
  }

  /** s, dp and trunc after storing the digits full with the decimal point dp. */
  ghost predicate IsCut(full: seq<digit>, dp: int, trunc0: bool, s: seq<digit>, dp1: int, trunc: bool) {
    full != [] && full[0] != 0 && s == Trimmed(Kept(full)) && dp1 == dp && trunc == (trunc0 || Lost(full))
  }

  lemma AllZero(s: seq<digit>)
    requires forall i :: 0 <= i < |s| ==> s[i] == 0
    ensures Num(s) == 0
  {
    if s != [] {
      AllZero(s[..|s| - 1]);
    }
  }

  lemma {:induction false} NumConcat(s: seq<digit>, t: seq<digit>)
    ensures Num(s + t) == Num(s) * Pow10(|t|) + Num(t)
  {
    if t == [] {
      assert s + t == s;
    } else {
      var t' := t[..|t| - 1];
      NumConcat(s, t');
      assert (s + t)[..|s + t| - 1] == s + t';
      assert 10 * (Num(s) * Pow10(|t'|)) == Num(s) * (10 * Pow10(|t'|));
    }
  }

  /** Without lost digits the value is exact; with them it is too small by less than one unit of the last place. */
  lemma CutValue(full: seq<digit>, dp: int, trunc0: bool, s: seq<digit>, dp1: int, trunc: bool)
    requires IsCut(full, dp, trunc0, s, dp1, trunc)
    ensures s != [] && s[0] != 0 && |s| <= CAPACITY && Trimmed(s) == s
    ensures !Lost(full) ==> Value(s, dp1) == Value(full, dp)
    ensures Lost(full) ==> Value(s, dp1) < Value(full, dp) < Value(s, dp1) + P10(dp - CAPACITY)
  {
    hide Value, P10, Lost;
    TrimmedValue(Kept(full), dp);
    TrimmedZero(Kept(full));
    TrimmedTwice(Kept(full));
    KeptValue(full, dp);
  }

  lemma KeptValue(full: seq<digit>, dp: int)
    ensures !Lost(full) ==> Value(Kept(full), dp) == Value(full, dp)
    ensures Lost(full) ==> Value(Kept(full), dp) < Value(full, dp) < Value(Kept(full), dp) + P10(dp - CAPACITY)
  {
    if |full| > CAPACITY {
      var kept, tail := full[..CAPACITY], full[CAPACITY..];
      assert full == kept + tail;
      if Lost(full) {
        var i :| CAPACITY <= i < |full| && full[i] != 0;
        assert tail[i - CAPACITY] != 0;
        SomeNonZero(tail);
      } else {
        AllZero(tail);
      }
      ValueConcat(kept, tail, dp);
    }
  }

  /** Appending digits adds less than one unit of the last place. */
  lemma ValueConcat(s: seq<digit>, t: seq<digit>, dp: int)
    ensures Value(s, dp) <= Value(s + t, dp) < Value(s, dp) + P10(dp - |s|)
    ensures Value(s + t, dp) == Value(s, dp) <==> Num(t) == 0
  {
    hide *;
    NumConcat(s, t);
    NumBound(t);
    var e := dp - |s| - |t|;
    P10Adds(e, |t|);
    ValueIs(s, dp);
    ValueIs(s + t, dp);
    TailValue(Num(s), Num(t), Num(s + t), Pow10(|t|), P10(e));
  }

  lemma ValueIs(s: seq<digit>, dp: int)
    ensures Value(s, dp) == Times(Num(s) as real, P10(dp - |s|))
  {
  }

  lemma TailValue(kept: nat, tail: nat, all: nat, p: nat, x: real)
    requires all == kept * p + tail && tail < p && x > 0.0
    ensures var y := Times(p as real, x);
      Times(kept as real, y) <= Times(all as real, x) < Times(kept as real, y) + y
      && (Times(all as real, x) == Times(kept as real, y) <==> tail == 0)
  {
    assert all as real == kept as real * p as real + tail as real;
    Expand(kept as real, p as real, tail as real, x);
    RealOrder(tail as real, p as real, x);
  }

  lemma Expand(a: real, p: real, t: real, x: real)
    ensures (a * p + t) * x == a * (p * x) + t * x
  {
  }

  lemma RealOrder(a: real, b: real, x: real)
    requires 0.0 <= a < b && x > 0.0
    ensures 0.0 <= a * x < b * x && (a > 0.0 <==> a * x > 0.0)
  {
    assert (b - a) * x > 0.0;
  }

  lemma TrimmedTwice(s: seq<digit>)
    ensures Trimmed(Trimmed(s)) == Trimmed(s)
  {
  }

  lemma SomeNonZero(s: seq<digit>)
    requires exists i :: 0 <= i < |s| && s[i] != 0
    ensures Num(s) > 0
  {
    if Num(s) == 0 {
      if s[|s| - 1] == 0 {
        SomeNonZero(s[..|s| - 1]);
      }
    }
  }

  /** The leading R digits of s as a number, continued with zeros. */
  ghost function Prefix(s: seq<digit>, R: nat): nat {
    if R <= |s| then Num(s[..R]) else Num(s) * Pow10(R - |s|)
  }

  lemma NextPrefix(s: seq<digit>, R: nat)
    ensures Prefix(s, R + 1) == 10 * Prefix(s, R) + if R < |s| then s[R] else 0
  {
    if R < |s| {
      NumTake(s, R + 1);
    } else {
      assert s[..|s|] == s;
      assert Num(s) * (10 * Pow10(R - |s|)) == 10 * (Num(s) * Pow10(R - |s|));
    }
  }
}
