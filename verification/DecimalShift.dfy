/** decimal: digits in an array of fixed size, shifted in place. */
module DecimalShift {
  import opened Powers
  import opened Division
  import opened DecimalDigits
  import opened DecimalCut
  import opened LeftCheats

  const UINT := 0x1_0000_0000_0000_0000

  class Decimal {
    /** Digits without the ASCII offset; the first nd are in use. */
    const d: array<digit>
    var nd: nat
    var dp: int
    var neg: bool
    /** Nonzero digits beyond the used ones have been discarded. */
    var trunc: bool

    ghost predicate Valid()
      reads this, d
    {
      d.Length == CAPACITY && nd <= CAPACITY
    }

    ghost function Used(): (s: seq<digit>)
      requires Valid()
      reads this, d
      ensures |s| == nd
    {
      d[..nd]
    }

    /** No zeros in front. */
    ghost predicate Normal()
      requires Valid()
      reads this, d
    {
      nd > 0 ==> d[0] != 0
    }

    constructor ()
      ensures Valid() && nd == 0 && dp == 0 && !trunc && !neg && fresh(d)
    {
      d := new digit[CAPACITY](i => 0);
      nd, dp, neg, trunc := 0, 0, false, false;
    }

    method Trim()
      requires Valid()
      modifies this`nd, this`dp
      ensures Valid() && Used() == Trimmed(old(Used())) && dp == if nd == 0 then 0 else old(dp)
    {
      while nd > 0 && d[nd - 1] == 0
        invariant nd <= old(nd) && dp == old(dp) && Trimmed(d[..nd]) == Trimmed(old(Used()))
      {
        assert d[..nd][..nd - 1] == d[..nd - 1];
        nd := nd - 1;
      }
      if nd == 0 {
        dp := 0;
      }
    }

    method Assign(v0: nat)
      requires Valid() && v0 < UINT
      modifies this`nd, this`dp, d
      ensures Valid() && Normal() && Used() == Trimmed(Digits(v0)) && Value(Used(), dp) == v0 as real
    {
      hide Digits, Value, Trimmed;
      ghost var all := Digits(v0);
      var buf := new digit[24];
      var n, v := 0, v0;
      DigitsAtMost(v0);
      NoneReversed(v0);
      while v > 0
        invariant ReversedSoFar(all, v, buf[..], n)
        decreases v
      {
        var v1 := v / 10;
        ReverseMore(all, v, buf[..], n);
        buf[n] := v - 10 * v1;
        n := n + 1;
        v := v1;
      }
      AllReversed(all, buf[..], n);
      nd := 0;
      n := n - 1;
      while n >= 0
        invariant -1 <= n && nd + n + 1 == |all| <= 24
        invariant d[..nd] == all[..nd] && forall i :: 0 <= i < |all| ==> buf[i] == all[|all| - 1 - i]
      {
        d[nd] := buf[n];
        nd := nd + 1;
        n := n - 1;
      }
      dp := nd;
      assert all[..nd] == all;
      AssignedValue(v0);
      Trim();
    }

    /** Stores a digit at the write index, or notes that it is lost. */
    method Put(w: nat, rem: digit, ghost full: seq<digit>, ghost y: nat, ghost trunc0: bool)
      requires Valid() && InRange(y, w + 1) && LeftStored(full, y, w + 1, d[..], trunc0, trunc) && rem == y % 10
      modifies this`trunc, d
      ensures Valid() && InRange(y / 10, w) && LeftStored(full, y / 10, w, d[..], trunc0, trunc)
      ensures forall i :: 0 <= i < d.Length && i != w ==> d[i] == old(d[i])
    {
      hide LeftStored, InRange;
      LeftStep(full, y, w + 1, d[..], trunc0, trunc);
      if w < d.Length {
        d[w] := rem;
      } else if rem != 0 {
        trunc := true;
      }
    }

    /** Stores the digits of what has been carried out of all digits read. */
    method PutCarry(n0: nat, w0: nat, ghost full: seq<digit>, ghost trunc0: bool)
      requires Valid() && InRange(n0, w0) && LeftStored(full, n0, w0, d[..], trunc0, trunc)
      modifies this`trunc, d
      ensures Valid() && (trunc <==> trunc0 || Lost(full)) && forall i :: 0 <= i < |full| && i < CAPACITY ==>
        d[i] == full[i]
    {
      hide LeftStored, InRange, Lost;
      var n, w := n0, w0;
      while n > 0
        invariant Valid() && 0 <= w && 0 <= n && InRange(n, w) && LeftStored(full, n, w, d[..], trunc0, trunc)
        decreases n
      {
        var quo := n / 10;
        var rem := n - 10 * quo;
        InRangePositive(n, w);
        w := w - 1;
        Put(w, rem, full, n, trunc0);
        n := quo;
      }
      LeftDone(full, w, d[..], trunc0, trunc);
    }

    /** How many digits a shift by k adds. */
    method Delta(k: nat) returns (delta: nat)
      requires Valid() && Normal() && nd > 0 && 1 <= k <= 60
      ensures nd + delta > 0 && InRange(Num(Used()) * Pow2(k), nd + delta)
    {
      hide Num, FractionLess, Leftcheats, Digits, Pow2, Pow10;
      CheatCutoff(k);
      delta := Leftcheats(k).delta;
      var less := PrefixIsLessThan(d[..nd], Digits(Leftcheats(k).cutoff));
      if less {
        delta := delta - 1;
      }
      NewDigitsExact(Used(), k);
    }

    /** Multiplies by 2^k. */
    method LeftShift(k: nat)
      requires Valid() && Normal() && nd > 0 && 1 <= k <= 60
      modifies this`nd, this`dp, this`trunc, d
      ensures Valid() && Normal() && nd > 0
      ensures exists full :: MultipliedTo(old(Used()), old(dp), Pow2(k), full, old(trunc), Used(), dp, trunc)
    {
      hide Num, Value, Times, IsCut, LeftStored, InRange, Trimmed, LastDigits, Pow2, Pow10, MultipliedTo;
      ghost var s, x, dp0: int := Used(), Num(Used()) * Pow2(k), dp;
      var delta := Delta(k);
      ghost var L := nd + delta;
      ghost var full, y: nat := LastDigits(x, L), x;
      var r, w := nd, nd + delta;
      LeftStart(x, L, d[..], trunc);
      var n := 0;
      assert s[..nd] == s;
      r := r - 1;
      while r >= 0
        invariant Valid() && nd == |s| && dp == dp0
        invariant -1 <= r < nd && w == r + 1 + delta && forall i :: 0 <= i <= r ==> d[i] == s[i]
        invariant 0 <= n < Pow2(k) && y == Num(s[..r + 1]) * Pow2(k) + n
        invariant InRange(y, w) && LeftStored(full, y, w, d[..], old(trunc), trunc)
      {
        assert n + d[r] * Pow2(k) < UINT by { NoOverflow(k, n, d[r]); }
        LeftDigit(s, r, k, n);
        n := n + d[r] * Pow2(k);
        var quo := n / 10;
        var rem := n - 10 * quo;
        w := w - 1;
        Put(w, rem, full, y, old(trunc));
        n := quo;
        y := y / 10;
        r := r - 1;
      }
      LeftEmpty(s[..0], k);
      PutCarry(n, w, full, old(trunc));
      nd := nd + delta;
      if nd >= d.Length {
        nd := d.Length;
      }
      dp := dp + delta;
      assert Used() == Kept(full);
      LeftValue(s, dp0, k, L);
      KeptLeading(full);
      Trim();
      LeftCut(s, dp0, Pow2(k), full, old(trunc), Used(), dp, trunc);
    }

    /** Reads digits until the quotient by 2^k is not zero; past the last digit it reads zeros. */
    method PickUp(k: nat) returns (r: nat, n: nat)
      requires Valid() && Normal() && 1 <= k <= 60
      ensures nd == 0 ==> n == 0
      ensures nd > 0 ==> n == Prefix(Used(), r) && Pow2(k) <= n < 10 * Pow2(k)
    {
      hide Num, Prefix, Pow2;
      ghost var s := Used();
      r, n := 0, 0;
      PrefixNone(s);
      while n / Pow2(k) == 0
        invariant r <= nd && n == Prefix(s, r) && (r > 0 ==> n > 0) && n < 10 * Pow2(k)
        decreases nd - r
      {
        SmallQuotient(n, Pow2(k));
        if r >= nd {
          if n == 0 {
            return;
          }
          while n / Pow2(k) == 0
            invariant r >= nd && n == Prefix(s, r) && 0 < n < 10 * Pow2(k)
            decreases 10 * Pow2(k) - n
          {
            SmallQuotient(n, Pow2(k));
            NextPrefix(s, r);
            n := n * 10;
            r := r + 1;
          }
          break;
        }
        NextPrefix(s, r);
        PrefixPositive(s, r);
        n := n * 10 + d[r];
        r := r + 1;
      }
      SmallQuotient(n, Pow2(k));
    }

    /** Divides by 2^k. */
    method RightShift(k: nat)
      requires Valid() && Normal() && 1 <= k <= 60
      modifies this`nd, this`dp, this`trunc, d
      ensures Valid() && Normal() && (nd == 0 <==> old(nd) == 0)
      ensures old(nd) == 0 ==> dp == old(dp) && trunc == old(trunc)
      ensures old(nd) > 0 ==> exists full :: DividedTo(old(Used()), old(dp), Pow2(k), full, old(trunc), Used(), dp,
        trunc)
    {
      hide Num, Prefix, Pow2, Pow10, Value, Times, IsCut, Trimmed, Lost, Emitted, EmittedStored, DividedTo, MultipleOf;
      ghost var s, dp0: int := Used(), dp;
      var r: nat, n: nat := PickUp(k);
      if n == 0 {
        PickedUpNothing(k);
        nd := 0;
        return;
      }
      dp := dp - (r - 1);
      ghost var R, r0, full: seq<digit> := r, r, [];
      var w := 0;
      NothingEmitted(s, k, r, n, d[..], trunc);
      while r < nd
        invariant Valid() && nd == |s| && dp == dp0 - r0 + 1 && trunc == old(trunc)
        invariant r0 <= r == R && w == |full| == r - r0 && (r > nd ==> r == r0)
        invariant forall i :: r <= i < nd ==> d[i] == s[i]
        invariant Emitted(s, k, R, r0, full, n) && EmittedStored(full, w, d[..], old(trunc), trunc)
        decreases nd - r
      {
        NextEmitted(s, k, R, r0, full, n);
        var c := d[r];
        var dig := n / Pow2(k);
        n := n % Pow2(k);
        assert n * 10 + c < UINT by { NoOverflow10(k, n, c); }
        StoreEmitted(full, w, d[..], old(trunc), trunc, dig);
        d[w] := dig;
        w := w + 1;
        n := n * 10 + c;
        full, R := full + [dig], R + 1;
        r := r + 1;
      }
      ghost var i := 0;
      MultipleOfOne(n);
      while n > 0
        invariant Valid() && nd == |s| && dp == dp0 - r0 + 1 && R >= nd && w <= d.Length
        invariant Emitted(s, k, R, r0, full, n) && EmittedStored(full, w, d[..], old(trunc), trunc)
        invariant i <= k + 1 && MultipleOf(n, i) && (i > k ==> n == 0)
        decreases k + 1 - i
      {
        NextEmitted(s, k, R, r0, full, n);
        NextMultiple(n, i, k);
        var dig := n / Pow2(k);
        n := n % Pow2(k);
        assert n * 10 < UINT by { NoOverflow10(k, n, 0); }
        StoreEmitted(full, w, d[..], old(trunc), trunc, dig);
        if w < d.Length {
          d[w] := dig;
          w := w + 1;
        } else if dig > 0 {
          trunc := true;
        }
        n := n * 10;
        full, R, i := full + [dig], R + 1, i + 1;
      }
      AllEmitted(s, dp0, k, R, r0, full, w, d[..], old(trunc), trunc);
      nd := w;
      assert Used() == Kept(full);
      Trim();
      RightCut(s, dp0, Pow2(k), full, dp0 - r0 + 1, old(trunc), Used(), dp, trunc);
    }

    /** Multiplies by 2^k, or divides for negative k, in steps that cannot overflow. Unless digits were lost the value
        is exact. */
    method Shift(k0: int)
      requires Valid() && Normal()
      modifies this`nd, this`dp, this`trunc, d
      ensures Valid() && Normal() && (nd == 0 <==> old(nd) == 0) && (old(trunc) ==> trunc)
      ensures old(nd) == 0 ==> dp == old(dp) && trunc == old(trunc)
      ensures !trunc ==> ShiftedBy(old(Value(Used(), dp)), k0, Value(Used(), dp))
    {
      hide Value, MultipliedTo, DividedTo, ShiftedBy, Pow2;
      var k := k0;
      ghost var v := Value(Used(), dp);
      ShiftNone(v);
      if nd == 0 {
        ZeroShifts(Used(), dp, k0);
      } else if k > 0 {
        while k > 60
          invariant Valid() && Normal() && nd > 0 && 0 < k <= k0 && (old(trunc) ==> trunc)
          invariant !trunc ==> ShiftedBy(v, k0 - k, Value(Used(), dp))
        {
          LeftOnce(v, k0 - k, 60);
          k := k - 60;
        }
        LeftOnce(v, k0 - k, k);
      } else if k < 0 {
        while k < -60
          invariant Valid() && Normal() && nd > 0 && k0 <= k < 0 && (old(trunc) ==> trunc)
          invariant !trunc ==> ShiftedBy(v, k0 - k, Value(Used(), dp))
        {
          RightOnce(v, k0 - k, 60);
          k := k + 60;
        }
        RightOnce(v, k0 - k, -k);
      }
    }

    method LeftOnce(ghost v: real, ghost done: int, k: nat)
      requires Valid() && Normal() && nd > 0 && 1 <= k <= 60 && done >= 0
      requires !trunc ==> ShiftedBy(v, done, Value(Used(), dp))
      modifies this`nd, this`dp, this`trunc, d
      ensures Valid() && Normal() && nd > 0 && (old(trunc) ==> trunc)
      ensures !trunc ==> ShiftedBy(v, done + k, Value(Used(), dp))
    {
      hide Value, MultipliedTo, ShiftedBy, Pow2;
      ghost var s, dp0, t := Used(), dp, trunc;
      LeftShift(k);
      ghost var full :| MultipliedTo(s, dp0, Pow2(k), full, t, Used(), dp, trunc);
      LeftComposes(v, done, k, s, dp0, full, t, Used(), dp, trunc);
    }

    method RightOnce(ghost v: real, ghost done: int, k: nat)
      requires Valid() && Normal() && nd > 0 && 1 <= k <= 60 && done <= 0
      requires !trunc ==> ShiftedBy(v, done, Value(Used(), dp))
      modifies this`nd, this`dp, this`trunc, d
      ensures Valid() && Normal() && nd > 0 && (old(trunc) ==> trunc)
      ensures !trunc ==> ShiftedBy(v, done - k, Value(Used(), dp))
    {
      hide Value, DividedTo, ShiftedBy, Pow2;
      ghost var s, dp0, t := Used(), dp, trunc;
      RightShift(k);
      ghost var full :| DividedTo(s, dp0, Pow2(k), full, t, Used(), dp, trunc);
      RightComposes(v, done, k, s, dp0, full, t, Used(), dp, trunc);
    }

    /** If the digits after the first n are dropped, is the number to be rounded up? */
    method ShouldRoundUp(n: int) returns (up: bool)
      requires Valid()
      ensures up <==> 0 <= n < nd && RoundsUp(Used(), n, trunc)
    {
      hide RoundsUp;
      if n < 0 || n >= nd {
        return false;
      }
      HalfwayDigit(Used(), n, trunc);
      if d[n] == 5 && n + 1 == nd {
        if trunc {
          return true;
        }
        return n > 0 && d[n - 1] % 2 != 0;
      }
      return d[n] >= 5;
    }

    method RoundDown(n: int)
      requires Valid() && Normal()
      modifies this`nd, this`dp
      ensures Valid() && Normal()
      ensures if 0 <= n < old(nd) then Used() == Trimmed(old(Used())[..n])
        && Value(Used(), dp) == Value(old(Used())[..n], old(dp))
        else Used() == old(Used()) && dp == old(dp)
    {
      hide Value, Trimmed;
      if n < 0 || n >= nd {
        return;
      }
      RoundedDown(Used()[..n], dp);
      assert Used()[..n] == d[..n];
      nd := n;
      Trim();
    }

    /** Adds one unit at the last of the first n digits, whatever the other digits are. */
    method RoundUp(n: int)
      requires Valid() && Normal()
      modifies this`nd, this`dp, d
      ensures Valid() && Normal()
      ensures if 0 <= n < old(nd) then nd > 0
        && Value(Used(), dp) == Value(old(Used())[..n], old(dp)) + P10(old(dp) - n)
        else Used() == old(Used()) && dp == old(dp)
    {
      hide Value, P10;
      if n < 0 || n >= nd {
        return;
      }
      ghost var s := Used()[..n];
      assert s == d[..n];
      var i := n - 1;
      while i >= 0
        invariant -1 <= i < n && d[..] == old(d[..]) && nd == old(nd) && dp == old(dp)
        invariant forall j :: i < j < n ==> s[j] == 9
      {
        if d[i] < 9 {
          Incremented(s, i, dp);
          d[i] := d[i] + 1;
          nd := i + 1;
          assert Used() == s[..i] + [s[i] + 1];
          return;
        }
        i := i - 1;
      }
      AllNines(s, dp);
      d[0] := 1;
      nd := 1;
      assert Used() == [1];
      dp := dp + 1;
    }

    /** To n digits: the nearest such number, a tie going to the even digit unless digits were lost. */
    method Round(n: int)
      requires Valid() && Normal()
      modifies this`nd, this`dp, d
      ensures Valid() && Normal()
      ensures 0 <= n < old(nd) ==>
        Value(Used(), dp) == old(if RoundsUp(Used(), n, trunc) then Value(Used()[..n], dp) + P10(dp - n)
          else Value(Used()[..n], dp))
      ensures !(0 <= n < old(nd)) ==> Used() == old(Used()) && dp == old(dp)
    {
      hide Value, P10, RoundsUp;
      if n < 0 || n >= nd {
        return;
      }
      var up := ShouldRoundUp(n);
      if up {
        RoundUp(n);
      } else {
        RoundDown(n);
      }
    }

    lemma PickedUpNothing(k: nat)
      requires Valid() && (nd > 0 ==> Pow2(k) <= 0)
      ensures nd == 0
    {
    }
  }

  /** The first n entries of buf are the last n digits of all, last digit first, and v has the others. */
  ghost predicate ReversedSoFar(all: seq<digit>, v: nat, buf: seq<digit>, n: nat) {
    n <= |all| <= |buf| && Digits(v) == all[..|all| - n]
    && forall i :: 0 <= i < n ==> buf[i] == all[|all| - 1 - i]
  }

  lemma NoneReversed(v: nat)
    ensures Digits(v) == Digits(v)[..|Digits(v)|]
  {
  }

  lemma ReverseMore(all: seq<digit>, v: nat, buf: seq<digit>, n: nat)
    requires ReversedSoFar(all, v, buf, n) && v > 0
    ensures n < |all| && ReversedSoFar(all, v / 10, buf[n := v % 10], n + 1)
  {
    assert all[..|all| - n - 1] == all[..|all| - n][..|all| - n - 1];
  }

  lemma AllReversed(all: seq<digit>, buf: seq<digit>, n: nat)
    requires ReversedSoFar(all, 0, buf, n)
    ensures n == |all| && forall i :: 0 <= i < n ==> buf[i] == all[|all| - 1 - i]
  {
  }

  lemma DigitsAtMost(v: nat)
    requires v < UINT
    ensures |Digits(v)| <= 24
  {
    PowersOfTen();
    DigitsBelow(v, 20);
  }

  lemma {:induction false} DigitsBelow(v: nat, n: nat)
    requires v < Pow10(n)
    ensures |Digits(v)| <= n
  {
    if v > 0 {
      DigitsBelow(v / 10, n - 1);
    }
  }

  lemma {:induction false} DigitsFirst(v: nat)
    requires v > 0
    ensures Digits(v) != [] && Digits(v)[0] != 0
  {
    if v >= 10 {
      DigitsFirst(v / 10);
    } else {
      assert v / 10 == 0;
    }
  }

  lemma AssignedValue(v: nat)
    ensures var s := Digits(v);
      Value(s, |s|) == v as real && Value(Trimmed(s), if Trimmed(s) == [] then 0 else |s|) == v as real
      && (Trimmed(s) != [] ==> Trimmed(s)[0] != 0)
  {
    hide Value, Digits, Num, P10;
    var s := Digits(v);
    DigitsNumber(v);
    WholeValue(s);
    TrimmedValue(s, |s|);
    TrimmedZero(s);
    if v > 0 {
      DigitsFirst(v);
    } else {
      NoDigits();
    }
  }

  lemma NoDigits()
    ensures Digits(0) == [] && Value([], 0) == 0.0
  {
  }

  lemma WholeValue(s: seq<digit>)
    ensures Value(s, |s|) == Num(s) as real
  {
    assert P10(0) == 1.0;
  }

  lemma CheatCutoff(k: nat)
    requires 1 <= k <= 60
    ensures Leftcheats(k).delta >= 1
    ensures var s := Digits(Leftcheats(k).cutoff);
      s != [] && s[|s| - 1] != 0
  {
    CheatIsPowerOfFive(k);
    CheatPositive(k);
    OddFives(k);
  }

  lemma {:induction false} OddFives(k: nat)
    requires k > 0
    ensures Pow5(k) % 10 == 5
  {
    if k > 1 {
      OddFives(k - 1);
    }
  }

  /** y is what is left of the number when all but its first w digits have been stored. */
  ghost predicate InRange(y: nat, w: int) {
    w >= 0 && y < Pow10(w) && (w > 0 ==> Pow10(w - 1) <= y)
  }

  lemma InRangePositive(y: nat, w: int)
    requires InRange(y, w)
    ensures y > 0 <==> w > 0
  {
  }

  ghost predicate LeftStored(full: seq<digit>, y: nat, w: int, d: seq<digit>, trunc0: bool, trunc: bool) {
    && 0 <= w <= |full| && full == LastDigits(y, w) + full[w..] && |d| == CAPACITY
    && (forall i :: w <= i < |full| && i < CAPACITY ==> d[i] == full[i])
    && (trunc <==> trunc0 || exists i :: w <= i < |full| && CAPACITY <= i && full[i] != 0)
  }

  lemma LeftStart(x: nat, L: nat, d: seq<digit>, trunc: bool)
    requires |d| == CAPACITY && L > 0 && InRange(x, L)
    ensures LeftStored(LastDigits(x, L), x, L, d, trunc, trunc)
  {
  }

  lemma LeftStep(full: seq<digit>, y: nat, w: int, d: seq<digit>, trunc0: bool, trunc: bool)
    requires LeftStored(full, y, w, d, trunc0, trunc) && InRange(y, w) && w > 0
    ensures InRange(y / 10, w - 1) && y % 10 == y - 10 * (y / 10)
    ensures w - 1 < CAPACITY ==> LeftStored(full, y / 10, w - 1, d[w - 1 := y % 10], trunc0, trunc)
    ensures w - 1 >= CAPACITY ==> LeftStored(full, y / 10, w - 1, d, trunc0, trunc || y % 10 != 0)
  {
    var c := y % 10;
    assert full[w - 1] == c;
    assert full[w - 1..] == [c] + full[w..];
    assert LastDigits(y, w) == LastDigits(y / 10, w - 1) + [c];
    hide LastDigits;
    if w > 1 {
      assert Pow10(w - 1) == 10 * Pow10(w - 2);
    }
  }

  /** One digit of the number is one step of the carry. */
  lemma LeftDigit(s: seq<digit>, r: nat, k: nat, n: nat)
    requires r < |s| && n < Pow2(k)
    ensures var y := Num(s[..r + 1]) * Pow2(k) + n;
      var m := n + s[r] * Pow2(k);
      y % 10 == m % 10 && y / 10 == Num(s[..r]) * Pow2(k) + m / 10 && m / 10 < Pow2(k)
        && y - 10 * (y / 10) == m - 10 * (m / 10)
  {
    NumTake(s, r + 1);
    hide Num, Pow2;
    Carry(s[r], Pow2(k), n);
    CarryDigit(Num(s[..r]), s[r], Num(s[..r + 1]), Pow2(k), n);
  }

  lemma CarryDigit(a: nat, c: digit, b: nat, p: nat, n: nat)
    requires b == 10 * a + c && n + c * p < 10 * p
    ensures var y, m := b * p + n, n + c * p;
      y % 10 == m % 10 && y / 10 == a * p + m / 10 && m / 10 < p && y - 10 * (y / 10) == m - 10 * (m / 10)
  {
    var m, t := n + c * p, a * p;
    SplitProduct(a, c, p);
    TenTimes(t, m);
  }

  lemma SplitProduct(a: nat, c: nat, p: nat)
    ensures (10 * a + c) * p == 10 * (a * p) + c * p
  {
  }

  lemma TenTimes(b: nat, m: nat)
    ensures (10 * b + m) % 10 == m % 10 && (10 * b + m) / 10 == b + m / 10
  {
  }

  lemma Carry(c: digit, p: nat, n: nat)
    requires n < p
    ensures n + c * p < 10 * p
  {
    NonNegative(9 - c, p);
    Distribute(p, 9, c);
  }

  lemma {:induction false} Pow2Below(k: nat, j: nat)
    requires k <= j
    ensures Pow2(k) <= Pow2(j)
  {
    if k < j {
      Pow2Below(k, j - 1);
    }
  }

  lemma NoOverflow(k: nat, n: nat, c: digit)
    requires k <= 60 && n < Pow2(k)
    ensures n + c * Pow2(k) < UINT
  {
    Carry(c, Pow2(k), n);
    Pow2Below(k, 60);
    TwoTo60();
  }

  lemma TwoTo60()
    ensures Pow2(60) == 0x1000_0000_0000_0000
  {
    TwoTo20();
    hide Pow2;
    Pow2Adds(20, 20);
    Pow2Adds(40, 20);
  }

  lemma TwoTo20()
    ensures Pow2(20) == 0x10_0000
  {
    assert Pow2(5) == 32;
    hide Pow2;
    Pow2Adds(5, 5);
    Pow2Adds(10, 10);
  }

  lemma LeftEmpty(s: seq<digit>, k: nat)
    requires s == []
    ensures Num(s) * Pow2(k) == 0
  {
  }

  lemma LeftDone(full: seq<digit>, w: int, d: seq<digit>, trunc0: bool, trunc: bool)
    requires LeftStored(full, 0, w, d, trunc0, trunc) && InRange(0, w)
    ensures w == 0 && (trunc <==> trunc0 || Lost(full)) && forall i :: 0 <= i < |full| && i < CAPACITY ==>
      d[i] == full[i]
  {
  }

  lemma LeftValue(s: seq<digit>, dp: int, k: nat, L: nat)
    requires |s| <= L && L > 0 && InRange(Num(s) * Pow2(k), L)
    ensures var full := LastDigits(Num(s) * Pow2(k), L);
      |full| == L && full[0] != 0 && Value(full, dp + L - |s|) == Times(Value(s, dp), Pow2(k) as real)
  {
    var x := Num(s) * Pow2(k);
    LastDigitsNumber(x, L);
    LastDigitsLeading(x, L);
    hide LastDigits, Num, Pow2, Pow10, Value, Times;
    var full := LastDigits(x, L);
    ValueTimes(full, dp + L - |s|, s, dp, Pow2(k));
  }

  lemma ValueTimes(s: seq<digit>, dp: int, t: seq<digit>, dp': int, m: nat)
    requires Num(s) == Num(t) * m && dp - |s| == dp' - |t|
    ensures Value(s, dp) == Times(Value(t, dp'), m as real)
  {
    hide Num, P10, Times;
    ProductValue(Num(t), m, Num(s), P10(dp - |s|));
  }

  lemma ProductValue(a: nat, b: nat, c: nat, x: real)
    requires c == a * b
    ensures Times(c as real, x) == Times(Times(a as real, x), b as real)
  {
    assert c as real == a as real * b as real;
  }

  lemma KeptLeading(full: seq<digit>)
    requires full != [] && full[0] != 0
    ensures Kept(full) != [] && Kept(full)[0] == full[0] && Trimmed(Kept(full)) != []
  {
    TrimmedZero(Kept(full));
  }

  /** s and dp, multiplied by m, are the digits full; what is stored of them is s1 and dp1. */
  ghost predicate MultipliedTo(s: seq<digit>, dp: int, m: nat, full: seq<digit>, trunc0: bool, s1: seq<digit>, dp1: int,
      trunc: bool)
  {
    Value(full, dp + |full| - |s|) == Times(Value(s, dp), m as real)
    && IsCut(full, dp + |full| - |s|, trunc0, s1, dp1, trunc)
  }

  lemma LeftCut(s: seq<digit>, dp: int, m: nat, full: seq<digit>, trunc0: bool, s1: seq<digit>, dp1: int, trunc: bool)
    requires full != [] && full[0] != 0 && Value(full, dp + |full| - |s|) == Times(Value(s, dp), m as real)
    requires s1 == Trimmed(Kept(full)) && dp1 == dp + |full| - |s| && (trunc <==> trunc0 || Lost(full))
    ensures MultipliedTo(s, dp, m, full, trunc0, s1, dp1, trunc) && s1 != [] && s1[0] != 0
  {
    CutValue(full, dp1, trunc0, s1, dp1, trunc);
  }

  lemma PrefixNone(s: seq<digit>)
    ensures Prefix(s, 0) == 0
  {
  }

  lemma SmallQuotient(n: nat, p: nat)
    requires p > 0
    ensures n / p == 0 <==> n < p
  {
    Euclid(n, p);
    if n < p {
      DivisionIs(n, p, 0, n);
    }
  }

  lemma PrefixPositive(s: seq<digit>, r: nat)
    requires r < |s| && (s[0] != 0) && (r > 0 ==> Prefix(s, r) > 0)
    ensures 10 * Prefix(s, r) + s[r] > 0
  {
  }

  /** From R digits of s (zeros past its end) the digits full of the quotient by 2^k have been made, the first after r0
      digits, and n is left. */
  ghost predicate Emitted(s: seq<digit>, k: nat, R: nat, r0: nat, full: seq<digit>, n: nat) {
    && R == r0 + |full| && Prefix(s, R) == 10 * Num(full) * Pow2(k) + n && n < 10 * Pow2(k)
    && (full == [] ==> n >= Pow2(k)) && (full != [] ==> full[0] != 0)
  }

  ghost predicate EmittedStored(full: seq<digit>, w: nat, d: seq<digit>, trunc0: bool, trunc: bool) {
    && |d| == CAPACITY && w == (if |full| <= CAPACITY then |full| else CAPACITY)
    && (forall i :: 0 <= i < w ==> d[i] == full[i]) && (trunc <==> trunc0 || Lost(full))
  }

  lemma NothingEmitted(s: seq<digit>, k: nat, r: nat, n: nat, d: seq<digit>, trunc: bool)
    requires n == Prefix(s, r) && Pow2(k) <= n < 10 * Pow2(k) && |d| == CAPACITY
    ensures Emitted(s, k, r, r, [], n) && EmittedStored([], 0, d, trunc, trunc)
  {
    assert 10 * 0 * Pow2(k) == 0;
  }

  lemma NextEmitted(s: seq<digit>, k: nat, R: nat, r0: nat, full: seq<digit>, n: nat)
    requires Emitted(s, k, R, r0, full, n)
    ensures 0 <= n / Pow2(k) < 10 && n % Pow2(k) < Pow2(k)
    ensures Emitted(s, k, R + 1, r0, full + [n / Pow2(k)], n % Pow2(k) * 10 + if R < |s| then s[R] else 0)
  {
    hide Prefix, Num;
    var p := Pow2(k);
    Euclid(n, p);
    SmallQuotient(n, p);
    var dig, m := n / p, n % p;
    QuotientBelow(n, p, 10);
    NextPrefix(s, R);
    NumSnoc(full, dig);
    hide Pow2;
    EmitStep(Num(full), p, dig, m);
  }

  lemma QuotientBelow(n: nat, p: nat, q: nat)
    requires p > 0 && n < q * p
    ensures n / p < q
  {
    Euclid(n, p);
    if n / p >= q {
      Scaled(q, n / p, p);
    }
  }

  lemma EmitStep(e: nat, p: nat, dig: nat, m: nat)
    ensures 10 * (10 * e * p + (p * dig + m)) == 10 * (10 * e + dig) * p + m * 10
  {
    assert 10 * (10 * e + dig) * p == 10 * (10 * e * p) + 10 * (p * dig);
  }

  lemma NoOverflow10(k: nat, n: nat, c: digit)
    requires k <= 60 && n < Pow2(k)
    ensures n * 10 + c < UINT
  {
    Pow2Below(k, 60);
    TwoTo60();
  }

  lemma StoreEmitted(full: seq<digit>, w: nat, d: seq<digit>, trunc0: bool, trunc: bool, dig: digit)
    requires EmittedStored(full, w, d, trunc0, trunc)
    ensures w < CAPACITY ==> w == |full| && EmittedStored(full + [dig], w + 1, d[w := dig], trunc0, trunc)
    ensures w >= CAPACITY ==> EmittedStored(full + [dig], w, d, trunc0, trunc || dig > 0)
  {
    var more := full + [dig];
    if w < CAPACITY {
      assert !Lost(full) && !Lost(more);
    } else {
      if Lost(full) {
        var i :| CAPACITY <= i < |full| && full[i] != 0;
        assert more[i] != 0;
      }
      if dig > 0 {
        assert more[|full|] != 0;
      }
      if Lost(more) {
        var i :| CAPACITY <= i < |more| && more[i] != 0;
        assert i < |full| ==> full[i] != 0;
      }
    }
  }

  /** n is a multiple of 2^i. */
  ghost predicate MultipleOf(n: nat, i: nat) {
    exists q: nat :: n == q * Pow2(i)
  }

  lemma MultipleOfOne(n: nat)
    ensures MultipleOf(n, 0)
  {
    assert n == n * Pow2(0);
  }

  /** Each digit put down gains a factor of two, so that after k digits nothing is left. */
  lemma NextMultiple(n: nat, i: nat, k: nat)
    requires MultipleOf(n, i) && i <= k
    ensures MultipleOf(n % Pow2(k) * 10, i + 1) && (i == k ==> n % Pow2(k) == 0)
  {
    var q: nat :| n == q * Pow2(i);
    Pow2Adds(k - i, i);
    var p, m, t := Pow2(k), Pow2(k - i), Pow2(i);
    assert Pow2(i + 1) == 2 * t;
    hide Pow2;
    MultipleRemainder(n, q, p, m, t);
    if i == k {
      OneFactor(m, t);
    }
  }

  lemma MultipleRemainder(n: nat, q: nat, p: nat, m: nat, t: nat)
    requires n == q * t && p == m * t && m > 0 && t > 0
    ensures n % p * 10 == (q % m * 5) * (2 * t) && (m == 1 ==> n % p == 0)
  {
    var a, b := q / m, q % m;
    Euclid(q, m);
    MultipleParts(m, a, b, t);
    Remainder(t, m, b, 0);
    Commute(t, b);
    Commute(t, m);
    DivisionIs(n, p, a, b * t);
    TimesTen(b, t);
  }

  lemma TimesTen(b: nat, t: nat)
    ensures b * t * 10 == (b * 5) * (2 * t)
  {
  }

  lemma MultipleParts(m: nat, a: nat, b: nat, t: nat)
    ensures (m * a + b) * t == (m * t) * a + b * t
  {
    assert (m * a) * t == (m * t) * a;
  }

  lemma OneFactor(m: nat, t: nat)
    requires m * t == t && t > 0
    ensures m == 1
  {
    Distribute(t, m, 1);
    Commute(t, m);
    SmallMultiple(t, m - 1);
  }

  lemma AllEmitted(s: seq<digit>, dp: int, k: nat, R: nat, r0: nat, full: seq<digit>, w: nat, d: seq<digit>,
      trunc0: bool, trunc: bool)
    requires Emitted(s, k, R, r0, full, 0) && EmittedStored(full, w, d, trunc0, trunc) && R >= |s|
    ensures full != [] && full[0] != 0 && d[..w] == Kept(full) && (trunc <==> trunc0 || Lost(full))
    ensures Times(Value(full, dp - r0 + 1), Pow2(k) as real) == Value(s, dp)
    ensures Trimmed(Kept(full)) != []
  {
    KeptLeading(full);
    assert s[..|s|] == s;
    assert Prefix(s, R) == Num(s) * Pow10(R - |s|);
    P10Adds(dp - R, R - |s|);
    P10Step(dp - R);
    ValueIs(full, dp - r0 + 1);
    ValueIs(s, dp);
    hide *;
    QuotientValue(Num(full), Num(s), Pow2(k), Pow10(R - |s|), P10(dp - R));
  }

  lemma QuotientValue(e: nat, x: nat, p: nat, t: nat, y: real)
    requires x * t == 10 * e * p
    ensures Times(Times(e as real, 10.0 * y), p as real) == Times(x as real, Times(t as real, y))
  {
    assert (x * t) as real == x as real * t as real;
    assert (10 * e * p) as real == 10.0 * e as real * p as real;
    RealProducts(e as real, p as real, x as real, t as real, y);
  }

  lemma RealProducts(e: real, p: real, x: real, t: real, y: real)
    requires x * t == 10.0 * e * p
    ensures e * (10.0 * y) * p == x * (t * y)
  {
    assert e * (10.0 * y) * p == (10.0 * e * p) * y;
    assert x * (t * y) == (x * t) * y;
  }

  /** s and dp are m times the digits full with decimal point dp1, and what is stored of those is s1. */
  ghost predicate DividedTo(s: seq<digit>, dp: int, m: nat, full: seq<digit>, trunc0: bool, s1: seq<digit>, dp1: int,
      trunc: bool)
  {
    Times(Value(full, dp1), m as real) == Value(s, dp) && IsCut(full, dp1, trunc0, s1, dp1, trunc)
  }

  lemma RightCut(s: seq<digit>, dp: int, m: nat, full: seq<digit>, dp1: int, trunc0: bool, s1: seq<digit>, dp2: int,
      trunc: bool)
    requires full != [] && full[0] != 0 && Times(Value(full, dp1), m as real) == Value(s, dp)
    requires s1 == Trimmed(Kept(full)) && dp2 == dp1 && (trunc <==> trunc0 || Lost(full))
    ensures DividedTo(s, dp, m, full, trunc0, s1, dp2, trunc) && s1 != [] && s1[0] != 0
  {
    CutValue(full, dp1, trunc0, s1, dp1, trunc);
  }

  /** w is v * 2^k. */
  ghost predicate ShiftedBy(v: real, k: int, w: real) {
    if k >= 0 then w == Times(v, Pow2(k) as real) else Times(w, Pow2(-k) as real) == v
  }

  lemma ShiftNone(v: real)
    ensures ShiftedBy(v, 0, v)
  {
    assert Pow2(0) as real == 1.0;
  }

  lemma ZeroShifts(s: seq<digit>, dp: int, k: int)
    requires s == []
    ensures ShiftedBy(Value(s, dp), k, Value(s, dp))
  {
    assert Num(s) as real == 0.0;
    TimesZero(P10(dp - |s|));
    hide *;
    ValueIs(s, dp);
    ZeroShifted(k);
  }

  lemma ZeroShifted(k: int)
    ensures ShiftedBy(0.0, k, 0.0)
  {
  }

  lemma TimesTwice(v: real, a: nat, b: nat)
    ensures Times(Times(v, a as real), b as real) == Times(v, (a * b) as real)
  {
    assert (a * b) as real == a as real * b as real;
    TimesAssoc(v, a as real, b as real);
  }

  lemma LeftComposes(v: real, done: int, k: nat, s: seq<digit>, dp: int, full: seq<digit>, trunc0: bool, s1: seq<digit>,
      dp1: int, trunc: bool)
    requires done >= 0 && (!trunc0 ==> ShiftedBy(v, done, Value(s, dp)))
    requires MultipliedTo(s, dp, Pow2(k), full, trunc0, s1, dp1, trunc)
    ensures (trunc0 ==> trunc) && (!trunc ==> ShiftedBy(v, done + k, Value(s1, dp1)))
  {
    hide Value, Times;
    CutValue(full, dp + |full| - |s|, trunc0, s1, dp1, trunc);
    Pow2Adds(done, k);
    TimesTwice(v, Pow2(done), Pow2(k));
  }

  lemma RightComposes(v: real, done: int, k: nat, s: seq<digit>, dp: int, full: seq<digit>, trunc0: bool,
      s1: seq<digit>, dp1: int, trunc: bool)
    requires done <= 0 && k >= 1 && (!trunc0 ==> ShiftedBy(v, done, Value(s, dp)))
    requires DividedTo(s, dp, Pow2(k), full, trunc0, s1, dp1, trunc)
    ensures (trunc0 ==> trunc) && (!trunc ==> ShiftedBy(v, done - k, Value(s1, dp1)))
  {
    ShiftNone(v);
    hide Value, Times;
    CutValue(full, dp1, trunc0, s1, dp1, trunc);
    Pow2Adds(k, -done);
    TimesTwice(Value(s1, dp1), Pow2(k), Pow2(-done));
    if done == 0 {
      TimesOne(v);
    }
  }

  lemma TimesOne(v: real)
    ensures Times(v, Pow2(0) as real) == v
  {
    assert Pow2(0) as real == 1.0;
  }

  /** The digits behind the first n amount to more than half a unit of digit n, or to half and the tie goes up. */
  ghost predicate RoundsUp(s: seq<digit>, n: nat, trunc: bool)
    requires n < |s|
  {
    var rest, unit := Num(s[n..]), Pow10(|s| - n);
    2 * rest > unit || (2 * rest == unit && s[|s| - 1] == 0)
    || (2 * rest == unit && s[|s| - 1] != 0 && (trunc || (n > 0 && s[n - 1] % 2 != 0)))
  }

  /** What the first dropped digit tells. Only a single 5 counts as halfway. */
  lemma HalfwayDigit(s: seq<digit>, n: nat, trunc: bool)
    requires n < |s|
    ensures RoundsUp(s, n, trunc) <==>
      if s[n] == 5 && n + 1 == |s| then trunc || (n > 0 && s[n - 1] % 2 != 0) else s[n] >= 5
  {
    var t := s[n..];
    PrefixBounds(t, 1);
    assert t[..1] == [s[n]] && [s[n]][..0] == [];
    var p := Pow10(|t| - 1);
    assert Pow10(|t|) == 10 * p;
    FirstDigitHalf(Num(t), s[n], p);
    if n + 1 == |s| {
      assert p == 1;
    } else if s[n] == 5 && 2 * Num(t) == 10 * p {
      HalfwayEndsInZero(t);
    }
  }

  lemma FirstDigitHalf(x: nat, c: digit, p: nat)
    requires p > 0 && c * p <= x < (c + 1) * p
    ensures c < 5 ==> 2 * x < 10 * p
    ensures c > 5 ==> 2 * x > 10 * p
    ensures c == 5 ==> 2 * x >= 10 * p
  {
    if c < 5 {
      Scaled(c + 1, 5, p);
    } else if c > 5 {
      Scaled(6, c, p);
    }
  }

  lemma HalfwayEndsInZero(t: seq<digit>)
    requires |t| > 1 && 2 * Num(t) == Pow10(|t|)
    ensures t[|t| - 1] == 0
  {
  }

  lemma RoundedDown(s: seq<digit>, dp: int)
    requires s != [] ==> s[0] != 0
    ensures Value(Trimmed(s), if Trimmed(s) == [] then 0 else dp) == Value(s, dp)
    ensures Trimmed(s) != [] ==> Trimmed(s)[0] != 0
  {
    TrimmedValue(s, dp);
    TrimmedZero(s);
    if s == [] {
      ValueIs(s, dp);
      ValueIs(s, 0);
      TimesZero(P10(dp));
      TimesZero(P10(0));
    }
  }

  lemma {:induction false} NinesNumber(s: seq<digit>, i: nat)
    requires i <= |s| && forall j :: i <= j < |s| ==> s[j] == 9
    ensures Num(s) + 1 == (Num(s[..i]) + 1) * Pow10(|s| - i)
    decreases |s| - i
  {
    if i == |s| {
      assert s[..i] == s;
    } else {
      NinesNumber(s, i + 1);
      NumTake(s, i + 1);
      hide Num;
      TenMore(Num(s[..i]), Pow10(|s| - i - 1));
    }
  }

  lemma TenMore(a: nat, p: nat)
    ensures (10 * a + 9 + 1) * p == (a + 1) * (10 * p)
  {
    SplitProduct(a + 1, 0, p);
    Assoc(a + 1, 10, p);
  }

  lemma Incremented(s: seq<digit>, i: nat, dp: int)
    requires i < |s| && s[i] < 9 && forall j :: i < j < |s| ==> s[j] == 9
    ensures Value(s[..i] + [s[i] + 1], dp) == Value(s, dp) + P10(dp - |s|)
  {
    var t := s[..i] + [s[i] + 1];
    NinesNumber(s, i + 1);
    NumTake(s, i + 1);
    NumSnoc(s[..i], s[i] + 1);
    hide Num, P10, Pow10;
    OneMore(s, t, dp);
  }

  lemma OneMore(s: seq<digit>, t: seq<digit>, dp: int)
    requires |t| <= |s| && Num(s) + 1 == Num(t) * Pow10(|s| - |t|)
    ensures Value(t, dp) == Value(s, dp) + P10(dp - |s|)
  {
    hide *;
    P10Adds(dp - |s|, |s| - |t|);
    ValueIs(s, dp);
    ValueIs(t, dp);
    OneUnit(Num(s), Num(t), Pow10(|s| - |t|), P10(dp - |s|));
  }

  lemma OneUnit(a: nat, b: nat, p: nat, x: real)
    requires a + 1 == b * p
    ensures Times(b as real, Times(p as real, x)) == Times(a as real, x) + x
  {
    assert a as real + 1.0 == b as real * p as real;
    TimesAssoc(b as real, p as real, x);
  }

  lemma AllNines(s: seq<digit>, dp: int)
    requires forall j :: 0 <= j < |s| ==> s[j] == 9
    ensures Value([1], dp + 1) == Value(s, dp) + P10(dp - |s|)
  {
    NinesNumber(s, 0);
    assert s[..0] == [] && [1][..0] == [];
    P10Adds(dp - |s|, |s|);
    ValueIs(s, dp);
    ValueIs([1], dp + 1);
    hide *;
    NumOne();
    OneUnit(Num(s), 1, Pow10(|s|), P10(dp - |s|));
  }

  lemma NumOne()
    ensures Num([1]) == 1
  {
    assert [1][..0] == [];
  }
}
