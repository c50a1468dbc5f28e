/** Numbers in any base, most significant digit first. */
module Radix {
  import opened Division

  function Pow(b: nat, n: nat): nat {
    if n == 0 then 1 else b * Pow(b, n - 1)
  }

  lemma {:induction false} PowPositive(b: nat, n: nat)
    requires b > 0
    ensures Pow(b, n) > 0
  {
    if n > 0 {
      PowPositive(b, n - 1);
      AtLeast(Pow(b, n - 1), b);
    }
  }

  lemma {:induction false} PowAdds(b: nat, m: nat, n: nat)
    ensures Pow(b, m + n) == Pow(b, m) * Pow(b, n)
  {
    if m > 0 {
      PowAdds(b, m - 1, n);
      Assoc(b, Pow(b, m - 1), Pow(b, n));
    }
  }

  lemma {:induction false} PowTimes(b: nat, m: nat, n: nat)
    ensures Pow(b, m * n) == Pow(Pow(b, m), n)
  {
    if n > 0 {
      PowTimes(b, m, n - 1);
      PowAdds(b, m, m * (n - 1));
      Distribute(m, n, 1);
    } else {
      assert m * 0 == 0;
    }
  }

  lemma {:induction false} PowMonotone(b: nat, m: nat, n: nat)
    requires b > 0 && m <= n
    ensures Pow(b, m) <= Pow(b, n)
  {
    if m < n {
      PowMonotone(b, m, n - 1);
      AtLeast(Pow(b, n - 1), b);
      Commute(b, Pow(b, n - 1));
    }
  }

  /** Powers of larger bases are larger. */
  lemma {:induction false} BaseMonotone(a: nat, b: nat, n: nat)
    requires a <= b
    ensures Pow(a, n) <= Pow(b, n)
  {
    if n > 0 {
      BaseMonotone(a, b, n - 1);
      Scaled(Pow(a, n - 1), Pow(b, n - 1), a);
      Scaled(a, b, Pow(b, n - 1));
    }
  }

  lemma {:induction false} BaseStrict(a: nat, b: nat, n: nat)
    requires a < b && n > 0
    ensures Pow(a, n) < Pow(b, n)
  {
    if n > 1 {
      BaseStrict(a, b, n - 1);
    }
    BaseMonotone(a, b, n - 1);
    PowPositive(b, n - 1);
    Scaled(Pow(a, n - 1), Pow(b, n - 1), a);
    Scaled(a + 1, b, Pow(b, n - 1));
    Distribute(Pow(b, n - 1), a + 1, a);
    Commute(Pow(b, n - 1), a + 1);
    Commute(Pow(b, n - 1), a);
  }

  ghost predicate AllBelow(s: seq<nat>, b: nat) {
    forall i :: 0 <= i < |s| ==> s[i] < b
  }

  function Num(b: nat, s: seq<nat>): nat {
    if s == [] then 0 else b * Num(b, s[..|s| - 1]) + s[|s| - 1]
  }

  lemma NumSnoc(b: nat, s: seq<nat>, c: nat)
    ensures Num(b, s + [c]) == b * Num(b, s) + c
  {
    assert (s + [c])[..|s + [c]| - 1] == s;
  }

  lemma {:induction false} NumCons(b: nat, c: nat, s: seq<nat>)
    ensures Num(b, [c] + s) == c * Pow(b, |s|) + Num(b, s)
  {
    hide Num, Pow;
    NoDigits(b);
    if s == [] {
      assert [c] + s == [] + [c];
      NumSnoc(b, [], c);
      assert b * 0 == 0 && c * 1 == c;
    } else {
      var t, d := s[..|s| - 1], s[|s| - 1];
      NumCons(b, c, t);
      assert [c] + s == [c] + t + [d] && s == t + [d];
      NumSnoc(b, [c] + t, d);
      NumSnoc(b, t, d);
      PowSucc(b, |t|);
      ConsStep(b, c, Pow(b, |t|), Num(b, t));
    }
  }

  lemma NoDigits(b: nat)
    ensures Num(b, []) == 0 && Pow(b, 0) == 1
  {
  }

  lemma ConsStep(b: nat, c: nat, p: nat, x: nat)
    ensures b * (c * p + x) == c * (b * p) + b * x
  {
  }

  lemma {:induction false} NumBound(b: nat, s: seq<nat>)
    requires AllBelow(s, b)
    ensures Num(b, s) < Pow(b, |s|)
  {
    if s != [] {
      var t := s[..|s| - 1];
      NumBound(b, t);
      NumSnoc(b, t, s[|s| - 1]);
      assert s == t + [s[|s| - 1]];
      PowSucc(b, |t|);
      hide Num, Pow;
      BoundStep(b, Num(b, t), s[|s| - 1], Pow(b, |t|));
    }
  }

  lemma BoundStep(b: nat, n: nat, c: nat, p: nat)
    requires n < p && c < b
    ensures b * n + c < b * p
  {
    Scaled(n + 1, p, b);
    Distribute(b, n + 1, n);
  }

  /** The digits of x without leading zeros. */
  function Digits(b: nat, x: nat): (s: seq<nat>)
    requires b > 1
    ensures AllBelow(s, b)
    decreases x
  {
    if x == 0 then [] else
      Euclid(x, b);
      Smaller(b, x);
      Digits(b, x / b) + [x % b]
  }

  lemma Smaller(b: nat, x: nat)
    requires b > 1 && x > 0
    ensures 0 <= x / b < x
  {
    Euclid(x, b);
    if x / b >= x {
      Scaled(2, b, x / b);
    }
  }

  lemma {:induction false} DigitsNum(b: nat, x: nat)
    requires b > 1
    ensures Num(b, Digits(b, x)) == x && (x > 0 ==> Digits(b, x) != [] && Digits(b, x)[0] != 0)
    decreases x
  {
    if x > 0 {
      Euclid(x, b);
      Smaller(b, x);
      DigitsNum(b, x / b);
      NumSnoc(b, Digits(b, x / b), x % b);
      if x / b == 0 {
        assert b * 0 == 0;
      }
    }
  }

  /** A digit string without leading zero is the digits of its number. */
  lemma {:induction false} NumDigits(b: nat, s: seq<nat>)
    requires b > 1 && AllBelow(s, b) && (s != [] ==> s[0] != 0)
    ensures Digits(b, Num(b, s)) == s && (s != [] ==> Num(b, s) > 0)
  {
    if s != [] {
      var t, c := s[..|s| - 1], s[|s| - 1];
      NumDigits(b, t);
      assert s == t + [c];
      DivisionIs(Num(b, s), b, Num(b, t), c);
      if t != [] {
        AtLeast(b, Num(b, t));
      }
    }
  }

  /** The array keeps a number in its last digits, behind index end; base b. */
  ghost predicate Holds(output: seq<nat>, end: int, b: nat, x: nat) {
    -1 <= end < |output| && b > 1 && output[end + 1..] == Digits(b, x)
    && forall i :: 0 <= i <= end ==> output[i] == 0
  }

  /** While the number in old is being multiplied by m: the digits t have been made, u have not been read, carry is
      left. */
  ghost predicate Carrying(u: seq<nat>, carry: nat, t: seq<nat>, m: nat, b: nat, y: nat) {
    AllBelow(u, b) && AllBelow(t, b) && carry < m && (m * Num(b, u) + carry) * Pow(b, |t|) + Num(b, t) == y
  }

  lemma CarryDigit(u: seq<nat>, carry: nat, t: seq<nat>, m: nat, b: nat, y: nat)
    requires Carrying(u, carry, t, m, b, y) && b > 1
    ensures var d := if u == [] then 0 else u[|u| - 1];
      var rest := if u == [] then [] else u[..|u| - 1];
      var c := carry + m * d;
      c % b < b && 0 <= c / b < m && Carrying(rest, c / b, [c % b] + t, m, b, y)
  {
    var d := if u == [] then 0 else u[|u| - 1];
    var rest: seq<nat> := if u == [] then [] else u[..|u| - 1];
    var c := carry + m * d;
    Euclid(c, b);
    Scaled(d, b - 1, m);
    CarryBelow(c, m, b, d, carry);
    NumCons(b, c % b, t);
    assert Num(b, u) == b * Num(b, rest) + d by {
      if u == [] {
        assert b * 0 == 0;
      }
    }
    hide Num, Pow;
    CarryStep(m, b, Num(b, rest), d, carry, c / b, c % b, Pow(b, |t|), Num(b, t));
    PowSucc(b, |t|);
  }

  lemma PowSucc(b: nat, n: nat)
    ensures Pow(b, n + 1) == b * Pow(b, n)
  {
  }

  lemma CarryBelow(c: nat, m: nat, b: nat, d: nat, carry: nat)
    requires c == carry + m * d && d < b && carry < m && b > 1
    ensures 0 <= c / b < m
  {
    Euclid(c, b);
    Distribute(m, b, 1);
    Scaled(d, b - 1, m);
    if c / b >= m {
      Scaled(m, c / b, b);
      Commute(m, b);
    }
  }

  lemma CarryStep(m: nat, b: nat, x: nat, d: nat, carry: nat, q: nat, r: nat, p: nat, t: nat)
    requires carry + m * d == b * q + r
    ensures (m * (b * x + d) + carry) * p + t == (m * x + q) * (b * p) + (r * p + t)
  {
    assert m * (b * x + d) + carry == b * (m * x + q) + r by {
      assert m * (b * x) == b * (m * x);
    }
    assert (b * (m * x + q) + r) * p == (m * x + q) * (b * p) + r * p;
  }

  /** Multiplies the number kept behind index end by m and adds the carry, in place; the result is kept behind end'. */
  method MultiplyAdd(output: array<nat>, end: int, ghost x: nat, m: nat, b: nat, carry0: nat) returns (end': int)
    requires Holds(output[..], end, b, x) && carry0 < m && m * x + carry0 < Pow(b, output.Length)
    modifies output
    ensures -1 <= end' < output.Length && Holds(output[..], end', b, m * x + carry0)
  {
    hide Num, Digits, Pow, Carrying, Holds;
    ghost var y: nat := m * x + carry0;
    ghost var all := output[..];
    var carry: nat, idx := carry0, output.Length - 1;
    MultiplyStarts(all, end, x, m, b, carry0);
    assert output[idx + 1..] == [];
    while idx > end || carry != 0
      invariant -1 <= idx < output.Length && forall i :: 0 <= i <= idx ==> output[i] == all[i]
      invariant Carrying(Unread(all, end, idx), carry, output[idx + 1..], m, b, y)
      invariant idx < end ==> output[idx + 1] != 0 || carry != 0
      decreases idx
    {
      ghost var t := output[idx + 1..];
      NotFull(all, end, idx, carry, t, m, b, y);
      CarryStepAt(all, end, idx, x, carry, t, m, b, y);
      carry := carry + m * output[idx];
      output[idx] := carry % b;
      carry := carry / b;
      assert output[idx..] == [output[idx]] + t;
      idx := idx - 1;
    }
    end' := idx;
    MultiplyEnds(all, end, x, m, b, carry0, output[..], idx);
  }

  lemma CarryStepAt(all: seq<nat>, end: int, idx: int, x: nat, carry: nat, t: seq<nat>, m: nat, b: nat, y: nat)
    requires -1 <= end < |all| && 0 <= idx < |all| && Holds(all, end, b, x)
    requires Carrying(Unread(all, end, idx), carry, t, m, b, y)
    ensures b > 1 && m > 0
    ensures var c := carry + m * all[idx];
      c >= 0 && c % b >= 0 && c / b >= 0 && Carrying(Unread(all, end, idx - 1), c / b, [c % b] + t, m, b, y)
      && (idx - 1 < end && carry != 0 ==> idx == end || c % b != 0 || c / b != 0)
      && (idx <= end ==> c == carry)
  {
    hide Carrying, Num, Digits, Pow, Unread;
    HoldsBase(all, end, b, x);
    CarryDigit(Unread(all, end, idx), carry, t, m, b, y);
    NextUnread(all, end, idx, b, x);
    BeyondEnd(carry, b);
    CarryingPositive(Unread(all, end, idx), carry, t, m, b, y);
  }

  lemma CarryingPositive(u: seq<nat>, carry: nat, t: seq<nat>, m: nat, b: nat, y: nat)
    requires Carrying(u, carry, t, m, b, y)
    ensures m > 0
  {
  }

  lemma HoldsBase(output: seq<nat>, end: int, b: nat, x: nat)
    requires Holds(output, end, b, x)
    ensures b > 1
  {
  }

  /** The digits of the number behind index end that lie at idx or before. */
  ghost function Unread(all: seq<nat>, end: int, idx: int): seq<nat>
    requires -1 <= end < |all| && -1 <= idx < |all|
  {
    if idx > end then all[end + 1..idx + 1] else []
  }

  lemma NextUnread(all: seq<nat>, end: int, idx: int, b: nat, x: nat)
    requires -1 <= end < |all| && 0 <= idx < |all| && Holds(all, end, b, x)
    ensures var u := Unread(all, end, idx);
      all[idx] == (if u == [] then 0 else u[|u| - 1])
      && Unread(all, end, idx - 1) == if u == [] then [] else u[..|u| - 1]
    ensures Unread(all, end, idx) == [] <==> idx <= end
  {
  }

  /** The last carry becomes a nonzero digit. */
  lemma BeyondEnd(c: nat, b: nat)
    requires b > 0
    ensures c != 0 ==> c % b != 0 || c / b != 0
  {
    Euclid(c, b);
    if c / b == 0 {
      assert b * 0 == 0;
    }
  }

  lemma MultiplyEnds(all: seq<nat>, end: int, x: nat, m: nat, b: nat, carry0: nat, output: seq<nat>, idx: int)
    requires Holds(all, end, b, x) && |output| == |all| && -1 <= idx <= end && carry0 < m
    requires forall i :: 0 <= i <= idx ==> output[i] == all[i]
    requires Carrying([], 0, output[idx + 1..], m, b, m * x + carry0)
    requires idx < end ==> output[idx + 1] != 0
    ensures Holds(output, idx, b, m * x + carry0)
  {
    var t, s := output[idx + 1..], all[end + 1..];
    Scaled(1, m, x);
    NoDigits(b);
    assert (m * Num(b, []) + 0) * Pow(b, |t|) == 0 by {
      assert m * 0 == 0 && 0 * Pow(b, |t|) == 0;
    }
    if idx == end && t != [] && t[0] == 0 {
      DigitsNum(b, x);
      LeadingDigit(b, s);
      assert t == [0] + t[1..];
      NumCons(b, 0, t[1..]);
      NumBound(b, t[1..]);
    }
    NumDigits(b, t);
  }

  lemma LeadingDigit(b: nat, s: seq<nat>)
    requires s != [] && s[0] != 0
    ensures Pow(b, |s| - 1) <= Num(b, s)
  {
    assert s == [s[0]] + s[1..];
    NumCons(b, s[0], s[1..]);
    AtLeast(Pow(b, |s| - 1), s[0]);
    Commute(Pow(b, |s| - 1), s[0]);
  }

  lemma MultiplyStarts(output: seq<nat>, end: int, x: nat, m: nat, b: nat, carry: nat)
    requires Holds(output, end, b, x) && carry < m
    ensures b > 1 && -1 <= end < |output| && Carrying(Unread(output, end, |output| - 1), carry, [], m, b, m * x + carry)
  {
    DigitsNum(b, x);
    NoDigits(b);
    assert Unread(output, end, |output| - 1) == Digits(b, x);
  }

  lemma NotFull(all: seq<nat>, end: int, idx: int, carry: nat, t: seq<nat>, m: nat, b: nat, y: nat)
    requires -1 <= end < |all| && -1 <= idx < |all| && (idx > end || carry != 0) && |t| == |all| - idx - 1
    requires Carrying(Unread(all, end, idx), carry, t, m, b, y) && y < Pow(b, |all|)
    ensures idx >= 0
  {
    if idx < 0 {
      NoDigits(b);
      AtLeast(Pow(b, |t|), carry);
      Commute(Pow(b, |t|), carry);
    }
  }

  function Quotient(x: nat, b: nat): (q: nat)
    requires b > 0
  {
    Euclid(x, b);
    AtLeast(b, x / b);
    x / b
  }

  function Remainder(x: nat, b: nat): (r: nat)
    requires b > 0
    ensures r < b
  {
    Euclid(x, b);
    x % b
  }

  lemma QuotientAndRemainder(x: nat, b: nat)
    requires b > 0
    ensures x == b * Quotient(x, b) + Remainder(x, b)
  {
    Euclid(x, b);
  }

  lemma QuotientIs(x: nat, b: nat, q: nat, r: nat)
    requires x == b * q + r && r < b
    ensures Quotient(x, b) == q && Remainder(x, b) == r
  {
    DivisionIs(x, b, q, r);
  }

  /** The last n digits of x. */
  function Fixed(b: nat, x: nat, n: nat): (s: seq<nat>)
    requires b > 0
    ensures |s| == n && AllBelow(s, b)
    decreases n
  {
    if n == 0 then [] else Fixed(b, Quotient(x, b), n - 1) + [Remainder(x, b)]
  }

  lemma {:induction false} FixedNum(b: nat, x: nat, n: nat)
    requires b > 0 && x < Pow(b, n)
    ensures Num(b, Fixed(b, x, n)) == x
    decreases n
  {
    hide Quotient, Remainder, Num;
    if n > 0 {
      var q, r := Quotient(x, b), Remainder(x, b);
      QuotientAndRemainder(x, b);
      QuotientBound(x, b, Pow(b, n - 1));
      FixedNum(b, q, n - 1);
      NumSnoc(b, Fixed(b, q, n - 1), r);
    } else {
      NoDigits(b);
    }
  }

  lemma QuotientBound(x: nat, b: nat, p: nat)
    requires b > 0 && x < b * p
    ensures Quotient(x, b) < p
  {
    hide Quotient, Remainder;
    QuotientAndRemainder(x, b);
    if Quotient(x, b) >= p {
      Scaled(p, Quotient(x, b), b);
    }
  }

  lemma {:induction false} FixedOfNum(b: nat, s: seq<nat>)
    requires b > 0 && AllBelow(s, b)
    ensures Fixed(b, Num(b, s), |s|) == s
  {
    if s != [] {
      var t, c := s[..|s| - 1], s[|s| - 1];
      FixedOfNum(b, t);
      NumSnoc(b, t, c);
      assert s == t + [c];
      hide Num;
      QuotientIs(Num(b, s), b, Num(b, t), c);
    }
  }
}
