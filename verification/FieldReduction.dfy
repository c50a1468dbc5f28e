/** What multiplication does to the integer product of two field values, independently of the word arithmetic. */
module FieldReduction {
  import opened FieldWords

  /** The words of v above 2^260 folded down with 16 * FOLD. */
  function Folded(v: nat): nat {
    v % (16 * TWO_256) + v / (16 * TWO_256) * (16 * FOLD)
  }

  /** The number of a product of two field values whose integer product is v: folded, and once more what is above
      2^256. */
  function ReducedValue(v: nat): nat {
    Folded(v) % TWO_256 + Folded(v) / TWO_256 * FOLD
  }

  /** t are the ten words of f mod 2^256 and m is f div 2^256. */
  ghost predicate IsCut(f: nat, t: seq<uint64>, m: uint64) {
    |t| == 10 && (forall i :: 0 <= i < 9 ==> t[i] < 0x400_0000) && t[9] < 0x40_0000
    && f == EvalWide(t) + m as int * TWO_256
  }

  /** n is t with m * FOLD added to its lowest limbs; the carry out of limb 1 stays in limb 2. */
  ghost predicate IsFinalFold(t: seq<uint64>, m: uint64, n: Limbs) {
    |t| == 10 && m < 0x40_1000_0000
    && var low := t[0] as int + 0x400_0000 * t[1] as int + m as int * FOLD;
    n[0] as int == low % 0x400_0000 && n[1] as int == low / 0x400_0000 % 0x400_0000
    && n[2] as int == low / 0x10_0000_0000_0000 + t[2] as int
    && forall i :: 3 <= i < 10 ==> n[i] as int == t[i] as int
  }

  /** n is the result of multiplying two field values whose integer product is v. */
  ghost predicate IsReduction(v: nat, n: Limbs) {
    exists t: seq<uint64>, m: uint64 :: IsCut(Folded(v), t, m) && IsFinalFold(t, m, n)
  }

  lemma TenWords(t: seq<uint64>)
    requires |t| >= 10
    ensures EvalWide(t) ==
      t[0] as int + 0x400_0000 * (t[1] as int + 0x400_0000 * (t[2] as int + 0x400_0000 * (t[3] as int +
      0x400_0000 * (t[4] as int + 0x400_0000 * (t[5] as int + 0x400_0000 * (t[6] as int + 0x400_0000 * (t[7] as
      int + 0x400_0000 * (t[8] as int + 0x400_0000 * (t[9] as int + 0x400_0000 * (EvalWide(t[10..])))))))))))
  {
    Unroll(t, 0);
    Unroll(t, 1);
    Unroll(t, 2);
    Unroll(t, 3);
    Unroll(t, 4);
    Unroll(t, 5);
    Unroll(t, 6);
    Unroll(t, 7);
    Unroll(t, 8);
    Unroll(t, 9);
    assert t[0..] == t;
    hide EvalWide;
  }

  lemma Unroll(t: seq<uint64>, k: nat)
    requires k < |t|
    ensures EvalWide(t[k..]) == t[k] as int + 0x400_0000 * EvalWide(t[k+1..])
  {
    assert t[k..][1..] == t[k+1..];
  }

  lemma TenLimbs(n: Limbs)
    ensures Eval(n) ==
      n[0] as int + 0x400_0000 * (n[1] as int + 0x400_0000 * (n[2] as int + 0x400_0000 * (n[3] as int +
      0x400_0000 * (n[4] as int + 0x400_0000 * (n[5] as int + 0x400_0000 * (n[6] as int + 0x400_0000 * (n[7] as
      int + 0x400_0000 * (n[8] as int + 0x400_0000 * (n[9] as int)))))))))
  {
    hide Eval;
    assert n[0..] == n;
    UnrollLimb(n, 0);
    UnrollLimb(n, 1);
    UnrollLimb(n, 2);
    UnrollLimb(n, 3);
    UnrollLimb(n, 4);
    LastLimbs(n);
  }

  lemma LastLimbs(n: Limbs)
    ensures Eval(n[5..]) == n[5] as int + 0x400_0000 * (n[6] as int + 0x400_0000 * (n[7] as int
      + 0x400_0000 * (n[8] as int + 0x400_0000 * n[9] as int)))
  {
    hide Eval;
    UnrollLimb(n, 5);
    UnrollLimb(n, 6);
    UnrollLimb(n, 7);
    UnrollLimb(n, 8);
    UnrollLimb(n, 9);
  }

  lemma UnrollLimb(n: Limbs, k: nat)
    requires k < 10
    ensures Eval(n[k..]) == n[k] as int + 0x400_0000 * (if k == 9 then 0 else Eval(n[k+1..]))
  {
    assert n[k..][1..] == n[k+1..];
  }

  lemma {:induction false} WordsUnique(s: seq<uint64>, t: seq<uint64>)
    requires |s| == |t| && EvalWide(s) == EvalWide(t)
    requires forall i :: 0 <= i < |s| ==> s[i] < 0x400_0000 && t[i] < 0x400_0000
    ensures s == t
  {
    if s != [] {
      assert EvalWide(s) % 0x400_0000 == s[0] as int && EvalWide(t) % 0x400_0000 == t[0] as int;
      WordsUnique(s[1..], t[1..]);
      assert s == [s[0]] + s[1..] && t == [t[0]] + t[1..];
    }
  }

  lemma CutBound(f: nat, t: seq<uint64>, m: uint64)
    requires IsCut(f, t, m)
    ensures EvalWide(t) < TWO_256 && EvalWide(t) == f % TWO_256 && m as int == f / TWO_256
  {
    TenWords(t);
    assert EvalWide(t[10..]) == 0;
  }

  lemma FinalFoldUnique(t: seq<uint64>, m: uint64, n: Limbs, n': Limbs)
    requires IsFinalFold(t, m, n) && IsFinalFold(t, m, n')
    ensures n == n'
  {
    assert forall i :: 0 <= i < 10 ==> n[i] as int == n'[i] as int;
  }

  /** Multiplication is a function of the integer product: equal products give equal limbs. */
  lemma ReductionIsUnique(v: nat, n: Limbs, n': Limbs)
    requires IsReduction(v, n) && IsReduction(v, n')
    ensures n == n'
  {
    hide Folded, IsFinalFold;
    var t, m :| IsCut(Folded(v), t, m) && IsFinalFold(t, m, n);
    var t', m' :| IsCut(Folded(v), t', m') && IsFinalFold(t', m', n');
    CutBound(Folded(v), t, m);
    CutBound(Folded(v), t', m');
    assert m as int == m' as int;
    WordsUnique(t, t');
    FinalFoldUnique(t, m, n, n');
  }

  lemma FoldedValue(v: nat)
    ensures v == Folded(v) + 16 * (v / (16 * TWO_256)) * PRIME
  {
  }

  lemma CongruentByMultiple(v: nat, x: nat, k: int)
    requires v == x + k * PRIME
    ensures v % PRIME == x % PRIME
  {
    var q, r := x / PRIME, x % PRIME;
    assert v == (q + k) * PRIME + r;
  }

  lemma ThreeDigits(low: nat)
    ensures low == low % 0x400_0000 + 0x400_0000 * (low / 0x400_0000 % 0x400_0000)
      + 0x10_0000_0000_0000 * (low / 0x10_0000_0000_0000)
  {
  }

  lemma FinalFoldLow(t: seq<uint64>, m: uint64, n: Limbs)
    requires IsFinalFold(t, m, n) && t[0] < 0x400_0000 && t[1] < 0x400_0000 && t[2] < 0x400_0000
    ensures n[0] as int + 0x400_0000 * n[1] as int + 0x10_0000_0000_0000 * n[2] as int
      == t[0] as int + 0x400_0000 * t[1] as int + 0x10_0000_0000_0000 * t[2] as int + m as int * FOLD
    ensures n[0] < 0x400_0000 && n[1] < 0x400_0000 && n[2] < 0x410_0000
  {
    ThreeDigits(t[0] as int + 0x400_0000 * t[1] as int + m as int * FOLD);
  }

  lemma FinalFoldValue(t: seq<uint64>, m: uint64, n: Limbs)
    requires IsFinalFold(t, m, n) && t[9] < 0x40_0000 && forall i :: 0 <= i < 9 ==> t[i] < 0x400_0000
    ensures Eval(n) == EvalWide(t) + m as int * FOLD
  {
    TenWords(t);
    TenLimbs(n);
    FinalFoldLow(t, m, n);
    assert EvalWide(t[10..]) == 0;
    assert forall i :: 3 <= i < 10 ==> n[i] as int == t[i] as int;
    hide *;
  }

  /** The limbs left by a multiplication stand for the product modulo PRIME and have magnitude 1. */
  lemma ReductionIsCongruent(v: nat, n: Limbs)
    requires IsReduction(v, n)
    ensures Eval(n) % PRIME == v % PRIME && Mag(n, 1)
  {
    hide Folded, Eval, EvalWide;
    var t, m :| IsCut(Folded(v), t, m) && IsFinalFold(t, m, n);
    FinalFoldValue(t, m, n);
    FinalFoldLow(t, m, n);
    assert Folded(v) == EvalWide(t) + m as int * TWO_256 && Mag(n, 1);
    FoldedValue(v);
    var hi := v / (16 * TWO_256);
    hide *;
    assert v == Eval(n) + (16 * hi + m as int) * PRIME;
    CongruentByMultiple(v, Eval(n), 16 * hi + m as int);
  }

  /** The limbs left by a multiplication stand for that number exactly. */
  lemma ReductionValue(v: nat, n: Limbs)
    requires IsReduction(v, n)
    ensures Eval(n) == ReducedValue(v)
  {
    hide Folded, Eval, EvalWide;
    var t, m :| IsCut(Folded(v), t, m) && IsFinalFold(t, m, n);
    FinalFoldValue(t, m, n);
    CutBound(Folded(v), t, m);
  }

  /** It is congruent to v, and for factors of magnitude 8 hardly more than 2^256. */
  lemma ReducedIsCongruent(v: nat)
    ensures ReducedValue(v) % PRIME == v % PRIME
    ensures v <= 65 * TWO_256 * TWO_256 ==> ReducedValue(v) <= TWO_256 + TWO_256 / 0x1_0000_0000_0000_0000
  {
    FoldedValue(v);
    var f, hi := Folded(v), v / (16 * TWO_256);
    assert f == ReducedValue(v) + f / TWO_256 * PRIME;
    if v <= 65 * TWO_256 * TWO_256 {
      assert hi <= 5 * TWO_256;
      assert f <= 16 * TWO_256 + 5 * TWO_256 * (16 * FOLD);
    }
    CongruentByMultiple(v, ReducedValue(v), 16 * hi + f / TWO_256);
  }
}
