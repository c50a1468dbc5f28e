/** fieldVal: addition, negation, multiplication and squaring of secp256k1 field values, in ten 26-bit limbs with lazy
    carries. */
module FieldValues {
  import opened Bytes
  import opened Division
  import opened FieldWords
  import opened FieldColumns
  import opened FieldReduction
  import opened FieldNormalForm
  import opened FieldBytes

  /** The words t, least significant first, with top above them. */
  ghost function WordsWithTop(t: seq<uint64>, top: nat): nat {
    if t == [] then top else t[0] as int + 0x400_0000 * WordsWithTop(t[1..], top)
  }

  lemma {:induction false} PushWord(t: seq<uint64>, x: uint64, top: nat)
    ensures WordsWithTop(t + [x], top) == WordsWithTop(t, x as int + 0x400_0000 * top)
  {
    if t != [] {
      PushWord(t[1..], x, top);
      assert (t + [x])[1..] == t[1..] + [x];
    }
  }

  lemma {:induction false} TopWord(t: seq<uint64>, x: uint64)
    ensures EvalWide(t + [x]) == WordsWithTop(t, x as int)
  {
    if t != [] {
      TopWord(t[1..], x);
      assert (t + [x])[1..] == t[1..] + [x];
    } else {
      assert [x][1..] == [];
      assert t + [x] == [x];
    }
  }

  lemma Mag8(a: Limbs)
    requires Mag(a, 8)
    ensures AtMost(a, 0x2080_0000)
  {
    assert forall i :: 0 <= i < 9 ==> a[i] == a[..9][i];
  }

  /** Twenty words that hold the product of two values of magnitude 8 have a top word of at most 2^24. */
  lemma TopWordBound(a: Limbs, b: Limbs, t: seq<uint64>)
    requires Mag(a, 8) && Mag(b, 8) && |t| == 20 && EvalWide(t) == Eval(a) * Eval(b)
    ensures t[19] <= 0x100_0000
  {
    MagnitudeValue(a);
    MagnitudeValue(b);
    TopWeight(t);
    ProductBound(Eval(a), Eval(b), MAG8, MAG8);
  }

  const MAG8: int := 0x80000008000082000020800008200002080000820000208000082000020800000

  lemma MagnitudeValue(a: Limbs)
    requires Mag(a, 8)
    ensures Eval(a) <= MAG8
  {
    Mag8(a);
    TenLimbs(a);
    hide Eval;
  }

  lemma TopWeight(t: seq<uint64>)
    requires |t| == 20
    ensures EvalWide(t) >=
      0x100000000000000000000000000000000000000000000000000000000000000000 *
      (0x40000000000000000000000000000000000000000000000000000000000 * t[19] as int)
  {
    TenthWord(t);
    TenthWord(t[10..]);
    assert t[10..][9] == t[19];
    hide EvalWide;
  }

  lemma TenthWord(t: seq<uint64>)
    requires |t| >= 10
    ensures EvalWide(t) >= 0x100000000000000000000000000000000000000000000000000000000000000000 * EvalWide(t[10..])
    ensures EvalWide(t) >= 0x40000000000000000000000000000000000000000000000000000000000 * t[9] as int
  {
    TenWords(t);
    hide EvalWide;
  }

  lemma FoldedSplit(v: nat, lo: nat, hi: nat)
    requires v == lo + 16 * TWO_256 * hi && lo < 16 * TWO_256
    ensures Folded(v) == lo + 16 * FOLD * hi
  {
    assert v / (16 * TWO_256) == hi && v % (16 * TWO_256) == lo;
  }

  lemma {:induction false} EvalSplit(s: seq<uint64>, k: nat)
    requires k <= |s| && forall i :: 0 <= i < k ==> s[i] < 0x400_0000
    ensures EvalWide(s) == EvalWide(s[..k]) + Weight(k) * EvalWide(s[k..]) && EvalWide(s[..k]) < Weight(k)
  {
    if k > 0 {
      EvalSplit(s[1..], k - 1);
      assert s[..k][1..] == s[1..][..k-1] && s[1..][k-1..] == s[k..];
      Assoc(0x400_0000, Weight(k - 1), EvalWide(s[k..]));
    } else {
      assert s[..0] == [] && s[0..] == s;
    }
  }

  lemma Split(t: seq<uint64>)
    requires |t| == 20 && forall i :: 0 <= i < 10 ==> t[i] < 0x400_0000
    ensures EvalWide(t) == EvalWide(t[..10]) + 16 * TWO_256 * EvalWide(t[10..])
    ensures EvalWide(t[..10]) < 16 * TWO_256
  {
    EvalSplit(t, 10);
    assert Weight(10) == 16 * TWO_256;
    hide EvalWide;
  }

  lemma FoldedWords(w: seq<uint64>, t: seq<uint64>, m: uint64)
    requires |w| == 20 && forall i :: 0 <= i < 10 ==> w[i] < 0x400_0000
    requires |t| == 10 && t[9] < 0x40_0000 && forall i :: 0 <= i < 9 ==> t[i] < 0x400_0000
    requires EvalWide(t) + m as int * TWO_256 == EvalWide(w[..10]) + 68719492368 * EvalWide(w[10..])
    ensures IsCut(Folded(EvalWide(w)), t, m)
  {
    hide EvalWide, Folded;
    Split(w);
    FoldedSplit(EvalWide(w), EvalWide(w[..10]), EvalWide(w[10..]));
  }

  lemma ExactlyTen(t: seq<uint64>)
    requires |t| == 10
    ensures EvalWide(t) ==
      t[0] as int + 0x400_0000 * (t[1] as int + 0x400_0000 * (t[2] as int + 0x400_0000 * (t[3] as int +
      0x400_0000 * (t[4] as int + 0x400_0000 * (t[5] as int + 0x400_0000 * (t[6] as int + 0x400_0000 * (t[7] as
      int + 0x400_0000 * (t[8] as int + 0x400_0000 * (t[9] as int)))))))))
  {
    TenWords(t);
    assert t[10..] == [];
    assert EvalWide([]) == 0;
    hide EvalWide;
  }


  class FieldVal {
    var n: Limbs

    constructor ()
      ensures n == [0, 0, 0, 0, 0, 0, 0, 0, 0, 0]
    {
      n := [0, 0, 0, 0, 0, 0, 0, 0, 0, 0];
    }

    method Set(val: FieldVal)
      modifies this
      ensures n == old(val.n)
    {
      n := val.n;
    }

    method SetBytes(b: array<byte>)
      requires b.Length == 32
      modifies this
      ensures AllNormal(n) && Eval(n) == FromBytes(b[..])
    {
      n := LimbsOf(b[..]);
      SetBytesValue(b[..]);
    }

    /** Only a normalized value is written out correctly. */
    method PutBytes(b: array<byte>)
      requires AllNormal(n) && b.Length == 32
      modifies b
      ensures FromBytes(b[..]) == Eval(n)
    {
      var bytes := BytesOf(n);
      forall i | 0 <= i < 32 {
        b[i] := bytes[i];
      }
      assert b[..] == bytes;
      PutBytesValue(n);
    }

    /** The low 32 bits only. */
    method SetInt(ui: uint64)
      modifies this
      ensures Eval(n) == ui as int % 0x1_0000_0000 && n[1..] == [0, 0, 0, 0, 0, 0, 0, 0, 0]
    {
      n := [(ui % 0x1_0000_0000) as uint32, 0, 0, 0, 0, 0, 0, 0, 0, 0];
      TenLimbs(n);
    }

    /** Limb-wise sum without carries; the ghost parameters are the magnitudes of the operands. */
    method Add2(val: FieldVal, val2: FieldVal, ghost j: nat, ghost k: nat)
      requires Mag(val.n, j) && Mag(val2.n, k) && j + k <= 63
      modifies this
      ensures Eval(n) == old(Eval(val.n)) + old(Eval(val2.n)) && Mag(n, j + k)
    {
      var a, b := val.n, val2.n;
      LimbBounds(a, j);
      LimbBounds(b, k);

      n := seq(10, i requires 0 <= i < 10 => a[i] + b[i]);
      EvalCombine(a, 1, b, 1, n);
    }

    method Add(val: FieldVal, ghost j: nat, ghost k: nat)
      requires Mag(n, j) && Mag(val.n, k) && j + k <= 63
      modifies this
      ensures Eval(n) == old(Eval(n)) + old(Eval(val.n)) && Mag(n, j + k)
    {
      Add2(this, val, j, k);
    }

    method MulInt(ui: uint32, ghost k: nat)
      requires Mag(n, k) && ui as int * k <= 63
      modifies this
      ensures Eval(n) == old(Eval(n)) * ui as int && Mag(n, ui as int * k)
    {
      var a := n;
      LimbBounds(a, k);
      forall i | 0 <= i < 10 ensures 0 <= a[i] as int * ui as int <= 0xFFFF_FFFF
        && 0 <= a[i] as int * ui as int <= ui as int * k * 0x410_0000 {
        ScaledLimb(a[i] as int, k, ui as int);
      }
      n := seq(10, i requires 0 <= i < 10 => a[i] * ui);
      assert n[9] as int <= ui as int * k * 0x3F_FFFF by {
        MostSignificant(a[9] as int, k, ui as int);
      }
      EvalCombine(a, ui as int, a, 0, n);
    }

    /** (magnitude + 1) * PRIME - val, limb by limb, with no limb going below zero. */
    method NegateVal(val: FieldVal, magnitude: uint32)
      requires Mag(val.n, magnitude as int) && magnitude <= 62
      modifies this
      ensures Eval(n) == (magnitude as int + 1) * PRIME - old(Eval(val.n)) && Mag(n, magnitude as int + 1)
    {
      var a := val.n;
      LimbBounds(a, magnitude as int);
      var k := magnitude + 1;
      NegatedLimbs(a, magnitude as int);
      hide Mag;
      n := seq(10, i requires 0 <= i < 10 => k * PRIME_LIMBS[i] - a[i]);
      MagFromBounds(n, magnitude as int + 1);
      PrimeLimbs();
      EvalCombine(PRIME_LIMBS, k as int, a, -1, n);
    }

    method Negate(magnitude: uint32)
      requires Mag(n, magnitude as int) && magnitude <= 62
      modifies this
      ensures Eval(n) == (magnitude as int + 1) * PRIME - old(Eval(n)) && Mag(n, magnitude as int + 1)
    {
      NegateVal(this, magnitude);
    }

    /** The column phase of Mul2: the words of the product of a and b. */
    static method ProductWords(a: Limbs, b: Limbs) returns (t: seq<uint64>)
      requires AtMost(a, 0x2080_0000) && AtMost(b, 0x2080_0000)
      ensures |t| == 20 && forall i :: 0 <= i < 19 ==> t[i] < 0x400_0000
      ensures EvalWide(t) == Columns(a, b, 0, 19)
    {
      t := [];
      var m: uint64 := 0;
      for k := 0 to 19
        invariant |t| == k && forall i :: 0 <= i < k ==> t[i] < 0x400_0000
        invariant m < 0x40_0000_0000
        invariant WordsWithTop(t, m as int + Columns(a, b, k, 19)) == Columns(a, b, 0, 19)
      {
        hide *;
        ColumnsStep(a, b, k, 19);
        m := m + Terms(a, b, k);
        PushWord(t, Low26(m), Shr26(m) as int + Columns(a, b, k + 1, 19));
        t := t + [Low26(m)];
        m := Shr26(m);
      }
      TopWord(t, m);
      t := t + [m];
    }

    /** The column phase of SquareVal: the words of the square of a. */
    static method SquareWords(a: Limbs) returns (t: seq<uint64>)
      requires AtMost(a, 0x2080_0000)
      ensures |t| == 20 && forall i :: 0 <= i < 19 ==> t[i] < 0x400_0000
      ensures EvalWide(t) == SquareColumns(a, 0, 19)
    {
      t := [];
      var m: uint64 := 0;
      for k := 0 to 19
        invariant |t| == k && forall i :: 0 <= i < k ==> t[i] < 0x400_0000
        invariant m < 0x40_0000_0000
        invariant WordsWithTop(t, m as int + SquareColumns(a, k, 19)) == SquareColumns(a, 0, 19)
      {
        hide *;
        SquareColumnsStep(a, k, 19);
        m := m + SquareTerms(a, k);
        PushWord(t, Low26(m), Shr26(m) as int + SquareColumns(a, k + 1, 19));
        t := t + [Low26(m)];
        m := Shr26(m);
      }
      TopWord(t, m);
      t := t + [m];
    }

    /** The tail of Mul2 and SquareVal: fold the words t10..t19 into t0..t9, cut at 2^256, fold again. */
    static method FoldWords(w: seq<uint64>) returns (t: seq<uint64>, m: uint64)
      requires |w| == 20 && w[19] <= 0x100_0000 && forall i :: 0 <= i < 19 ==> w[i] < 0x400_0000
      ensures |t| == 10 && t[9] < 0x40_0000 && forall i :: 0 <= i < 9 ==> t[i] < 0x400_0000
      ensures m < 0x40_1000_0000
      ensures t[0] as int + 0x400_0000 * (t[1] as int + 0x400_0000 * (t[2] as int + 0x400_0000 * (t[3] as int +
      0x400_0000 * (t[4] as int + 0x400_0000 * (t[5] as int + 0x400_0000 * (t[6] as int + 0x400_0000 * (t[7] as
      int + 0x400_0000 * (t[8] as int + 0x400_0000 * (t[9] as int))))))))) + m as int * TWO_256 ==
      w[0] as int + 0x400_0000 * (w[1] as int + 0x400_0000 * (w[2] as int + 0x400_0000 * (w[3] as int +
      0x400_0000 * (w[4] as int + 0x400_0000 * (w[5] as int + 0x400_0000 * (w[6] as int + 0x400_0000 * (w[7] as
      int + 0x400_0000 * (w[8] as int + 0x400_0000 * (w[9] as int)))))))))
      + 68719492368 *
      (w[10] as int + 0x400_0000 * (w[11] as int + 0x400_0000 * (w[12] as int + 0x400_0000 * (w[13] as int +
      0x400_0000 * (w[14] as int + 0x400_0000 * (w[15] as int + 0x400_0000 * (w[16] as int + 0x400_0000 * (w[17]
      as int + 0x400_0000 * (w[18] as int + 0x400_0000 * (w[19] as int))))))))))
    {
      hide Low26, Shr26, Low22, Shr22;
      var t0, t1, t2, t3, t4, t5, t6, t7, t8, t9 := w[0], w[1], w[2], w[3], w[4], w[5], w[6], w[7], w[8], w[9];
      var t10, t11, t12, t13, t14, t15, t16, t17, t18, t19 :=
        w[10], w[11], w[12], w[13], w[14], w[15], w[16], w[17], w[18], w[19];
      m := t0 + t10 * 15632;
      t0 := Low26(m);
      m := Shr26(m) + t1 + t10 * 1024 + t11 * 15632;
      t1 := Low26(m);
      m := Shr26(m) + t2 + t11 * 1024 + t12 * 15632;
      t2 := Low26(m);
      m := Shr26(m) + t3 + t12 * 1024 + t13 * 15632;
      t3 := Low26(m);
      m := Shr26(m) + t4 + t13 * 1024 + t14 * 15632;
      t4 := Low26(m);
      m := Shr26(m) + t5 + t14 * 1024 + t15 * 15632;
      t5 := Low26(m);
      m := Shr26(m) + t6 + t15 * 1024 + t16 * 15632;
      t6 := Low26(m);
      m := Shr26(m) + t7 + t16 * 1024 + t17 * 15632;
      t7 := Low26(m);
      m := Shr26(m) + t8 + t17 * 1024 + t18 * 15632;
      t8 := Low26(m);
      m := Shr26(m) + t9 + t18 * 1024 + t19 * 68719492368;
      t9 := Low22(m);
      m := Shr22(m);
      t := [t0, t1, t2, t3, t4, t5, t6, t7, t8, t9];
    }

    static method Reduce(w: seq<uint64>) returns (n: Limbs)
      requires |w| == 20 && w[19] <= 0x100_0000 && forall i :: 0 <= i < 19 ==> w[i] < 0x400_0000
      ensures IsReduction(EvalWide(w), n)
    {
      var t, m := FoldWords(w);
      assert IsCut(Folded(EvalWide(w)), t, m) by {
        ExactlyTen(w[..10]);
        ExactlyTen(w[10..]);
        ExactlyTen(t);
        hide *;
        FoldedWords(w, t, m);
      }
      n := FinalFold(t, m);
    }

    /** The last fold: m * 977 into limb 0 and m * 64 into limb 1, with two carries. */
    static method FinalFold(t: seq<uint64>, m: uint64) returns (n: Limbs)
      requires |t| == 10 && t[9] < 0x40_0000 && forall i :: 0 <= i < 9 ==> t[i] < 0x400_0000
      requires m < 0x40_1000_0000
      ensures IsFinalFold(t, m, n)
    {
      var d := t[0] + m * 977;
      var n0 := Low26(d);
      var d' := Shr26(d) + t[1] + m * 64;
      var n1 := Low26(d');
      var n2 := Shr26(d') + t[2];
      LowDigits(t[0] as int, t[1] as int, m as int);
      assert n0 as int == d as int % 0x400_0000 && n1 as int == d' as int % 0x400_0000;
      assert d' as int == d as int / 0x400_0000 + t[1] as int + m as int * 64;
      assert n2 as int == d' as int / 0x400_0000 + t[2] as int;
      hide Low26, Shr26;
      assert n2 < 0x1_0000_0000;
      n := [n0 as uint32, n1 as uint32, n2 as uint32, t[3] as uint32, t[4] as uint32,
        t[5] as uint32, t[6] as uint32, t[7] as uint32, t[8] as uint32, t[9] as uint32];
    }

    /** No uint64 intermediate overflows (the word type has no larger values), and the limbs depend on the integer
        product only. */
    method Mul2(val: FieldVal, val2: FieldVal)
      requires Mag(val.n, 8) && Mag(val2.n, 8)
      modifies this
      ensures IsReduction(old(Eval(val.n)) * old(Eval(val2.n)), n)
      ensures Eval(n) == ReducedValue(old(Eval(val.n)) * old(Eval(val2.n)))
      ensures Eval(n) % PRIME == old(Eval(val.n)) * old(Eval(val2.n)) % PRIME && Mag(n, 1)
    {
      var a, b := val.n, val2.n;
      Mag8(a);
      Mag8(b);
      var w := ProductWords(a, b);
      ColumnsAreProduct(a, b, 19);
      TopWordBound(a, b, w);
      n := Reduce(w);
      ReductionIsCongruent(EvalWide(w), n);
      ReductionValue(EvalWide(w), n);
    }

    method Mul(val: FieldVal)
      requires Mag(n, 8) && Mag(val.n, 8)
      modifies this
      ensures Eval(n) == ReducedValue(old(Eval(n)) * old(Eval(val.n)))
      ensures Eval(n) % PRIME == old(Eval(n)) * old(Eval(val.n)) % PRIME && Mag(n, 1)
    {
      Mul2(this, val);
    }

    method SquareVal(val: FieldVal)
      requires Mag(val.n, 8)
      modifies this
      ensures IsReduction(old(Eval(val.n)) * old(Eval(val.n)), n)
      ensures Eval(n) == ReducedValue(old(Eval(val.n)) * old(Eval(val.n)))
      ensures Eval(n) % PRIME == old(Eval(val.n)) * old(Eval(val.n)) % PRIME && Mag(n, 1)
    {
      var a := val.n;
      Mag8(a);
      var w := SquareWords(a);
      SquareColumnsAreSquare(a, 19);
      TopWordBound(a, a, w);
      n := Reduce(w);
      ReductionIsCongruent(EvalWide(w), n);
      ReductionValue(EvalWide(w), n);
    }

    method Square()
      requires Mag(n, 8)
      modifies this
      ensures Eval(n) == ReducedValue(old(Eval(n)) * old(Eval(n)))
      ensures Eval(n) % PRIME == old(Eval(n)) * old(Eval(n)) % PRIME && Mag(n, 1)
    {
      SquareVal(this);
    }

    /** Normalize: one fold and one conditional subtraction. The result is the residue exactly when the fold does not
        carry. */
    method Normalize()
      requires Mag(n, 63)
      modifies this
      ensures AllNormal(n) && Eval(n) == NormalizedValue(old(Eval(n)))
      ensures OnceFolded(old(Eval(n))) < TWO_256 <==> Eval(n) == old(Eval(n)) % PRIME
    {
      var u := FoldOnce(n);
      EvalAtMost64(n);
      NormalizeIsResidue(Eval(n));
      n := SubtractPrime(u);
    }

    /** Equality of limbs, which for normalized values is equality of residues. */
    method Equals(val: FieldVal) returns (same: bool)
      ensures same <==> n == val.n
      ensures AllNormal(n) && AllNormal(val.n) ==> (same <==> Eval(n) == Eval(val.n))
    {
      same := n == val.n;
      if AllNormal(n) && AllNormal(val.n) && Eval(n) == Eval(val.n) {
        LimbsUnique(n, val.n);
      }
    }

    method IsZero() returns (zero: bool)
      ensures zero <==> Eval(n) == 0
    {
      zero := n == [0, 0, 0, 0, 0, 0, 0, 0, 0, 0];
      ZeroLimbs(n);
    }

    /** The value is x^e modulo PRIME and may be multiplied. */
    ghost predicate HasPower(x: nat, e: nat)
      reads this
    {
      Eval(n) % PRIME == Power(x, e) && Mag(n, 8)
    }

    method PowerMul2(a: FieldVal, b: FieldVal, ghost x: nat, ghost i: nat, ghost j: nat)
      requires a.HasPower(x, i) && b.HasPower(x, j)
      modifies this
      ensures HasPower(x, i + j) && Mag(n, 1)
    {
      hide Power;
      PowerSum(x, i, j, Eval(a.n), Eval(b.n));
      Mul2(a, b);
      MagMono(n, 1, 8);
    }

    method PowerCopy(a: FieldVal, ghost x: nat, ghost i: nat)
      requires a.HasPower(x, i)
      modifies this
      ensures HasPower(x, i)
    {
      Set(a);
    }

    method PowerSquare(a: FieldVal, ghost x: nat, ghost i: nat)
      requires a.HasPower(x, i)
      modifies this
      ensures HasPower(x, 2 * i)
    {
      hide Power;
      PowerSum(x, i, i, Eval(a.n), Eval(a.n));
      SquareVal(a);
      MagMono(n, 1, 8);
    }

    /** Five squarings in a row raise to the power 32. */
    method Square5(ghost x: nat, ghost e: nat)
      requires HasPower(x, e)
      modifies this
      ensures HasPower(x, 32 * e)
    {
      hide HasPower;
      PowerSquare(this, x, e);
      PowerSquare(this, x, 2 * e);
      PowerSquare(this, x, 4 * e);
      PowerSquare(this, x, 8 * e);
      PowerSquare(this, x, 16 * e);
    }

    /** One rung of Inverse: ten squarings and a multiplication. */
    method Rung(a: FieldVal, ghost x: nat, ghost e: nat, ghost j: nat)
      requires a != this && HasPower(x, e) && a.HasPower(x, j)
      modifies this
      ensures HasPower(x, 1024 * e + j) && Mag(n, 1)
    {
      hide HasPower;
      Square5(x, e);
      Square5(x, 32 * e);
      PowerMul2(this, a, x, 1024 * e, j);
    }

    /** Fermat inversion: x^(PRIME - 2) by 258 squarings and 33 multiplications. */
    method Inverse()
      requires Mag(n, 8)
      modifies this
      ensures HasPower(old(Eval(n)), PRIME - 2) && Mag(n, 1)
    {
      ghost var x := Eval(n);
      PowerOne(x);
      assert HasPower(x, 1);
      hide HasPower;
      var a3, a4, a10, a11 := SmallPowers(x);
      var a45, a63 := MiddlePowers(a3, a10, a11, x);
      var a1019, a1023 := LargePowers(a4, a11, a63, x);
      PowerCopy(a63, x, 63);
      Climb(a45, a1019, a1023, x);
    }

    method SmallPowers(ghost x: nat) returns (a3: FieldVal, a4: FieldVal, a10: FieldVal, a11: FieldVal)
      requires HasPower(x, 1)
      ensures fresh(a3) && fresh(a4) && fresh(a10) && fresh(a11)
      ensures a3.HasPower(x, 3) && a4.HasPower(x, 4) && a10.HasPower(x, 10) && a11.HasPower(x, 11)
    {
      hide HasPower;
      var a2 := new FieldVal();
      a2.PowerSquare(this, x, 1);
      a3 := new FieldVal();
      a3.PowerMul2(a2, this, x, 2, 1);
      a4 := new FieldVal();
      a4.PowerSquare(a2, x, 2);
      a10 := new FieldVal();
      a10.PowerSquare(a4, x, 4);
      a10.PowerMul2(a10, a2, x, 8, 2);
      a11 := new FieldVal();
      a11.PowerMul2(a10, this, x, 10, 1);
    }

    method MiddlePowers(a3: FieldVal, a10: FieldVal, a11: FieldVal, ghost x: nat) returns (a45: FieldVal, a63: FieldVal)
      requires a3.HasPower(x, 3) && a10.HasPower(x, 10) && a11.HasPower(x, 11)
      ensures fresh(a45) && fresh(a63) && a45.HasPower(x, 45) && a63.HasPower(x, 63)
    {
      hide HasPower;
      var a21 := new FieldVal();
      a21.PowerMul2(a10, a11, x, 10, 11);
      var a42 := new FieldVal();
      a42.PowerSquare(a21, x, 21);
      a45 := new FieldVal();
      a45.PowerMul2(a42, a3, x, 42, 3);
      a63 := new FieldVal();
      a63.PowerMul2(a42, a21, x, 42, 21);
    }

    method LargePowers(a4: FieldVal, a11: FieldVal, a63: FieldVal, ghost x: nat)
        returns (a1019: FieldVal, a1023: FieldVal)
      requires a4.HasPower(x, 4) && a11.HasPower(x, 11) && a63.HasPower(x, 63)
      ensures fresh(a1019) && fresh(a1023) && a1019.HasPower(x, 1019) && a1023.HasPower(x, 1023)
    {
      hide HasPower;
      a1019 := new FieldVal();
      a1019.PowerSquare(a63, x, 63);
      a1019.PowerSquare(a1019, x, 126);
      a1019.PowerSquare(a1019, x, 252);
      a1019.PowerSquare(a1019, x, 504);
      a1019.PowerMul2(a1019, a11, x, 1008, 11);
      a1023 := new FieldVal();
      a1023.PowerMul2(a1019, a4, x, 1019, 4);
    }

    /** The second half of Inverse, from x^(2^6 - 1) on. */
    method Climb(a45: FieldVal, a1019: FieldVal, a1023: FieldVal, ghost x: nat)
      requires this != a45 && this != a1019 && this != a1023
      requires HasPower(x, 63) && a45.HasPower(x, 45) && a1019.HasPower(x, 1019) && a1023.HasPower(x, 1023)
      modifies this
      ensures HasPower(x, PRIME - 2) && Mag(n, 1)
    {
      hide HasPower;
      Rung(a1023, x, 0x3f, 1023);
      Rung(a1023, x, 0xffff, 1023);
      Rung(a1023, x, 0x3ffffff, 1023);
      Rung(a1023, x, 0xfffffffff, 1023);
      Rung(a1023, x, 0x3fffffffffff, 1023);
      Rung(a1023, x, 0xffffffffffffff, 1023);
      Rung(a1023, x, 0x3ffffffffffffffff, 1023);
      Rung(a1023, x, 0xfffffffffffffffffff, 1023);
      Rung(a1023, x, 0x3fffffffffffffffffffff, 1023);
      Rung(a1023, x, 0xffffffffffffffffffffffff, 1023);
      Rung(a1023, x, 0x3ffffffffffffffffffffffffff, 1023);
      Rung(a1023, x, 0xfffffffffffffffffffffffffffff, 1023);
      Rung(a1023, x, 0x3fffffffffffffffffffffffffffffff, 1023);
      Rung(a1023, x, 0xffffffffffffffffffffffffffffffffff, 1023);
      Rung(a1023, x, 0x3ffffffffffffffffffffffffffffffffffff, 1023);
      Rung(a1023, x, 0xfffffffffffffffffffffffffffffffffffffff, 1023);
      Rung(a1023, x, 0x3fffffffffffffffffffffffffffffffffffffffff, 1023);
      Rung(a1023, x, 0xffffffffffffffffffffffffffffffffffffffffffff, 1023);
      Rung(a1023, x, 0x3ffffffffffffffffffffffffffffffffffffffffffffff, 1023);
      Rung(a1023, x, 0xfffffffffffffffffffffffffffffffffffffffffffffffff, 1023);
      Rung(a1023, x, 0x3fffffffffffffffffffffffffffffffffffffffffffffffffff, 1023);
      Rung(a1019, x, 0xffffffffffffffffffffffffffffffffffffffffffffffffffffff, 1019);
      Rung(a1023, x, 0x3fffffffffffffffffffffffffffffffffffffffffffffffffffffffb, 1023);
      Rung(a1023, x, 0xfffffffffffffffffffffffffffffffffffffffffffffffffffffffefff, 1023);
      Rung(a45, x, 0x3fffffffffffffffffffffffffffffffffffffffffffffffffffffffbfffff, 45);
    }
  }

  ghost function Power(x: nat, e: nat): nat {
    if e == 0 then 1 else x * Power(x, e - 1) % PRIME
  }

  lemma MulMod(a: nat, b: nat)
    ensures a * b % PRIME == (a % PRIME) * b % PRIME
  {
    var q := a / PRIME;
    assert a * b == (a % PRIME) * b + q * b * PRIME by {
      assert (q * PRIME + a % PRIME) * b == q * PRIME * b + (a % PRIME) * b;
    }
    CongruentByMultiple(a * b, (a % PRIME) * b, q * b);
  }

  lemma PowerOne(x: nat)
    ensures Power(x, 1) == x % PRIME
  {
    assert Power(x, 0) == 1;
  }

  lemma StepMod(x: nat, p: nat, q: nat)
    ensures x * (p * q % PRIME) % PRIME == (x * p % PRIME) * q % PRIME
  {
    MulMod(p * q, x);
    MulMod(x * p, q);
    Assoc(x, p, q);
    Commute(p * q, x);
    assert (p * q % PRIME) * x == x * (p * q % PRIME);
  }

  lemma {:induction false} PowerAdds(x: nat, i: nat, j: nat)
    ensures Power(x, i + j) == Power(x, i) * Power(x, j) % PRIME
  {
    if i == 0 {
      PowerReduced(x, j);
      assert Power(x, 0) == 1;
    } else {
      PowerAdds(x, i - 1, j);
      StepMod(x, Power(x, i - 1), Power(x, j));
    }
  }

  lemma PowerReduced(x: nat, j: nat)
    ensures 0 <= Power(x, j) < PRIME && Power(x, j) % PRIME == Power(x, j)
  {
  }

  /** Multiplying representatives of x^i and x^j gives x^(i+j). */
  lemma PowerSum(x: nat, i: nat, j: nat, a: nat, b: nat)
    requires a % PRIME == Power(x, i) && b % PRIME == Power(x, j)
    ensures a * b % PRIME == Power(x, i + j)
  {
    PowerAdds(x, i, j);
    MulMod(a, b);
    MulMod(b, a % PRIME);
    assert (a % PRIME) * b == b * (a % PRIME) && (b % PRIME) * (a % PRIME) == (a % PRIME) * (b % PRIME);
  }

  lemma MagMono(n: Limbs, j: nat, k: nat)
    requires Mag(n, j) && j <= k
    ensures Mag(n, k)
  {
    LimbBounds(n, j);
    MagFromBounds(n, k);
  }

  lemma ZeroLimbs(n: Limbs)
    ensures n == [0, 0, 0, 0, 0, 0, 0, 0, 0, 0] <==> Eval(n) == 0
  {
    TenLimbs(n);
    hide Eval;
  }

  lemma {:induction false} LimbsUnique(s: seq<uint32>, t: seq<uint32>)
    requires |s| == |t| && Eval(s) == Eval(t)
    requires forall i :: 0 <= i < |s| ==> s[i] < 0x400_0000 && t[i] < 0x400_0000
    ensures s == t
  {
    if s != [] {
      assert Eval(s) % 0x400_0000 == s[0] as int && Eval(t) % 0x400_0000 == t[0] as int;
      LimbsUnique(s[1..], t[1..]);
      assert s == [s[0]] + s[1..] && t == [t[0]] + t[1..];
    }
  }

  lemma EvalAtMost64(n: Limbs)
    requires Mag(n, 63)
    ensures Eval(n) <= 64 * TWO_256
  {
    LimbBounds(n, 63);
    TenLimbs(n);
    hide Eval;
  }

  lemma ColumnsStep(a: seq<uint32>, b: seq<uint32>, k: nat, n: nat)
    requires |a| <= 10 && AtMost(a, 0x2080_0000) && AtMost(b, 0x2080_0000) && k < n
    ensures Columns(a, b, k, n) == Terms(a, b, k) as int + 0x400_0000 * Columns(a, b, k + 1, n)
  {
  }

  lemma SquareColumnsStep(a: seq<uint32>, k: nat, n: nat)
    requires |a| <= 10 && AtMost(a, 0x2080_0000) && k < n
    ensures SquareColumns(a, k, n) == SquareTerms(a, k) as int + 0x400_0000 * SquareColumns(a, k + 1, n)
  {
  }

  lemma LowDigits(t0: nat, t1: nat, m: nat)
    ensures var low := t0 + 0x400_0000 * t1 + m * FOLD;
      var d := t0 + m * 977;
      var d' := d / 0x400_0000 + t1 + m * 64;
      low % 0x400_0000 == d % 0x400_0000 && low / 0x400_0000 == d' && low / 0x10_0000_0000_0000 == d' / 0x400_0000
  {
    var d := t0 + m * 977;
    var d' := d / 0x400_0000 + t1 + m * 64;
    assert t0 + 0x400_0000 * t1 + m * FOLD == d % 0x400_0000 + 0x400_0000 * d';
  }

  lemma LimbBounds(a: Limbs, k: nat)
    requires Mag(a, k)
    ensures forall i :: 0 <= i < 9 ==> a[i] as int <= k * 0x410_0000
    ensures a[9] as int <= k * 0x3F_FFFF
  {
    assert forall i :: 0 <= i < 9 ==> a[i] == a[..9][i];
  }

  lemma ScaledLimb(x: int, k: nat, ui: nat)
    requires 0 <= x <= k * 0x410_0000 && ui * k <= 63
    ensures 0 <= x * ui <= ui * k * 0x410_0000
  {
    assert x * ui <= k * 0x410_0000 * ui;
  }

  lemma MostSignificant(x: int, k: nat, ui: nat)
    requires 0 <= x <= k * 0x3F_FFFF
    ensures x * ui <= ui * k * 0x3F_FFFF
  {
    assert x * ui <= k * 0x3F_FFFF * ui;
  }

  /** Eval is linear in the limbs. */
  lemma {:induction false} EvalCombine(a: seq<uint32>, x: int, b: seq<uint32>, y: int, n: seq<uint32>)
    requires |a| == |b| == |n|
    requires forall i :: 0 <= i < |n| ==> n[i] as int == x * a[i] as int + y * b[i] as int
    ensures Eval(n) == x * Eval(a) + y * Eval(b)
  {
    if n != [] {
      EvalCombine(a[1..], x, b[1..], y, n[1..]);
      ScaledWord(x, a[0] as int, Eval(a[1..]));
      ScaledWord(y, b[0] as int, Eval(b[1..]));
    }
  }

  lemma ScaledWord(x: int, u: int, e: int)
    ensures x * (u + 0x400_0000 * e) == x * u + 0x400_0000 * (x * e)
  {
  }

  const PRIME_LIMBS: Limbs := [0x3FF_FC2F, 0x3FF_FFBF, 0x3FF_FFFF, 0x3FF_FFFF, 0x3FF_FFFF,
    0x3FF_FFFF, 0x3FF_FFFF, 0x3FF_FFFF, 0x3FF_FFFF, 0x3F_FFFF]

  lemma NegatedLimbs(a: Limbs, m: nat)
    requires Mag(a, m) && m <= 62
    ensures forall i :: 0 <= i < 10 ==>
      0 <= (m + 1) * PRIME_LIMBS[i] as int - a[i] as int <= (m + 1) * (if i < 9 then 0x410_0000 else 0x3F_FFFF)
    ensures forall i :: 0 <= i < 10 ==> 0 <= (m + 1) * PRIME_LIMBS[i] as int <= 0xFFFF_FFFF
  {
    LimbBounds(a, m);
    hide Mag;
    forall i | 0 <= i < 9
      ensures 0 <= (m + 1) * PRIME_LIMBS[i] as int - a[i] as int <= (m + 1) * 0x410_0000
      ensures 0 <= (m + 1) * PRIME_LIMBS[i] as int <= 0xFFFF_FFFF
    {
      assert 0x3FF_FC2F <= PRIME_LIMBS[i] <= 0x3FF_FFFF;
      NegatedLimb(m, PRIME_LIMBS[i] as int, a[i] as int);
    }
    assert PRIME_LIMBS[9] == 0x3F_FFFF;
  }

  lemma NegatedLimb(m: nat, p: nat, x: nat)
    requires m <= 62 && 0x3FF_FC2F <= p <= 0x3FF_FFFF && x <= m * 0x410_0000
    ensures 0 <= (m + 1) * p - x <= (m + 1) * 0x410_0000
    ensures 0 <= (m + 1) * p <= 0xFFFF_FFFF
  {
    assert (m + 1) * 0x3FF_FC2F <= (m + 1) * p <= (m + 1) * 0x3FF_FFFF;
  }

  lemma MagFromBounds(n: Limbs, m: nat)
    requires forall i :: 0 <= i < 9 ==> n[i] as int <= m * 0x410_0000
    requires n[9] as int <= m * 0x3F_FFFF
    ensures Mag(n, m)
  {
    assert forall i :: 0 <= i < 9 ==> n[..9][i] == n[i];
  }

  lemma PrimeLimbs()
    ensures Eval(PRIME_LIMBS) == PRIME
  {
    TenLimbs(PRIME_LIMBS);
  }

  /** SquareVal(v) leaves the same limbs as Mul2(v, v). */
  method SquareLikeMul(v: FieldVal) returns (s: FieldVal, p: FieldVal)
    requires Mag(v.n, 8)
    ensures fresh(s) && fresh(p) && s.n == p.n
  {
    hide Eval, Mag, IsReduction, ReducedValue;
    s := new FieldVal();
    p := new FieldVal();
    s.SquareVal(v);
    p.Mul2(v, v);
    ReductionIsUnique(Eval(v.n) * Eval(v.n), s.n, p.n);
  }
}
