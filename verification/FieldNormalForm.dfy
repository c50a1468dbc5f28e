/** What Normalize does to a value, and exactly when that is the residue modulo PRIME. */
module FieldNormalForm {
  import opened Division
  import opened FieldWords
  import opened FieldReduction

  /** The value after one fold of everything above 2^256. */
  function OnceFolded(v: nat): nat {
    v % TWO_256 + v / TWO_256 * FOLD
  }

  /** Normalize keeps OnceFolded(v) modulo 2^256, less PRIME if it is not smaller: the carry above 2^256 is lost. */
  function NormalizedValue(v: nat): nat {
    OnceFolded(v) % TWO_256 % PRIME
  }

  /** Normalize yields the residue of v if and only if one fold brings v below 2^256. */
  lemma NormalizeIsResidue(v: nat)
    requires v <= 64 * TWO_256
    ensures OnceFolded(v) < TWO_256 <==> NormalizedValue(v) == v % PRIME
  {
    var x := OnceFolded(v);
    assert v == x + v / TWO_256 * PRIME;
    CongruentByMultiple(v, x, v / TWO_256);
    if x >= TWO_256 {
      var y := x - TWO_256;
      assert y < 65 * FOLD;
      assert x % TWO_256 == y && NormalizedValue(v) == y;
      CongruentByMultiple(x, y + FOLD, 1);
    }
  }

  /** What Normalize takes off the residue: nothing, or the carry that it loses. */
  function LostCarry(v: nat): nat {
    if OnceFolded(v) < TWO_256 then 0 else FOLD
  }

  lemma NormalizeLoses(v: nat)
    requires v <= 64 * TWO_256
    ensures NormalizedValue(v) == (v - LostCarry(v)) % PRIME
  {
    NormalizeIsResidue(v);
    var x := OnceFolded(v);
    if x >= TWO_256 {
      var y := x - TWO_256;
      assert y < 65 * FOLD && x % TWO_256 == y;
      assert v - FOLD == y + (v / TWO_256 + 1) * PRIME;
      CongruentByMultiple(v - FOLD, y, v / TWO_256 + 1);
    }
  }

  /** Limbs of magnitude 2 for which the carry is lost. */
  lemma NormalizeLosesCarry()
    ensures var n: Limbs := [0x3FF_FFFF, 0x3FF_FFFF, 0x3FF_FFFF, 0x3FF_FFFF, 0x3FF_FFFF, 0x3FF_FFFF, 0x3FF_FFFF,
        0x3FF_FFFF, 0x7FF_FFFF, 0x7F_FFFE];
      Mag(n, 2) && NormalizedValue(Eval(n)) == FOLD - 1 && Eval(n) % PRIME == 2 * FOLD - 1
  {
    var n: Limbs := [0x3FF_FFFF, 0x3FF_FFFF, 0x3FF_FFFF, 0x3FF_FFFF, 0x3FF_FFFF, 0x3FF_FFFF, 0x3FF_FFFF, 0x3FF_FFFF,
      0x7FF_FFFF, 0x7F_FFFE];
    hide Eval;
    TenLimbs(n);
    assert Eval(n) == 2 * TWO_256 - 1;
  }

  /** Values of magnitude 1, which all products are, lose no carry. */
  lemma MagnitudeOneIsSafe(n: Limbs)
    requires Mag(n, 1)
    ensures OnceFolded(Eval(n)) < TWO_256
  {
    hide Eval;
    TenLimbs(n);
    assert forall i :: 0 <= i < 9 ==> n[..9][i] == n[i];
    assert n[0] <= 0x410_0000 && n[1] <= 0x410_0000 && n[2] <= 0x410_0000 && n[3] <= 0x410_0000 && n[4] <= 0x410_0000
      && n[5] <= 0x410_0000 && n[6] <= 0x410_0000 && n[7] <= 0x410_0000 && n[8] <= 0x410_0000 && n[9] <= 0x3F_FFFF;
    assert Eval(n) < TWO_256 + TWO_256 / 0x1000;
  }

  function Lo26(m: uint32): (r: uint32)
    ensures r < 0x400_0000
  {
    m % 0x400_0000
  }

  function Hi26(m: uint32): (r: uint32)
    ensures m as int == Lo26(m) as int + 0x400_0000 * r as int
  {
    m / 0x400_0000
  }

  function Lo22(m: uint32): (r: uint32)
    ensures r < 0x40_0000
  {
    m % 0x40_0000
  }

  function Hi22(m: uint32): (r: uint32)
    ensures m as int == Lo22(m) as int + 0x40_0000 * r as int
  {
    m / 0x40_0000
  }

  /** The limbs t with top above them. */
  ghost function WithTop(t: seq<uint32>, top: nat): nat {
    if t == [] then top else t[0] as int + 0x400_0000 * WithTop(t[1..], top)
  }

  lemma {:induction false} PushLimb(t: seq<uint32>, x: uint32, top: nat)
    ensures WithTop(t + [x], top) == WithTop(t, x as int + 0x400_0000 * top)
  {
    if t != [] {
      PushLimb(t[1..], x, top);
      assert (t + [x])[1..] == t[1..] + [x];
    }
  }

  lemma {:induction false} NineLimbs(t: seq<uint32>, x: uint32, m: nat)
    requires |t| == 9
    ensures WithTop(t, x as int + 0x40_0000 * m) == Eval(t + [x]) + m * TWO_256
  {
    TopOfLimbs(t, x, 0x40_0000 * m);
    assert Weight(9) * 0x40_0000 == TWO_256;
    Assoc(Weight(9), 0x40_0000, m);
    Commute(m, TWO_256);
  }

  ghost function Weight(k: nat): nat {
    if k == 0 then 1 else 0x400_0000 * Weight(k - 1)
  }

  lemma {:induction false} TopOfLimbs(t: seq<uint32>, x: uint32, y: nat)
    ensures WithTop(t, x as int + y) == Eval(t + [x]) + Weight(|t|) * y
  {
    if t != [] {
      TopOfLimbs(t[1..], x, y);
      assert (t + [x])[1..] == t[1..] + [x];
      assert 0x400_0000 * (Weight(|t| - 1) * y) == (0x400_0000 * Weight(|t| - 1)) * y;
    } else {
      assert t + [x] == [x] && [x][1..] == [];
      assert Eval([x]) == x as int;
    }
  }

  /** One pass of Normalize over ten limbs: every limb is cut at 26 bits (the top one at 22) and the rest carried
      upwards; m is what ends up above 2^256. */
  method CarryPass(c: Limbs) returns (t: Limbs, m: uint32)
    requires forall i :: 0 <= i < 10 ==> c[i] <= 0xFFF0_0000
    ensures AllNormal(t) && m <= 0x400
    ensures Eval(c) == Eval(t) + m as int * TWO_256
  {
    assert WithTop([], Eval(c)) == Eval(c);
    hide WithTop, Eval, Weight, Lo26, Hi26, Lo22, Hi22;
    var w: seq<uint32> := [];
    m := 0;
    assert c[0..] == c;
    for k := 0 to 9
      invariant |w| == k && forall i :: 0 <= i < k ==> w[i] < 0x400_0000
      invariant m <= 0x40
      invariant WithTop(w, m as int + Eval(c[k..])) == Eval(c)
    {
      hide *;
      UnrollLimb(c, k);
      m := m + c[k];
      PushLimb(w, Lo26(m), Hi26(m) as int + Eval(c[k+1..]));
      w := w + [Lo26(m)];
      m := Hi26(m);
    }
    UnrollLimb(c, 9);
    m := m + c[9];
    t := w + [Lo22(m)];
    NineLimbs(w, Lo22(m), Hi22(m) as int);
    m := Hi22(m);
  }

  /** The two passes before the final subtraction: fold once, drop the carry. */
  method FoldOnce(n: Limbs) returns (u: Limbs)
    requires Mag(n, 63)
    ensures AllNormal(u) && Eval(u) == OnceFolded(Eval(n)) % TWO_256
  {
    MagLimbs(n);
    var t, m := CarryPass(n);
    var c := t[0 := t[0] + m * 977][1 := t[1] + m * 64];
    FoldAdds(t, m, c);
    var dropped;
    u, dropped := CarryPass(c);
    NormalBound(t);
    NormalBound(u);
    hide Eval, AllNormal;
    DivMod(Eval(n), Eval(t), m as int);
    DivMod(Eval(c), Eval(u), dropped as int);
  }

  lemma FoldAdds(t: Limbs, m: uint32, c: Limbs)
    requires AllNormal(t) && m <= 0x400 && c == t[0 := t[0] + m * 977][1 := t[1] + m * 64]
    ensures Eval(c) == Eval(t) + m as int * FOLD
  {
    TenLimbs(t);
    TenLimbs(c);
    hide Eval;
  }

  lemma DivMod(x: int, r: int, q: int)
    requires x == r + q * TWO_256 && 0 <= r < TWO_256
    ensures x % TWO_256 == r && x / TWO_256 == q
  {
  }

  /** Last pass: subtract PRIME unless some limb shows that the value is smaller. */
  method SubtractPrime(u: Limbs) returns (n: Limbs)
    requires AllNormal(u)
    ensures AllNormal(n) && Eval(n) == Eval(u) % PRIME
  {
    var lowBits: uint64 := u[1] as uint64 * 0x400_0000 + u[0] as uint64;
    var mask := lowBits < 0xF_FFFE_FFFF_FC2F;
    mask := mask || u[2] < 0x3FF_FFFF || u[3] < 0x3FF_FFFF || u[4] < 0x3FF_FFFF || u[5] < 0x3FF_FFFF
      || u[6] < 0x3FF_FFFF || u[7] < 0x3FF_FFFF || u[8] < 0x3FF_FFFF || u[9] < 0x3F_FFFF;
    if mask {
      n := u;
      BelowPrime(u);
    } else {
      lowBits := lowBits - 0xF_FFFE_FFFF_FC2F;
      n := [Low26(lowBits) as uint32, Low26(Shr26(lowBits)) as uint32, 0, 0, 0, 0, 0, 0, 0, 0];
      assert lowBits < 0x10_0000_0000_0000;
      AbovePrime(u, n);
    }
  }

  lemma BelowPrime(u: Limbs)
    requires AllNormal(u)
    requires u[1] as int * 0x400_0000 + u[0] as int < 0xF_FFFE_FFFF_FC2F || u[2] < 0x3FF_FFFF || u[3] < 0x3FF_FFFF
      || u[4] < 0x3FF_FFFF || u[5] < 0x3FF_FFFF || u[6] < 0x3FF_FFFF || u[7] < 0x3FF_FFFF || u[8] < 0x3FF_FFFF
      || u[9] < 0x3F_FFFF
    ensures Eval(u) % PRIME == Eval(u)
  {
    TenLimbs(u);
    hide Eval;
    assert Eval(u) < PRIME;
  }

  lemma AbovePrime(u: Limbs, n: Limbs)
    requires u[2..] == [0x3FF_FFFF, 0x3FF_FFFF, 0x3FF_FFFF, 0x3FF_FFFF, 0x3FF_FFFF, 0x3FF_FFFF, 0x3FF_FFFF, 0x3F_FFFF]
    requires n[2..] == [0, 0, 0, 0, 0, 0, 0, 0]
    requires u[0] < 0x400_0000 && u[1] < 0x400_0000
    requires n[1] as int * 0x400_0000 + n[0] as int == u[1] as int * 0x400_0000 + u[0] as int - 0xF_FFFE_FFFF_FC2F
    ensures Eval(u) % PRIME == Eval(n)
  {
    UnrollLimb(u, 0);
    UnrollLimb(u, 1);
    UnrollLimb(n, 0);
    UnrollLimb(n, 1);
    assert u[0..] == u && n[0..] == n;
    HighLimbs();
    assert Eval(n) == n[1] as int * 0x400_0000 + n[0] as int < 0x10_0000_0000_0000;
    hide Eval;
    assert Eval(u) == Eval(n) + PRIME;
    hide *;
    OverByPrime(Eval(u), Eval(n));
  }

  lemma OverByPrime(x: int, r: int)
    requires x == r + PRIME && 0 <= r < PRIME
    ensures x % PRIME == r
  {
  }

  lemma HighLimbs()
    ensures Eval([0x3FF_FFFF, 0x3FF_FFFF, 0x3FF_FFFF, 0x3FF_FFFF, 0x3FF_FFFF, 0x3FF_FFFF, 0x3FF_FFFF, 0x3F_FFFF])
      == 0xfffffffffffffffffffffffffffffffffffffffffffffffffff
    ensures Eval([0, 0, 0, 0, 0, 0, 0, 0]) == 0
  {
  }

  ghost predicate AllNormal(n: Limbs) {
    (forall i :: 0 <= i < 9 ==> n[i] < 0x400_0000) && n[9] < 0x40_0000
  }

  lemma NormalBound(n: Limbs)
    requires AllNormal(n)
    ensures Eval(n) < TWO_256
  {
    TenLimbs(n);
    hide Eval;
  }

  lemma MagLimbs(n: Limbs)
    requires Mag(n, 63)
    ensures (forall i :: 0 <= i < 9 ==> n[i] <= 0xFFF0_0000) && n[9] <= 0xFBF_FFFF
  {
    assert forall i :: 0 <= i < 9 ==> n[..9][i] == n[i];
  }
}
