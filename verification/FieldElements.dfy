/** Field values as the point formulas use them: the integer the limbs stand for, without the limbs. */
module FieldElements {
  import opened FieldWords
  import opened FieldReduction
  import opened FieldNormalForm
  import opened ModularArithmetic

  /** More than a value of magnitude 1 can stand for. */
  const UNIT: int := TWO_256 + 0x40_0000_0000_0000_0000_0000_0000_0000_0000_0000_0000_0000_0000_0000_0000

  function NatTimes(x: nat, y: nat): (r: nat)
    ensures r == Times(x, y)
  {
    x * y
  }

  /** v is the integer the limbs add up to and mag the magnitude the comments of the source count. g is an integer
      congruent to v on which no reduction is done, so that formulas can be compared as polynomials. */
  datatype Elem = Elem(v: nat, mag: nat, g: int) {
    ghost predicate Valid() {
      v <= mag * UNIT && Cong(v, g)
    }

    ghost predicate Within(k: nat) {
      Valid() && mag <= k
    }

    ghost predicate Normal() {
      Valid() && v < PRIME && mag == 1
    }

    /** What Normalize takes off the residue. */
    function Lost(): (l: nat)
      ensures l == 0 <==> OnceFolded(v) < TWO_256
    {
      LostCarry(v)
    }

    /** The residue, unless a carry is lost. */
    function Normalize(): (r: Elem)
      requires Within(63)
      ensures r.Normal() && r.v == NormalizedValue(v) && r.g == g - Lost()
    {
      NormalizedCong(v, g);
      Elem(NormalizedValue(v), 1, g - Lost())
    }

    /** Limb-wise (m + 1) * PRIME - val. */
    function Negate(m: nat): (r: Elem)
      requires Within(m) && m <= 62
      ensures r.Valid() && r.g == -g && r.mag == m + 1
    {
      NegationFits(v, mag, m);
      NegationCong(v, g, m);
      Elem((m + 1) * PRIME - v, m + 1, -g)
    }

    function Add(val: Elem): (r: Elem)
      requires Valid() && val.Valid() && mag + val.mag <= 63
      ensures r.Valid() && r.g == g + val.g && r.mag == mag + val.mag
    {
      CongAdd(v, g, val.v, val.g);
      Elem(v + val.v, mag + val.mag, g + val.g)
    }

    function MulInt(k: nat): (r: Elem)
      requires Valid() && mag * k <= 63
      ensures r.Valid() && r.g == g * k && r.mag == mag * k
    {
      CongRefl(k);
      CongMul(v, g, k, k);
      ScaledBound(v, mag, k);
      Elem(v * k, mag * k, g * k)
    }

    /** Only values of magnitude at most 8 may be multiplied. */
    function Mul(val: Elem): (r: Elem)
      requires Within(8) && val.Within(8)
      ensures r.Valid() && r.v == ReducedValue(NatTimes(v, val.v)) && r.g == Times(g, val.g) && r.mag == 1
        && r.Lost() == 0
    {
      CongMul(v, g, val.v, val.g);
      ProductFits(v, val.v);
      CongTrans(ReducedValue(NatTimes(v, val.v)), Times(v, val.v), Times(g, val.g));
      Elem(ReducedValue(NatTimes(v, val.v)), 1, Times(g, val.g))
    }

    function Square(): (r: Elem)
      requires Within(8)
      ensures r.Valid() && r.v == ReducedValue(NatTimes(v, v)) && r.g == Times(g, g) && r.mag == 1 && r.Lost() == 0
    {
      Mul(this)
    }

    predicate IsZero() {
      v == 0
    }

    /** Equality of limbs. */
    predicate Equals(val: Elem) {
      v == val.v
    }
  }

  function SetInt(ui: nat): (r: Elem)
    requires ui < 0x400_0000
    ensures r.Normal() && r.v == ui && r.g == ui
  {
    CongRefl(ui);
    Elem(ui, 1, ui)
  }

  lemma NormalizedCong(v: nat, g: int)
    requires v <= 64 * TWO_256 && Cong(v, g)
    ensures NormalizedValue(v) < PRIME && Cong(NormalizedValue(v), g - LostCarry(v))
  {
    NormalizeLoses(v);
    CongIsResidue(NormalizedValue(v), v - LostCarry(v));
    CongRefl(LostCarry(v));
    CongAdd(v, g, LostCarry(v), LostCarry(v));
    CongTrans(NormalizedValue(v), v - LostCarry(v), g - LostCarry(v));
  }

  lemma ProductFits(v: nat, w: nat)
    requires v <= 8 * UNIT && w <= 8 * UNIT
    ensures var r := ReducedValue(NatTimes(v, w));
      r <= UNIT && OnceFolded(r) < TWO_256 && Cong(r, Times(v, w))
  {
    ProductBound(v, w, 8 * UNIT, 8 * UNIT);
    hide Times, NatTimes;
    ReducedIsCongruent(v * w);
    CongIsResidue(ReducedValue(v * w), v * w);
  }

  lemma ScaledBound(v: nat, mag: nat, k: nat)
    requires v <= mag * UNIT
    ensures v * k <= mag * k * UNIT
  {
    assert v * k <= mag * UNIT * k;
  }

  lemma NegationFits(v: nat, j: nat, m: nat)
    requires v <= j * UNIT && j <= m <= 62
    ensures 0 <= (m + 1) * PRIME - v <= (m + 1) * UNIT
  {
    assert j * UNIT <= m * UNIT;
  }

  lemma NegationCong(v: int, g: int, m: int)
    requires Cong(v, g)
    ensures Cong((m + 1) * PRIME - v, -g)
  {
    CongFrom((m + 1) * PRIME, 0, m + 1);
    CongAdd((m + 1) * PRIME, 0, v, g);
  }

  /** Between normalized values equality of limbs is congruence. */
  lemma NormalEquality(a: Elem, b: Elem)
    requires a.Normal() && b.Normal()
    ensures a.Equals(b) <==> Cong(a.g, b.g)
  {
    CongIsResidue(a.v, b.v);
    CongSym(a.v, a.g);
    CongSym(b.v, b.g);
    if a.v == b.v {
      CongTrans(a.g, a.v, b.g);
    }
    if Cong(a.g, b.g) {
      CongTrans(a.v, a.g, b.g);
      CongTrans(a.v, b.g, b.v);
    }
  }
}
