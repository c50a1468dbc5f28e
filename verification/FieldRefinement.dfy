/** The limbs compute what the point formulas take field values to be: each operation of a fieldVal does to its limbs
    what the same operation does to the number they stand for. */
module FieldRefinement {
  import opened FieldWords
  import opened FieldReduction
  import opened FieldNormalForm
  import opened FieldValues
  import opened FieldElements

  ghost predicate Stands(n: Limbs, e: Elem) {
    Eval(n) == e.v && Mag(n, e.mag)
  }

  method SetInt(f: FieldVal, ui: uint64)
    requires ui < 0x400_0000
    modifies f
    ensures Stands(f.n, FieldElements.SetInt(ui as nat))
  {
    f.SetInt(ui);
    TenLimbs(f.n);
    assert f.n[1..][8] == f.n[9];
    assert forall i :: 1 <= i < 10 ==> f.n[i] == f.n[1..][i - 1];
  }

  method Normalize(f: FieldVal, ghost x: Elem)
    requires Stands(f.n, x) && x.Within(63)
    modifies f
    ensures Stands(f.n, x.Normalize()) && AllNormal(f.n)
  {
    hide Eval, NormalizedValue, Elem.Lost;
    MagMono(f.n, x.mag, 63);
    f.Normalize();
    NormalMagnitude(f.n);
  }

  lemma NormalMagnitude(n: Limbs)
    requires AllNormal(n)
    ensures Mag(n, 1)
  {
    assert forall i :: 0 <= i < 9 ==> n[..9][i] == n[i];
  }

  method NegateVal(f: FieldVal, val: FieldVal, magnitude: uint32, ghost x: Elem)
    requires Stands(val.n, x) && x.Within(magnitude as nat) && magnitude <= 62
    modifies f
    ensures Stands(f.n, x.Negate(magnitude as nat))
  {
    hide Eval;
    MagMono(val.n, x.mag, magnitude as nat);
    f.NegateVal(val, magnitude);
  }

  method Add2(f: FieldVal, val: FieldVal, val2: FieldVal, ghost x: Elem, ghost y: Elem)
    requires Stands(val.n, x) && Stands(val2.n, y) && x.Valid() && y.Valid() && x.mag + y.mag <= 63
    modifies f
    ensures Stands(f.n, x.Add(y))
  {
    hide Eval;
    f.Add2(val, val2, x.mag, y.mag);
  }

  method MulInt(f: FieldVal, ui: uint32, ghost x: Elem)
    requires Stands(f.n, x) && x.Valid() && x.mag * ui as int <= 63
    modifies f
    ensures Stands(f.n, x.MulInt(ui as nat))
  {
    hide Eval;
    f.MulInt(ui, x.mag);
  }

  method Mul2(f: FieldVal, val: FieldVal, val2: FieldVal, ghost x: Elem, ghost y: Elem)
    requires Stands(val.n, x) && Stands(val2.n, y) && x.Within(8) && y.Within(8)
    modifies f
    ensures Stands(f.n, x.Mul(y))
  {
    hide Eval, ReducedValue;
    MagMono(val.n, x.mag, 8);
    MagMono(val2.n, y.mag, 8);
    f.Mul2(val, val2);
  }

  method SquareVal(f: FieldVal, val: FieldVal, ghost x: Elem)
    requires Stands(val.n, x) && x.Within(8)
    modifies f
    ensures Stands(f.n, x.Square())
  {
    hide Eval, ReducedValue;
    MagMono(val.n, x.mag, 8);
    f.SquareVal(val);
  }

  /** Equals compares limbs; the routines call it on normalized values only. */
  method Equals(f: FieldVal, val: FieldVal, ghost x: Elem, ghost y: Elem) returns (same: bool)
    requires Stands(f.n, x) && Stands(val.n, y) && AllNormal(f.n) && AllNormal(val.n)
    ensures same <==> x.Equals(y)
  {
    same := f.Equals(val);
  }

  method IsZero(f: FieldVal, ghost x: Elem) returns (zero: bool)
    requires Stands(f.n, x)
    ensures zero <==> x.IsZero()
  {
    zero := f.IsZero();
  }
}
