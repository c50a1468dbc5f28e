/** GF(2^8): the table-driven operations and the field laws, and polynomials over the field. */
module GaloisField {
  import opened Wrappers
  import opened GaloisTables

  /** mult */
  function Mult(a: bv8, b: bv8): bv8 {
    if a == 0 || b == 0 then 0
    else
      ExpOfLog(a);
      ExpOfLog(b);
      ExpTable((LogTable(a) + LogTable(b)) % 255)
  }

  /** The remainder of Go, with the sign of the dividend. */
  function Remainder(x: int, m: int): int
    requires m > 0
  {
    if x >= 0 then x % m else -((-x) % m)
  }

  /** div; None where it panics. */
  function Div(a: bv8, b: bv8): Option<bv8> {
    if b == 0 then None
    else if a == 0 then Some(0)
    else
      ExpOfLog(a);
      ExpOfLog(b);
      var diff := Remainder(LogTable(a) - LogTable(b), 255);
      Some(ExpTable(if diff < 0 then diff + 255 else diff))
  }

  /** n multiplications by the generator. */
  ghost function Iter(n: nat, x: bv8): bv8 {
    if n == 0 then x else TimesGenerator(Iter(n - 1, x))
  }

  lemma {:induction false} IterAdds(m: nat, n: nat, x: bv8)
    ensures Iter(m + n, x) == Iter(m, Iter(n, x))
  {
    hide TimesGenerator;
    if m > 0 {
      IterAdds(m - 1, n, x);
    }
  }

  lemma {:induction false} IterLinear(n: nat, x: bv8, y: bv8)
    ensures Iter(n, Add(x, y)) == Add(Iter(n, x), Iter(n, y))
  {
    hide TimesGenerator, Add;
    if n > 0 {
      IterLinear(n - 1, x, y);
      TimesGeneratorIsLinear(Iter(n - 1, x), Iter(n - 1, y));
    }
  }

  lemma {:induction false} IterZero(n: nat, x: bv8)
    ensures Iter(n, x) == 0 <==> x == 0
  {
    if n > 0 {
      IterZero(n - 1, x);
      TimesZero();
      hide TimesGenerator;
      if TimesGenerator(Iter(n - 1, x)) == 0 {
        TimesGeneratorIsInjective(Iter(n - 1, x));
      }
    }
  }

  lemma TimesZero()
    ensures TimesGenerator(0) == 0
  {
  }

  /** The exponential table lists the powers of the generator. */
  lemma {:induction false} ExpIsIter(n: nat)
    requires n < 256
    ensures ExpTable(n) == Iter(n, 1)
  {
    hide TimesGenerator, ExpTable;
    if n == 0 {
      ExpEnds();
    } else {
      ExpIsIter(n - 1);
      ExpStep(n - 1);
    }
  }

  /** The generator has order 255. */
  lemma IterPeriod(x: bv8)
    ensures Iter(255, x) == x
  {
    hide ExpTable, LogTable;
    if x == 0 {
      IterZero(255, 0);
    } else {
      ExpOfLog(x);
      var l := LogTable(x);
      ExpIsIter(l);
      ExpIsIter(255);
      ExpEnds();
      IterAdds(255, l, 1);
      IterAdds(l, 255, 1);
    }
  }

  lemma {:induction false} IterModulo(n: nat, x: bv8)
    ensures Iter(n % 255, x) == Iter(n, x)
    decreases n
  {
    hide Iter;
    if n >= 255 {
      IterModulo(n - 255, x);
      IterAdds(n - 255, 255, x);
      IterPeriod(x);
      assert n % 255 == (n - 255) % 255;
    }
  }

  /** Multiplying by a is multiplying log a times by the generator. */
  lemma MultIsIter(a: bv8, b: bv8)
    requires a != 0
    ensures LogTable(a) >= 0 && Mult(a, b) == Iter(LogTable(a), b)
  {
    hide ExpTable, LogTable;
    ExpOfLog(a);
    var la := LogTable(a);
    if b == 0 {
      IterZero(la, 0);
    } else {
      ExpOfLog(b);
      var lb := LogTable(b);
      ExpIsIter(lb);
      IterAdds(la, lb, 1);
      IterModulo(la + lb, 1);
      ExpIsIter((la + lb) % 255);
    }
  }

  lemma MultComm(a: bv8, b: bv8)
    ensures Mult(a, b) == Mult(b, a)
  {
    if a != 0 && b != 0 {
      ExpOfLog(a);
      ExpOfLog(b);
      hide ExpTable, LogTable;
      assert LogTable(a) + LogTable(b) == LogTable(b) + LogTable(a);
    }
  }

  lemma MultZero(a: bv8)
    ensures Mult(a, 0) == 0 && Mult(0, a) == 0
  {
  }

  lemma MultOne(a: bv8)
    ensures Mult(a, 1) == a && Mult(1, a) == a
  {
    hide ExpTable, LogTable, Mult;
    MultComm(a, 1);
    if a == 0 {
      MultZero(1);
    } else {
      MultIsIter(a, 1);
      ExpOfLog(a);
      ExpIsIter(LogTable(a));
    }
  }

  lemma MultDistributes(a: bv8, x: bv8, y: bv8)
    ensures Mult(a, Add(x, y)) == Add(Mult(a, x), Mult(a, y))
    ensures Mult(Add(x, y), a) == Add(Mult(x, a), Mult(y, a))
  {
    hide Mult, Iter, LogTable;
    MultComm(Add(x, y), a);
    MultComm(x, a);
    MultComm(y, a);
    if a == 0 {
      MultZero(Add(x, y));
      MultZero(x);
      MultZero(y);
    } else {
      MultIsIter(a, Add(x, y));
      MultIsIter(a, x);
      MultIsIter(a, y);
      IterLinear(LogTable(a), x, y);
    }
  }

  lemma MultAssoc(a: bv8, b: bv8, c: bv8)
    ensures Mult(Mult(a, b), c) == Mult(a, Mult(b, c))
  {
    hide Mult, Iter, LogTable;
    MultComm(Mult(a, b), c);
    if a == 0 || b == 0 || c == 0 {
      MultZero(a);
      MultZero(b);
      MultZero(c);
      MultZero(Mult(a, b));
      MultZero(Mult(b, c));
    } else {
      MultIsIter(c, Mult(a, b));
      MultIsIter(a, b);
      MultIsIter(a, Mult(b, c));
      MultComm(b, c);
      MultIsIter(c, b);
      var la, lc := LogTable(a), LogTable(c);
      IterAdds(lc, la, b);
      IterAdds(la, lc, b);
    }
  }

  lemma NoZeroDivisors(a: bv8, b: bv8)
    requires Mult(a, b) == 0
    ensures a == 0 || b == 0
  {
    hide Mult, Iter, LogTable;
    if a != 0 {
      MultIsIter(a, b);
      IterZero(LogTable(a), b);
    }
  }

  /** Division undoes multiplication; it fails exactly for divisor zero. */
  lemma DivTimes(a: bv8, b: bv8)
    ensures b != 0 <==> Div(a, b).Some?
    ensures b != 0 ==> Mult(Div(a, b).value, b) == a
  {
    hide ExpTable, LogTable, Mult, Iter;
    if b != 0 {
      var q := Div(a, b).value;
      MultComm(q, b);
      MultIsIter(b, q);
      ExpOfLog(b);
      var lb := LogTable(b);
      if a == 0 {
        IterZero(lb, 0);
      } else {
        ExpOfLog(a);
        var la := LogTable(a);
        var k := if Remainder(la - lb, 255) < 0 then Remainder(la - lb, 255) + 255 else Remainder(la - lb, 255);
        LogDifference(la, lb);
        ExpIsIter(k);
        IterAdds(lb, k, 1);
        IterModulo(lb + k, 1);
        IterModulo(la, 1);
        ExpIsIter(la);
      }
    }
  }

  lemma LogDifference(la: int, lb: int)
    requires 0 <= la < 256 && 0 <= lb < 256
    ensures var d := Remainder(la - lb, 255);
      var k := if d < 0 then d + 255 else d;
      0 <= k < 255 && (lb + k) % 255 == la % 255
  {
  }

  lemma DivSelf(a: bv8)
    requires a != 0
    ensures Div(a, a) == Some(1)
  {
    hide ExpTable, LogTable;
    ExpEnds();
    ExpOfLog(a);
  }

  lemma AddLaws(a: bv8, b: bv8, c: bv8)
    ensures Add(a, b) == Add(b, a) && Add(Add(a, b), c) == Add(a, Add(b, c))
    ensures Add(a, 0) == a == Add(0, a) && Add(a, a) == 0 && (Add(a, b) == 0 <==> a == b)
  {
    assert (a ^ b) ^ c == a ^ (b ^ c);
  }
}
