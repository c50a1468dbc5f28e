/** Congruence modulo the field prime. */
module ModularArithmetic {
  import opened FieldWords

  ghost predicate Cong(a: int, b: int) {
    exists k: int :: a == b + k * PRIME
  }

  /** A product, as a name the solver can leave alone. */
  function Times(x: int, y: int): int {
    x * y
  }

  lemma CongFrom(a: int, b: int, k: int)
    requires a == b + k * PRIME
    ensures Cong(a, b)
  {
  }

  lemma CongIsResidue(a: int, b: int)
    ensures Cong(a, b) <==> a % PRIME == b % PRIME
  {
    var q, r := b / PRIME, b % PRIME;
    if Cong(a, b) {
      var k :| a == b + k * PRIME;
      assert a == (q + k) * PRIME + r;
    }
    if a % PRIME == r {
      CongFrom(a, b, a / PRIME - q);
    }
  }

  lemma CongRefl(a: int)
    ensures Cong(a, a)
  {
    CongFrom(a, a, 0);
  }

  lemma CongSym(a: int, b: int)
    requires Cong(a, b)
    ensures Cong(b, a)
  {
    var k :| a == b + k * PRIME;
    CongFrom(b, a, -k);
  }

  lemma CongTrans(a: int, b: int, c: int)
    requires Cong(a, b) && Cong(b, c)
    ensures Cong(a, c)
  {
    var j :| a == b + j * PRIME;
    var k :| b == c + k * PRIME;
    CongFrom(a, c, j + k);
  }

  lemma CongAdd(a: int, b: int, c: int, d: int)
    requires Cong(a, b) && Cong(c, d)
    ensures Cong(a + c, b + d) && Cong(a - c, b - d)
  {
    var j :| a == b + j * PRIME;
    var k :| c == d + k * PRIME;
    CongFrom(a + c, b + d, j + k);
    CongFrom(a - c, b - d, j - k);
  }

  lemma CongMul(a: int, b: int, c: int, d: int)
    requires Cong(a, b) && Cong(c, d)
    ensures Cong(a * c, b * d)
  {
    var j :| a == b + j * PRIME;
    var k :| c == d + k * PRIME;
    Expand(b, j, d, k);
    CongFrom(a * c, b * d, b * k + j * d + j * k * PRIME);
  }

  lemma Expand(b: int, j: int, d: int, k: int)
    ensures (b + j * PRIME) * (d + k * PRIME) == b * d + (b * k + j * d + j * k * PRIME) * PRIME
  {
    var p := PRIME;
    ExpandAny(b, j, d, k, p);
  }

  lemma ExpandAny(b: int, j: int, d: int, k: int, p: int)
    ensures (b + j * p) * (d + k * p) == b * d + (b * k + j * d + j * k * p) * p
  {
    assert (b + j * p) * (d + k * p) == b * d + b * (k * p) + (j * p) * d + (j * p) * (k * p);
  }
}
