/** Schoolbook multiplication in columns. */
module FieldColumns {
  import opened FieldWords

  /** A product of two limbs of magnitude at most 8. */
  function Product(x: uint32, y: uint32): (r: uint64)
    requires x <= 0x2080_0000 && y <= 0x2080_0000
    ensures r as int == x as int * y as int
    ensures r <= 0x420_4000_0000_0000
  {
    ProductBound(x as int, y as int, 0x2080_0000, 0x2080_0000);
    x as uint64 * y as uint64
  }

  /** The terms for 2^(26k) of a product: a[0]*b[k] + a[1]*b[k-1] + ..., without overflow. */
  function Terms(a: seq<uint32>, b: seq<uint32>, k: nat): (r: uint64)
    requires |a| <= 10 && AtMost(a, 0x2080_0000) && AtMost(b, 0x2080_0000)
    ensures r as int <= |a| * 0x420_4000_0000_0000
  {
    if a == [] then 0 else
      (if k < |b| then Product(a[0], b[k]) else 0) + (if k == 0 then 0 else Terms(a[1..], b, k - 1))
  }

  /** The terms for 2^(26k) of a square: 2*a[0]*a[k] + 2*a[1]*a[k-1] + ..., with the middle one single. */
  function SquareTerms(a: seq<uint32>, k: nat): (r: uint64)
    requires |a| <= 10 && AtMost(a, 0x2080_0000)
    ensures r as int <= |a| * 0x840_8000_0000_0000
  {
    if a == [] then 0 else
      (if k == 0 then Product(a[0], a[0]) else if k < |a| then 2 * Product(a[0], a[k]) else 0)
      + (if k < 2 then 0 else SquareTerms(a[1..], k - 2))
  }

  /** Columns k..n-1 of the product, weighted from 2^0. */
  ghost function Columns(a: seq<uint32>, b: seq<uint32>, k: nat, n: nat): nat
    requires |a| <= 10 && AtMost(a, 0x2080_0000) && AtMost(b, 0x2080_0000)
    decreases n - k
  {
    if k >= n then 0 else Terms(a, b, k) as int + 0x400_0000 * Columns(a, b, k + 1, n)
  }

  ghost function SquareColumns(a: seq<uint32>, k: nat, n: nat): nat
    requires |a| <= 10 && AtMost(a, 0x2080_0000)
    decreases n - k
  {
    if k >= n then 0 else SquareTerms(a, k) as int + 0x400_0000 * SquareColumns(a, k + 1, n)
  }

  /** The part of x * Eval(s) that columns k and up hold. */
  ghost function RowFrom(x: int, s: seq<uint32>, k: nat): int {
    if k < |s| then x * Eval(s[k..]) else 0
  }

  lemma RowStep(x: int, s: seq<uint32>, k: nat)
    requires k < |s|
    ensures RowFrom(x, s, k) == x * s[k] as int + 0x400_0000 * RowFrom(x, s, k + 1)
  {
    var e := Eval(s[k+1..]);
    assert s[k..][1..] == s[k+1..];
    assert x * (s[k] as int + 0x400_0000 * e) == x * s[k] as int + 0x400_0000 * (x * e);
    assert k + 1 == |s| ==> e == 0;
  }

  lemma {:induction false} ColumnsPeel(a: seq<uint32>, b: seq<uint32>, k: nat, n: nat)
    requires 0 < |a| <= 10 && AtMost(a, 0x2080_0000) && AtMost(b, 0x2080_0000)
    requires k <= n && |b| <= n && 0 < n
    ensures Columns(a, b, k, n) == RowFrom(a[0] as int, b, k) +
      (if k == 0 then 0x400_0000 * Columns(a[1..], b, 0, n - 1) else Columns(a[1..], b, k - 1, n - 1))
    decreases n - k
  {
    if k < n {
      ColumnsPeel(a, b, k + 1, n);
      if k < |b| { RowStep(a[0] as int, b, k); }
    }
  }

  lemma {:induction false} ColumnsAreProduct(a: seq<uint32>, b: seq<uint32>, n: nat)
    requires |a| <= 10 && AtMost(a, 0x2080_0000) && AtMost(b, 0x2080_0000)
    requires a != [] ==> 0 < |b| <= n && |a| + |b| <= n + 1
    ensures Columns(a, b, 0, n) == Eval(a) * Eval(b)
  {
    if a == [] {
      NoColumns(b, 0, n);
    } else {
      ColumnsPeel(a, b, 0, n);
      ColumnsAreProduct(a[1..], b, n - 1);
      assert b[0..] == b;
      ProductOfSum(a[0] as int, Eval(a[1..]), Eval(b));
    }
  }

  lemma NoColumns(b: seq<uint32>, k: nat, n: nat)
    requires AtMost(b, 0x2080_0000)
    ensures Columns([], b, k, n) == 0
    decreases n - k
  {
  }

  lemma {:induction false} SquareColumnsPeel(a: seq<uint32>, k: nat, n: nat)
    requires 0 < |a| <= 10 && AtMost(a, 0x2080_0000)
    requires 1 <= k <= n && |a| <= n && 2 <= n
    ensures SquareColumns(a, k, n) == 2 * RowFrom(a[0] as int, a, k) +
      (if k == 1 then 0x400_0000 * SquareColumns(a[1..], 0, n - 2) else SquareColumns(a[1..], k - 2, n - 2))
    decreases n - k
  {
    if k < n {
      SquareColumnsPeel(a, k + 1, n);
      if k < |a| { RowStep(a[0] as int, a, k); }
    }
  }

  lemma {:induction false} SquareColumnsAreSquare(a: seq<uint32>, n: nat)
    requires |a| <= 10 && AtMost(a, 0x2080_0000)
    requires a != [] ==> 2 * |a| <= n + 1
    ensures SquareColumns(a, 0, n) == Eval(a) * Eval(a)
  {
    if |a| == 0 {
      NoSquareColumns(0, n);
    } else if n == 1 {
      assert a[1..] == [];
      assert Eval(a) == a[0] as int;
    } else {
      SquareColumnsPeel(a, 1, n);
      SquareColumnsAreSquare(a[1..], n - 2);
      SquareOfSum(a[0] as int, Eval(a[1..]));
    }
  }

  lemma ProductOfSum(x: int, e: int, y: int)
    ensures (x + 0x400_0000 * e) * y == x * y + 0x400_0000 * (e * y)
  {
  }

  lemma SquareOfSum(x: int, e: int)
    ensures (x + 0x400_0000 * e) * (x + 0x400_0000 * e)
      == x * x + 0x400_0000 * (2 * (x * e) + 0x400_0000 * (e * e))
  {
  }

  lemma NoSquareColumns(k: nat, n: nat)
    ensures SquareColumns([], k, n) == 0
    decreases n - k
  {
  }
}
