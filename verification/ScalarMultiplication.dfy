/** KoblitzCurve.ScalarMult and ScalarBaseMult over an abstract group of order N with the secp256k1 endomorphism. */
module ScalarMultiplication {
  import opened Bytes
  import opened Division
  import opened Groups
  import opened Naf
  import opened Powers

  const N: int := 0xFFFFFFFFFFFFFFFFFFFFFFFFFFFFFFFEBAAEDCE6AF48A03BBFD25E8CD0364141
  const LAMBDA: int := 0x5363AD4CC05C30E0A5261C028812645A122E22EA20816678DF02967C1B23BD72
  const A1: int := 0x3086D221A7D46BCDE86C90E49284EB15
  const B1: int := -0xE4437ED6010E88286F547FA90ABFE4C3
  const A2: int := 0x114CA50F7A8E2F3F657C1108D9D44CFD8
  const B2: int := 0x3086D221A7D46BCDE86C90E49284EB15
  const TWO_129: int := 0x2_0000_0000_0000_0000_0000_0000_0000_0000

  function Abs(x: int): nat {
    if x < 0 then -x else x
  }

  function Sign(x: int): int {
    if x < 0 then -1 else if x == 0 then 0 else 1
  }

  /** The two vectors (A1, B1) and (A2, B2) lie in the lattice of LAMBDA and span a parallelogram of area N. */
  lemma LatticeBasis()
    ensures (A1 + B1 * LAMBDA) % N == 0 && (A2 + B2 * LAMBDA) % N == 0
    ensures A1 * B2 - A2 * B1 == N
  {
  }

  /** The residues of b2*k and b1*k bound both halves of the split. */
  lemma SplitBounds(k: nat)
    ensures var c1, c2 := B2 * k / N, B1 * k / N;
      var k1, k2 := k - c1 * A1 + c2 * A2, c2 * B2 - c1 * B1;
      -TWO_129 < k1 < TWO_129 && -TWO_129 < k2 < TWO_129
  {
    var c1, c2 := B2 * k / N, B1 * k / N;
    var r1, r2 := B2 * k % N, B1 * k % N;
    var k1, k2 := k - c1 * A1 + c2 * A2, c2 * B2 - c1 * B1;
    LatticeBasis();
    assert N * k1 == r1 * A1 - r2 * A2;
    assert N * k2 == r1 * B1 - r2 * B2;
  }

  /** The halves recombine to k modulo N. */
  lemma SplitRecombines(k: nat)
    ensures var c1, c2 := B2 * k / N, B1 * k / N;
      var k1, k2 := k - c1 * A1 + c2 * A2, c2 * B2 - c1 * B1;
      (k1 + k2 * LAMBDA - k) % N == 0
  {
    LatticeBasis();
    var c1, c2 := B2 * k / N, B1 * k / N;
    var u, v := (A1 + B1 * LAMBDA) / N, (A2 + B2 * LAMBDA) / N;
    assert (k - c1 * A1 + c2 * A2) + (c2 * B2 - c1 * B1) * LAMBDA - k == (c2 * v - c1 * u) * N;
  }

  /** splitK: the magnitudes as byte strings and the signs of a balanced split of k. */
  method SplitK(k: seq<byte>) returns (b1: seq<byte>, b2: seq<byte>, s1: int, s2: int, ghost k1: int, ghost k2: int)
    ensures (k1 + k2 * LAMBDA - FromBytes(k)) % N == 0
    ensures -TWO_129 < k1 < TWO_129 && -TWO_129 < k2 < TWO_129
    ensures FromBytes(b1) == Abs(k1) && FromBytes(b2) == Abs(k2) && s1 == Sign(k1) && s2 == Sign(k2)
  {
    var bigK := FromBytes(k);
    var c1 := B2 * bigK;
    c1 := c1 / N;
    var c2 := B1 * bigK;
    c2 := c2 / N;
    var tmp1 := c1 * A1;
    var tmp2 := c2 * A2;
    var h1 := bigK - tmp1;
    h1 := h1 + tmp2;
    tmp1 := c1 * B1;
    tmp2 := c2 * B2;
    var h2 := tmp2 - tmp1;
    SplitBounds(bigK);
    SplitRecombines(bigK);
    k1, k2 := h1, h2;
    b1, b2, s1, s2 := ToBytes(Abs(h1)), ToBytes(Abs(h2)), Sign(h1), Sign(h2);
    FromToBytes(Abs(h1));
    FromToBytes(Abs(h2));
  }

  lemma ThirtyTwoBytes()
    ensures N < Pow256(32)
  {
    Pow256Adds(8, 8);
    Pow256Adds(16, 16);
    assert Pow256(8) == 0x1_0000_0000_0000_0000;
  }

  method ModuloReduce(k: seq<byte>) returns (r: seq<byte>)
    ensures |r| <= 32 && FromBytes(r) % N == FromBytes(k) % N
  {
    hide *;
    if |k| > 32 {
      var tmpK := Modulo(FromBytes(k));
      r := ToBytes(tmpK);
      FromToBytes(tmpK);
      ThirtyTwoBytes();
      ToBytesLength(tmpK, 32);
    } else {
      r := k;
    }
  }

  function Modulo(x: nat): (r: nat)
    ensures r < N && r % N == x % N
  {
    x % N
  }

  /** A digit of a pair of Naf outputs. */
  ghost function SignedBit(pos: seq<byte>, neg: seq<byte>, t: nat): int {
    if BitAt(pos, t) then 1 else if BitAt(neg, t) then -1 else 0
  }

  /** The number made by digits t and up. */
  ghost function SignedFrom(pos: seq<byte>, neg: seq<byte>, t: nat): int {
    BitsFrom(pos, t) - BitsFrom(neg, t)
  }

  lemma SignedStep(k: seq<byte>, pos: seq<byte>, neg: seq<byte>, t: nat)
    requires Marks(pos, k, 1) && Marks(neg, k, -1)
    ensures SignedFrom(pos, neg, t) == SignedBit(pos, neg, t) + 2 * SignedFrom(pos, neg, t + 1)
  {
    NafIsNonAdjacent(k, pos, neg, t);
    NoBitsAbove(pos, t);
    NoBitsAbove(neg, t);
    assert BitsFrom(pos, t) == Bit(pos, t) + 2 * BitsFrom(pos, t + 1);
    assert BitsFrom(neg, t) == Bit(neg, t) + 2 * BitsFrom(neg, t + 1);
    hide BitAt, BitsFrom;
  }

  lemma NoBitsAbove(s: seq<byte>, t: nat)
    ensures t >= 8 * |s| ==> BitsFrom(s, t) == 0 && BitsFrom(s, t + 1) == 0 && !BitAt(s, t)
  {
  }

  /** The accumulator of the double-and-add loop when digits t and up of both scalars are in. */
  ghost predicate Accumulated<G(!new)>(g: Group<G>, q: G, p1: G, p2: G, a: int, b: int) {
    q == g.add(Scale(g, a, p1), Scale(g, b, p2))
  }

  lemma DoubleStep<G(!new)>(g: Group<G>, q: G, p1: G, p2: G, a: int, b: int)
    requires Abelian(g) && Accumulated(g, q, p1, p2, a, b)
    ensures Accumulated(g, g.add(q, q), p1, p2, 2 * a, 2 * b)
  {
    hide Abelian, Scale;
    Exchange(g, Scale(g, a, p1), Scale(g, b, p2), Scale(g, a, p1), Scale(g, b, p2));
    ScaleAdds(g, a, a, p1);
    ScaleAdds(g, b, b, p2);
  }

  lemma AddFirst<G(!new)>(g: Group<G>, q: G, p1: G, p2: G, a: int, b: int)
    requires Abelian(g) && Accumulated(g, q, p1, p2, a, b)
    ensures Accumulated(g, g.add(q, p1), p1, p2, a + 1, b)
    ensures Accumulated(g, g.add(q, g.neg(p1)), p1, p2, a - 1, b)
  {
    hide Abelian, Scale;
    AddMultiple(g, q, p1, p2, a, b, 1);
    AddMultiple(g, q, p1, p2, a, b, -1);
    One(g, p1);
    MinusOne(g, p1);
  }

  lemma AddMultiple<G(!new)>(g: Group<G>, q: G, p1: G, p2: G, a: int, b: int, d: int)
    requires Abelian(g) && Accumulated(g, q, p1, p2, a, b)
    ensures Accumulated(g, g.add(q, Scale(g, d, p1)), p1, p2, a + d, b)
  {
    hide Abelian, Scale;
    var x, y, z := Scale(g, a, p1), Scale(g, b, p2), Scale(g, d, p1);
    Groups.Assoc(g, x, y, z);
    Groups.Commute(g, y, z);
    Groups.Assoc(g, x, z, y);
    ScaleAdds(g, a, d, p1);
  }

  lemma Swap<G(!new)>(g: Group<G>, q: G, p1: G, p2: G, a: int, b: int)
    requires Abelian(g) && Accumulated(g, q, p1, p2, a, b)
    ensures Accumulated(g, q, p2, p1, b, a)
  {
    hide Abelian;
    Groups.Commute(g, Scale(g, a, p1), Scale(g, b, p2));
  }

  /** One iteration of the inner loop of ScalarMult. */
  method DoubleAndAdd<G(!new)>(g: Group<G>, q0: G, p1: G, p1Neg: G, p2: G, p2Neg: G,
      pos1: bool, neg1: bool, pos2: bool, neg2: bool, ghost a: int, ghost b: int) returns (q: G)
    requires Abelian(g) && p1Neg == g.neg(p1) && p2Neg == g.neg(p2)
    requires Accumulated(g, q0, p1, p2, a, b)
    ensures Accumulated(g, q, p1, p2, 2 * a + (if pos1 then 1 else if neg1 then -1 else 0),
      2 * b + (if pos2 then 1 else if neg2 then -1 else 0))
  {
    hide *;
    q := g.add(q0, q0);
    DoubleStep(g, q0, p1, p2, a, b);
    AddFirst(g, q, p1, p2, 2 * a, 2 * b);
    if pos1 {
      q := g.add(q, p1);
    } else if neg1 {
      q := g.add(q, p1Neg);
    }
    ghost var a' := 2 * a + if pos1 then 1 else if neg1 then -1 else 0;
    Swap(g, q, p1, p2, a', 2 * b);
    AddFirst(g, q, p2, p1, 2 * b, a');
    if pos2 {
      q := g.add(q, p2);
    } else if neg2 {
      q := g.add(q, p2Neg);
    }
    Swap(g, q, p2, p1, 2 * b + (if pos2 then 1 else if neg2 then -1 else 0), a');
  }

  /** Bit 7 of a byte shifted left s times is bit 7 - s of the byte. */
  function Shl(x: byte, s: nat): byte {
    if s == 0 then x else ShlOne(Shl(x, s - 1))
  }

  function ShlOne(x: byte): byte {
    var y: int := x;
    y * 2 % 256
  }

  lemma {:induction false} ShlValue(x: byte, s: nat)
    ensures Shl(x, s) == Pow2(s) * x % 256
  {
    if s > 0 {
      ShlValue(x, s - 1);
      DoubleModulo(Pow2(s - 1) * x);
      Doubled(s, x);
    }
  }

  lemma DoubleModulo(y: nat)
    ensures y % 256 * 2 % 256 == 2 * y % 256
  {
    var q, r := y / 256, y % 256;
    assert 2 * y == 2 * r + 256 * (2 * q);
    Division.AddMultiple(2 * r, 256, 2 * q);
  }

  lemma TopBit(x: byte, s: nat)
    requires s < 8
    ensures Shl(x, s) >= 128 <==> Shr(x, 7 - s) % 2 == 1
  {
    ShlValue(x, s);
    ShrIsDivision(x, 7 - s);
    PowerPair(s);
    TopBitOf(x, Pow2(s), Pow2(7 - s));
  }

  lemma {:induction false} ShrIsDivision(x: nat, u: nat)
    ensures Pow2(u) > 0 && Shr(x, u) == x / Pow2(u)
  {
    if u > 0 {
      ShrIsDivision(x, u - 1);
      HalfOfQuotient(x, Pow2(u - 1));
    }
  }

  lemma HalfOfQuotient(x: nat, d: nat)
    requires d > 0
    ensures x / d / 2 == x / (2 * d)
  {
    DivideTwice(x, d, 2);
    assert d * 2 == 2 * d;
  }

  lemma PowerPair(s: nat)
    requires s < 8
    ensures Pow2(s) * Pow2(7 - s) == 128
  {
    assert Pow2(0) == 1 && Pow2(1) == 2 && Pow2(2) == 4 && Pow2(3) == 8 && Pow2(4) == 16 && Pow2(5) == 32
      && Pow2(6) == 64 && Pow2(7) == 128;
    hide Pow2;
  }

  lemma TopBitOf(x: nat, c: nat, d: nat)
    requires c * d == 128 && d > 0
    ensures c * x % 256 >= 128 <==> x / d % 2 == 1
  {
    var q, r := x / d, x % d;
    Euclid(x, d);
    Regroup(c, d, q, r);
    Remainder(c, d, r, 0);
    var h, b := q / 2, q % 2;
    DivisionIs(c * x, 256, h, 128 * b + c * r);
  }

  /** Byte i of s when s is right-aligned in m bytes. */
  function Aligned(s: seq<byte>, m: nat, i: nat): byte
    requires |s| <= m && i < m
  {
    if i < m - |s| then 0 else s[i - (m - |s|)]
  }

  lemma AlignedBit(s: seq<byte>, m: nat, i: nat, j: nat)
    requires |s| <= m && i < m && j < 8
    ensures Shl(Aligned(s, m, i), 7 - j) >= 128 <==> BitAt(s, 8 * (m - 1 - i) + j)
  {
    TopBit(Aligned(s, m, i), 7 - j);
    BitIndex(m - 1 - i, j);
    if i < m - |s| {
      ShrZero(j);
    }
  }

  lemma ShrZero(j: nat)
    ensures Shr(0, j) == 0
  {
  }

  /** Both scalars recoded: the outputs of naf. */
  datatype Recoding = Recoding(ghost k: seq<byte>, pos: seq<byte>, neg: seq<byte>) {
    ghost predicate Valid() {
      Marks(pos, k, 1) && Marks(neg, k, -1)
    }
  }

  /** The accumulator with digits t and up of both scalars in. */
  ghost predicate AtDigit<G(!new)>(g: Group<G>, q: G, p1: G, p2: G, d1: Recoding, d2: Recoding, t: nat) {
    Accumulated(g, q, p1, p2, SignedFrom(d1.pos, d1.neg, t), SignedFrom(d2.pos, d2.neg, t))
  }

  /** The two bytes being shifted out for byte i of a scalar, with j bits left. */
  ghost predicate BytesAt(d: Recoding, m: nat, i: nat, j: nat, bytePos: byte, byteNeg: byte) {
    d.Valid() && |d.pos| <= m && |d.neg| <= m && i < m && j <= 8
    && bytePos == Shl(Aligned(d.pos, m, i), 8 - j) && byteNeg == Shl(Aligned(d.neg, m, i), 8 - j)
  }

  lemma ShiftBytes(d: Recoding, m: nat, i: nat, j: nat, bytePos: byte, byteNeg: byte)
    requires BytesAt(d, m, i, j + 1, bytePos, byteNeg)
    ensures BytesAt(d, m, i, j, ShlOne(bytePos), ShlOne(byteNeg))
    ensures var t := 8 * (m - 1 - i) + j;
      SignedFrom(d.pos, d.neg, t) == 2 * SignedFrom(d.pos, d.neg, t + 1)
        + if bytePos >= 128 then 1 else if byteNeg >= 128 then -1 else 0
  {
    SignedStep(d.k, d.pos, d.neg, 8 * (m - 1 - i) + j);
    AlignedBit(d.pos, m, i, j);
    AlignedBit(d.neg, m, i, j);
    hide BitAt, Aligned, SignedFrom;
  }

  method ScalarMultLoop<G(!new)>(g: Group<G>, p1: G, p1Neg: G, p2: G, p2Neg: G, d1: Recoding, d2: Recoding)
      returns (q: G)
    requires Abelian(g) && p1Neg == g.neg(p1) && p2Neg == g.neg(p2)
    requires d1.Valid() && d2.Valid()
    ensures AtDigit(g, q, p1, p2, d1, d2, 0)
  {
    hide Abelian, Accumulated, SignedFrom;
    var k1Len, k2Len := |d1.pos|, |d2.pos|;
    var m := k1Len;
    if m < k2Len {
      m := k2Len;
    }
    q := g.zero;
    LoopStarts(g, p1, p2, d1, d2, m);
    for i := 0 to m
      invariant AtDigit(g, q, p1, p2, d1, d2, 8 * (m - i))
    {
      var k1BytePos, k1ByteNeg := Aligned(d1.pos, m, i), Aligned(d1.neg, m, i);
      var k2BytePos, k2ByteNeg := Aligned(d2.pos, m, i), Aligned(d2.neg, m, i);
      ghost var base := 8 * (m - 1 - i);
      for j := 8 downto 0
        invariant AtDigit(g, q, p1, p2, d1, d2, base + j)
        invariant BytesAt(d1, m, i, j, k1BytePos, k1ByteNeg) && BytesAt(d2, m, i, j, k2BytePos, k2ByteNeg)
      {
        ShiftBytes(d1, m, i, j, k1BytePos, k1ByteNeg);
        ShiftBytes(d2, m, i, j, k2BytePos, k2ByteNeg);
        hide BytesAt;
        q := DoubleAndAdd(g, q, p1, p1Neg, p2, p2Neg, k1BytePos >= 128, k1ByteNeg >= 128, k2BytePos >= 128,
          k2ByteNeg >= 128,
          SignedFrom(d1.pos, d1.neg, base + j + 1), SignedFrom(d2.pos, d2.neg, base + j + 1));
        k1BytePos := ShlOne(k1BytePos);
        k1ByteNeg := ShlOne(k1ByteNeg);
        k2BytePos := ShlOne(k2BytePos);
        k2ByteNeg := ShlOne(k2ByteNeg);
      }
    }
  }

  lemma LoopStarts<G(!new)>(g: Group<G>, p1: G, p2: G, d1: Recoding, d2: Recoding, m: nat)
    requires Abelian(g) && d1.Valid() && d2.Valid() && |d1.pos| <= m && |d2.pos| <= m
    ensures AtDigit(g, g.zero, p1, p2, d1, d2, 8 * m)
    ensures |d1.neg| <= m && |d2.neg| <= m
  {
    NoBitsAbove(d1.pos, 8 * m);
    NoBitsAbove(d1.neg, 8 * m);
    NoBitsAbove(d2.pos, 8 * m);
    NoBitsAbove(d2.neg, 8 * m);
    ScaleZero(g, p1);
    ScaleZero(g, p2);
    Unit(g, g.zero);
  }

  /** p stands for a multiple whose sign has been moved into the point. */
  method Signed<G(!new)>(g: Group<G>, p: G, s: int) returns (q: G, qNeg: G)
    requires Abelian(g)
    ensures q == (if s == -1 then g.neg(p) else p) && qNeg == g.neg(q)
  {
    q, qNeg := p, g.neg(p);
    if s == -1 {
      NegNeg(g, p);
      q, qNeg := qNeg, q;
    }
  }

  lemma SignedMultiple<G(!new)>(g: Group<G>, n: int, p: G)
    requires Abelian(g)
    ensures Scale(g, Abs(n), if Sign(n) == -1 then g.neg(p) else p) == Scale(g, n, p)
  {
    hide Abelian, Scale;
    if n < 0 {
      ScaleNeg(g, Abs(n), p);
    }
  }

  method Recode(k: seq<byte>) returns (d: Recoding)
    ensures d.Valid() && d.k == k && SignedFrom(d.pos, d.neg, 0) == FromBytes(k)
  {
    var pos, neg := Naf.Naf(k);
    d := Recoding(k, pos[..], neg[..]);
    NafDifference(k, pos[..], neg[..]);
    BitsAreValue(pos[..], 0);
    BitsAreValue(neg[..], 0);
    assert d.pos[..|d.pos| - 0] == d.pos && d.neg[..|d.neg| - 0] == d.neg;
  }

  /** What phi has to be: multiplication by LAMBDA, on a group whose elements have orders dividing N. */
  ghost predicate Endomorphism<G(!new)>(g: Group<G>, phi: G -> G) {
    (forall x :: phi(x) == Scale(g, LAMBDA, x)) && forall x :: Scale(g, N, x) == g.zero
  }

  /** k1*p + k2*phi(p) is k*p when k1 + k2*LAMBDA is k modulo N. */
  lemma SplitMultiple<G(!new)>(g: Group<G>, phi: G -> G, p: G, k1: int, k2: int, k: nat)
    requires Abelian(g) && Endomorphism(g, phi) && (k1 + k2 * LAMBDA - k) % N == 0
    ensures g.add(Scale(g, k1, p), Scale(g, k2, phi(p))) == Scale(g, k, p)
  {
    assert phi(p) == Scale(g, LAMBDA, p) && Scale(g, N, p) == g.zero;
    hide Abelian, Scale, Endomorphism;
    ScaleOfScale(g, k2, LAMBDA, p);
    ScaleAdds(g, k1, k2 * LAMBDA, p);
    var m := (k1 + k2 * LAMBDA - k) / N;
    ScaleModulo(g, N, k, m, p);
  }

  lemma SameMultiple<G(!new)>(g: Group<G>, phi: G -> G, p: G, j: nat, k: nat)
    requires Abelian(g) && Endomorphism(g, phi) && j % N == k % N
    ensures Scale(g, j, p) == Scale(g, k, p)
  {
    assert Scale(g, N, p) == g.zero;
    hide Abelian, Scale, Endomorphism;
    ScaleModulo(g, N, k, j / N - k / N, p);
  }

  /** ScalarMult returns k*p for every byte string k. */
  method ScalarMult<G(!new)>(g: Group<G>, phi: G -> G, p: G, k: seq<byte>) returns (q: G)
    requires Abelian(g) && Endomorphism(g, phi)
    ensures q == Scale(g, FromBytes(k), p)
  {
    hide *;
    var reduced := ModuloReduce(k);
    var k1, k2, signK1, signK2, h1, h2 := SplitK(reduced);
    var p1, p1Neg := Signed(g, p, signK1);
    var p2, p2Neg := Signed(g, phi(p), signK2);
    var d1 := Recode(k1);
    var d2 := Recode(k2);
    q := ScalarMultLoop(g, p1, p1Neg, p2, p2Neg, d1, d2);
    SignedMultiple(g, h1, p);
    SignedMultiple(g, h2, phi(p));
    SplitMultiple(g, phi, p, h1, h2, FromBytes(reduced));
    SameMultiple(g, phi, p, FromBytes(reduced), FromBytes(k));
    LoopResult(g, q, p1, p2, d1, d2);
  }

  lemma LoopResult<G(!new)>(g: Group<G>, q: G, p1: G, p2: G, d1: Recoding, d2: Recoding)
    requires AtDigit(g, q, p1, p2, d1, d2, 0)
    ensures q == g.add(Scale(g, SignedFrom(d1.pos, d1.neg, 0), p1), Scale(g, SignedFrom(d2.pos, d2.neg, 0), p2))
  {
  }

  /** The precomputed table: entry [i][b] is b * 256^(31-i) times the base point. */
  ghost predicate BytePoints<G(!new)>(g: Group<G>, base: G, table: seq<seq<G>>) {
    |table| == 32
    && (forall i :: 0 <= i < 32 ==> |table[i]| == 256)
    && (forall i, b :: 0 <= i < 32 && 0 <= b < 256 ==> table[i][b] == Scale(g, b * Pow256(31 - i), base))
  }

  /** ScalarBaseMult returns k times the base point for every byte string k. */
  method ScalarBaseMult<G(!new)>(g: Group<G>, phi: G -> G, base: G, table: seq<seq<G>>, k: seq<byte>) returns (q: G)
    requires Abelian(g) && Endomorphism(g, phi) && BytePoints(g, base, table)
    ensures q == Scale(g, FromBytes(k), base)
  {
    var newK := ModuloReduce(k);
    hide Abelian, Endomorphism, Scale, FromBytes;
    var diff := |table| - |newK|;
    q := g.zero;
    ScaleZero(g, base);
    EmptyPrefix(newK);
    for i := 0 to |newK|
      invariant q == Scale(g, FromBytes(newK[..i]) * Pow256(|newK| - i), base)
    {
      PrefixStep(newK, i);
      ScaleAdds(g, FromBytes(newK[..i]) * Pow256(|newK| - i), newK[i] * Pow256(|newK| - i - 1), base);
      q := g.add(q, table[diff + i][newK[i]]);
    }
    assert newK[..|newK|] == newK;
    SameMultiple(g, phi, base, FromBytes(newK), FromBytes(k));
  }

  lemma EmptyPrefix(k: seq<byte>)
    ensures FromBytes(k[..0]) * Pow256(|k|) == 0
  {
  }

  lemma PrefixStep(k: seq<byte>, i: nat)
    requires i < |k|
    ensures FromBytes(k[..i+1]) * Pow256(|k| - i - 1)
      == FromBytes(k[..i]) * Pow256(|k| - i) + k[i] * Pow256(|k| - i - 1)
  {
    assert k[..i+1][..i] == k[..i];
    var x, p := FromBytes(k[..i]), Pow256(|k| - i - 1);
    assert (256 * x + k[i]) * p == x * (256 * p) + k[i] * p;
  }
}
