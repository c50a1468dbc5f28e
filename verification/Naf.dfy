/** naf: the non-adjacent form of a big-endian byte string, as two byte strings of positive and negative digits. */
module Naf {
  import opened Bytes
  import opened Powers

  function Shr(x: nat, j: nat): nat {
    if j == 0 then x else Shr(x, j - 1) / 2
  }

  /** Bit t of the number a byte string stands for, bit 0 being the lowest bit of the last byte. */
  predicate BitAt(s: seq<byte>, t: nat) {
    t < 8 * |s| && Shr(s[|s| - 1 - t / 8], t % 8) % 2 == 1
  }

  function Bit(s: seq<byte>, t: nat): int {
    if BitAt(s, t) then 1 else 0
  }

  /** The number made by bits t and up. */
  ghost function BitsFrom(s: seq<byte>, t: nat): int
    decreases 8 * |s| - t
  {
    if t >= 8 * |s| then 0 else Bit(s, t) + 2 * BitsFrom(s, t + 1)
  }

  /** The carry into bit t of the recoding. */
  ghost function CarryInto(k: seq<byte>, t: nat): bool {
    if t == 0 then false
    else
      var c, cur, next := CarryInto(k, t - 1), BitAt(k, t - 1), BitAt(k, t);
      if c then cur || next else cur && next
  }

  /** Signed digit t of the recoding. */
  ghost function Digit(k: seq<byte>, t: nat): int {
    var c, cur, next := CarryInto(k, t), BitAt(k, t), BitAt(k, t + 1);
    if c == cur then 0 else if next then -1 else 1
  }

  ghost function DigitsFrom(k: seq<byte>, t: nat): int
    decreases 8 * |k| + 1 - t
  {
    if t > 8 * |k| then 0 else Digit(k, t) + 2 * DigitsFrom(k, t + 1)
  }

  lemma {:induction false} ByteBits(x: byte, j: nat)
    requires j <= 8
    ensures j < 8 ==> Shr(x, j) == Shr(x, j) % 2 + 2 * Shr(x, j + 1)
    ensures Shr(x, 8) == 0
  {
    assert Shr(x, 0) == x;
    assert Shr(x, 1) < 128;
    assert Shr(x, 2) < 64;
    assert Shr(x, 3) < 32;
    assert Shr(x, 4) < 16;
    assert Shr(x, 5) < 8;
    assert Shr(x, 6) < 4;
    assert Shr(x, 7) < 2;
  }

  lemma {:induction false} BitsFromByte(s: seq<byte>, m: nat, j: nat)
    requires m < |s| && j <= 8
    ensures BitsFrom(s, 8 * m + j) == Shr(s[|s| - 1 - m], j) + Pow2(8 - j) * BitsFrom(s, 8 * m + 8)
    decreases 8 - j
  {
    var x := s[|s| - 1 - m];
    ByteBits(x, j);
    if j < 8 {
      BitsFromByte(s, m, j + 1);
      BitIndex(m, j);
      BitsStep(s, m, j);
      Doubled(8 - j, BitsFrom(s, 8 * m + 8));
    }
  }

  lemma BitsStep(s: seq<byte>, m: nat, j: nat)
    requires m < |s| && j < 8
    ensures BitsFrom(s, 8 * m + j) == Shr(s[|s| - 1 - m], j) % 2 + 2 * BitsFrom(s, 8 * m + (j + 1))
  {
    BitIndex(m, j);
  }

  lemma BitIndex(m: nat, j: nat)
    requires j < 8
    ensures (8 * m + j) / 8 == m && (8 * m + j) % 8 == j
  {
  }

  lemma Doubled(j: nat, e: int)
    requires j > 0
    ensures 2 * (Pow2(j - 1) * e) == Pow2(j) * e
  {
  }

  /** The bits of a byte string add up to its big-endian value. */
  lemma {:induction false} BitsAreValue(s: seq<byte>, m: nat)
    requires m <= |s|
    ensures BitsFrom(s, 8 * m) == FromBytes(s[..|s| - m])
    decreases |s| - m
  {
    if m < |s| {
      BitsAreValue(s, m + 1);
      BitsFromByte(s, m, 0);
      assert Pow2(8) == 256;
      assert s[..|s| - m][..|s| - m - 1] == s[..|s| - (m + 1)];
    }
  }

  /** Recoding from bit t up yields the bits from t up plus the carry into t. */
  lemma {:induction false} DigitsAreBits(k: seq<byte>, t: nat)
    requires t <= 8 * |k|
    ensures DigitsFrom(k, t) == BitsFrom(k, t) + (if CarryInto(k, t) then 1 else 0)
    decreases 8 * |k| - t
  {
    if t < 8 * |k| {
      DigitsAreBits(k, t + 1);
    } else {
      assert DigitsFrom(k, t + 1) == 0;
    }
  }

  /** The signed digits represent the number. */
  lemma NafValue(k: seq<byte>)
    ensures DigitsFrom(k, 0) == FromBytes(k)
  {
    DigitsAreBits(k, 0);
    BitsAreValue(k, 0);
    assert k[..|k| - 0] == k;
  }

  /** No two adjacent digits are non-zero, across byte boundaries and into the final carry. */
  lemma NonAdjacent(k: seq<byte>, t: nat)
    ensures Digit(k, t) == 0 || Digit(k, t + 1) == 0
  {
  }

  /** s holds the positions of the digits of k that equal v. */
  ghost predicate Marks(s: seq<byte>, k: seq<byte>, v: int) {
    |s| == |k| + 1 && forall t :: 0 <= t < 8 * |s| ==> (BitAt(s, t) <==> t <= 8 * |k| && Digit(k, t) == v)
  }

  /** Adding 2^j to a number below 2^j sets bit j and leaves the bits below. */
  lemma {:induction false} AddBit(v: nat, j: nat, u: nat)
    requires v < Pow2(j) && u <= j
    ensures Shr(v + Pow2(j), u) == Shr(v, u) + Pow2(j - u) && Shr(v, u) < Pow2(j - u)
  {
    if u > 0 {
      AddBit(v, j, u - 1);
      assert Pow2(j - u + 1) == 2 * Pow2(j - u);
    }
  }

  lemma {:induction false} BitsBelow(v: nat, j: nat, u: nat)
    requires v < Pow2(j) && j <= u
    ensures Shr(v, u) == 0
  {
    if u == j {
      AddBit(v, j, j);
    } else {
      BitsBelow(v, j, u - 1);
    }
  }

  /** The bits of one output byte after j of its digits: v is the byte, marked says which digits it holds. */
  ghost predicate HoldsDigits(v: nat, k: seq<byte>, base: nat, sign: int, j: nat) {
    v < Pow2(j) && forall u {:trigger Shr(v, u)} :: 0 <= u < j ==> (Shr(v, u) % 2 == 1 <==> Digit(k, base + u) == sign)
  }

  lemma LowerBitStays(v: nat, j: nat, u: nat)
    requires v < Pow2(j) && u < j
    ensures Shr(v + Pow2(j), u) % 2 == Shr(v, u) % 2
  {
    AddBit(v, j, u);
    EvenPower(j - u);
  }

  lemma EvenPower(j: nat)
    requires j > 0
    ensures Pow2(j) % 2 == 0
  {
  }

  lemma NewBit(v: nat, j: nat)
    requires v < Pow2(j)
    ensures Shr(v, j) == 0 && Shr(v + Pow2(j), j) == 1 && v + Pow2(j) < Pow2(j + 1)
  {
    BitsBelow(v, j, j);
    AddBit(v, j, j);
  }

  lemma ExtendByte(v: nat, k: seq<byte>, base: nat, sign: int, j: nat)
    requires HoldsDigits(v, k, base, sign, j)
    ensures Digit(k, base + j) == sign ==> HoldsDigits(v + Pow2(j), k, base, sign, j + 1)
    ensures Digit(k, base + j) != sign ==> HoldsDigits(v, k, base, sign, j + 1)
  {
    NewBit(v, j);
    assert Pow2(j) <= Pow2(j + 1);
    var w := v + Pow2(j);
    forall u | 0 <= u < j
      ensures Shr(w, u) % 2 == Shr(v, u) % 2
    {
      LowerBitStays(v, j, u);
    }
    hide Shr, Digit, Pow2;
    if Digit(k, base + j) == sign {
      forall u | 0 <= u < j + 1
        ensures Shr(w, u) % 2 == 1 <==> Digit(k, base + u) == sign
      {
        if u < j { assert Shr(v, u) % 2 == 1 <==> Digit(k, base + u) == sign; }
      }
    } else {
    }
  }

  /** The inner loop of naf on byte i after j digits. */
  ghost predicate Recoding(k: seq<byte>, i: nat, j: nat, pos: byte, neg: byte, carry: bool, curByte: nat) {
    i < |k| && var base := 8 * (|k| - 1 - i);
    curByte == Shr(k[i], j) && carry == CarryInto(k, base + j)
    && HoldsDigits(pos, k, base, 1, j) && HoldsDigits(neg, k, base, -1, j)
  }

  lemma RecodeStep(k: seq<byte>, i: nat, j: nat, pos: byte, neg: byte, carry: bool, curByte: nat, next: bool)
    requires Recoding(k, i, j, pos, neg, carry, curByte) && j < 8
    requires next == if j < 7 then curByte / 2 % 2 == 1 else i > 0 && k[i - 1] % 2 == 1
    ensures pos + Pow2(j) < 256 && neg + Pow2(j) < 256
    ensures carry == (curByte % 2 == 1) ==> Recoding(k, i, j + 1, pos, neg, carry, curByte / 2)
    ensures carry != (curByte % 2 == 1) && next ==> Recoding(k, i, j + 1, pos, neg + Pow2(j), true, curByte / 2)
    ensures carry != (curByte % 2 == 1) && !next ==> Recoding(k, i, j + 1, pos + Pow2(j), neg, false, curByte / 2)
  {
    hide HoldsDigits, Digit, Shr, BitAt, CarryInto, Pow2;
    var base := 8 * (|k| - 1 - i);
    ExtendByte(pos, k, base, 1, j);
    ExtendByte(neg, k, base, -1, j);
    PowBelow256(j);
    CurrentBits(k, i, j);
    CarryStep(k, base + j);
    DigitAt(k, base + j);
    HeldBound(pos, k, base, 1, j);
    HeldBound(neg, k, base, -1, j);
  }

  lemma DigitAt(k: seq<byte>, t: nat)
    ensures Digit(k, t) == if CarryInto(k, t) == BitAt(k, t) then 0 else if BitAt(k, t + 1) then -1 else 1
  {
  }

  lemma HeldBound(v: nat, k: seq<byte>, base: nat, sign: int, j: nat)
    requires HoldsDigits(v, k, base, sign, j)
    ensures v < Pow2(j)
  {
  }

  lemma RecodingStarts(k: seq<byte>, i: nat, carry: bool)
    requires i < |k| && carry == CarryInto(k, 8 * (|k| - 1 - i))
    ensures Recoding(k, i, 0, 0, 0, carry, k[i])
  {
  }

  /** The inner loop: recode byte i of k, eight digits from the lowest. */
  method RecodeByte(k: seq<byte>, i: nat, carryIn: bool) returns (pos: byte, neg: byte, carry: bool)
    requires i < |k| && carryIn == CarryInto(k, 8 * (|k| - 1 - i))
    ensures exists curByte :: Recoding(k, i, 8, pos, neg, carry, curByte)
  {
    RecodingStarts(k, i, carryIn);
    hide *;
    carry := carryIn;
    pos, neg := 0, 0;
    var curByte: nat := k[i];
    for j := 0 to 8
      invariant Recoding(k, i, j, pos, neg, carry, curByte)
    {
      var curIsOne := curByte % 2 == 1;
      var nextIsOne;
      if j == 7 {
        if i == 0 {
          nextIsOne := false;
        } else {
          nextIsOne := k[i - 1] % 2 == 1;
        }
      } else {
        nextIsOne := curByte / 2 % 2 == 1;
      }
      RecodeStep(k, i, j, pos, neg, carry, curByte, nextIsOne);
      if carry {
        if curIsOne {
        } else {
          if nextIsOne {
            neg := neg + Pow2(j);
          } else {
            carry := false;
            pos := pos + Pow2(j);
          }
        }
      } else if curIsOne {
        if nextIsOne {
          neg := neg + Pow2(j);
          carry := true;
        } else {
          pos := pos + Pow2(j);
        }
      }
      curByte := curByte / 2;
    }
  }

  /** What the recoding loop reads for bit j of byte i and for the bit after it. */
  lemma CurrentBits(k: seq<byte>, i: nat, j: nat)
    requires i < |k| && j < 8
    ensures var base := 8 * (|k| - 1 - i);
      BitAt(k, base + j) == (Shr(k[i], j) % 2 == 1)
      && BitAt(k, base + j + 1) ==
        (if j < 7 then Shr(k[i], j) / 2 % 2 == 1 else i > 0 && k[i - 1] % 2 == 1)
    ensures Shr(k[i], j + 1) == Shr(k[i], j) / 2
  {
    BitIndex(|k| - 1 - i, j);
    if j < 7 {
      BitIndex(|k| - 1 - i, j + 1);
    } else {
      BitIndex(|k| - i, 0);
    }
  }

  lemma CarryStep(k: seq<byte>, t: nat)
    ensures CarryInto(k, t + 1) ==
      (if CarryInto(k, t) then BitAt(k, t) || BitAt(k, t + 1) else BitAt(k, t) && BitAt(k, t + 1))
  {
  }

  /** The outer loop of naf: bytes i + 2 and up of the output are done. */
  ghost predicate Recoded(k: seq<byte>, i: int, pos: seq<byte>, neg: seq<byte>, carry: bool) {
    |pos| == |neg| == |k| + 1 && -1 <= i < |k| && carry == CarryInto(k, 8 * (|k| - 1 - i))
    && (forall x :: i + 2 <= x <= |k| ==>
      HoldsDigits(pos[x], k, 8 * (|k| - x), 1, 8) && HoldsDigits(neg[x], k, 8 * (|k| - x), -1, 8))
    && (forall x :: 0 <= x <= i + 1 ==> pos[x] == 0 && neg[x] == 0)
  }

  lemma StoreByte(k: seq<byte>, i: nat, pos: seq<byte>, neg: seq<byte>, carry: bool, p: byte, n: byte, carry': bool)
    requires Recoded(k, i, pos, neg, carry)
    requires exists curByte :: Recoding(k, i, 8, p, n, carry', curByte)
    ensures Recoded(k, i - 1, pos[i + 1 := p], neg[i + 1 := n], carry')
  {
    hide HoldsDigits, CarryInto;
  }

  method Naf(k: seq<byte>) returns (retPos: array<byte>, retNeg: array<byte>)
    ensures fresh(retPos) && fresh(retNeg)
    ensures Marks(retPos[..], k, 1) && Marks(retNeg[..], k, -1)
  {
    var carry := false;
    retPos := new byte[|k| + 1](_ => 0);
    retNeg := new byte[|k| + 1](_ => 0);
    var i := |k| - 1;
    while i >= 0
      invariant retPos.Length == retNeg.Length == |k| + 1 && retPos != retNeg && -1 <= i < |k|
      invariant Recoded(k, i, retPos[..], retNeg[..], carry)
    {
      assert carry == CarryInto(k, 8 * (|k| - 1 - i));
      var pos, neg, carryOut := RecodeByte(k, i, carry);
      StoreByte(k, i, retPos[..], retNeg[..], carry, pos, neg, carryOut);
      hide *;
      retPos[i + 1] := pos;
      retNeg[i + 1] := neg;
      carry := carryOut;
      i := i - 1;
    }
    AssembleMarks(k, retPos[..], retNeg[..], carry);
    hide *;
    if carry {
      retPos[0] := 1;
    }
  }

  lemma AssembleMarks(k: seq<byte>, pos: seq<byte>, neg: seq<byte>, carry: bool)
    requires Recoded(k, -1, pos, neg, carry)
    ensures Marks(if carry then pos[0 := 1] else pos, k, 1) && Marks(neg, k, -1)
  {
    AssembleSign(if carry then pos[0 := 1] else pos, k, 1);
    AssembleSign(neg, k, -1);
  }

  /** Bytes that hold the digits of k, below a top byte that holds the last carry, mark the digits. */
  lemma AssembleSign(s: seq<byte>, k: seq<byte>, sign: int)
    requires |s| == |k| + 1 && (sign == 1 || sign == -1)
    requires forall x :: 1 <= x <= |k| ==> HoldsDigits(s[x], k, 8 * (|k| - x), sign, 8)
    requires s[0] == if sign == 1 && CarryInto(k, 8 * |k|) then 1 else 0
    ensures Marks(s, k, sign)
  {
    hide Shr, CarryInto, HoldsDigits, Digit, BitAt;
    forall t | 0 <= t < 8 * |s| ensures BitAt(s, t) <==> t <= 8 * |k| && Digit(k, t) == sign {
      AssembleBit(s, k, sign, t / 8, t % 8);
      assert t == 8 * (t / 8) + t % 8;
    }
  }

  lemma AssembleBit(s: seq<byte>, k: seq<byte>, sign: int, m: nat, u: nat)
    requires |s| == |k| + 1 && (sign == 1 || sign == -1) && m < |s| && u < 8
    requires forall x :: 1 <= x <= |k| ==> HoldsDigits(s[x], k, 8 * (|k| - x), sign, 8)
    requires s[0] == if sign == 1 && CarryInto(k, 8 * |k|) then 1 else 0
    ensures BitAt(s, 8 * m + u) <==> 8 * m + u <= 8 * |k| && Digit(k, 8 * m + u) == sign
  {
    hide Pow2, Shr;
    BitOf(s, m, u);
    var x := |k| - m;
    if x >= 1 {
      hide BitAt, Digit, CarryInto;
      assert HoldsDigits(s[x], k, 8 * m, sign, 8);
    } else {
      TopByte(s[0], u);
    }
  }

  lemma BitOf(s: seq<byte>, m: nat, u: nat)
    requires m < |s| && u < 8
    ensures BitAt(s, 8 * m + u) <==> Shr(s[|s| - 1 - m], u) % 2 == 1
  {
    hide Shr;
    assert (8 * m + u) / 8 == m;
  }

  lemma TopByte(x: nat, j: nat)
    requires x <= 1
    ensures Shr(x, j) == if j == 0 then x else 0
  {
  }

  lemma PowBelow256(j: nat)
    requires j < 8
    ensures Pow2(j) + Pow2(j) <= 256
  {
    assert Pow2(0) == 1 && Pow2(1) == 2 && Pow2(2) == 4 && Pow2(3) == 8 && Pow2(4) == 16 && Pow2(5) == 32
      && Pow2(6) == 64 && Pow2(7) == 128;
  }

  lemma {:induction false} MarksDiffer(k: seq<byte>, pos: seq<byte>, neg: seq<byte>, t: nat)
    requires Marks(pos, k, 1) && Marks(neg, k, -1) && t <= 8 * |k| + 8
    ensures BitsFrom(pos, t) - BitsFrom(neg, t) == DigitsFrom(k, t)
    decreases 8 * |k| + 8 - t
  {
    if t < 8 * |k| + 8 {
      MarksDiffer(k, pos, neg, t + 1);
      assert BitAt(pos, t) <==> t <= 8 * |k| && Digit(k, t) == 1;
      assert BitAt(neg, t) <==> t <= 8 * |k| && Digit(k, t) == -1;
      hide BitAt, Digit;
    }
  }

  /** The outputs of Naf differ by its input. */
  lemma NafDifference(k: seq<byte>, pos: seq<byte>, neg: seq<byte>)
    requires Marks(pos, k, 1) && Marks(neg, k, -1)
    ensures FromBytes(pos) - FromBytes(neg) == FromBytes(k)
  {
    MarksDiffer(k, pos, neg, 0);
    NafValue(k);
    BitsAreValue(pos, 0);
    BitsAreValue(neg, 0);
    assert pos[..|pos| - 0] == pos && neg[..|neg| - 0] == neg;
  }

  /** The outputs of Naf share no bit and have no two adjacent non-zero digits. */
  lemma NafIsNonAdjacent(k: seq<byte>, pos: seq<byte>, neg: seq<byte>, t: nat)
    requires Marks(pos, k, 1) && Marks(neg, k, -1)
    ensures !(BitAt(pos, t) && BitAt(neg, t))
    ensures BitAt(pos, t) || BitAt(neg, t) ==> !BitAt(pos, t + 1) && !BitAt(neg, t + 1)
  {
    NonAdjacent(k, t);
    MarkedBit(k, pos, 1, t);
    MarkedBit(k, neg, -1, t);
    MarkedBit(k, pos, 1, t + 1);
    MarkedBit(k, neg, -1, t + 1);
    hide *;
  }

  lemma MarkedBit(k: seq<byte>, s: seq<byte>, sign: int, t: nat)
    requires Marks(s, k, sign)
    ensures BitAt(s, t) ==> Digit(k, t) == sign
  {
  }
}
