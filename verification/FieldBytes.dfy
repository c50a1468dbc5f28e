/** SetBytes and PutBytes: 32 big-endian bytes against ten limbs. The byte layout repeats every 104 bits, that is 13
    bytes against four limbs, so both directions are written for one such group and for the six bytes of the top two
    limbs. */
module FieldBytes {
  import opened Bytes
  import opened Division
  import opened FieldWords
  import opened FieldReduction
  import opened FieldNormalForm

  function Limbs13(b: seq<byte>): (n: seq<uint32>)
    requires |b| == 13
    ensures |n| == 4 && forall i :: 0 <= i < 4 ==> n[i] < 0x400_0000
  {
    var b0: int, b1: int, b2: int, b3: int, b4: int, b5: int, b6: int := b[0], b[1], b[2], b[3], b[4], b[5], b[6];
    var b7: int, b8: int, b9: int, b10: int, b11: int, b12: int := b[7], b[8], b[9], b[10], b[11], b[12];
    [(b12 + b11 * 0x100 + b10 * 0x1_0000 + b9 % 4 * 0x100_0000) as uint32,
     (b9 / 4 + b8 * 0x40 + b7 * 0x4000 + b6 % 16 * 0x40_0000) as uint32,
     (b6 / 16 + b5 * 0x10 + b4 * 0x1000 + b3 % 64 * 0x10_0000) as uint32,
     (b3 / 64 + b2 * 4 + b1 * 0x400 + b0 * 0x4_0000) as uint32]
  }

  function Limbs6(b: seq<byte>): (n: seq<uint32>)
    requires |b| == 6
    ensures |n| == 2 && n[0] < 0x400_0000 && n[1] < 0x40_0000
  {
    var b0: int, b1: int, b2: int, b3: int, b4: int, b5: int := b[0], b[1], b[2], b[3], b[4], b[5];
    [(b5 + b4 * 0x100 + b3 * 0x1_0000 + b2 % 4 * 0x100_0000) as uint32,
     (b2 / 4 + b1 * 0x40 + b0 * 0x4000) as uint32]
  }

  function Bytes13(n: seq<uint32>): (b: seq<byte>)
    requires |n| == 4 && forall i :: 0 <= i < 4 ==> n[i] < 0x400_0000
    ensures |b| == 13
  {
    var n0, n1, n2, n3 := n[0] as int, n[1] as int, n[2] as int, n[3] as int;
    [n3 / 0x4_0000 % 256, n3 / 0x400 % 256, n3 / 4 % 256, n2 / 0x10_0000 % 64 + n3 % 4 * 64,
     n2 / 0x1000 % 256, n2 / 16 % 256, n1 / 0x40_0000 % 16 + n2 % 16 * 16, n1 / 0x4000 % 256,
     n1 / 64 % 256, n0 / 0x100_0000 % 4 + n1 % 64 * 4, n0 / 0x1_0000 % 256, n0 / 256 % 256, n0 % 256]
  }

  function Bytes6(n: seq<uint32>): (b: seq<byte>)
    requires |n| == 2 && n[0] < 0x400_0000 && n[1] < 0x40_0000
    ensures |b| == 6
  {
    var n0, n1 := n[0] as int, n[1] as int;
    [n1 / 0x4000 % 256, n1 / 64 % 256, n0 / 0x100_0000 % 4 + n1 % 64 * 4, n0 / 0x1_0000 % 256, n0 / 256 % 256, n0 % 256]
  }

  lemma LastByte(s: seq<byte>, k: nat)
    requires 0 < k <= |s|
    ensures FromBytes(s[..k]) == 256 * FromBytes(s[..k-1]) + s[k-1]
  {
    assert s[..k][..k-1] == s[..k-1];
  }

  lemma SixBytes(s: seq<byte>)
    requires |s| >= 6
    ensures FromBytes(s[..6]) ==
      s[5] as int + 0x100 * s[4] as int + 0x1_0000 * s[3] as int + 0x100_0000 * s[2] as int
      + 0x1_0000_0000 * s[1] as int + 0x100_0000_0000 * s[0] as int
  {
    LastByte(s, 6);
    LastByte(s, 5);
    LastByte(s, 4);
    LastByte(s, 3);
    LastByte(s, 2);
    LastByte(s, 1);
    assert s[..0] == [];
    hide FromBytes;
  }

  lemma ThirteenBytes(s: seq<byte>)
    requires |s| == 13
    ensures FromBytes(s) == s[12] as int + 0x100 * s[11] as int + 0x1_0000 * s[10] as int
      + 0x100_0000 * s[9] as int + 0x1_0000_0000 * s[8] as int + 0x100_0000_0000 * s[7] as int
      + 0x1_0000_0000_0000 * s[6] as int + 0x100_0000_0000_0000 * FromBytes(s[..6])
  {
    assert s[..13] == s;
    LastFour(s, 13);
    LastByte(s, 9);
    LastByte(s, 8);
    LastByte(s, 7);
    hide FromBytes;
    var x: int := FromBytes(s[..6]);
    var s6: int, s7: int, s8: int := s[6], s[7], s[8];
    assert FromBytes(s[..9]) == s8 + 0x100 * (s7 + 0x100 * (s6 + 0x100 * x));
  }

  lemma LastFour(s: seq<byte>, k: nat)
    requires 4 <= k <= |s|
    ensures FromBytes(s[..k]) == s[k - 1] as int + 0x100 * s[k - 2] as int + 0x1_0000 * s[k - 3] as int
      + 0x100_0000 * s[k - 4] as int + 0x1_0000_0000 * FromBytes(s[..k - 4])
  {
    LastByte(s, k);
    LastByte(s, k - 1);
    LastByte(s, k - 2);
    LastByte(s, k - 3);
    hide FromBytes;
  }

  lemma FourLimbs(n: seq<uint32>)
    requires |n| == 4
    ensures Eval(n) == n[0] as int + 0x400_0000 * n[1] as int + 0x10_0000_0000_0000 * n[2] as int
      + 0x4000_0000_0000_0000_0000 * n[3] as int
  {
    assert Eval(n) == n[0] as int + 0x400_0000 * Eval(n[1..]);
    assert n[1..][1..] == n[2..] && n[2..][1..] == n[3..] && n[3..] == [n[3]];
    assert Eval(n[3..]) == n[3] as int;
  }

  lemma TwoLimbs(n: seq<uint32>)
    requires |n| == 2
    ensures Eval(n) == n[0] as int + 0x400_0000 * n[1] as int
  {
    assert n[1..] == [n[1]] && Eval([n[1]]) == n[1] as int;
  }

  lemma Limbs13Value(b: seq<byte>)
    requires |b| == 13
    ensures Eval(Limbs13(b)) == FromBytes(b)
  {
    var n := Limbs13(b);
    FourLimbs(n);
    ThirteenBytes(b);
    SixBytes(b);
    hide FromBytes, Eval;
  }

  lemma Limbs6Value(b: seq<byte>)
    requires |b| == 6
    ensures Eval(Limbs6(b)) == FromBytes(b)
  {
    TwoLimbs(Limbs6(b));
    SixBytes(b);
    assert b[..6] == b;
    hide FromBytes, Eval;
  }

  /** A number below 2^26 cut at bits 8, 16 and 24; at 6, 14 and 22; at 4, 12 and 20; at 2, 10 and 18. */
  lemma Cut8(x: nat)
    requires x < 0x400_0000
    ensures x == x % 256 + x / 256 % 256 * 0x100 + x / 0x1_0000 % 256 * 0x1_0000 + x / 0x100_0000 % 4 * 0x100_0000
  {
    var y := x / 256;
    var z := y / 256;
    assert x / 0x1_0000 == z && x / 0x100_0000 == z / 256;
  }

  lemma Cut6(x: nat)
    requires x < 0x400_0000
    ensures x == x % 64 + x / 64 % 256 * 0x40 + x / 0x4000 % 256 * 0x4000 + x / 0x40_0000 % 16 * 0x40_0000
  {
    var y := x / 64;
    var z := y / 256;
    assert x / 0x4000 == z && x / 0x40_0000 == z / 256;
  }

  lemma Cut4(x: nat)
    requires x < 0x400_0000
    ensures x == x % 16 + x / 16 % 256 * 0x10 + x / 0x1000 % 256 * 0x1000 + x / 0x10_0000 % 64 * 0x10_0000
  {
    var y := x / 16;
    var z := y / 256;
    assert x / 0x1000 == z && x / 0x10_0000 == z / 256;
  }

  lemma Cut2(x: nat)
    requires x < 0x400_0000
    ensures x == x % 4 + x / 4 % 256 * 4 + x / 0x400 % 256 * 0x400 + x / 0x4_0000 % 256 * 0x4_0000
  {
    var y := x / 4;
    var z := y / 256;
    assert x / 0x400 == z && x / 0x4_0000 == z / 256;
  }

  lemma Cut6Top(x: nat)
    requires x < 0x40_0000
    ensures x == x % 64 + x / 64 % 256 * 0x40 + x / 0x4000 % 256 * 0x4000
  {
  }

  lemma JoinedBy(p: nat, q: nat, m: nat)
    requires p < m
    ensures (p + q * m) % m == p && (p + q * m) / m == q
  {
    DivisionIs(p + q * m, m, q, p);
  }

  /** One limb put together from the bytes it was spread over; the first and last byte are shared with other limbs. */
  lemma Limb0Back(x: nat, up: nat)
    requires x < 0x400_0000
    ensures x % 256 + x / 256 % 256 * 0x100 + x / 0x1_0000 % 256 * 0x1_0000
      + (x / 0x100_0000 % 4 + up * 4) % 4 * 0x100_0000 == x
  {
    Cut8(x);
    JoinedBy(x / 0x100_0000 % 4, up, 4);
  }

  lemma Limb1Back(low: nat, x: nat, up: nat)
    requires low < 4 && x < 0x400_0000
    ensures (low + x % 64 * 4) / 4 + x / 64 % 256 * 0x40 + x / 0x4000 % 256 * 0x4000
      + (x / 0x40_0000 % 16 + up * 16) % 16 * 0x40_0000 == x
  {
    Cut6(x);
    JoinedBy(low, x % 64, 4);
    JoinedBy(x / 0x40_0000 % 16, up, 16);
  }

  lemma Limb2Back(low: nat, x: nat, up: nat)
    requires low < 16 && x < 0x400_0000
    ensures (low + x % 16 * 16) / 16 + x / 16 % 256 * 0x10 + x / 0x1000 % 256 * 0x1000
      + (x / 0x10_0000 % 64 + up * 64) % 64 * 0x10_0000 == x
  {
    Cut4(x);
    JoinedBy(low, x % 16, 16);
    JoinedBy(x / 0x10_0000 % 64, up, 64);
  }

  lemma Limb3Back(low: nat, x: nat)
    requires low < 64 && x < 0x400_0000
    ensures (low + x % 4 * 64) / 64 + x / 4 % 256 * 4 + x / 0x400 % 256 * 0x400 + x / 0x4_0000 % 256 * 0x4_0000 == x
  {
    Cut2(x);
    JoinedBy(low, x % 4, 64);
  }

  lemma Bytes13RoundTrip(n: seq<uint32>)
    requires |n| == 4 && forall i :: 0 <= i < 4 ==> n[i] < 0x400_0000
    ensures Limbs13(Bytes13(n)) == n
  {
    var n0, n1, n2, n3 := n[0] as int, n[1] as int, n[2] as int, n[3] as int;
    Limb0Back(n0, n1 % 64);
    Limb1Back(n0 / 0x100_0000 % 4, n1, n2 % 16);
    Limb2Back(n1 / 0x40_0000 % 16, n2, n3 % 4);
    Limb3Back(n2 / 0x10_0000 % 64, n3);
    var m := Limbs13(Bytes13(n));
    assert m[0] as int == n0 && m[1] as int == n1 && m[2] as int == n2 && m[3] as int == n3;
  }

  lemma Bytes6RoundTrip(n: seq<uint32>)
    requires |n| == 2 && n[0] < 0x400_0000 && n[1] < 0x40_0000
    ensures Limbs6(Bytes6(n)) == n
  {
    Cut8(n[0] as int);
    Cut6Top(n[1] as int);
    var m := Limbs6(Bytes6(n));
    assert m[0] as int == n[0] as int && m[1] as int == n[1] as int;
  }

  lemma Bytes13Value(n: seq<uint32>)
    requires |n| == 4 && forall i :: 0 <= i < 4 ==> n[i] < 0x400_0000
    ensures FromBytes(Bytes13(n)) == Eval(n)
  {
    Bytes13RoundTrip(n);
    Limbs13Value(Bytes13(n));
  }

  lemma Bytes6Value(n: seq<uint32>)
    requires |n| == 2 && n[0] < 0x400_0000 && n[1] < 0x40_0000
    ensures FromBytes(Bytes6(n)) == Eval(n)
  {
    Bytes6RoundTrip(n);
    Limbs6Value(Bytes6(n));
  }

  lemma {:induction false} EvalConcat(s: seq<uint32>, t: seq<uint32>)
    ensures Eval(s + t) == Eval(s) + Weight(|s|) * Eval(t)
  {
    if s == [] {
      assert s + t == t;
    } else {
      EvalConcat(s[1..], t);
      assert (s + t)[1..] == s[1..] + t;
      assert 0x400_0000 * (Weight(|s| - 1) * Eval(t)) == (0x400_0000 * Weight(|s| - 1)) * Eval(t);
    }
  }

  /** The limbs SetBytes stores for 32 bytes. */
  function LimbsOf(b: seq<byte>): (n: Limbs)
    requires |b| == 32
    ensures AllNormal(n)
  {
    Limbs13(b[19..]) + Limbs13(b[6..19]) + Limbs6(b[..6])
  }

  /** The bytes PutBytes stores for normalized limbs. */
  function BytesOf(n: Limbs): (b: seq<byte>)
    requires AllNormal(n)
    ensures |b| == 32
  {
    Bytes6(n[8..]) + Bytes13(n[4..8]) + Bytes13(n[..4])
  }

  lemma Weights()
    ensures Weight(4) == Pow256(13) == 0x1_0000_0000_0000_0000_0000_0000_00
  {
  }

  /** Three groups, the top one first as bytes and last as limbs. */
  lemma ThreeGroups(h: seq<byte>, m: seq<byte>, l: seq<byte>, nl: seq<uint32>, nm: seq<uint32>, nh: seq<uint32>)
    requires |m| == |l| == 13 && |nl| == |nm| == 4
    requires FromBytes(h) == Eval(nh) && FromBytes(m) == Eval(nm) && FromBytes(l) == Eval(nl)
    ensures FromBytes(h + m + l) == Eval(nl + nm + nh)
  {
    ConcatBytes(h, m);
    ConcatBytes(h + m, l);
    EvalConcat(nm, nh);
    EvalConcat(nl, nm + nh);
    assert nl + nm + nh == nl + (nm + nh);
    Weights();
  }

  lemma SetBytesValue(b: seq<byte>)
    requires |b| == 32
    ensures Eval(LimbsOf(b)) == FromBytes(b)
  {
    Limbs6Value(b[..6]);
    Limbs13Value(b[6..19]);
    Limbs13Value(b[19..]);
    ThreeGroups(b[..6], b[6..19], b[19..], Limbs13(b[19..]), Limbs13(b[6..19]), Limbs6(b[..6]));
    assert b == b[..6] + b[6..19] + b[19..];
  }

  lemma PutBytesValue(n: Limbs)
    requires AllNormal(n)
    ensures FromBytes(BytesOf(n)) == Eval(n)
  {
    Bytes6Value(n[8..]);
    Bytes13Value(n[4..8]);
    Bytes13Value(n[..4]);
    ThreeGroups(Bytes6(n[8..]), Bytes13(n[4..8]), Bytes13(n[..4]), n[..4], n[4..8], n[8..]);
    assert n == n[..4] + n[4..8] + n[8..];
  }

  /** Writing out what was read back gives the same 32 bytes. */
  lemma BytesRoundTrip(b: seq<byte>)
    requires |b| == 32
    ensures BytesOf(LimbsOf(b)) == b
  {
    SetBytesValue(b);
    PutBytesValue(LimbsOf(b));
    BytesUnique(BytesOf(LimbsOf(b)), b);
  }
}
