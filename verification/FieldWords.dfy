/** The words of a secp256k1 field value: ten uint32 limbs in base 2^26, and the word operations used on them. */
module FieldWords {
  newtype uint32 = x: int | 0 <= x < 0x1_0000_0000
  newtype uint64 = x: int | 0 <= x < 0x1_0000_0000_0000_0000

  /** Limb i carries weight 2^(26i). */
  type Limbs = s: seq<uint32> | |s| == 10 witness [0, 0, 0, 0, 0, 0, 0, 0, 0, 0]

  const PRIME: int := 0xFFFFFFFFFFFFFFFFFFFFFFFFFFFFFFFFFFFFFFFFFFFFFFFFFFFFFFFEFFFFFC2F
  const TWO_256: int := 0x1_0000_0000_0000_0000_0000_0000_0000_0000_0000_0000_0000_0000_0000_0000_0000_0000
  /** 2^256 - PRIME */
  const FOLD: int := 0x1_0000_03D1

  /** m & fieldBaseMask and m >> fieldBase */
  function Low26(m: uint64): (r: uint64)
    ensures r < 0x400_0000
  {
    m % 0x400_0000
  }

  function Shr26(m: uint64): (r: uint64)
    ensures m as int == Low26(m) as int + 0x400_0000 * r as int
  {
    m / 0x400_0000
  }

  /** m & fieldMSBMask and m >> fieldMSBBits */
  function Low22(m: uint64): (r: uint64)
    ensures r < 0x40_0000
  {
    m % 0x40_0000
  }

  function Shr22(m: uint64): (r: uint64)
    ensures m as int == Low22(m) as int + 0x40_0000 * r as int
  {
    m / 0x40_0000
  }

  /** The integer a sequence of base-2^26 words stands for, least significant word first. */
  ghost function Eval(s: seq<uint32>): nat {
    if s == [] then 0 else s[0] as int + 0x400_0000 * Eval(s[1..])
  }

  ghost function EvalWide(s: seq<uint64>): nat {
    if s == [] then 0 else s[0] as int + 0x400_0000 * EvalWide(s[1..])
  }

  ghost predicate AtMost(s: seq<uint32>, bound: int) {
    forall i :: 0 <= i < |s| ==> s[i] as int <= bound
  }

  /** The magnitude the comments of the source count: how many normalized values have been added up. Multiplication
      leaves limb 2 slightly above 26 bits, so a magnitude unit of the lower limbs is 2^26 + 2^20. */
  ghost predicate Mag(s: Limbs, k: nat) {
    AtMost(s[..9], k * 0x410_0000) && s[9] as int <= k * 0x3F_FFFF
  }

  ghost predicate Normal(s: Limbs) {
    AtMost(s[..9], 0x3FF_FFFF) && s[9] as int <= 0x3F_FFFF
  }

  lemma ProductBound(x: int, y: int, c: int, d: int)
    requires 0 <= x <= c && 0 <= y <= d
    ensures 0 <= x * y <= c * d
  {
    assert x * y <= x * d <= c * d;
  }
}
