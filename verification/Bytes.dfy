/** Byte strings as big-endian numbers: what big.Int.SetBytes and big.Int.Bytes compute. */
module Bytes {
  type byte = x: int | 0 <= x < 256

  function Pow256(k: nat): (r: nat)
    ensures r > 0
  {
    if k == 0 then 1 else 256 * Pow256(k - 1)
  }

  lemma {:induction false} Pow256Adds(i: nat, j: nat)
    ensures Pow256(i + j) == Pow256(i) * Pow256(j)
  {
    if i > 0 {
      Pow256Adds(i - 1, j);
      assert 256 * (Pow256(i - 1) * Pow256(j)) == (256 * Pow256(i - 1)) * Pow256(j);
    }
  }

  /** big.Int.SetBytes */
  function FromBytes(s: seq<byte>): nat {
    if s == [] then 0 else 256 * FromBytes(s[..|s| - 1]) + s[|s| - 1]
  }

  /** big.Int.Bytes: no leading zero byte, and no byte at all for zero. */
  function ToBytes(n: nat): seq<byte> {
    if n == 0 then [] else ToBytes(n / 256) + [n % 256]
  }

  lemma {:induction false} FromToBytes(n: nat)
    ensures FromBytes(ToBytes(n)) == n
    ensures n > 0 ==> |ToBytes(n)| > 0 && ToBytes(n)[0] > 0
  {
    if n > 0 {
      FromToBytes(n / 256);
      assert ToBytes(n)[..|ToBytes(n)| - 1] == ToBytes(n / 256);
    }
  }

  lemma {:induction false} BytesBound(s: seq<byte>)
    ensures FromBytes(s) < Pow256(|s|)
  {
    if s != [] {
      BytesBound(s[..|s| - 1]);
    }
  }

  lemma {:induction false} ConcatBytes(s: seq<byte>, t: seq<byte>)
    ensures FromBytes(s + t) == FromBytes(s) * Pow256(|t|) + FromBytes(t)
  {
    if t == [] {
      assert s + t == s;
    } else {
      var t' := t[..|t| - 1];
      ConcatBytes(s, t');
      assert (s + t)[..|s + t| - 1] == s + t';
      RegroupByte(FromBytes(s), Pow256(|t'|));
    }
  }

  lemma RegroupByte(x: nat, p: nat)
    ensures x * (256 * p) == 256 * (x * p)
  {
  }

  lemma {:induction false} BytesUnique(s: seq<byte>, t: seq<byte>)
    requires |s| == |t| && FromBytes(s) == FromBytes(t)
    ensures s == t
  {
    if s != [] {
      BytesUnique(s[..|s| - 1], t[..|t| - 1]);
      assert s == s[..|s| - 1] + [s[|s| - 1]] && t == t[..|t| - 1] + [t[|t| - 1]];
    }
  }

  function Zeros(k: nat): (z: seq<byte>)
    ensures |z| == k && forall i :: 0 <= i < k ==> z[i] == 0
  {
    seq(k, i => 0)
  }

  lemma {:induction false} LeadingZeros(k: nat, s: seq<byte>)
    ensures FromBytes(Zeros(k) + s) == FromBytes(s)
  {
    ConcatBytes(Zeros(k), s);
    ZeroBytes(k);
  }

  lemma {:induction false} ZeroBytes(k: nat)
    ensures FromBytes(Zeros(k)) == 0
  {
    if k > 0 {
      ZeroBytes(k - 1);
      assert Zeros(k)[..k - 1] == Zeros(k - 1);
    }
  }

  /** A number below 256^k has at most k bytes. */
  lemma {:induction false} ToBytesLength(n: nat, k: nat)
    requires n < Pow256(k)
    ensures |ToBytes(n)| <= k
  {
    if n > 0 {
      ToBytesLength(n / 256, k - 1);
    }
  }

  /** A byte string without leading zero byte is what its number prints as. */
  lemma {:induction false} ToFromBytes(s: seq<byte>)
    requires s == [] || s[0] > 0
    ensures ToBytes(FromBytes(s)) == s && (s == [] <==> FromBytes(s) == 0)
  {
    if s != [] {
      var t, x := s[..|s| - 1], s[|s| - 1];
      ToFromBytes(t);
      assert s == t + [x];
    }
  }

  /** A number of exactly k bytes. */
  lemma {:induction false} ToBytesAtLeast(n: nat, k: nat)
    requires k > 0 && Pow256(k - 1) <= n
    ensures |ToBytes(n)| >= k
  {
    if k > 1 {
      assert n / 256 >= Pow256(k - 2);
      ToBytesAtLeast(n / 256, k - 1);
    }
  }

  /** slice with zero bytes in front, up to the given length */
  function Pad(slice: seq<byte>, length: nat): seq<byte> {
    if |slice| >= length then slice else Zeros(length - |slice|) + slice
  }

  /** Padding gives back the leading zero bytes that a number loses. */
  lemma PadRestores(s: seq<byte>)
    ensures Pad(ToBytes(FromBytes(s)), |s|) == s
  {
    var x := FromBytes(s);
    BytesBound(s);
    ToBytesLength(x, |s|);
    FromToBytes(x);
    LeadingZeros(|s| - |ToBytes(x)|, ToBytes(x));
    BytesUnique(Pad(ToBytes(x), |s|), s);
  }

  lemma PadLength(x: nat, n: nat)
    requires x < Pow256(n)
    ensures |Pad(ToBytes(x), n)| == n && FromBytes(Pad(ToBytes(x), n)) == x
  {
    ToBytesLength(x, n);
    FromToBytes(x);
    LeadingZeros(n - |ToBytes(x)|, ToBytes(x));
  }
}
