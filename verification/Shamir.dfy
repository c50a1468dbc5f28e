/** Split and Combine: Shamir's secret sharing, byte by byte. */
module Shamir {
  import opened Wrappers
  import opened GaloisTables
  import opened GaloisField
  import opened Polynomials
  import opened Interpolation

  type Result<T> = Wrappers.Result<T, Error>

  datatype Error = EmptySecret | SecretTooLong | ThresholdTooSmall | TooFewParts | TooManyParts | ThresholdTooLarge
    | RandomSource | TooFewShares | ShareTooShort | LengthsDiffer | DuplicateShare

  const MAX_SECRET_BYTES := 65536
  const MAX_SHARES := 255

  /** What the source refuses, in the order of its tests. */
  function Refused(secret: seq<bv8>, parts: int, threshold: int): Option<Error> {
    if |secret| == 0 then Some(EmptySecret)
    else if |secret| > MAX_SECRET_BYTES then Some(SecretTooLong)
    else if threshold < 2 then Some(ThresholdTooSmall)
    else if parts < threshold then Some(TooFewParts)
    else if parts > MAX_SHARES then Some(TooManyParts)
    else if threshold > MAX_SHARES then Some(ThresholdTooLarge)
    else None
  }

  /** A permutation of 0..254 as mathrand.Perm makes it. */
  ghost predicate Permutation(perm: seq<bv8>) {
    |perm| == MAX_SHARES && Distinct(perm) && forall i :: 0 <= i < |perm| ==> perm[i] != 255
  }

  /** The polynomial for one byte of the secret: the byte itself and what the random source gave. */
  function MakePolynomial(intercept: bv8, coefficients: seq<bv8>): seq<bv8> {
    [intercept] + coefficients
  }

  /** The share with the given abscissa: the value of each byte's polynomial, then the abscissa. */
  ghost function Share(secret: seq<bv8>, random: seq<seq<bv8>>, x: bv8): (s: seq<bv8>)
    requires |random| == |secret|
    ensures |s| == |secret| + 1
  {
    seq(|secret|, k requires 0 <= k < |secret| => Eval(MakePolynomial(secret[k], random[k]), x)) + [x]
  }

  /** The y value of share j for byte k. */
  function Ordinate(secret: seq<bv8>, random: seq<Option<seq<bv8>>>, perm: seq<bv8>, j: nat, k: nat): bv8
    requires |random| == |secret| && j < |perm| && k < |secret| && random[k].Some?
  {
    Eval(MakePolynomial(secret[k], random[k].value), perm[j] + 1)
  }

  /** The shares when their abscissas are set, the first idx bytes of each are done, and byte idx of the first i of
      them. */
  ghost predicate Filled(out: seq<seq<bv8>>, secret: seq<bv8>, random: seq<Option<seq<bv8>>>, perm: seq<bv8>, idx: nat,
      i: nat)
    requires |random| == |secret| && |out| <= |perm|
  {
    && (forall j :: 0 <= j < |out| ==> |out[j]| == |secret| + 1 && out[j][|secret|] == perm[j] + 1)
    && (forall k :: 0 <= k < |secret| && (k < idx || (k == idx && i > 0)) ==> random[k].Some?)
    && (forall j, k :: 0 <= j < |out| && 0 <= k < |secret| && (k < idx || (k == idx && j < i)) ==>
      out[j][k] == Ordinate(secret, random, perm, j, k))
  }

  lemma FillCell(out: seq<seq<bv8>>, secret: seq<bv8>, random: seq<Option<seq<bv8>>>, perm: seq<bv8>, idx: nat, i: nat)
    requires |random| == |secret| && |out| <= |perm| && Filled(out, secret, random, perm, idx, i)
    requires idx < |secret| && i < |out| && random[idx].Some?
    ensures Filled(out[i := out[i][idx := Ordinate(secret, random, perm, i, idx)]], secret, random, perm, idx, i + 1)
  {
    hide Ordinate;
  }

  lemma AllFilled(out: seq<seq<bv8>>, secret: seq<bv8>, random: seq<Option<seq<bv8>>>, perm: seq<bv8>)
    requires |random| == |secret| && |out| <= |perm| && Filled(out, secret, random, perm, |secret|, 0)
    ensures forall k :: 0 <= k < |random| ==> random[k].Some?
    ensures forall i :: 0 <= i < |out| ==> out[i] == Share(secret, Coefficients(random), perm[i] + 1)
  {
    hide Eval;
    forall i | 0 <= i < |out| ensures out[i] == Share(secret, Coefficients(random), perm[i] + 1) {
      var s := Share(secret, Coefficients(random), perm[i] + 1);
      forall k | 0 <= k < |secret| ensures out[i][k] == s[k] {
        assert out[i][k] == Ordinate(secret, random, perm, i, k);
      }
    }
  }

  /** perm is what mathrand.Perm returns; random holds the coefficients read for each byte, or None where reading
      fails. */
  method Split(secret: seq<bv8>, parts: int, threshold: int, perm: seq<bv8>, random: seq<Option<seq<bv8>>>)
      returns (r: Result<seq<seq<bv8>>>)
    requires Permutation(perm) && |random| == |secret|
    requires threshold >= 2 ==> forall k :: 0 <= k < |random| && random[k].Some? ==> |random[k].value| == threshold - 1
    ensures Refused(secret, parts, threshold).Some? ==> r == Err(Refused(secret, parts, threshold).value)
    ensures Refused(secret, parts, threshold).None? ==>
      if forall k :: 0 <= k < |random| ==> random[k].Some? then
        r.Ok? && |r.value| == parts
        && forall i :: 0 <= i < parts ==> r.value[i] == Share(secret, Coefficients(random), perm[i] + 1)
      else r == Err(RandomSource)
  {
    hide Eval, Share, Filled, Coefficients;
    var m := |secret|;
    if Refused(secret, parts, threshold).Some? {
      return Err(Refused(secret, parts, threshold).value);
    }
    var out: seq<seq<bv8>> := seq(parts, i => seq(m + 1, k => 0));
    for i := 0 to parts
      invariant |out| == parts && forall j :: 0 <= j < parts ==> |out[j]| == m + 1
      invariant forall j :: 0 <= j < i ==> out[j][m] == perm[j] + 1
    {
      out := out[i := out[i][m := perm[i] + 1]];
    }
    NothingFilled(out, secret, random, perm);
    for idx := 0 to m
      invariant |out| == parts && Filled(out, secret, random, perm, idx, 0)
      invariant forall k :: 0 <= k < idx ==> random[k].Some?
    {
      if random[idx].None? {
        return Err(RandomSource);
      }
      var p := MakePolynomial(secret[idx], random[idx].value);
      for i := 0 to parts
        invariant |out| == parts && Filled(out, secret, random, perm, idx, i)
      {
        FillCell(out, secret, random, perm, idx, i);
        FilledLengths(out, secret, random, perm, idx, i);
        var y := Evaluate(p, perm[i] + 1);
        out := out[i := out[i][idx := y]];
      }
      NextByte(out, secret, random, perm, idx);
    }
    AllFilled(out, secret, random, perm);
    return Ok(out);
  }

  lemma NothingFilled(out: seq<seq<bv8>>, secret: seq<bv8>, random: seq<Option<seq<bv8>>>, perm: seq<bv8>)
    requires |random| == |secret| && |out| <= |perm|
    requires forall j :: 0 <= j < |out| ==> |out[j]| == |secret| + 1 && out[j][|secret|] == perm[j] + 1
    ensures Filled(out, secret, random, perm, 0, 0)
  {
  }

  lemma FilledLengths(out: seq<seq<bv8>>, secret: seq<bv8>, random: seq<Option<seq<bv8>>>, perm: seq<bv8>, idx: nat,
      i: nat)
    requires |random| == |secret| && |out| <= |perm| && Filled(out, secret, random, perm, idx, i)
    ensures forall j :: 0 <= j < |out| ==> |out[j]| == |secret| + 1
  {
  }

  lemma NextByte(out: seq<seq<bv8>>, secret: seq<bv8>, random: seq<Option<seq<bv8>>>, perm: seq<bv8>, idx: nat)
    requires |random| == |secret| && 0 < |out| <= |perm| && Filled(out, secret, random, perm, idx, |out|)
    ensures Filled(out, secret, random, perm, idx + 1, 0)
  {
    hide Ordinate;
  }

  function Coefficients(random: seq<Option<seq<bv8>>>): (c: seq<seq<bv8>>)
    requires forall k :: 0 <= k < |random| ==> random[k].Some?
    ensures |c| == |random| && forall k :: 0 <= k < |random| ==> c[k] == random[k].value
  {
    seq(|random|, k requires 0 <= k < |random| => random[k].value)
  }

  ghost function Last(s: seq<bv8>): bv8
    requires s != []
  {
    s[|s| - 1]
  }

  /** What Combine accepts: shares of one length with different abscissas. */
  ghost predicate Combinable(parts: seq<seq<bv8>>) {
    |parts| >= 2 && |parts[0]| >= 2 && (forall i :: 0 <= i < |parts| ==> |parts[i]| == |parts[0]|)
    && forall i, j :: 0 <= i < j < |parts| ==> Last(parts[i]) != Last(parts[j])
  }

  ghost function Abscissas(parts: seq<seq<bv8>>): (xs: seq<bv8>)
    requires Combinable(parts)
    ensures |xs| == |parts| && Distinct(xs)
  {
    seq(|parts|, i requires 0 <= i < |parts| => Last(parts[i]))
  }

  /** Byte k of every share. */
  ghost function Column(parts: seq<seq<bv8>>, k: nat): (ys: seq<bv8>)
    requires Combinable(parts) && k < |parts[0]|
    ensures |ys| == |parts|
  {
    seq(|parts|, i requires 0 <= i < |parts| => parts[i][k])
  }

  /** Why Combine refuses shares. */
  ghost function Fault(parts: seq<seq<bv8>>): Error {
    if |parts| < 2 then TooFewShares
    else if |parts[0]| < 2 then ShareTooShort
    else if exists i :: 0 <= i < |parts| && |parts[i]| != |parts[0]| then LengthsDiffer
    else DuplicateShare
  }

  method Combine(parts: seq<seq<bv8>>) returns (r: Result<seq<bv8>>)
    ensures r.Ok? <==> Combinable(parts)
    ensures r.Ok? ==> |r.value| == |parts[0]| - 1
    ensures r.Ok? ==> forall k :: 0 <= k < |r.value| ==>
      r.value[k] == Interpolated(Abscissas(parts), Column(parts, k), 0, |parts|)
    ensures r.Err? ==> r.error == Fault(parts)
  {
    hide Interpolated;
    if |parts| < 2 {
      return Err(TooFewShares);
    }
    var firstPartLen := |parts[0]|;
    if firstPartLen < 2 {
      return Err(ShareTooShort);
    }
    for i := 1 to |parts|
      invariant forall j :: 0 <= j < i ==> |parts[j]| == firstPartLen
    {
      if |parts[i]| != firstPartLen {
        return Err(LengthsDiffer);
      }
    }
    var xs: seq<bv8> := [];
    var checkMap: set<bv8> := {};
    for i := 0 to |parts|
      invariant |xs| == i && forall j :: 0 <= j < i ==> xs[j] == Last(parts[j])
      invariant forall j :: 0 <= j < i ==> xs[j] in checkMap
      invariant forall b :: b in checkMap ==> exists j :: 0 <= j < i && xs[j] == b
      invariant Distinct(xs)
    {
      var samp := parts[i][firstPartLen - 1];
      if samp in checkMap {
        var j :| 0 <= j < i && xs[j] == samp;
        assert Last(parts[j]) == Last(parts[i]);
        return Err(DuplicateShare);
      }
      checkMap := checkMap + {samp};
      xs := xs + [samp];
    }
    assert Combinable(parts);
    assert xs == Abscissas(parts);
    var secret := Reconstruct(parts, xs);
    return Ok(secret);
  }

  /** Combine, once the shares are accepted. */
  method Reconstruct(parts: seq<seq<bv8>>, xs: seq<bv8>) returns (secret: seq<bv8>)
    requires Combinable(parts) && xs == Abscissas(parts)
    ensures |secret| == |parts[0]| - 1
    ensures forall k :: 0 <= k < |secret| ==> secret[k] == Interpolated(xs, Column(parts, k), 0, |parts|)
  {
    hide Interpolated;
    secret := [];
    for idx := 0 to |parts[0]| - 1
      invariant |secret| == idx
      invariant forall k :: 0 <= k < idx ==> secret[k] == Interpolated(xs, Column(parts, k), 0, |parts|)
    {
      var ys: seq<bv8> := [];
      for i := 0 to |parts|
        invariant |ys| == i && forall j :: 0 <= j < i ==> ys[j] == parts[j][idx]
      {
        ys := ys + [parts[i][idx]];
      }
      assert ys == Column(parts, idx);
      var val := InterpolatePolynomial(xs, ys, 0);
      secret := secret + [val];
    }
  }

  /** Any selection of at least threshold different shares combines to the secret. */
  lemma CombineOfShares(secret: seq<bv8>, random: seq<seq<bv8>>, threshold: nat, xs: seq<bv8>, parts: seq<seq<bv8>>,
      k: nat)
    requires |random| == |secret| > 0 && threshold >= 2 && forall i :: 0 <= i < |random| ==>
      |random[i]| == threshold - 1
    requires Distinct(xs) && |xs| == |parts| >= threshold
    requires forall i :: 0 <= i < |parts| ==> parts[i] == Share(secret, random, xs[i])
    requires k < |secret|
    ensures Combinable(parts) && |parts[0]| - 1 == |secret|
    ensures Interpolated(Abscissas(parts), Column(parts, k), 0, |parts|) == secret[k]
  {
    hide Interpolated, Eval;
    assert Combinable(parts);
    assert Abscissas(parts) == xs;
    var p := MakePolynomial(secret[k], random[k]);
    InterpolationRecovers(p, xs, Column(parts, k), 0);
    EvalAtZero(p);
  }

  /** A selection of some of the shares that Split made. */
  ghost predicate Selection(chosen: seq<nat>, parts: nat) {
    (forall i :: 0 <= i < |chosen| ==> chosen[i] < parts) && forall i, j :: 0 <= i < j < |chosen| ==>
      chosen[i] != chosen[j]
  }

  /** Splitting a secret and combining any threshold or more of the shares gives the secret back. */
  method SplitThenCombine(secret: seq<bv8>, parts: int, threshold: int, perm: seq<bv8>, random: seq<Option<seq<bv8>>>,
      chosen: seq<nat>) returns (r: Result<seq<bv8>>)
    requires Permutation(perm) && |random| == |secret| && Refused(secret, parts, threshold).None?
    requires forall k :: 0 <= k < |random| ==> random[k].Some? && |random[k].value| == threshold - 1
    requires Selection(chosen, parts) && |chosen| >= threshold
    ensures r == Ok(secret)
  {
    hide Eval, Interpolated;
    var shares := Split(secret, parts, threshold, perm, random);
    var selected := seq(|chosen|, i requires 0 <= i < |chosen| => shares.value[chosen[i]]);
    r := Combine(selected);
    ghost var xs := seq(|chosen|, i requires 0 <= i < |chosen| => perm[chosen[i]] + 1);
    AbscissasDiffer(perm, chosen, parts, xs);
    CombineOfShares(secret, Coefficients(random), threshold, xs, selected, 0);
    forall k | 0 <= k < |secret| ensures r.value[k] == secret[k] {
      CombineOfShares(secret, Coefficients(random), threshold, xs, selected, k);
    }
    assert r.value == secret;
  }

  lemma AbscissasDiffer(perm: seq<bv8>, chosen: seq<nat>, parts: nat, xs: seq<bv8>)
    requires Permutation(perm) && Selection(chosen, parts) && parts <= |perm| && |xs| == |chosen|
    requires forall i :: 0 <= i < |chosen| ==> xs[i] == perm[chosen[i]] + 1
    ensures Distinct(xs) && forall i :: 0 <= i < |xs| ==> xs[i] != 0
  {
    forall i, j | 0 <= i < j < |xs| ensures xs[i] != xs[j] {
      Successors(perm[chosen[i]], perm[chosen[j]]);
    }
    forall i | 0 <= i < |xs| ensures xs[i] != 0 {
      Successors(perm[chosen[i]], 255);
    }
  }

  lemma Successors(a: bv8, b: bv8)
    ensures a != b ==> a + 1 != b + 1
    ensures a != 255 ==> a + 1 != 0
  {
  }
}
