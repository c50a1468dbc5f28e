/** Certificate validity checks and what a verified chain is, after RFC 5280, section 6.1. */
module Certificates {
  import opened Wrappers

  type Bytes = seq<int>

  /** The parts of a certificate that verification looks at; raw is the whole of it. */
  datatype Cert = Cert(raw: Bytes, rawSubject: Bytes, rawIssuer: Bytes, subjectKeyID: Bytes, authorityKeyID: Bytes,
    notBefore: int, notAfter: int, permittedDNSDomains: seq<string>, basicConstraintsValid: bool, isCA: bool,
      maxPathLen: int,
    extKeyUsage: seq<int>, unknownExtKeyUsage: nat, unhandledCriticalExtensions: nat)

  predicate Equal(a: Cert, b: Cert) {
    a.raw == b.raw
  }

  datatype CertType = Leaf | Intermediate | Root

  datatype Reason = NotAuthorizedToSign | Expired | CANotAuthorizedForThisName | TooManyIntermediates
    | IncompatibleUsage | NameMismatch

  datatype Error = Invalid(cert: Cert, reason: Reason) | UnknownAuthority(cert: Cert) | NotParsed | UnhandledExtension
    | SystemRoots | Hostname

  /** Signature checks, name constraints and host names, which are not looked into, and the time of verification. */
  datatype Context = Context(signed: (Cert, Cert) -> bool, permits: (string, string) -> bool,
    hostMatches: (Cert, string) -> bool, dnsName: string, now: int)

  /** isValid; None when there is nothing wrong. */
  function IsValid(x: Context, c: Cert, certType: CertType, currentChain: seq<Cert>): Option<Reason> {
    if currentChain != [] && currentChain[|currentChain| - 1].rawIssuer != c.rawSubject then Some(NameMismatch)
    else if x.now < c.notBefore || x.now > c.notAfter then Some(Expired)
    else if c.permittedDNSDomains != [] && !Permitted(x, c.permittedDNSDomains) then Some(CANotAuthorizedForThisName)
    else if certType == Intermediate && (!c.basicConstraintsValid || !c.isCA) then Some(NotAuthorizedToSign)
    else if c.basicConstraintsValid && c.maxPathLen >= 0
      && |currentChain| - 1 > c.maxPathLen then Some(TooManyIntermediates)
    else None
  }

  predicate Permitted(x: Context, constraints: seq<string>) {
    exists i :: 0 <= i < |constraints| && x.permits(x.dnsName, constraints[i])
  }

  predicate InChain(chain: seq<Cert>, c: Cert) {
    exists i :: 0 <= i < |chain| && Equal(chain[i], c)
  }

  /** The last of the chain may be followed by c: c signed it, is not in the chain yet, and is valid in that place. */
  ghost predicate Follows(x: Context, chain: seq<Cert>, c: Cert, certType: CertType) {
    chain != [] && x.signed(chain[|chain| - 1], c) && !InChain(chain, c) && IsValid(x, c, certType, chain).None?
  }

  /** The leaf followed by intermediates, each in its place. */
  ghost predicate GoodPrefix(x: Context, leaf: Cert, pool: seq<Cert>, chain: seq<Cert>) {
    && chain != [] && chain[0] == leaf
    && forall i :: 1 <= i < |chain| ==> chain[i] in pool && Follows(x, chain[..i], chain[i], Intermediate)
  }

  /** A good prefix ended by a root. */
  ghost predicate GoodChain(x: Context, leaf: Cert, pool: seq<Cert>, roots: seq<Cert>, chain: seq<Cert>) {
    |chain| >= 2 && GoodPrefix(x, leaf, pool, chain[..|chain| - 1])
    && chain[|chain| - 1] in roots && Follows(x, chain[..|chain| - 1], chain[|chain| - 1], Root)
  }

  lemma ExtendPrefix(x: Context, leaf: Cert, pool: seq<Cert>, chain: seq<Cert>, c: Cert)
    requires GoodPrefix(x, leaf, pool, chain) && c in pool && Follows(x, chain, c, Intermediate)
    ensures GoodPrefix(x, leaf, pool, chain + [c])
  {
    hide Follows;
    var longer := chain + [c];
    forall i | 1 <= i < |longer| ensures longer[i] in pool && Follows(x, longer[..i], longer[i], Intermediate) {
      if i < |chain| {
        assert longer[..i] == chain[..i];
      } else {
        assert longer[..i] == chain;
      }
    }
  }

  lemma EndChain(x: Context, leaf: Cert, pool: seq<Cert>, roots: seq<Cert>, chain: seq<Cert>, root: Cert)
    requires GoodPrefix(x, leaf, pool, chain) && root in roots && Follows(x, chain, root, Root)
    ensures GoodChain(x, leaf, pool, roots, chain + [root])
  {
    hide Follows, GoodPrefix;
    var whole := chain + [root];
    assert whole[..|whole| - 1] == chain;
    assert chain != [] by { PrefixNotEmpty(x, leaf, pool, chain); }
  }

  lemma PrefixNotEmpty(x: Context, leaf: Cert, pool: seq<Cert>, chain: seq<Cert>)
    requires GoodPrefix(x, leaf, pool, chain)
    ensures chain != [] && chain[0] == leaf
  {
  }

  /** What a good chain promises, link by link. */
  lemma GoodChainMeans(x: Context, leaf: Cert, pool: seq<Cert>, roots: seq<Cert>, chain: seq<Cert>)
    requires GoodChain(x, leaf, pool, roots, chain)
    ensures chain[0] == leaf && chain[|chain| - 1] in roots
    ensures forall i, j :: 0 <= i < j < |chain| ==> !Equal(chain[i], chain[j])
    ensures forall i :: 1 <= i < |chain| ==> Link(x, chain, i)
    ensures forall i :: 1 <= i < |chain| - 1 ==> chain[i] in pool && Authorized(chain[i])
  {
    hide Follows, Permitted, GoodPrefix, GoodChain;
    LastLink(x, leaf, pool, roots, chain);
    forall i | 1 <= i < |chain|
      ensures Link(x, chain, i) && (i < |chain| - 1 ==> chain[i] in pool && Authorized(chain[i])) {
      LinkAt(x, leaf, pool, roots, chain, i);
    }
    hide Link;
    forall i, j | 0 <= i < j < |chain| ensures !Equal(chain[i], chain[j]) {
      NoRepeat(x, leaf, pool, roots, chain, i, j);
    }
  }

  ghost predicate Authorized(c: Cert) {
    c.basicConstraintsValid && c.isCA
  }

  ghost predicate Link(x: Context, chain: seq<Cert>, i: nat)
    requires 1 <= i < |chain|
  {
    x.signed(chain[i - 1], chain[i]) && chain[i - 1].rawIssuer == chain[i].rawSubject
    && chain[i].notBefore <= x.now <= chain[i].notAfter
    && (chain[i].permittedDNSDomains == [] || Permitted(x, chain[i].permittedDNSDomains))
    && (chain[i].basicConstraintsValid && chain[i].maxPathLen >= 0 ==> i - 1 <= chain[i].maxPathLen)
  }

  lemma LastLink(x: Context, leaf: Cert, pool: seq<Cert>, roots: seq<Cert>, chain: seq<Cert>)
    requires GoodChain(x, leaf, pool, roots, chain)
    ensures |chain| >= 2 && chain[0] == leaf && chain[|chain| - 1] in roots
  {
  }

  lemma FollowsAt(x: Context, leaf: Cert, pool: seq<Cert>, roots: seq<Cert>, chain: seq<Cert>, i: nat)
    requires GoodChain(x, leaf, pool, roots, chain) && 1 <= i < |chain|
    ensures Follows(x, chain[..i], chain[i], if i < |chain| - 1 then Intermediate else Root)
    ensures i < |chain| - 1 ==> chain[i] in pool
  {
    hide Follows;
    var n := |chain| - 1;
    if i < n {
      assert chain[..n][..i] == chain[..i] && chain[..n][i] == chain[i];
    }
  }

  lemma LinkAt(x: Context, leaf: Cert, pool: seq<Cert>, roots: seq<Cert>, chain: seq<Cert>, i: nat)
    requires GoodChain(x, leaf, pool, roots, chain) && 1 <= i < |chain|
    ensures Link(x, chain, i) && (i < |chain| - 1 ==> chain[i] in pool && Authorized(chain[i]))
  {
    hide Permitted, GoodChain;
    FollowsAt(x, leaf, pool, roots, chain, i);
  }

  lemma NoRepeat(x: Context, leaf: Cert, pool: seq<Cert>, roots: seq<Cert>, chain: seq<Cert>, i: nat, j: nat)
    requires GoodChain(x, leaf, pool, roots, chain) && i < j < |chain|
    ensures !Equal(chain[i], chain[j])
  {
    hide IsValid, GoodChain;
    FollowsAt(x, leaf, pool, roots, chain, j);
    assert chain[..j][i] == chain[i];
  }

  /** How many of the first k certificates of the pool are not in the chain. */
  ghost function Unused(pool: seq<Cert>, chain: seq<Cert>, k: nat): nat
    requires k <= |pool|
  {
    if k == 0 then 0 else Unused(pool, chain, k - 1) + if InChain(chain, pool[k - 1]) then 0 else 1
  }

  lemma {:induction false} UnusedShrinks(pool: seq<Cert>, chain: seq<Cert>, c: Cert, k: nat)
    requires k <= |pool|
    ensures Unused(pool, chain + [c], k) <= Unused(pool, chain, k)
    ensures c in pool[..k] && !InChain(chain, c) ==> Unused(pool, chain + [c], k) < Unused(pool, chain, k)
  {
    if k > 0 {
      UnusedShrinks(pool, chain, c, k - 1);
      var longer := chain + [c];
      if InChain(chain, pool[k - 1]) {
        var i :| 0 <= i < |chain| && Equal(chain[i], pool[k - 1]);
        assert longer[i] == chain[i];
      }
      if c == pool[k - 1] {
        assert Equal(longer[|chain|], pool[k - 1]);
      }
      assert pool[..k] == pool[..k - 1] + [pool[k - 1]];
    }
  }

  const EXT_KEY_USAGE_ANY := 0
  const EXT_KEY_USAGE_SERVER_AUTH := 1
  const MICROSOFT_SERVER_GATED_CRYPTO := 10
  const NETSCAPE_SERVER_GATED_CRYPTO := 11
  const INVALID_USAGE := -1

  /** Netscape and Microsoft server gated crypto pass for server authentication. */
  predicate Covers(usage: int, requested: int) {
    requested == usage || (requested == EXT_KEY_USAGE_SERVER_AUTH
      && (usage == NETSCAPE_SERVER_GATED_CRYPTO || usage == MICROSOFT_SERVER_GATED_CRYPTO))
  }

  predicate Unrestricted(c: Cert) {
    (c.extKeyUsage == [] && c.unknownExtKeyUsage == 0) || EXT_KEY_USAGE_ANY in c.extKeyUsage
  }

  predicate Supports(c: Cert, requested: int) {
    Unrestricted(c) || exists i :: 0 <= i < |c.extKeyUsage| && Covers(c.extKeyUsage[i], requested)
  }

  /** Some requested usage is supported by every certificate of the chain. */
  ghost predicate ChainFor(chain: seq<Cert>, usages: seq<int>) {
    chain != [] && (usages == [] ||
      exists u :: 0 <= u < |usages| && forall i :: 0 <= i < |chain| ==> Supports(chain[i], usages[u]))
  }
}
