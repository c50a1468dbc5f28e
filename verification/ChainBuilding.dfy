/** Verify: all chains from a leaf to a root, by a depth-first search that remembers what it found for an
    intermediate. */
module ChainBuilding {
  import opened Wrappers
  import opened Certificates
  import opened CertPools
  import opened ChainSearch
  import opened ChainResults
  import opened ChainCompleteness

  /** The cache, shared by all levels of the search. */
  class Cache {
    var chains: map<nat, Chains>

    constructor ()
      ensures chains == map[]
    {
      chains := map[];
    }
  }

  datatype Options = Options(x: Context, intermediates: CertPool?, roots: CertPool)

  ghost predicate Pools(o: Options)
    reads o.intermediates, o.roots
  {
    (o.intermediates == null || o.intermediates.Valid()) && o.roots.Valid()
  }

  /** A fresh copy of the chain with one certificate more. */
  method AppendToFreshChain(chain: seq<Cert>, cert: Cert) returns (n: array<Cert>)
    ensures fresh(n) && n[..] == chain + [cert]
  {
    n := new Cert[|chain| + 1](i requires 0 <= i < |chain| + 1 => if i < |chain| then chain[i] else cert);
  }

  /** buildChains. What the cache holds may have come there by another way. */
  method BuildChains(c: Cert, cache: Cache, currentChain: seq<Cert>, o: Options)
      returns (chains: Chains, err: Option<Error>)
    requires Pools(o) && currentChain != [] && c == currentChain[|currentChain| - 1]
    modifies cache
    ensures Found(chains, cache.chains) ==
      Search(o.x, CertsOf(o.intermediates), o.roots.certs, c, currentChain, old(cache.chains))
    ensures err.None? <==> chains != []
    decreases Unused(CertsOf(o.intermediates), currentChain, |CertsOf(o.intermediates)|)
  {
    hide IsValid, Issuer, Unused, Parents, Ended;
    ghost var pool, roots := CertsOf(o.intermediates), o.roots.certs;
    chains, err := TryRoots(c, currentChain, o);
    ghost var before := Found(chains, cache.chains);
    var possibleIntermediates, failedIntermediate := FindVerifiedParents(o.x, o.intermediates, c);
    IssuersAre(o.x, pool, c);
    for k := 0 to |possibleIntermediates|
      invariant Found(chains, cache.chains) ==
        Explore(o.x, pool, roots, currentChain, possibleIntermediates[..k], before)
    {
      var num := possibleIntermediates[k];
      assert num in possibleIntermediates;
      assert possibleIntermediates[..k + 1][..k] == possibleIntermediates[..k];
      var intermediate := o.intermediates.certs[num];
      if InChain(currentChain, intermediate) {
        continue;
      }
      var reason := IsValid(o.x, intermediate, Intermediate, currentChain);
      err := if reason.Some? then Some(Invalid(intermediate, reason.value)) else None;
      if reason.Some? {
        continue;
      }
      var childChains;
      if num in cache.chains {
        childChains := cache.chains[num];
      } else {
        FewerUnused(pool, currentChain, num);
        var chain := AppendToFreshChain(currentChain, intermediate);
        childChains, err := BuildChains(intermediate, cache, chain[..], o);
        cache.chains := cache.chains[num := childChains];
      }
      chains := chains + childChains;
    }
    assert possibleIntermediates[..|possibleIntermediates|] == possibleIntermediates;
    if |chains| > 0 {
      err := None;
    }
    if |chains| == 0 && err.None? {
      err := Some(UnknownAuthority(c));
    }
  }

  /** The loop over possible roots. */
  method TryRoots(c: Cert, currentChain: seq<Cert>, o: Options) returns (chains: Chains, err: Option<Error>)
    requires Pools(o) && currentChain != [] && c == currentChain[|currentChain| - 1]
    ensures chains == Ended(o.x, o.roots.certs, currentChain, Parents(o.x, o.roots.certs, c))
  {
    hide IsValid, Issuer, Parents;
    ghost var roots := o.roots.certs;
    chains, err := [], None;
    var possibleRoots, failedRoot := FindVerifiedParents(o.x, o.roots, c);
    IssuersAre(o.x, roots, c);
    for k := 0 to |possibleRoots|
      invariant chains == Ended(o.x, roots, currentChain, possibleRoots[..k])
    {
      var num := possibleRoots[k];
      assert num in possibleRoots;
      assert possibleRoots[..k + 1][..k] == possibleRoots[..k];
      var root := o.roots.certs[num];
      if InChain(currentChain, root) {
        continue;
      }
      var reason := IsValid(o.x, root, Root, currentChain);
      if reason.Some? {
        err := Some(Invalid(root, reason.value));
        continue;
      }
      err := None;
      var chain := AppendToFreshChain(currentChain, root);
      chains := chains + [chain[..]];
    }
    assert possibleRoots[..|possibleRoots|] == possibleRoots;
  }

  /** How many usages are not crossed out. */
  ghost function Remaining(usages: seq<int>): nat {
    if usages == [] then 0
    else Remaining(usages[..|usages| - 1]) + if usages[|usages| - 1] == INVALID_USAGE then 0 else 1
  }

  lemma {:induction false} CrossOne(usages: seq<int>, j: nat)
    requires j < |usages| && usages[j] != INVALID_USAGE
    ensures Remaining(usages[j := INVALID_USAGE]) == Remaining(usages) - 1
  {
    var n := |usages| - 1;
    var crossed := usages[j := INVALID_USAGE];
    if j < n {
      CrossOne(usages[..n], j);
      assert crossed[..n] == usages[..n][j := INVALID_USAGE];
    } else {
      assert crossed[..n] == usages[..n];
    }
  }

  lemma {:induction false} NoneRemain(usages: seq<int>)
    ensures Remaining(usages) == 0 <==> forall u :: 0 <= u < |usages| ==> usages[u] == INVALID_USAGE
  {
    if usages != [] {
      NoneRemain(usages[..|usages| - 1]);
    }
  }

  /** The certificates from index from on support the usage. */
  ghost predicate SupportedFrom(chain: seq<Cert>, requested: int, from: nat) {
    forall i :: from <= i < |chain| ==> Supports(chain[i], requested)
  }

  /** Crossed out is what is not supported by the certificates from index i + 1 on, and for the first j usages by that
      at index i. */
  ghost predicate Crossing(chain: seq<Cert>, keyUsages: seq<int>, usages: seq<int>, i: nat, j: nat, remaining: int) {
    && |usages| == |keyUsages| && i <= |chain| && j <= |usages| && remaining == Remaining(usages)
    && forall u :: 0 <= u < |usages| ==>
      usages[u] == if SupportedFrom(chain, keyUsages[u], if u < j then i else i + 1) then keyUsages[u]
        else INVALID_USAGE
  }

  lemma NextUsage(chain: seq<Cert>, keyUsages: seq<int>, usages: seq<int>, i: nat, j: nat, remaining: int)
    requires Crossing(chain, keyUsages, usages, i, j, remaining) && i < |chain| && j < |keyUsages|
      && INVALID_USAGE !in keyUsages
    ensures j < |usages|
    ensures usages[j] == INVALID_USAGE || Supports(chain[i], usages[j]) ==>
      Crossing(chain, keyUsages, usages, i, j + 1, remaining)
    ensures usages[j] != INVALID_USAGE && !Supports(chain[i], usages[j]) ==>
      Crossing(chain, keyUsages, usages[j := INVALID_USAGE], i, j + 1, remaining - 1)
  {
    hide Supports;
    SupportedStep(chain, keyUsages[j], i);
    if usages[j] != INVALID_USAGE {
      CrossOne(usages, j);
    }
  }

  lemma SupportedStep(chain: seq<Cert>, requested: int, i: nat)
    requires i < |chain|
    ensures SupportedFrom(chain, requested, i) <==>
      Supports(chain[i], requested) && SupportedFrom(chain, requested, i + 1)
  {
    hide Supports;
  }

  lemma NextCert(chain: seq<Cert>, keyUsages: seq<int>, usages: seq<int>, i: nat, remaining: int)
    requires Crossing(chain, keyUsages, usages, i, |keyUsages|, remaining) && i > 0
    ensures Crossing(chain, keyUsages, usages, i - 1, 0, remaining)
  {
    hide SupportedFrom;
  }

  lemma FreeCert(chain: seq<Cert>, keyUsages: seq<int>, usages: seq<int>, i: nat, remaining: int)
    requires Crossing(chain, keyUsages, usages, i, 0, remaining) && i < |chain| && Unrestricted(chain[i])
    ensures Crossing(chain, keyUsages, usages, i, |keyUsages|, remaining)
  {
    forall u | 0 <= u < |keyUsages|
      ensures SupportedFrom(chain, keyUsages[u], i) <==> SupportedFrom(chain, keyUsages[u], i + 1) {
      SupportedStep(chain, keyUsages[u], i);
    }
    hide SupportedFrom;
  }

  lemma NoCert(chain: seq<Cert>, keyUsages: seq<int>)
    requires chain != [] && INVALID_USAGE !in keyUsages
    ensures Crossing(chain, keyUsages, keyUsages, |chain| - 1, 0, |keyUsages|)
  {
    AllRemain(keyUsages);
  }

  lemma {:induction false} AllRemain(usages: seq<int>)
    requires INVALID_USAGE !in usages
    ensures Remaining(usages) == |usages|
  {
    if usages != [] {
      AllRemain(usages[..|usages| - 1]);
    }
  }

  /** All certificates looked at. */
  lemma Looked(chain: seq<Cert>, keyUsages: seq<int>, usages: seq<int>, remaining: int)
    requires Crossing(chain, keyUsages, usages, 0, |keyUsages|, remaining) && chain != [] && INVALID_USAGE !in keyUsages
    ensures ChainFor(chain, keyUsages) <==> keyUsages == [] || remaining > 0
  {
    NoneRemain(usages);
    hide Supports;
  }

  /** Nothing remains: more certificates cannot help. */
  lemma AllCrossed(chain: seq<Cert>, keyUsages: seq<int>, usages: seq<int>, i: nat, j: nat)
    requires Crossing(chain, keyUsages, usages, i, j, 0) && keyUsages != [] && INVALID_USAGE !in keyUsages
    ensures !ChainFor(chain, keyUsages)
  {
    NoneRemain(usages);
    hide Supports;
    forall u | 0 <= u < |keyUsages| ensures !SupportedFrom(chain, keyUsages[u], 0) {
      assert usages[u] == INVALID_USAGE;
    }
  }

  /** Crosses out, for each certificate from the root down, the requested usages it does not support. */
  method CheckChainForKeyUsage(chain: seq<Cert>, keyUsages: seq<int>) returns (ok: bool)
    requires INVALID_USAGE !in keyUsages
    ensures ok <==> ChainFor(chain, keyUsages)
  {
    hide Crossing, Supports, Unrestricted, ChainFor;
    if chain == [] {
      EmptyChain(keyUsages);
      return false;
    }
    var usages := new int[|keyUsages|](i requires 0 <= i < |keyUsages| => keyUsages[i]);
    assert usages[..] == keyUsages;
    var usagesRemaining := |keyUsages|;
    NoCert(chain, keyUsages);
    var i := |chain| - 1;
    while true
      invariant 0 <= i < |chain| && Crossing(chain, keyUsages, usages[..], i, 0, usagesRemaining)
      invariant keyUsages != [] ==> usagesRemaining > 0
      decreases i
    {
      var cert := chain[i];
      if Unrestricted(cert) {
        FreeCert(chain, keyUsages, usages[..], i, usagesRemaining);
      } else {
        for j := 0 to |keyUsages|
          invariant Crossing(chain, keyUsages, usages[..], i, j, usagesRemaining)
          invariant keyUsages != [] ==> usagesRemaining > 0
        {
          NextUsage(chain, keyUsages, usages[..], i, j, usagesRemaining);
          if usages[j] != INVALID_USAGE && !Supports(cert, usages[j]) {
            ghost var was := usages[..];
            usages[j] := INVALID_USAGE;
            assert usages[..] == was[j := INVALID_USAGE];
            usagesRemaining := usagesRemaining - 1;
            if usagesRemaining == 0 {
              AllCrossed(chain, keyUsages, usages[..], i, j + 1);
              return false;
            }
          }
        }
      }
      if i == 0 {
        break;
      }
      NextCert(chain, keyUsages, usages[..], i, usagesRemaining);
      i := i - 1;
    }
    Looked(chain, keyUsages, usages[..], usagesRemaining);
    return true;
  }

  lemma EmptyChain(keyUsages: seq<int>)
    ensures !ChainFor([], keyUsages)
  {
  }

  ghost predicate Requested(keyUsages: seq<int>, chain: seq<Cert>) {
    EXT_KEY_USAGE_ANY in keyUsages
      || ChainFor(chain, if keyUsages == [] then [EXT_KEY_USAGE_SERVER_AUTH] else keyUsages)
  }

  /** The chains that allow a usage asked for, in order. */
  ghost function Allowed(keyUsages: seq<int>, chains: Chains): Chains {
    if chains == [] then []
    else
      var n := |chains| - 1;
      Allowed(keyUsages, chains[..n]) + if Requested(keyUsages, chains[n]) then [chains[n]] else []
  }

  lemma {:induction false} AllowedIn(keyUsages: seq<int>, chains: Chains)
    ensures forall chain :: chain in Allowed(keyUsages, chains) <==> chain in chains && Requested(keyUsages, chain)
    ensures EXT_KEY_USAGE_ANY in keyUsages ==> Allowed(keyUsages, chains) == chains
  {
    hide ChainFor;
    if chains != [] {
      var n := |chains| - 1;
      AllowedIn(keyUsages, chains[..n]);
      assert chains == chains[..n] + [chains[n]];
    }
  }

  /** Why Verify refuses a leaf before it looks for chains. */
  function Refused(x: Context, c: Cert, intermediates: seq<Cert>, hasRoots: bool): Option<Error> {
    if c.raw == [] || exists i :: 0 <= i < |intermediates| && intermediates[i].raw == [] then Some(NotParsed)
    else if c.unhandledCriticalExtensions > 0 then Some(UnhandledExtension)
    else if !hasRoots then Some(SystemRoots)
    else if IsValid(x, c, Leaf, []).Some? then Some(Invalid(c, IsValid(x, c, Leaf, []).value))
    else if x.dnsName != "" && !x.hostMatches(c, x.dnsName) then Some(Hostname)
    else None
  }

  /** The candidates of which Verify returns those that allow a usage asked for. */
  ghost function CandidateChains(x: Context, c: Cert, pool: seq<Cert>, roots: seq<Cert>): Chains {
    if Contained(roots, c) then [[c]] else Results(x, pool, roots, c)
  }

  /** Verify, with the root pool already chosen; null where neither roots nor system roots are there. */
  method Verify(c: Cert, x: Context, intermediates: CertPool?, roots: CertPool?, keyUsages: seq<int>)
      returns (chains: Chains, err: Option<Error>)
    requires (intermediates == null || intermediates.Valid()) && (roots == null || roots.Valid())
    requires INVALID_USAGE !in keyUsages
    ensures err.None? <==> chains != []
    ensures var refused := Refused(x, c, CertsOf(intermediates), roots != null);
      var candidates := CandidateChains(x, c, CertsOf(intermediates), CertsOf(roots));
      if refused.Some? then err == refused
      else
        chains == Allowed(keyUsages, candidates)
        && (candidates != [] && chains == [] ==> err == Some(Invalid(c, IncompatibleUsage)))
  {
    hide IsValid, IsIndex, Contained, Requested, Search;
    chains := [];
    if c.raw == []
      || (intermediates != null && exists i :: 0 <= i < |intermediates.certs| && intermediates.certs[i].raw == []) {
      return chains, Some(NotParsed);
    }
    if c.unhandledCriticalExtensions > 0 {
      return chains, Some(UnhandledExtension);
    }
    if roots == null {
      return chains, Some(SystemRoots);
    }
    var reason := IsValid(x, c, Leaf, []);
    if reason.Some? {
      return chains, Some(Invalid(c, reason.value));
    }
    if x.dnsName != "" && !x.hostMatches(c, x.dnsName) {
      return chains, Some(Hostname);
    }
    var candidateChains: Chains := [];
    var isRoot := Contains(roots, c);
    if isRoot {
      candidateChains := [[c]];
    } else {
      var cache := new Cache();
      candidateChains, err := BuildChains(c, cache, [c], Options(x, intermediates, roots));
      if err.Some? {
        return [], err;
      }
    }
    chains, err := ForUsages(c, candidateChains, keyUsages);
  }

  /** The chains that allow a usage asked for. */
  method ForUsages(c: Cert, candidateChains: Chains, keyUsages: seq<int>) returns (chains: Chains, err: Option<Error>)
    requires candidateChains != [] && INVALID_USAGE !in keyUsages
    ensures err == if chains == [] then Some(Invalid(c, IncompatibleUsage)) else None
    ensures chains == Allowed(keyUsages, candidateChains)
  {
    hide ChainFor;
    chains := [];
    AllowedIn(keyUsages, candidateChains);
    var usages := if keyUsages == [] then [EXT_KEY_USAGE_SERVER_AUTH] else keyUsages;
    if EXT_KEY_USAGE_ANY in usages {
      return candidateChains, None;
    }
    for i := 0 to |candidateChains|
      invariant chains == Allowed(keyUsages, candidateChains[..i])
    {
      assert candidateChains[..i + 1][..i] == candidateChains[..i];
      var ok := CheckChainForKeyUsage(candidateChains[i], usages);
      if ok {
        chains := chains + [candidateChains[i]];
      }
    }
    assert candidateChains[..|candidateChains|] == candidateChains;
    err := if |chains| == 0 then Some(Invalid(c, IncompatibleUsage)) else None;
  }

  /** What Verify returns is good and allows a usage asked for; and no root that signed the leaf is missed. */
  lemma VerifiedChains(x: Context, c: Cert, pool: seq<Cert>, roots: seq<Cert>, keyUsages: seq<int>)
    ensures var chains := Allowed(keyUsages, CandidateChains(x, c, pool, roots));
      && (forall chain <- chains :: Requested(keyUsages, chain))
      && (if Contained(roots, c) then forall chain <- chains :: chain == [c]
        else forall chain <- chains :: GoodChain(x, c, pool, roots, chain))
      && (!Contained(roots, c) ==> forall i: nat | Issuer(x, roots, c, i) && !Skipped(x, [c], roots[i], Root) ::
        Requested(keyUsages, [c, roots[i]]) ==> [c, roots[i]] in chains)
  {
    hide GoodChain, Requested, Contained, Results, Issuer, Skipped;
    AllowedIn(keyUsages, CandidateChains(x, c, pool, roots));
    ResultsAreGood(x, pool, roots, c);
    IssuersAre(x, roots, c);
  }
}
