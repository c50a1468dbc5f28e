/** What the search for chains finds, and what it misses. */
module ChainResults {
  import opened Wrappers
  import opened Certificates
  import opened CertPools
  import opened ChainSearch
  import opened ChainCompleteness

  type Chains = seq<seq<Cert>>

  /** All chains are good ones that can be found, whatever intermediate they were found for. */
  ghost predicate AllGood(x: Context, leaf: Cert, pool: seq<Cert>, roots: seq<Cert>, chains: Chains) {
    forall i :: 0 <= i < |chains| ==> Findable(x, leaf, pool, roots, chains[i])
  }

  ghost predicate GoodCache(x: Context, leaf: Cert, pool: seq<Cert>, roots: seq<Cert>, m: map<nat, Chains>) {
    forall k <- m :: AllGood(x, leaf, pool, roots, m[k])
  }

  /** The certificates tried that may follow the chain as roots end chains that were found. */
  ghost predicate RootsFound(x: Context, roots: seq<Cert>, chain: seq<Cert>, chains: Chains, tried: seq<nat>) {
    forall i <- tried :: i < |roots| && !Skipped(x, chain, roots[i], Root) ==> chain + [roots[i]] in chains
  }

  /** The certificates tried that may follow the chain as intermediates are in the cache, and what it holds was
      found. */
  ghost predicate Explored(x: Context, pool: seq<Cert>, chain: seq<Cert>, chains: Chains, tried: seq<nat>,
      m: map<nat, Chains>) {
    forall i <- tried :: i < |pool| && !Skipped(x, chain, pool[i], Intermediate) ==> i in m && Among(m[i], chains)
  }

  ghost predicate Among(some: Chains, chains: Chains) {
    forall chain <- some :: chain in chains
  }

  ghost predicate Extends(m: map<nat, Chains>, m': map<nat, Chains>) {
    forall k <- m :: k in m' && m'[k] == m[k]
  }

  /** As long as nothing is found the cache holds failures only. */
  ghost predicate Failing(x: Context, leaf: Cert, pool: seq<Cert>, roots: seq<Cert>, m0: map<nat, Chains>,
      chain: seq<Cert>, found: Found)
  {
    Plain(pool, roots) && Settled(x, leaf, pool, roots, m0, chain) && found.chains == [] ==>
      Settled(x, leaf, pool, roots, found.cache, chain)
  }

  /** What holds after the given intermediates have been explored: every root and every one of them has been
      followed. */
  ghost predicate Outcome(x: Context, leaf: Cert, pool: seq<Cert>, roots: seq<Cert>, c: Cert, chain: seq<Cert>,
      m0: map<nat, Chains>, nums: seq<nat>, found: Found)
  {
    && AllGood(x, leaf, pool, roots, found.chains) && GoodCache(x, leaf, pool, roots, found.cache)
    && RootsFound(x, roots, chain, found.chains, Parents(x, roots, c))
    && Explored(x, pool, chain, found.chains, nums, found.cache)
    && Extends(m0, found.cache) && Failing(x, leaf, pool, roots, m0, chain, found)
  }

  /** Every chain found or kept is one that can be found; every issuer has been followed; failures stay failures. */
  lemma {:induction false} SearchOutcome(x: Context, leaf: Cert, pool: seq<Cert>, roots: seq<Cert>, c: Cert,
      chain: seq<Cert>, m: map<nat, Chains>)
    requires TriedPrefix(x, leaf, pool, chain) && chain != [] && c == chain[|chain| - 1]
      && GoodCache(x, leaf, pool, roots, m)
    ensures Outcome(x, leaf, pool, roots, c, chain, m, Parents(x, pool, c), Search(x, pool, roots, c, chain, m))
    decreases Unused(pool, chain, |pool|), 1, 0
  {
    hide TriedPrefix, AllGood, GoodCache, Explored, Failing, Parents, Extends, RootsFound, Outcome, Issuer;
    var before := Found(Ended(x, roots, chain, Parents(x, roots, c)), m);
    IssuersAre(x, roots, c);
    EndedGood(x, leaf, pool, roots, c, chain, Parents(x, roots, c));
    EndedFound(x, roots, chain, Parents(x, roots, c));
    BeforeExploring(x, leaf, pool, roots, c, chain, before);
    IssuersAre(x, pool, c);
    ExploreOutcome(x, leaf, pool, roots, c, chain, Parents(x, pool, c), before);
  }

  /** One intermediate after the other. */
  lemma {:induction false} ExploreOutcome(x: Context, leaf: Cert, pool: seq<Cert>, roots: seq<Cert>, c: Cert,
      chain: seq<Cert>, nums: seq<nat>, before: Found)
    requires TriedPrefix(x, leaf, pool, chain) && chain != [] && c == chain[|chain| - 1]
    requires forall i <- nums :: Issuer(x, pool, c, i)
    requires Outcome(x, leaf, pool, roots, c, chain, before.cache, [], before)
    ensures Outcome(x, leaf, pool, roots, c, chain, before.cache, nums, Explore(x, pool, roots, chain, nums, before))
    decreases Unused(pool, chain, |pool|), 0, |nums|
  {
    hide TriedPrefix, Outcome, Issuer, Unused, Search, Skipped, Parents, GoodCache;
    if nums != [] {
      var n := |nums| - 1;
      var num, m0 := nums[n], before.cache;
      var found := Explore(x, pool, roots, chain, nums[..n], before);
      ExploreOutcome(x, leaf, pool, roots, c, chain, nums[..n], before);
      assert nums == nums[..n] + [num];
      assert Issuer(x, pool, c, num);
      IssuersAre(x, pool, c);
      if Skipped(x, chain, pool[num], Intermediate) {
        PassedOver(x, leaf, pool, roots, c, chain, m0, nums[..n], found, num);
      } else if num in found.cache {
        FromCache(x, leaf, pool, roots, c, chain, m0, nums[..n], found, num);
      } else {
        var longer := chain + [pool[num]];
        NotSkipped(x, leaf, pool, chain, num);
        FewerUnused(pool, chain, num);
        CacheOf(x, leaf, pool, roots, c, chain, m0, nums[..n], found);
        SearchOutcome(x, leaf, pool, roots, pool[num], longer, found.cache);
        var below := Search(x, pool, roots, pool[num], longer, found.cache);
        FromBelow(x, leaf, pool, roots, c, chain, m0, nums[..n], found, num, below);
      }
    }
  }

  /** An issuer that is not skipped makes a longer chain. */
  lemma NotSkipped(x: Context, leaf: Cert, pool: seq<Cert>, chain: seq<Cert>, num: nat)
    requires TriedPrefix(x, leaf, pool, chain) && chain != [] && Issuer(x, pool, chain[|chain| - 1], num)
    requires num < |pool| && !Skipped(x, chain, pool[num], Intermediate)
    ensures TriedPrefix(x, leaf, pool, chain + [pool[num]]) && !InChain(chain, pool[num])
  {
    hide IsValid, TriedPrefix, Candidate;
    ExtendTried(x, leaf, pool, chain, num);
  }

  lemma {:induction false} EndedGood(x: Context, leaf: Cert, pool: seq<Cert>, roots: seq<Cert>, c: Cert,
      chain: seq<Cert>, nums: seq<nat>)
    requires TriedPrefix(x, leaf, pool, chain) && chain != [] && c == chain[|chain| - 1]
    requires forall i <- nums :: Issuer(x, roots, c, i)
    ensures AllGood(x, leaf, pool, roots, Ended(x, roots, chain, nums))
  {
    hide TriedPrefix, IsValid, Findable, Candidate;
    if nums != [] {
      var n := |nums| - 1;
      EndedGood(x, leaf, pool, roots, c, chain, nums[..n]);
      var num := nums[n];
      assert Issuer(x, roots, c, num);
      if num < |roots| && !Skipped(x, chain, roots[num], Root) {
        EndTried(x, leaf, pool, roots, chain, num);
      }
    }
  }

  lemma {:induction false} EndedFound(x: Context, roots: seq<Cert>, chain: seq<Cert>, nums: seq<nat>)
    ensures RootsFound(x, roots, chain, Ended(x, roots, chain, nums), nums)
  {
    hide Skipped;
    if nums != [] {
      var n := |nums| - 1;
      EndedFound(x, roots, chain, nums[..n]);
      assert nums == nums[..n] + [nums[n]];
    }
  }

  lemma BeforeExploring(x: Context, leaf: Cert, pool: seq<Cert>, roots: seq<Cert>, c: Cert, chain: seq<Cert>,
      before: Found)
    requires AllGood(x, leaf, pool, roots, before.chains) && GoodCache(x, leaf, pool, roots, before.cache)
    requires RootsFound(x, roots, chain, before.chains, Parents(x, roots, c))
    ensures Outcome(x, leaf, pool, roots, c, chain, before.cache, [], before)
  {
    hide AllGood, GoodCache, Plain, Settled, RootsFound, Parents;
  }

  lemma CacheOf(x: Context, leaf: Cert, pool: seq<Cert>, roots: seq<Cert>, c: Cert, chain: seq<Cert>,
      m0: map<nat, Chains>, nums: seq<nat>, found: Found)
    requires Outcome(x, leaf, pool, roots, c, chain, m0, nums, found)
    ensures GoodCache(x, leaf, pool, roots, found.cache)
  {
  }

  lemma PassedOver(x: Context, leaf: Cert, pool: seq<Cert>, roots: seq<Cert>, c: Cert, chain: seq<Cert>,
      m0: map<nat, Chains>, nums: seq<nat>, found: Found, num: nat)
    requires Outcome(x, leaf, pool, roots, c, chain, m0, nums, found) && num < |pool|
      && Skipped(x, chain, pool[num], Intermediate)
    ensures Outcome(x, leaf, pool, roots, c, chain, m0, nums + [num], found)
  {
    hide AllGood, GoodCache, RootsFound, Extends, Failing, Among, Skipped, Parents;
  }

  lemma FromCache(x: Context, leaf: Cert, pool: seq<Cert>, roots: seq<Cert>, c: Cert, chain: seq<Cert>,
      m0: map<nat, Chains>, nums: seq<nat>, found: Found, num: nat)
    requires Outcome(x, leaf, pool, roots, c, chain, m0, nums, found) && num in found.cache
    ensures var longer := found.(chains := found.chains + found.cache[num]);
      Outcome(x, leaf, pool, roots, c, chain, m0, nums + [num], longer)
  {
    hide AllGood, RootsFound, Explored, Failing, Parents;
    MoreChains(x, leaf, pool, roots, found.chains, found.cache[num]);
    StillFound(x, roots, chain, found.chains, Parents(x, roots, c), found.cache[num]);
    ExploredMore(x, pool, chain, found.chains, nums, found.cache, found.cache, num, found.cache[num]);
    StillFailing(x, leaf, pool, roots, m0, chain, found, found.cache, found.cache[num]);
  }

  lemma FromBelow(x: Context, leaf: Cert, pool: seq<Cert>, roots: seq<Cert>, c: Cert, chain: seq<Cert>,
      m0: map<nat, Chains>, nums: seq<nat>, found: Found, num: nat, below: Found)
    requires Outcome(x, leaf, pool, roots, c, chain, m0, nums, found) && num < |pool| && num !in found.cache
    requires TriedPrefix(x, leaf, pool, chain + [pool[num]])
    requires Outcome(x, leaf, pool, roots, pool[num], chain + [pool[num]], found.cache, Parents(x, pool, pool[num]),
      below)
    ensures var longer := Found(found.chains + below.chains, below.cache[num := below.chains]);
      Outcome(x, leaf, pool, roots, c, chain, m0, nums + [num], longer)
  {
    hide TriedPrefix, AllGood, RootsFound, Explored, Failing, Parents;
    var m := below.cache[num := below.chains];
    MoreChains(x, leaf, pool, roots, found.chains, below.chains);
    StillFound(x, roots, chain, found.chains, Parents(x, roots, c), below.chains);
    ExploredMore(x, pool, chain, found.chains, nums, found.cache, m, num, below.chains);
    if below.chains == [] {
      FailingBelow(x, leaf, pool, roots, m0, chain, found, num, below);
    }
    StillFailing(x, leaf, pool, roots, m0, chain, found, m, below.chains);
  }

  lemma MoreChains(x: Context, leaf: Cert, pool: seq<Cert>, roots: seq<Cert>, chains: Chains, more: Chains)
    requires AllGood(x, leaf, pool, roots, chains) && AllGood(x, leaf, pool, roots, more)
    ensures AllGood(x, leaf, pool, roots, chains + more)
  {
    hide Findable;
  }

  lemma StillFound(x: Context, roots: seq<Cert>, chain: seq<Cert>, chains: Chains, tried: seq<nat>, more: Chains)
    requires RootsFound(x, roots, chain, chains, tried)
    ensures RootsFound(x, roots, chain, chains + more, tried)
  {
    hide Skipped;
  }

  lemma ExploredMore(x: Context, pool: seq<Cert>, chain: seq<Cert>, chains: Chains, tried: seq<nat>,
      m: map<nat, Chains>, m': map<nat, Chains>, num: nat, more: Chains)
    requires Explored(x, pool, chain, chains, tried, m) && Extends(m, m') && num in m' && m'[num] == more
    ensures Explored(x, pool, chain, chains + more, tried + [num], m')
  {
    hide Skipped;
    forall i <- tried + [num] | i < |pool| && !Skipped(x, chain, pool[i], Intermediate)
      ensures i in m' && Among(m'[i], chains + more) {
      if i != num {
        assert i in tried;
      }
    }
  }

  lemma StillFailing(x: Context, leaf: Cert, pool: seq<Cert>, roots: seq<Cert>, m0: map<nat, Chains>, chain: seq<Cert>,
      found: Found, m: map<nat, Chains>, more: Chains)
    requires more == [] ==> Failing(x, leaf, pool, roots, m0, chain, found.(cache := m))
    ensures Failing(x, leaf, pool, roots, m0, chain, Found(found.chains + more, m))
  {
    hide Plain, Settled;
    if more == [] {
      assert found.chains + more == found.chains;
    }
  }

  /** A failed search below leaves failures only. */
  lemma FailingBelow(x: Context, leaf: Cert, pool: seq<Cert>, roots: seq<Cert>, m0: map<nat, Chains>, chain: seq<Cert>,
      found: Found, num: nat, below: Found)
    requires num < |pool| && TriedPrefix(x, leaf, pool, chain + [pool[num]])
    requires Failing(x, leaf, pool, roots, m0, chain, found) && below.chains == []
    requires Outcome(x, leaf, pool, roots, pool[num], chain + [pool[num]], found.cache, Parents(x, pool, pool[num]),
      below)
    ensures Failing(x, leaf, pool, roots, m0, chain, found.(cache := below.cache[num := []]))
  {
    hide TriedPrefix, Plain, Settled, AllGood, GoodCache, Extends, RootsFound, Explored, Parents;
    if Plain(pool, roots) && Settled(x, leaf, pool, roots, m0, chain) && found.chains == [] {
      SettledBelow(x, leaf, pool, roots, found.cache, chain, pool[num]);
      StuckHere(x, leaf, pool, roots, pool[num], chain + [pool[num]], found.cache, below);
      SettledAbove(x, leaf, pool, roots, below.cache, chain, num);
    }
  }

  /** A search that found nothing has seen every step from its certificate. */
  lemma StuckHere(x: Context, leaf: Cert, pool: seq<Cert>, roots: seq<Cert>, c: Cert, chain: seq<Cert>,
      m0: map<nat, Chains>, found: Found)
    requires Plain(pool, roots) && TriedPrefix(x, leaf, pool, chain) && chain != [] && chain[|chain| - 1] == c
    requires Outcome(x, leaf, pool, roots, c, chain, m0, Parents(x, pool, c), found) && found.chains == []
    ensures Stuck(x, leaf, pool, roots, c, found.cache.Keys, chain)
  {
    hide IsValid, GoodPrefix, AllGood, GoodCache, Extends, Failing, Parents, Among;
    IssuersAre(x, roots, c);
    IssuersAre(x, pool, c);
    forall i: nat | Step(x, roots, Root, c, i) ensures Equal(roots[i], leaf) {
      StepIn(x, roots, Root, c, i);
      RootNotInChain(x, leaf, pool, roots, chain, roots[i]);
      LastDecides(x, roots[i], Root, chain);
      assert i in Parents(x, roots, c);
    }
    forall i: nat | Step(x, pool, Intermediate, c, i) ensures i in found.cache.Keys || InChain(chain, pool[i]) {
      StepIn(x, pool, Intermediate, c, i);
      LastDecides(x, pool[i], Intermediate, chain);
      assert i in Parents(x, pool, c);
    }
  }

  lemma StepIn(x: Context, certs: seq<Cert>, certType: CertType, c: Cert, i: nat)
    requires Step(x, certs, certType, c, i)
    ensures i < |certs| && certs[i] in certs
  {
  }

  /** A search from the leaf, with nothing in the cache. */
  ghost function Results(x: Context, pool: seq<Cert>, roots: seq<Cert>, leaf: Cert): Chains {
    Search(x, pool, roots, leaf, [leaf], map[]).chains
  }

  /** Whatever is found is a good chain, and no root that signed the leaf and may follow it is missed. */
  lemma ResultsAreGood(x: Context, pool: seq<Cert>, roots: seq<Cert>, leaf: Cert)
    ensures forall chain <- Results(x, pool, roots, leaf) :: Findable(x, leaf, pool, roots, chain)
    ensures forall i: nat :: Issuer(x, roots, leaf, i) && !Skipped(x, [leaf], roots[i], Root) ==>
      [leaf, roots[i]] in Results(x, pool, roots, leaf)
  {
    hide Findable, Search, Issuer, Skipped, Parents;
    SearchOutcome(x, leaf, pool, roots, leaf, [leaf], map[]);
    IssuersAre(x, roots, leaf);
    forall i: nat | Issuer(x, roots, leaf, i) && !Skipped(x, [leaf], roots[i], Root)
      ensures [leaf, roots[i]] in Results(x, pool, roots, leaf) {
      assert i in Parents(x, roots, leaf);
      assert [leaf] + [roots[i]] == [leaf, roots[i]];
    }
  }

  /** Without path length limits, and with no root among the intermediates and no intermediate twice, the search fails
      if and only if there is no chain to be found. */
  lemma FailureIsFinal(x: Context, pool: seq<Cert>, roots: seq<Cert>, leaf: Cert)
    requires Plain(pool, roots)
    ensures Results(x, pool, roots, leaf) == [] <==> forall chain :: !Findable(x, leaf, pool, roots, chain)
  {
    hide Plain, Settled, Findable, Search, Outcome;
    ResultsAreGood(x, pool, roots, leaf);
    if Results(x, pool, roots, leaf) == [] {
      var found := Search(x, pool, roots, leaf, [leaf], map[]);
      SearchOutcome(x, leaf, pool, roots, leaf, [leaf], map[]);
      NothingCached(x, leaf, pool, roots, [leaf]);
      NothingFound(x, leaf, pool, roots, found);
      forall chain ensures !Findable(x, leaf, pool, roots, chain) {
        NothingMissed(x, leaf, pool, roots, found.cache, chain);
      }
    } else {
      assert Results(x, pool, roots, leaf)[0] in Results(x, pool, roots, leaf);
    }
  }

  lemma NothingFound(x: Context, leaf: Cert, pool: seq<Cert>, roots: seq<Cert>, found: Found)
    requires Plain(pool, roots) && Settled(x, leaf, pool, roots, map[], [leaf]) && found.chains == []
    requires Outcome(x, leaf, pool, roots, leaf, [leaf], map[], Parents(x, pool, leaf), found)
    ensures Settled(x, leaf, pool, roots, found.cache, [leaf])
    ensures Stuck(x, leaf, pool, roots, leaf, found.cache.Keys, [leaf])
  {
    hide Plain, Settled, Stuck, AllGood, GoodCache, Extends, RootsFound, Explored, Parents;
    StuckHere(x, leaf, pool, roots, leaf, [leaf], map[], found);
  }
}
