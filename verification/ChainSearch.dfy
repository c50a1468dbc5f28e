/** The depth-first search for chains as a function: what is found from a certificate on, and what the cache holds
    then. */
module ChainSearch {
  import opened Wrappers
  import opened Certificates
  import opened CertPools

  datatype Found = Found(chains: seq<seq<Cert>>, cache: map<nat, seq<seq<Cert>>>)

  /** c is passed over behind the chain: it is in there already, or not valid. */
  predicate Skipped(x: Context, chain: seq<Cert>, c: Cert, certType: CertType) {
    InChain(chain, c) || IsValid(x, c, certType, chain).Some?
  }

  /** The chains that the given roots end, in order. */
  function Ended(x: Context, roots: seq<Cert>, chain: seq<Cert>, nums: seq<nat>): seq<seq<Cert>> {
    if nums == [] then []
    else
      var num := nums[|nums| - 1];
      Ended(x, roots, chain, nums[..|nums| - 1])
        + if num >= |roots| || Skipped(x, chain, roots[num], Root) then [] else [chain + [roots[num]]]
  }

  /** All chains from c on, the last of the chain. */
  ghost function Search(x: Context, pool: seq<Cert>, roots: seq<Cert>, c: Cert, chain: seq<Cert>,
      cache: map<nat, seq<seq<Cert>>>): Found
    decreases Unused(pool, chain, |pool|), 1, 0
  {
    Explore(x, pool, roots, chain, Parents(x, pool, c), Found(Ended(x, roots, chain, Parents(x, roots, c)), cache))
  }

  /** The given intermediates in order, each with what was found before it. */
  ghost function Explore(x: Context, pool: seq<Cert>, roots: seq<Cert>, chain: seq<Cert>, nums: seq<nat>,
      before: Found): Found
    decreases Unused(pool, chain, |pool|), 0, |nums|
  {
    if nums == [] then before
    else
      var n := |nums| - 1;
      var num, found := nums[n], Explore(x, pool, roots, chain, nums[..n], before);
      if num >= |pool| || Skipped(x, chain, pool[num], Intermediate) then found
      else if num in found.cache then Found(found.chains + found.cache[num], found.cache)
      else
        FewerUnused(pool, chain, num);
        var below := Search(x, pool, roots, pool[num], chain + [pool[num]], found.cache);
        Found(found.chains + below.chains, below.cache[num := below.chains])
  }

  lemma FewerUnused(pool: seq<Cert>, chain: seq<Cert>, num: nat)
    requires num < |pool| && !InChain(chain, pool[num])
    ensures Unused(pool, chain + [pool[num]], |pool|) < Unused(pool, chain, |pool|)
  {
    UnusedShrinks(pool, chain, pool[num], |pool|);
    assert pool[..|pool|] == pool;
  }
}
