/** What the search for chains misses: nothing, unless path length limits or roots among the intermediates make the
    outcome of a certificate depend on the way to it, which the cache does not record. */
module ChainCompleteness {
  import opened Wrappers
  import opened Certificates
  import opened CertPools

  ghost predicate Unlimited(c: Cert) {
    !(c.basicConstraintsValid && c.maxPathLen >= 0)
  }

  ghost predicate NoLimits(certs: seq<Cert>) {
    forall c <- certs :: Unlimited(c)
  }

  ghost predicate Apart(pool: seq<Cert>, roots: seq<Cert>) {
    forall r <- roots :: forall c <- pool :: !Equal(r, c)
  }

  ghost predicate Distinct(pool: seq<Cert>) {
    forall i, j :: 0 <= i < |pool| && 0 <= j < |pool| && Equal(pool[i], pool[j]) ==> i == j
  }

  /** No path length limits, no root among the intermediates, and no intermediate twice. */
  ghost predicate Plain(pool: seq<Cert>, roots: seq<Cert>) {
    NoLimits(roots) && NoLimits(pool) && Apart(pool, roots) && Distinct(pool)
  }

  /** Certificate i is tried as issuer of c and passes every check that concerns these two only. */
  ghost predicate Step(x: Context, certs: seq<Cert>, certType: CertType, c: Cert, i: nat) {
    Candidate(certs, c, i) && x.signed(c, certs[i]) && IsValid(x, certs[i], certType, [c]).None?
  }

  /** A good chain, each of whose issuers is one that is tried. */
  ghost predicate Findable(x: Context, leaf: Cert, pool: seq<Cert>, roots: seq<Cert>, chain: seq<Cert>) {
    && GoodChain(x, leaf, pool, roots, chain)
    && (forall i :: 1 <= i < |chain| - 1 ==> TriedAt(pool, chain, i))
    && TriedAt(roots, chain, |chain| - 1)
  }

  /** A good prefix, each of whose issuers is one that is tried. */
  ghost predicate TriedPrefix(x: Context, leaf: Cert, pool: seq<Cert>, chain: seq<Cert>) {
    GoodPrefix(x, leaf, pool, chain) && forall i :: 1 <= i < |chain| ==> TriedAt(pool, chain, i)
  }

  lemma ExtendTried(x: Context, leaf: Cert, pool: seq<Cert>, chain: seq<Cert>, num: nat)
    requires TriedPrefix(x, leaf, pool, chain) && Candidate(pool, chain[|chain| - 1], num)
    requires Follows(x, chain, pool[num], Intermediate)
    ensures TriedPrefix(x, leaf, pool, chain + [pool[num]])
  {
    hide Follows;
    ExtendPrefix(x, leaf, pool, chain, pool[num]);
    StillTried(pool, chain, pool, num);
  }

  lemma EndTried(x: Context, leaf: Cert, pool: seq<Cert>, roots: seq<Cert>, chain: seq<Cert>, num: nat)
    requires TriedPrefix(x, leaf, pool, chain) && Candidate(roots, chain[|chain| - 1], num)
    requires Follows(x, chain, roots[num], Root)
    ensures Findable(x, leaf, pool, roots, chain + [roots[num]])
  {
    hide Follows, GoodChain;
    PrefixNotEmpty(x, leaf, pool, chain);
    EndChain(x, leaf, pool, roots, chain, roots[num]);
    StillTried(pool, chain, roots, num);
  }

  lemma StillTried(pool: seq<Cert>, chain: seq<Cert>, certs: seq<Cert>, num: nat)
    requires chain != [] && Candidate(certs, chain[|chain| - 1], num)
    requires forall i :: 1 <= i < |chain| ==> TriedAt(pool, chain, i)
    ensures forall i :: 1 <= i < |chain| ==> TriedAt(pool, chain + [certs[num]], i)
    ensures TriedAt(certs, chain + [certs[num]], |chain|)
  {
    var longer := chain + [certs[num]];
    forall i | 1 <= i < |chain| ensures TriedAt(pool, longer, i) {
      assert TriedAt(pool, chain, i);
      var j: nat :| Candidate(pool, chain[i - 1], j) && pool[j] == chain[i];
      assert longer[i - 1] == chain[i - 1] && longer[i] == chain[i];
    }
    assert longer[|chain| - 1] == chain[|chain| - 1] && longer[|chain|] == certs[num];
  }

  ghost predicate TriedAt(certs: seq<Cert>, chain: seq<Cert>, i: nat)
    requires 1 <= i < |chain|
  {
    exists j: nat :: Candidate(certs, chain[i - 1], j) && certs[j] == chain[i]
  }

  /** Nothing to be found beyond c that has not been looked at: no root but the leaf, and only intermediates in done or
      in the chain. */
  ghost predicate Stuck(x: Context, leaf: Cert, pool: seq<Cert>, roots: seq<Cert>, c: Cert, done: set<nat>,
      chain: seq<Cert>) {
    && (forall i: nat :: Step(x, roots, Root, c, i) ==> Equal(roots[i], leaf))
    && forall i: nat :: Step(x, pool, Intermediate, c, i) ==> i in done || InChain(chain, pool[i])
  }

  /** The cache holds nothing but failures, and each is stuck. */
  ghost predicate Settled(x: Context, leaf: Cert, pool: seq<Cert>, roots: seq<Cert>, m: map<nat, seq<seq<Cert>>>,
      chain: seq<Cert>) {
    forall k <- m :: m[k] == [] && k < |pool| && Stuck(x, leaf, pool, roots, pool[k], m.Keys, chain)
  }

  lemma NothingCached(x: Context, leaf: Cert, pool: seq<Cert>, roots: seq<Cert>, chain: seq<Cert>)
    ensures Settled(x, leaf, pool, roots, map[], chain)
  {
  }

  /** Without limits a check depends on the last certificate of the chain only. */
  lemma LastDecides(x: Context, c: Cert, certType: CertType, chain: seq<Cert>)
    requires chain != [] && Unlimited(c)
    ensures IsValid(x, c, certType, chain) == IsValid(x, c, certType, [chain[|chain| - 1]])
  {
  }

  lemma RootNotInChain(x: Context, leaf: Cert, pool: seq<Cert>, roots: seq<Cert>, chain: seq<Cert>, root: Cert)
    requires Plain(pool, roots) && GoodPrefix(x, leaf, pool, chain) && root in roots
    ensures InChain(chain, root) ==> Equal(root, leaf)
  {
    assert forall j :: 1 <= j < |chain| ==> chain[j] in pool;
  }

  lemma StuckGrows(x: Context, leaf: Cert, pool: seq<Cert>, roots: seq<Cert>, c: Cert, done: set<nat>, chain: seq<Cert>,
      done': set<nat>, chain': seq<Cert>)
    requires Stuck(x, leaf, pool, roots, c, done, chain) && done <= done' && chain <= chain'
    ensures Stuck(x, leaf, pool, roots, c, done', chain')
  {
    forall i: nat | Step(x, pool, Intermediate, c, i) && i !in done ensures InChain(chain', pool[i]) {
      var j :| 0 <= j < |chain| && Equal(chain[j], pool[i]);
      assert chain'[j] == chain[j];
    }
  }

  /** Going on to another certificate. */
  lemma SettledBelow(x: Context, leaf: Cert, pool: seq<Cert>, roots: seq<Cert>, m: map<nat, seq<seq<Cert>>>,
      chain: seq<Cert>, c: Cert)
    requires Settled(x, leaf, pool, roots, m, chain)
    ensures Settled(x, leaf, pool, roots, m, chain + [c])
  {
    hide Stuck;
    forall k <- m ensures Stuck(x, leaf, pool, roots, pool[k], m.Keys, chain + [c]) {
      StuckGrows(x, leaf, pool, roots, pool[k], m.Keys, chain, m.Keys, chain + [c]);
    }
  }

  /** Coming back from a certificate at which nothing was found: it joins the failures. */
  lemma SettledAbove(x: Context, leaf: Cert, pool: seq<Cert>, roots: seq<Cert>, m: map<nat, seq<seq<Cert>>>,
      chain: seq<Cert>, num: nat)
    requires Plain(pool, roots) && num < |pool|
    requires Settled(x, leaf, pool, roots, m, chain + [pool[num]])
    requires Stuck(x, leaf, pool, roots, pool[num], m.Keys, chain + [pool[num]])
    ensures Settled(x, leaf, pool, roots, m[num := []], chain)
  {
    hide Stuck;
    var m' := m[num := []];
    forall k <- m' ensures Stuck(x, leaf, pool, roots, pool[k], m'.Keys, chain) {
      StuckAbove(x, leaf, pool, roots, pool[k], m.Keys, chain, num);
      assert m'.Keys == m.Keys + {num};
    }
  }

  lemma StuckAbove(x: Context, leaf: Cert, pool: seq<Cert>, roots: seq<Cert>, c: Cert, done: set<nat>,
      chain: seq<Cert>, num: nat)
    requires Plain(pool, roots) && num < |pool| && Stuck(x, leaf, pool, roots, c, done, chain + [pool[num]])
    ensures Stuck(x, leaf, pool, roots, c, done + {num}, chain)
  {
    forall i: nat | Step(x, pool, Intermediate, c, i) && i !in done && i != num ensures InChain(chain, pool[i]) {
      var all := chain + [pool[num]];
      var j :| 0 <= j < |all| && Equal(all[j], pool[i]);
      assert j < |chain|;
    }
  }

  /** After a search that found nothing there is nothing to be found. */
  lemma NothingMissed(x: Context, leaf: Cert, pool: seq<Cert>, roots: seq<Cert>, m: map<nat, seq<seq<Cert>>>,
      chain: seq<Cert>)
    requires Plain(pool, roots) && Settled(x, leaf, pool, roots, m, [leaf])
      && Stuck(x, leaf, pool, roots, leaf, m.Keys, [leaf])
    ensures !Findable(x, leaf, pool, roots, chain)
  {
    hide Stuck, GoodChain, TriedAt, Plain, Settled;
    if Findable(x, leaf, pool, roots, chain) {
      LastStep(x, leaf, pool, roots, m, chain);
      PathIsStuck(x, leaf, pool, roots, m, chain, |chain| - 2);
      assert false;
    }
  }

  lemma LastStep(x: Context, leaf: Cert, pool: seq<Cert>, roots: seq<Cert>, m: map<nat, seq<seq<Cert>>>,
      chain: seq<Cert>)
    requires Plain(pool, roots) && Findable(x, leaf, pool, roots, chain)
    ensures |chain| >= 2 && !Stuck(x, leaf, pool, roots, chain[|chain| - 2], m.Keys, [leaf])
  {
    var c := chain[|chain| - 2];
    var j: nat :| Candidate(roots, c, j) && roots[j] == chain[|chain| - 1];
    LastDecides(x, roots[j], Root, chain[..|chain| - 1]);
    assert Step(x, roots, Root, c, j);
  }

  /** All of a chain before the root is stuck. */
  lemma {:induction false} PathIsStuck(x: Context, leaf: Cert, pool: seq<Cert>, roots: seq<Cert>, m: map<nat,
      seq<seq<Cert>>>,
      chain: seq<Cert>, i: nat)
    requires Plain(pool, roots) && Settled(x, leaf, pool, roots, m, [leaf])
      && Stuck(x, leaf, pool, roots, leaf, m.Keys, [leaf])
    requires Findable(x, leaf, pool, roots, chain) && i < |chain| - 1
    ensures Stuck(x, leaf, pool, roots, chain[i], m.Keys, [leaf])
  {
    hide Stuck, GoodChain, IsValid, Candidate, InChain, Settled, Step, TriedAt, Plain;
    LastLink(x, leaf, pool, roots, chain);
    if i > 0 {
      PathIsStuck(x, leaf, pool, roots, m, chain, i - 1);
      var j := NextStep(x, leaf, pool, roots, chain, i);
      NextIsDone(x, leaf, pool, roots, chain[i - 1], m.Keys, j);
      DoneIsStuck(x, leaf, pool, roots, m, [leaf], j);
    }
  }

  lemma NextStep(x: Context, leaf: Cert, pool: seq<Cert>, roots: seq<Cert>, chain: seq<Cert>, i: nat) returns (j: nat)
    requires Plain(pool, roots) && Findable(x, leaf, pool, roots, chain) && 0 < i < |chain| - 1
    ensures Step(x, pool, Intermediate, chain[i - 1], j) && j < |pool| && pool[j] == chain[i] && !Equal(leaf, pool[j])
  {
    hide GoodChain, IsValid, Candidate, InChain, Findable, Permitted;
    j := NextCandidate(x, leaf, pool, roots, chain, i);
    LastLink(x, leaf, pool, roots, chain);
    FollowsAt(x, leaf, pool, roots, chain, i);
    NoRepeat(x, leaf, pool, roots, chain, 0, i);
    var before := chain[..i];
    LastDecides(x, chain[i], Intermediate, before);
    assert before[|before| - 1] == chain[i - 1];
  }

  lemma NextCandidate(x: Context, leaf: Cert, pool: seq<Cert>, roots: seq<Cert>, chain: seq<Cert>, i: nat)
      returns (j: nat)
    requires Findable(x, leaf, pool, roots, chain) && 0 < i < |chain| - 1
    ensures GoodChain(x, leaf, pool, roots, chain) && Candidate(pool, chain[i - 1], j) && j < |pool|
      && pool[j] == chain[i]
  {
    hide GoodChain;
    assert TriedAt(pool, chain, i);
    j :| Candidate(pool, chain[i - 1], j) && pool[j] == chain[i];
  }

  lemma DoneIsStuck(x: Context, leaf: Cert, pool: seq<Cert>, roots: seq<Cert>, m: map<nat, seq<seq<Cert>>>,
      chain: seq<Cert>, j: nat)
    requires Settled(x, leaf, pool, roots, m, chain) && j in m
    ensures j < |pool| && Stuck(x, leaf, pool, roots, pool[j], m.Keys, chain)
  {
  }

  lemma NextIsDone(x: Context, leaf: Cert, pool: seq<Cert>, roots: seq<Cert>, c: Cert, done: set<nat>, j: nat)
    requires Stuck(x, leaf, pool, roots, c, done, [leaf]) && Step(x, pool, Intermediate, c, j)
    requires !Equal(leaf, pool[j])
    ensures j in done
  {
  }
}
