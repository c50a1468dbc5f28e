/** Four searches that fail although there is a chain to be found, one for each condition under which none does. In all
    of them two intermediates can issue the leaf; the second is first met behind the first, fails there, and is not
    tried again. */
module ChainFailures {
  import opened Certificates
  import opened CertPools
  import opened ChainSearch
  import opened ChainCompleteness
  import opened ChainResults

  /** A certificate that is always valid but for its path length limit, if that is not negative. */
  function Simple(id: int, subject: int, issuer: int, limit: int): Cert {
    Cert([id], [subject], [issuer], [], [], 0, 0, [], true, true, limit, [], 0, 0)
  }

  const ALL_SIGNED := Context((a, b) => true, (a, b) => true, (a, b) => true, "", 0)

  /** The search behind the second intermediate, there the third in the chain, has no way on. */
  ghost predicate DeadEnd(x: Context, pool: seq<Cert>, roots: seq<Cert>, c: Cert, chain: seq<Cert>) {
    && Ended(x, roots, chain, Parents(x, roots, c)) == []
    && forall i <- Parents(x, pool, c) :: i < |pool| && Skipped(x, chain, pool[i], Intermediate)
  }

  lemma DeadEndFails(x: Context, pool: seq<Cert>, roots: seq<Cert>, c: Cert, chain: seq<Cert>, m: map<nat, Chains>)
    requires DeadEnd(x, pool, roots, c, chain)
    ensures Search(x, pool, roots, c, chain, m) == Found([], m)
  {
    hide Skipped, Parents, Ended;
    AllSkipped(x, pool, roots, chain, Parents(x, pool, c), Found([], m));
  }

  lemma {:induction false} AllSkipped(x: Context, pool: seq<Cert>, roots: seq<Cert>, chain: seq<Cert>, nums: seq<nat>,
      before: Found)
    requires forall i <- nums :: i < |pool| && Skipped(x, chain, pool[i], Intermediate)
    ensures Explore(x, pool, roots, chain, nums, before) == before
    decreases |nums|
  {
    hide Skipped;
    if nums != [] {
      var n := |nums| - 1;
      assert nums == nums[..n] + [nums[n]];
      forall i <- nums[..n] ensures i < |pool| && Skipped(x, chain, pool[i], Intermediate) {
        assert i in nums;
      }
      AllSkipped(x, pool, roots, chain, nums[..n], before);
    }
  }

  lemma SecondWayMissed(x: Context, pool: seq<Cert>, roots: seq<Cert>, leaf: Cert, a: Cert, b: Cert)
    requires |pool| >= 2 && pool[0] == a && pool[1] == b
    requires Parents(x, pool, leaf) == Parents(x, pool, a) == [0, 1]
    requires Ended(x, roots, [leaf], Parents(x, roots, leaf)) == Ended(x, roots, [leaf, a], Parents(x, roots, a)) == []
    requires !Skipped(x, [leaf], a, Intermediate) && !Skipped(x, [leaf], b, Intermediate)
    requires !Skipped(x, [leaf, a], b, Intermediate) && DeadEnd(x, pool, roots, b, [leaf, a, b])
    ensures Results(x, pool, roots, leaf) == []
  {
    hide Parents, Ended, DeadEnd, Search, Explore, IsValid;
    var none: map<nat, Chains> := map[];
    DeadEndFails(x, pool, roots, b, [leaf, a, b], none);
    assert [leaf, a] + [b] == [leaf, a, b] && [leaf] + [a] == [leaf, a];
    assert [leaf, a][1] == a;
    assert Skipped(x, [leaf, a], a, Intermediate);
    ExploreTwo(x, pool, roots, [leaf, a], Found([], none));
    SearchIs(x, pool, roots, a, [leaf, a], none);
    ExploreTwo(x, pool, roots, [leaf], Found([], none));
    SearchIs(x, pool, roots, leaf, [leaf], none);
  }

  lemma SearchIs(x: Context, pool: seq<Cert>, roots: seq<Cert>, c: Cert, chain: seq<Cert>, m: map<nat, Chains>)
    ensures Search(x, pool, roots, c, chain, m) ==
      Explore(x, pool, roots, chain, Parents(x, pool, c), Found(Ended(x, roots, chain, Parents(x, roots, c)), m))
  {
  }

  /** The first two intermediates in order, of which the second is not skipped. */
  lemma ExploreTwo(x: Context, pool: seq<Cert>, roots: seq<Cert>, chain: seq<Cert>, before: Found)
    requires |pool| >= 2 && !Skipped(x, chain, pool[1], Intermediate) && 0 !in before.cache
    ensures var first := Search(x, pool, roots, pool[0], chain + [pool[0]], before.cache);
      var found := if Skipped(x, chain, pool[0], Intermediate) then before
        else Found(before.chains + first.chains, first.cache[0 := first.chains]);
      var second := Search(x, pool, roots, pool[1], chain + [pool[1]], found.cache);
      Explore(x, pool, roots, chain, [0, 1], before) ==
        if 1 in found.cache then Found(found.chains + found.cache[1], found.cache)
        else Found(found.chains + second.chains, second.cache[1 := second.chains])
  {
    hide Skipped, Search;
    assert [0, 1][..1] == [0] && [0][..0] == [];
    assert Explore(x, pool, roots, chain, [], before) == before;
  }

  /** Certificate k if it can issue c, by name. */
  ghost function Named(x: Context, certs: seq<Cert>, c: Cert, k: nat): seq<nat> {
    if k < |certs| && certs[k].rawSubject == c.rawIssuer && x.signed(c, certs[k]) then [k] else []
  }

  lemma ParentsByName(x: Context, certs: seq<Cert>, c: Cert)
    requires c.authorityKeyID == [] && 1 <= |certs| <= 3
    ensures Parents(x, certs, c) == Named(x, certs, c, 0) + Named(x, certs, c, 1) + Named(x, certs, c, 2)
  {
    assert ParentsBelow(x, certs, c, 0) == [];
    assert ParentsBelow(x, certs, c, 1) == Named(x, certs, c, 0);
    if |certs| > 1 {
      assert ParentsBelow(x, certs, c, 2) == Named(x, certs, c, 0) + Named(x, certs, c, 1);
    }
  }

  /** The certificates that a chain may go on with among some. */
  lemma NoneEnded(x: Context, roots: seq<Cert>, chain: seq<Cert>, nums: seq<nat>)
    requires |nums| <= 1 && forall i <- nums :: i < |roots| && Skipped(x, chain, roots[i], Root)
    ensures Ended(x, roots, chain, nums) == []
  {
    if |nums| == 1 {
      assert nums[0] in nums && nums[..0] == [];
    }
  }

  lemma Start(x: Context, leaf: Cert, pool: seq<Cert>)
    ensures TriedPrefix(x, leaf, pool, [leaf])
  {
  }

  /** The chain goes on with intermediate num. */
  lemma GoesOn(x: Context, leaf: Cert, pool: seq<Cert>, chain: seq<Cert>, num: nat, longer: seq<Cert>)
    requires TriedPrefix(x, leaf, pool, chain) && chain != [] && Issuer(x, pool, chain[|chain| - 1], num)
    requires num < |pool| && !Skipped(x, chain, pool[num], Intermediate) && longer == chain + [pool[num]]
    ensures TriedPrefix(x, leaf, pool, longer)
  {
    hide IsValid, TriedPrefix, Issuer;
    NotSkipped(x, leaf, pool, chain, num);
  }

  lemma Ends(x: Context, leaf: Cert, pool: seq<Cert>, roots: seq<Cert>, chain: seq<Cert>, num: nat, longer: seq<Cert>)
    requires TriedPrefix(x, leaf, pool, chain) && chain != [] && Issuer(x, roots, chain[|chain| - 1], num)
    requires num < |roots| && !Skipped(x, chain, roots[num], Root) && longer == chain + [roots[num]]
    ensures Findable(x, leaf, pool, roots, longer)
  {
    hide IsValid, TriedPrefix;
    EndTried(x, leaf, pool, roots, chain, num);
  }

  /** The chain is there to be found, and the search finds nothing. */
  ghost predicate Missed(leaf: Cert, pool: seq<Cert>, roots: seq<Cert>, chain: seq<Cert>) {
    Findable(ALL_SIGNED, leaf, pool, roots, chain) && Results(ALL_SIGNED, pool, roots, leaf) == []
  }

  /** A root that allows one intermediate: the second way would have one, but it was met as the second of two. */
  lemma RootLimitHides(leaf: Cert, a: Cert, b: Cert, root: Cert)
    requires leaf == Simple(0, 0, 1, -1) && a == Simple(1, 1, 1, -1) && b == Simple(2, 1, 2, -1)
      && root == Simple(3, 2, 2, 1)
    ensures NoLimits([a, b]) && Apart([a, b], [root]) && Distinct([a, b])
      && Missed(leaf, [a, b], [root], [leaf, b, root])
  {
    hide Findable, Results;
    RootLimitChain(leaf, a, b, root);
    RootLimitFails(leaf, a, b, root);
  }

  lemma RootLimitChain(leaf: Cert, a: Cert, b: Cert, root: Cert)
    requires leaf == Simple(0, 0, 1, -1) && a == Simple(1, 1, 1, -1) && b == Simple(2, 1, 2, -1)
      && root == Simple(3, 2, 2, 1)
    ensures Findable(ALL_SIGNED, leaf, [a, b], [root], [leaf, b, root])
  {
    hide Findable, TriedPrefix;
    Start(ALL_SIGNED, leaf, [a, b]);
    GoesOn(ALL_SIGNED, leaf, [a, b], [leaf], 1, [leaf, b]);
    Ends(ALL_SIGNED, leaf, [a, b], [root], [leaf, b], 0, [leaf, b, root]);
  }

  lemma RootLimitFails(leaf: Cert, a: Cert, b: Cert, root: Cert)
    requires leaf == Simple(0, 0, 1, -1) && a == Simple(1, 1, 1, -1) && b == Simple(2, 1, 2, -1)
      && root == Simple(3, 2, 2, 1)
    ensures Results(ALL_SIGNED, [a, b], [root], leaf) == []
  {
    hide Parents, Results;
    AllParents(ALL_SIGNED, [a, b], [root], leaf, a, b);
    NoneEnded(ALL_SIGNED, [root], [leaf, a, b], [0]);
    SecondWayMissed(ALL_SIGNED, [a, b], [root], leaf, a, b);
  }

  lemma AllParents(x: Context, pool: seq<Cert>, roots: seq<Cert>, leaf: Cert, a: Cert, b: Cert)
    requires leaf.authorityKeyID == a.authorityKeyID == b.authorityKeyID == [] && 1 <= |pool| <= 3 && 1 <= |roots| <= 3
    ensures forall c <- [leaf, a, b] ::
      Parents(x, pool, c) == Named(x, pool, c, 0) + Named(x, pool, c, 1) + Named(x, pool, c, 2)
      && Parents(x, roots, c) == Named(x, roots, c, 0) + Named(x, roots, c, 1) + Named(x, roots, c, 2)
  {
    hide Parents, Named;
    forall c <- [leaf, a, b]
      ensures Parents(x, pool, c) == Named(x, pool, c, 0) + Named(x, pool, c, 1) + Named(x, pool, c, 2)
        && Parents(x, roots, c) == Named(x, roots, c, 0) + Named(x, roots, c, 1) + Named(x, roots, c, 2)
    {
      ParentsByName(x, pool, c);
      ParentsByName(x, roots, c);
    }
  }

  /** An intermediate that allows one intermediate before it. */
  lemma IntermediateLimitHides(leaf: Cert, a: Cert, b: Cert, c: Cert, root: Cert)
    requires leaf == Simple(0, 0, 1, -1) && a == Simple(1, 1, 1, -1) && b == Simple(2, 1, 2, -1)
      && c == Simple(3, 2, 3, 1)
    requires root == Simple(4, 3, 3, -1)
    ensures NoLimits([root]) && Apart([a, b, c], [root]) && Distinct([a, b, c])
    ensures Missed(leaf, [a, b, c], [root], [leaf, b, c, root])
  {
    hide Findable, Results;
    IntermediateLimitChain(leaf, a, b, c, root);
    IntermediateLimitFails(leaf, a, b, c, root);
  }

  lemma IntermediateLimitChain(leaf: Cert, a: Cert, b: Cert, c: Cert, root: Cert)
    requires leaf == Simple(0, 0, 1, -1) && a == Simple(1, 1, 1, -1) && b == Simple(2, 1, 2, -1)
      && c == Simple(3, 2, 3, 1)
    requires root == Simple(4, 3, 3, -1)
    ensures Findable(ALL_SIGNED, leaf, [a, b, c], [root], [leaf, b, c, root])
  {
    hide Findable, TriedPrefix;
    Start(ALL_SIGNED, leaf, [a, b, c]);
    GoesOn(ALL_SIGNED, leaf, [a, b, c], [leaf], 1, [leaf, b]);
    GoesOn(ALL_SIGNED, leaf, [a, b, c], [leaf, b], 2, [leaf, b, c]);
    Ends(ALL_SIGNED, leaf, [a, b, c], [root], [leaf, b, c], 0, [leaf, b, c, root]);
  }

  lemma IntermediateLimitFails(leaf: Cert, a: Cert, b: Cert, c: Cert, root: Cert)
    requires leaf == Simple(0, 0, 1, -1) && a == Simple(1, 1, 1, -1) && b == Simple(2, 1, 2, -1)
      && c == Simple(3, 2, 3, 1)
    requires root == Simple(4, 3, 3, -1)
    ensures Results(ALL_SIGNED, [a, b, c], [root], leaf) == []
  {
    hide Parents, Results;
    AllParents(ALL_SIGNED, [a, b, c], [root], leaf, a, b);
    SecondWayMissed(ALL_SIGNED, [a, b, c], [root], leaf, a, b);
  }

  /** A root that is an intermediate too. The leaf names its issuer's key, which among the roots is that of another
      root. */
  lemma RootInPoolHides(leaf: Cert, k: Cert, a: Cert, other: Cert)
    requires leaf == Simple(0, 0, 1, -1).(authorityKeyID := [9]) && k == Simple(1, 1, 1, -1) && a == Simple(2, 1, 1, -1)
    requires other == Simple(3, 2, 2, -1).(subjectKeyID := [9])
    ensures NoLimits([k, other]) && NoLimits([k, a]) && Distinct([k, a])
    ensures Missed(leaf, [k, a], [k, other], [leaf, a, k])
  {
    hide Findable, Results;
    RootInPoolChain(leaf, k, a, other);
    RootInPoolFails(leaf, k, a, other);
  }

  lemma RootInPoolChain(leaf: Cert, k: Cert, a: Cert, other: Cert)
    requires leaf == Simple(0, 0, 1, -1).(authorityKeyID := [9]) && k == Simple(1, 1, 1, -1) && a == Simple(2, 1, 1, -1)
    requires other == Simple(3, 2, 2, -1).(subjectKeyID := [9])
    ensures Findable(ALL_SIGNED, leaf, [k, a], [k, other], [leaf, a, k])
  {
    hide Findable, TriedPrefix;
    Start(ALL_SIGNED, leaf, [k, a]);
    GoesOn(ALL_SIGNED, leaf, [k, a], [leaf], 1, [leaf, a]);
    Ends(ALL_SIGNED, leaf, [k, a], [k, other], [leaf, a], 0, [leaf, a, k]);
  }

  lemma RootInPoolFails(leaf: Cert, k: Cert, a: Cert, other: Cert)
    requires leaf == Simple(0, 0, 1, -1).(authorityKeyID := [9]) && k == Simple(1, 1, 1, -1) && a == Simple(2, 1, 1, -1)
    requires other == Simple(3, 2, 2, -1).(subjectKeyID := [9])
    ensures Results(ALL_SIGNED, [k, a], [k, other], leaf) == []
  {
    hide Parents, Results, Skipped;
    LeafParents(leaf, k, a, other);
    OtherParents(k, a, other);
    Blocked(leaf, k, a, other);
    NoneEnded(ALL_SIGNED, [k, other], [leaf], [1]);
    NoneEnded(ALL_SIGNED, [k, other], [leaf, k], [0]);
    NoneEnded(ALL_SIGNED, [k, other], [leaf, k, a], [0]);
    SecondWayMissed(ALL_SIGNED, [k, a], [k, other], leaf, k, a);
  }

  lemma OtherParents(k: Cert, a: Cert, other: Cert)
    requires k == Simple(1, 1, 1, -1) && a == Simple(2, 1, 1, -1) && other == Simple(3, 2, 2, -1).(subjectKeyID := [9])
    ensures Parents(ALL_SIGNED, [k, a], k) == Parents(ALL_SIGNED, [k, a], a) == [0, 1]
    ensures Parents(ALL_SIGNED, [k, other], k) == Parents(ALL_SIGNED, [k, other], a) == [0]
  {
    hide Parents;
    ParentsByName(ALL_SIGNED, [k, a], k);
    ParentsByName(ALL_SIGNED, [k, a], a);
    ParentsByName(ALL_SIGNED, [k, other], k);
    ParentsByName(ALL_SIGNED, [k, other], a);
  }

  lemma Blocked(leaf: Cert, k: Cert, a: Cert, other: Cert)
    requires leaf == Simple(0, 0, 1, -1).(authorityKeyID := [9]) && k == Simple(1, 1, 1, -1) && a == Simple(2, 1, 1, -1)
    requires other == Simple(3, 2, 2, -1).(subjectKeyID := [9])
    ensures Skipped(ALL_SIGNED, [leaf], other, Root) && Skipped(ALL_SIGNED, [leaf, k], k, Root)
    ensures Skipped(ALL_SIGNED, [leaf, k, a], k, Root)
    ensures Skipped(ALL_SIGNED, [leaf, k, a], k, Intermediate) && Skipped(ALL_SIGNED, [leaf, k, a], a, Intermediate)
    ensures !Skipped(ALL_SIGNED, [leaf], k, Intermediate) && !Skipped(ALL_SIGNED, [leaf], a, Intermediate)
    ensures !Skipped(ALL_SIGNED, [leaf, k], a, Intermediate)
  {
    hide IsValid;
    assert [leaf, k][1] == k && [leaf, k, a][1] == k && [leaf, k, a][2] == a;
    Validity(leaf, k, a, other);
  }

  lemma Validity(leaf: Cert, k: Cert, a: Cert, other: Cert)
    requires leaf == Simple(0, 0, 1, -1).(authorityKeyID := [9]) && k == Simple(1, 1, 1, -1) && a == Simple(2, 1, 1, -1)
    requires other == Simple(3, 2, 2, -1).(subjectKeyID := [9])
    ensures IsValid(ALL_SIGNED, other, Root, [leaf]).Some?
    ensures IsValid(ALL_SIGNED, k, Intermediate, [leaf]).None? && IsValid(ALL_SIGNED, a, Intermediate, [leaf]).None?
    ensures IsValid(ALL_SIGNED, a, Intermediate, [leaf, k]).None?
  {
  }

  lemma LeafParents(leaf: Cert, k: Cert, a: Cert, other: Cert)
    requires leaf == Simple(0, 0, 1, -1).(authorityKeyID := [9]) && k == Simple(1, 1, 1, -1) && a == Simple(2, 1, 1, -1)
    requires other == Simple(3, 2, 2, -1).(subjectKeyID := [9])
    ensures Parents(ALL_SIGNED, [k, a], leaf) == [0, 1] && Parents(ALL_SIGNED, [k, other], leaf) == [1]
  {
    assert [k, other][1].subjectKeyID == leaf.authorityKeyID;
    ParentsOfTwo(ALL_SIGNED, [k, a], leaf);
    ParentsOfTwo(ALL_SIGNED, [k, other], leaf);
    hide Parents;
  }

  lemma ParentsOfTwo(x: Context, certs: seq<Cert>, c: Cert)
    requires |certs| == 2
    ensures Parents(x, certs, c) ==
      (if Issuer(x, certs, c, 0) then [0] else []) + (if Issuer(x, certs, c, 1) then [1] else [])
  {
    hide Issuer;
    assert ParentsBelow(x, certs, c, 0) == [];
    assert ParentsBelow(x, certs, c, 1) == if Issuer(x, certs, c, 0) then [0] else [];
  }

  /** Two intermediates with the same bytes, of which the search takes only one into a chain. */
  lemma TwinHides(leaf: Cert, p: Cert, d: Cert, q: Cert, root: Cert)
    requires leaf == Simple(0, 0, 1, -1) && p == Simple(1, 1, 1, -1) && d == Simple(2, 1, 2, -1)
      && q == Simple(1, 2, 3, -1)
    requires root == Simple(4, 3, 3, -1)
    ensures NoLimits([root]) && NoLimits([p, d, q]) && Apart([p, d, q], [root])
    ensures Missed(leaf, [p, d, q], [root], [leaf, d, q, root])
  {
    hide Findable, Results;
    TwinChain(leaf, p, d, q, root);
    TwinFails(leaf, p, d, q, root);
  }

  lemma TwinChain(leaf: Cert, p: Cert, d: Cert, q: Cert, root: Cert)
    requires leaf == Simple(0, 0, 1, -1) && p == Simple(1, 1, 1, -1) && d == Simple(2, 1, 2, -1)
      && q == Simple(1, 2, 3, -1)
    requires root == Simple(4, 3, 3, -1)
    ensures Findable(ALL_SIGNED, leaf, [p, d, q], [root], [leaf, d, q, root])
  {
    hide Findable, TriedPrefix;
    Start(ALL_SIGNED, leaf, [p, d, q]);
    GoesOn(ALL_SIGNED, leaf, [p, d, q], [leaf], 1, [leaf, d]);
    GoesOn(ALL_SIGNED, leaf, [p, d, q], [leaf, d], 2, [leaf, d, q]);
    Ends(ALL_SIGNED, leaf, [p, d, q], [root], [leaf, d, q], 0, [leaf, d, q, root]);
  }

  lemma TwinFails(leaf: Cert, p: Cert, d: Cert, q: Cert, root: Cert)
    requires leaf == Simple(0, 0, 1, -1) && p == Simple(1, 1, 1, -1) && d == Simple(2, 1, 2, -1)
      && q == Simple(1, 2, 3, -1)
    requires root == Simple(4, 3, 3, -1)
    ensures Results(ALL_SIGNED, [p, d, q], [root], leaf) == []
  {
    hide Parents, Results;
    AllParents(ALL_SIGNED, [p, d, q], [root], leaf, p, d);
    assert [leaf, p, d][1] == p;
    SecondWayMissed(ALL_SIGNED, [p, d, q], [root], leaf, p, d);
  }
}
