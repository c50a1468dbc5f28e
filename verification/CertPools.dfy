/** CertPool: certificates with indices by subject key identifier and by name. */
module CertPools {
  import opened Wrappers
  import opened Certificates

  type Index = map<Bytes, seq<nat>>

  ghost predicate Increasing(s: seq<nat>) {
    forall i, j :: 0 <= i < j < |s| ==> s[i] < s[j]
  }

  function Lookup(m: Index, k: Bytes): seq<nat> {
    if k in m then m[k] else []
  }

  /** m lists exactly the certificates with each key. */
  ghost predicate IsIndex(m: Index, certs: seq<Cert>, key: Cert -> Bytes, skipEmpty: bool) {
    forall k: Bytes :: Increasing(Lookup(m, k))
      && forall i: nat :: i in Lookup(m, k) <==> i < |certs| && key(certs[i]) == k && !(skipEmpty && k == [])
  }

  function SubjectKey(c: Cert): Bytes {
    c.subjectKeyID
  }

  function Subject(c: Cert): Bytes {
    c.rawSubject
  }

  class CertPool {
    var bySubjectKeyID: Index
    var byName: Index
    var certs: seq<Cert>

    ghost predicate Valid()
      reads this
    {
      && IsIndex(bySubjectKeyID, certs, SubjectKey, true) && IsIndex(byName, certs, Subject, false)
      && forall i, j :: 0 <= i < j < |certs| && certs[i].rawSubject == certs[j].rawSubject ==>
        !Equal(certs[i], certs[j])
    }

    constructor ()
      ensures Valid() && certs == []
    {
      bySubjectKeyID, byName, certs := map[], map[], [];
    }

    /** The same certificate is not added twice. */
    method AddCert(cert: Cert)
      requires Valid()
      modifies this
      ensures Valid()
      ensures certs == if Contained(old(certs), cert) then old(certs) else old(certs) + [cert]
    {
      var present := Contains(this, cert);
      if present {
        return;
      }
      var n := |certs|;
      IndexGrows(bySubjectKeyID, certs, SubjectKey, true, cert);
      IndexGrows(byName, certs, Subject, false, cert);
      certs := certs + [cert];
      if cert.subjectKeyID != [] {
        bySubjectKeyID := bySubjectKeyID[cert.subjectKeyID := Lookup(bySubjectKeyID, cert.subjectKeyID) + [n]];
      }
      byName := byName[cert.rawSubject := Lookup(byName, cert.rawSubject) + [n]];
    }
  }

  lemma IndexGrows(m: Index, certs: seq<Cert>, key: Cert -> Bytes, skipEmpty: bool, c: Cert)
    requires IsIndex(m, certs, key, skipEmpty)
    ensures var k := key(c);
      IsIndex(if skipEmpty && k == [] then m else m[k := Lookup(m, k) + [|certs|]], certs + [c], key, skipEmpty)
  {
    var k0, n, all := key(c), |certs|, certs + [c];
    var m' := if skipEmpty && k0 == [] then m else m[k0 := Lookup(m, k0) + [n]];
    forall k: Bytes ensures Increasing(Lookup(m', k))
      && forall i: nat :: i in Lookup(m', k) <==> i < |all| && key(all[i]) == k && !(skipEmpty && k == [])
    {
      if k == k0 && !(skipEmpty && k0 == []) {
        var s := Lookup(m, k);
        assert Lookup(m', k) == s + [n];
        forall i, j | 0 <= i < j < |s| + 1 ensures (s + [n])[i] < (s + [n])[j] {
          assert s[i] in s;
        }
      } else {
        assert Lookup(m', k) == Lookup(m, k);
      }
    }
  }

  ghost predicate Contained(certs: seq<Cert>, c: Cert) {
    exists i :: 0 <= i < |certs| && certs[i].rawSubject == c.rawSubject && Equal(certs[i], c)
  }

  ghost function CertsOf(s: CertPool?): seq<Cert>
    reads s
  {
    if s == null then [] else s.certs
  }

  method Contains(s: CertPool?, cert: Cert) returns (r: bool)
    requires s == null || s.Valid()
    ensures r <==> Contained(CertsOf(s), cert)
  {
    if s == null {
      return false;
    }
    var candidates := Lookup(s.byName, cert.rawSubject);
    for k := 0 to |candidates|
      invariant forall j :: 0 <= j < k ==> candidates[j] < |s.certs| && !Equal(s.certs[candidates[j]], cert)
    {
      assert candidates[k] in candidates;
      if Equal(s.certs[candidates[k]], cert) {
        return true;
      }
    }
    forall i | 0 <= i < |s.certs| && s.certs[i].rawSubject == cert.rawSubject ensures !Equal(s.certs[i], cert) {
      assert i in candidates;
    }
    return false;
  }

  /** Whether certificate i is one that findVerifiedParents tries: by key identifier if any has it, by name
      otherwise. */
  ghost predicate Candidate(certs: seq<Cert>, cert: Cert, i: nat) {
    i < |certs| &&
    if cert.authorityKeyID != [] && (exists j :: 0 <= j < |certs| && certs[j].subjectKeyID == cert.authorityKeyID)
    then certs[i].subjectKeyID == cert.authorityKeyID
    else certs[i].rawSubject == cert.rawIssuer
  }

  /** A candidate that signed the certificate. */
  ghost predicate Issuer(x: Context, certs: seq<Cert>, cert: Cert, i: nat) {
    Candidate(certs, cert, i) && x.signed(cert, certs[i])
  }

  /** The issuers of the certificate among the first k certificates. */
  ghost function ParentsBelow(x: Context, certs: seq<Cert>, cert: Cert, k: nat): seq<nat>
    requires k <= |certs|
  {
    if k == 0 then []
    else
      ParentsBelow(x, certs, cert, k - 1) + if Issuer(x, certs, cert, k - 1) then [k - 1] else []
  }

  ghost function Parents(x: Context, certs: seq<Cert>, cert: Cert): seq<nat> {
    ParentsBelow(x, certs, cert, |certs|)
  }

  lemma Appended(s: seq<nat>, n: nat)
    requires Increasing(s) && forall i <- s :: i < n
    ensures Increasing(s + [n])
  {
    assert forall i :: 0 <= i < |s| ==> s[i] in s;
  }

  /** A part of an increasing sequence may be followed by what follows that. */
  lemma OneMore(all: seq<nat>, s: seq<nat>, n: nat)
    requires Increasing(all + [n]) && Increasing(s) && forall i <- s :: i in all
    ensures Increasing(s + [n])
  {
    forall i <- s ensures i < n {
      var k :| 0 <= k < |all| && all[k] == i;
      assert (all + [n])[k] < (all + [n])[|all|];
    }
    Appended(s, n);
  }

  lemma {:induction false} ParentsAre(x: Context, certs: seq<Cert>, cert: Cert, k: nat)
    requires k <= |certs|
    ensures var s := ParentsBelow(x, certs, cert, k);
      Increasing(s) && forall i: nat :: i in s <==> i < k && Issuer(x, certs, cert, i)
  {
    hide Issuer;
    if k > 0 {
      ParentsAre(x, certs, cert, k - 1);
      Appended(ParentsBelow(x, certs, cert, k - 1), k - 1);
    }
  }

  lemma IssuersAre(x: Context, certs: seq<Cert>, cert: Cert)
    ensures forall i: nat :: i in Parents(x, certs, cert) <==> Issuer(x, certs, cert, i)
    ensures forall i: nat :: Issuer(x, certs, cert, i) ==> i < |certs|
    ensures Increasing(Parents(x, certs, cert))
  {
    ParentsAre(x, certs, cert, |certs|);
  }

  /** There is one increasing sequence of the same numbers only. */
  lemma {:induction false} IncreasingUnique(s: seq<nat>, t: seq<nat>)
    requires Increasing(s) && Increasing(t) && forall i: nat :: i in s <==> i in t
    ensures s == t
  {
    if s != [] && t != [] {
      var m, n := |s| - 1, |t| - 1;
      assert s[m] in t && t[n] in s;
      var s', t' := s[..m], t[..n];
      forall i: nat ensures i in s' <==> i in t' {
        assert i in s' <==> i in s && i != s[m];
        assert i in t' <==> i in t && i != t[n];
      }
      IncreasingUnique(s', t');
    } else {
      FirstIn(s);
      FirstIn(t);
    }
  }

  lemma FirstIn(s: seq<nat>)
    ensures s != [] ==> exists i: nat :: i in s
  {
    if s != [] {
      assert s[0] in s;
    }
  }

  /** The candidates that signed the certificate, in order, and whether another candidate did not. */
  method FindVerifiedParents(x: Context, s: CertPool?, cert: Cert) returns (parents: seq<nat>, failed: Option<Cert>)
    requires s == null || s.Valid()
    ensures Increasing(parents)
    ensures forall i: nat :: i in parents <==> Issuer(x, CertsOf(s), cert, i)
    ensures parents == Parents(x, CertsOf(s), cert)
    ensures failed.Some? ==> failed.value in CertsOf(s) && !x.signed(cert, failed.value)
  {
    parents, failed := [], None;
    if s == null {
      return;
    }
    var candidates := [];
    if cert.authorityKeyID != [] {
      candidates := Lookup(s.bySubjectKeyID, cert.authorityKeyID);
    }
    if candidates == [] {
      candidates := Lookup(s.byName, cert.rawIssuer);
    }
    CandidatesFound(s, cert, candidates);
    hide Candidate, IsIndex, Signers, Increasing;
    NoSigners(x, s.certs, cert, candidates);
    for k := 0 to |candidates|
      invariant parents == Signers(x, s.certs, cert, candidates[..k])
      invariant failed.Some? ==> failed.value in s.certs && !x.signed(cert, failed.value)
    {
      var c := candidates[k];
      NextSigner(x, s.certs, cert, candidates, k);
      if x.signed(cert, s.certs[c]) {
        parents := parents + [c];
      } else {
        failed := Some(s.certs[c]);
      }
    }
    assert candidates[..|candidates|] == candidates;
    SignersAre(x, s.certs, cert, candidates);
    IssuersAre(x, s.certs, cert);
    IncreasingUnique(parents, Parents(x, s.certs, cert));
  }

  /** The candidates that signed the certificate. */
  ghost function Signers(x: Context, certs: seq<Cert>, cert: Cert, candidates: seq<nat>): seq<nat> {
    if candidates == [] then []
    else
      var c := candidates[|candidates| - 1];
      Signers(x, certs, cert, candidates[..|candidates| - 1])
        + if c < |certs| && x.signed(cert, certs[c]) then [c] else []
  }

  lemma NoSigners(x: Context, certs: seq<Cert>, cert: Cert, candidates: seq<nat>)
    ensures Signers(x, certs, cert, candidates[..0]) == []
  {
  }

  lemma NextSigner(x: Context, certs: seq<Cert>, cert: Cert, candidates: seq<nat>, k: nat)
    requires k < |candidates| && forall i :: 0 <= i < |candidates| ==> candidates[i] < |certs|
    ensures var c := candidates[k];
      Signers(x, certs, cert, candidates[..k + 1])
        == Signers(x, certs, cert, candidates[..k]) + if x.signed(cert, certs[c]) then [c] else []
  {
    assert candidates[..k + 1][..k] == candidates[..k];
  }

  lemma {:induction false} SignersAre(x: Context, certs: seq<Cert>, cert: Cert, candidates: seq<nat>)
    requires Increasing(candidates)
    ensures Increasing(Signers(x, certs, cert, candidates))
    ensures forall i: nat :: i in Signers(x, certs, cert, candidates) <==>
      i in candidates && i < |certs| && x.signed(cert, certs[i])
  {
    if candidates != [] {
      var before, c := candidates[..|candidates| - 1], candidates[|candidates| - 1];
      SignersAre(x, certs, cert, before);
      assert candidates == before + [c];
      OneMore(before, Signers(x, certs, cert, before), c);
    }
  }

  lemma CandidatesFound(s: CertPool, cert: Cert, candidates: seq<nat>)
    requires s.Valid()
    requires var byKey := Lookup(s.bySubjectKeyID, cert.authorityKeyID);
      candidates == if cert.authorityKeyID != [] && byKey != [] then byKey else Lookup(s.byName, cert.rawIssuer)
    ensures Increasing(candidates) && forall i: nat :: i in candidates <==> Candidate(s.certs, cert, i)
    ensures forall i :: 0 <= i < |candidates| ==> candidates[i] < |s.certs|
  {
    var byKey := Lookup(s.bySubjectKeyID, cert.authorityKeyID);
    assert forall i :: 0 <= i < |candidates| ==> candidates[i] in candidates;
    if cert.authorityKeyID != [] {
      if byKey != [] {
        assert byKey[0] in byKey;
      }
      assert (exists j :: 0 <= j < |s.certs| && s.certs[j].subjectKeyID == cert.authorityKeyID) <==> byKey != [] by {
        forall j | 0 <= j < |s.certs| && s.certs[j].subjectKeyID == cert.authorityKeyID ensures byKey != [] {
          assert j in byKey;
        }
      }
    }
  }
}
