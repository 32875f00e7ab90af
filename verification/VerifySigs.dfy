/**
  The verifier's check that every RRset is signed with every algorithm in use
  (`goodsig`, `verifyset`, `verifynode` and the algorithm tables of `verifyzone`, bin/dnssec/dnssectool.c).
 */
module VerifySigs {
  import opened Names
  import opened Zone
  import opened VerifyWalk

  const ALGORITHMS := 256

  const DNSKEY := Other(48)

  /** A record of the DNSKEY RRset, with what the library finds out about it. */
  datatype DnsKey = DnsKey(alg: Byte, id: nat, zone: bool, revoked: bool, ksk: bool,
                           selfSigns: bool, signsSoa: bool, parses: bool)

  datatype Sig = Sig(alg: Byte, id: nat, signer: Name, originalTtl: nat, data: nat)

  /** An RRset with the RRSIG RRset covering it, if there is one. */
  datatype SignedSet = SignedSet(rrtype: RRType, ttl: nat, rdata: nat, sigs: Option<seq<Sig>>)

  /** The DNSKEY RRset of the zone; `verifies` is the cryptographic check of one signature. */
  datatype Keyring = Keyring(origin: Name, keys: seq<DnsKey>, verifies: (Name, SignedSet, DnsKey, Sig) -> bool)

  // ----- goodsig

  /** Key `k` verifies the signature, and no record ahead of it stops the search. */
  ghost predicate Vouches(ring: Keyring, k: int, name: Name, rrset: SignedSet, sig: Sig) {
    && 0 <= k < |ring.keys|
    && (forall j :: 0 <= j <= k ==> ring.keys[j].parses)
    && sig.alg == ring.keys[k].alg && sig.id == ring.keys[k].id && sig.signer == ring.origin
    && ring.verifies(name, rrset, ring.keys[k], sig)
  }

  method GoodSig(ring: Keyring, name: Name, rrset: SignedSet, sig: Sig) returns (good: bool)
    ensures good <==> exists k :: Vouches(ring, k, name, rrset, sig)
  {
    for k := 0 to |ring.keys|
      invariant forall j :: 0 <= j < k ==> ring.keys[j].parses
      invariant forall j :: 0 <= j < k ==> !Vouches(ring, j, name, rrset, sig)
    {
      var key := ring.keys[k];
      if !key.parses {
        return false;
      }
      if sig.alg == key.alg && sig.id == key.id && sig.signer == ring.origin && ring.verifies(name, rrset, key, sig) {
        assert Vouches(ring, k, name, rrset, sig);
        return true;
      }
    }
    return false;
  }

  // ----- verifyset

  ghost predicate Supports(ring: Keyring, name: Name, rrset: SignedSet, sig: Sig) {
    rrset.ttl == sig.originalTtl && exists k :: Vouches(ring, k, name, rrset, sig)
  }

  /** Section 2.2 of RFC 4035: a signature with the RRset's TTL verifies under a key of the algorithm. */
  ghost predicate SignedWith(ring: Keyring, name: Name, rrset: SignedSet, alg: Byte) {
    rrset.sigs.Some? && exists sig :: sig in rrset.sigs.value && sig.alg == alg && Supports(ring, name, rrset, sig)
  }

  /** Every key that vouches for a signature is of the signature's algorithm and id. */
  lemma SignedMeans(ring: Keyring, name: Name, rrset: SignedSet, alg: Byte) returns (sig: Sig, key: DnsKey)
    requires SignedWith(ring, name, rrset, alg)
    ensures rrset.sigs.Some? && sig in rrset.sigs.value && sig.originalTtl == rrset.ttl && sig.signer == ring.origin
    ensures key in ring.keys && key.alg == sig.alg == alg && key.id == sig.id && ring.verifies(name, rrset, key, sig)
  {
    sig :| sig in rrset.sigs.value && sig.alg == alg && Supports(ring, name, rrset, sig);
    var k :| Vouches(ring, k, name, rrset, sig);
    key := ring.keys[k];
  }

  /** Which active algorithms have a good signature among the first signatures. */
  ghost predicate SignedByFirst(ring: Keyring, name: Name, rrset: SignedSet, sigs: seq<Sig>, n: nat, alg: Byte) {
    exists j :: 0 <= j < n <= |sigs| && sigs[j].alg == alg && Supports(ring, name, rrset, sigs[j])
  }

  method FindAlgorithms(ring: Keyring, name: Name, rrset: SignedSet, sigs: seq<Sig>, act: array<bool>)
    returns (found: array<bool>)
    requires act.Length == ALGORITHMS
    ensures fresh(found) && found.Length == ALGORITHMS
    ensures forall a: Byte :: found[a] <==> act[a] && SignedByFirst(ring, name, rrset, sigs, |sigs|, a)
  {
    hide Supports;
    found := new bool[ALGORITHMS](_ => false);
    for i := 0 to |sigs|
      invariant forall a: Byte :: found[a] <==> act[a] && SignedByFirst(ring, name, rrset, sigs, i, a)
    {
      var sig := sigs[i];
      var good := false;
      if rrset.ttl == sig.originalTtl && !found[sig.alg] && act[sig.alg] {
        good := GoodSig(ring, name, rrset, sig);
        if good {
          found[sig.alg] := true;
        }
      }
      SupportsIf(ring, name, rrset, sig);
      forall a: Byte ensures found[a] <==> act[a] && SignedByFirst(ring, name, rrset, sigs, i + 1, a) {
        SignedByNext(ring, name, rrset, sigs, i, a);
      }
    }
  }

  lemma SupportsIf(ring: Keyring, name: Name, rrset: SignedSet, sig: Sig)
    ensures Supports(ring, name, rrset, sig) <==>
            rrset.ttl == sig.originalTtl && exists k :: Vouches(ring, k, name, rrset, sig)
  {
  }

  lemma SignedByNext(ring: Keyring, name: Name, rrset: SignedSet, sigs: seq<Sig>, i: nat, alg: Byte)
    requires i < |sigs|
    ensures SignedByFirst(ring, name, rrset, sigs, i + 1, alg) <==>
            || SignedByFirst(ring, name, rrset, sigs, i, alg)
            || (sigs[i].alg == alg && Supports(ring, name, rrset, sigs[i]))
  {
    hide Supports;
  }

  lemma SignedByAll(ring: Keyring, name: Name, rrset: SignedSet, alg: Byte)
    requires rrset.sigs.Some?
    ensures SignedByFirst(ring, name, rrset, rrset.sigs.value, |rrset.sigs.value|, alg)
            <==> SignedWith(ring, name, rrset, alg)
  {
    hide Supports;
  }

  /** Marks exactly the active algorithms the RRset is not signed with. */
  method VerifySet(ring: Keyring, name: Name, rrset: SignedSet, act: array<bool>, bad: array<bool>)
    requires act != bad && act.Length == bad.Length == ALGORITHMS
    modifies bad
    ensures forall a: Byte :: bad[a] <==> old(bad[a]) || (act[a] && !SignedWith(ring, name, rrset, a))
  {
    if rrset.sigs.None? {
      for i := 0 to ALGORITHMS
        invariant forall a: Byte :: bad[a] <==> old(bad[a]) || (a < i && act[a])
      {
        if act[i] {
          bad[i] := true;
        }
      }
    } else {
      var found := FindAlgorithms(ring, name, rrset, rrset.sigs.value, act);
      forall a: Byte ensures found[a] <==> act[a] && SignedWith(ring, name, rrset, a) {
        SignedByAll(ring, name, rrset, a);
      }
      hide SignedByFirst, SignedWith;
      for i := 0 to ALGORITHMS
        invariant forall a: Byte :: found[a] <==> act[a] && SignedWith(ring, name, rrset, a)
        invariant forall a: Byte :: bad[a] <==> old(bad[a]) || (a < i && act[a] && !SignedWith(ring, name, rrset, a))
      {
        if act[i] && !found[i] {
          bad[i] := true;
        }
      }
    }
  }

  // ----- verifynode

  /** At a delegation only DS and NSEC are signed; signatures of the DNSKEY RRset are checked elsewhere. */
  predicate MustCheck(delegation: bool, t: RRType) { t != DNSKEY && (!delegation || t == DS || t == NSEC) }

  /** Some RRset to check among the first `n` lacks a signature of the algorithm. */
  ghost predicate Lacks(ring: Keyring, name: Name, sets: seq<SignedSet>, delegation: bool, n: nat, alg: Byte) {
    exists k :: 0 <= k < n <= |sets| && MustCheck(delegation, sets[k].rrtype) && !SignedWith(ring, name, sets[k], alg)
  }

  method VerifyNode(ring: Keyring, name: Name, sets: seq<SignedSet>, delegation: bool,
                    act: array<bool>, bad: array<bool>)
    requires act != bad && act.Length == bad.Length == ALGORITHMS
    modifies bad
    ensures forall a: Byte :: bad[a] <==> old(bad[a]) || (act[a] && Lacks(ring, name, sets, delegation, |sets|, a))
  {
    for i := 0 to |sets|
      invariant forall a: Byte :: bad[a] <==> old(bad[a]) || (act[a] && Lacks(ring, name, sets, delegation, i, a))
    {
      hide SignedWith;
      if MustCheck(delegation, sets[i].rrtype) {
        VerifySet(ring, name, sets[i], act, bad);
      }
      forall a: Byte
        ensures Lacks(ring, name, sets, delegation, i + 1, a) <==>
                || Lacks(ring, name, sets, delegation, i, a)
                || (MustCheck(delegation, sets[i].rrtype) && !SignedWith(ring, name, sets[i], a))
      {
        LacksNext(ring, name, sets, delegation, i, a);
      }
    }
  }

  lemma LacksNext(ring: Keyring, name: Name, sets: seq<SignedSet>, delegation: bool, i: nat, alg: Byte)
    requires i < |sets|
    ensures Lacks(ring, name, sets, delegation, i + 1, alg) <==>
            || Lacks(ring, name, sets, delegation, i, alg)
            || (MustCheck(delegation, sets[i].rrtype) && !SignedWith(ring, name, sets[i], alg))
  {
    hide SignedWith;
  }

  // ----- the key tables

  predicate ActiveKsk(k: DnsKey) { k.zone && !k.revoked && k.ksk && k.selfSigns }

  predicate ActiveZsk(k: DnsKey) { k.zone && !k.revoked && !k.ksk && (k.selfSigns || k.signsSoa) }

  predicate SelfSigningZsk(k: DnsKey) { k.zone && !k.revoked && !k.ksk && k.selfSigns }

  predicate BadRevokedKsk(k: DnsKey) { k.zone && k.revoked && k.ksk && !k.selfSigns }

  ghost predicate Any(keys: seq<DnsKey>, n: nat, p: DnsKey -> bool) {
    exists k :: 0 <= k < n <= |keys| && p(keys[k])
  }

  ghost function OfAlg(p: DnsKey -> bool, a: Byte): DnsKey -> bool { (k: DnsKey) => k.alg == a && p(k) }

  /** A counter per algorithm that stops at 255 and so never wraps to zero. */
  method Count(table: array<Byte>, alg: Byte)
    requires table.Length == ALGORITHMS
    modifies table
    ensures forall a: Byte :: table[a] != 0 <==> old(table[a]) != 0 || a == alg
  {
    if table[alg] != 255 {
      table[alg] := table[alg] + 1;
    }
  }

  method CountKeys(keys: seq<DnsKey>, ksk: array<Byte>, zsk: array<Byte>)
    returns (fatal: bool, goodksk: bool, goodzsk: bool)
    requires ksk != zsk && ksk.Length == zsk.Length == ALGORITHMS
    requires forall a: Byte :: ksk[a] == 0 && zsk[a] == 0
    modifies ksk, zsk
    ensures fatal <==> Any(keys, |keys|, BadRevokedKsk)
    ensures !fatal ==> (goodksk <==> Any(keys, |keys|, ActiveKsk)) && (goodzsk <==> Any(keys, |keys|, SelfSigningZsk))
    ensures !fatal ==> forall a: Byte :: ksk[a] != 0 <==> Any(keys, |keys|, OfAlg(ActiveKsk, a))
    ensures !fatal ==> forall a: Byte :: zsk[a] != 0 <==> Any(keys, |keys|, OfAlg(ActiveZsk, a))
  {
    goodksk, goodzsk := false, false;
    for i := 0 to |keys|
      invariant !Any(keys, i, BadRevokedKsk)
      invariant goodksk <==> Any(keys, i, ActiveKsk)
      invariant goodzsk <==> Any(keys, i, SelfSigningZsk)
      invariant forall a: Byte :: ksk[a] != 0 <==> Any(keys, i, OfAlg(ActiveKsk, a))
      invariant forall a: Byte :: zsk[a] != 0 <==> Any(keys, i, OfAlg(ActiveZsk, a))
    {
      var k := keys[i];
      AnyNext(keys, i, BadRevokedKsk);
      AnyNext(keys, i, ActiveKsk);
      AnyNext(keys, i, SelfSigningZsk);
      forall a: Byte
        ensures Any(keys, i + 1, OfAlg(ActiveKsk, a)) <==>
                Any(keys, i, OfAlg(ActiveKsk, a)) || (k.alg == a && ActiveKsk(k))
        ensures Any(keys, i + 1, OfAlg(ActiveZsk, a)) <==>
                Any(keys, i, OfAlg(ActiveZsk, a)) || (k.alg == a && ActiveZsk(k))
      {
        AnyNext(keys, i, OfAlg(ActiveKsk, a));
        AnyNext(keys, i, OfAlg(ActiveZsk, a));
      }
      hide Any, OfAlg;
      if !k.zone {
      } else if k.revoked {
        if k.ksk && !k.selfSigns {
          AnyGrows(keys, i + 1, |keys|, BadRevokedKsk);
          return true, goodksk, goodzsk;
        }
      } else if k.ksk {
        if k.selfSigns {
          Count(ksk, k.alg);
          goodksk := true;
        }
      } else if k.selfSigns {
        Count(zsk, k.alg);
        goodzsk := true;
      } else if k.signsSoa {
        Count(zsk, k.alg);
      }
    }
    fatal := false;
  }

  lemma AnyNext(keys: seq<DnsKey>, i: nat, p: DnsKey -> bool)
    requires i < |keys|
    ensures Any(keys, i + 1, p) <==> Any(keys, i, p) || p(keys[i])
  {
  }

  lemma AnyGrows(keys: seq<DnsKey>, i: nat, j: nat, p: DnsKey -> bool)
    requires Any(keys, i, p) && i <= j <= |keys|
    ensures Any(keys, j, p)
  {
  }

  // ----- verifyzone

  /** The contents of the zone: the RRsets of each ordinary node, and those of the nodes of the NSEC3 tree. */
  datatype Contents = Contents(sets: Name -> seq<SignedSet>, nsec3: seq<(Name, seq<SignedSet>)>)

  datatype Options = Options(ignoreKskFlag: bool, kskOnly: bool)

  ghost predicate InUse(ring: Keyring, opts: Options, a: Byte) {
    || Any(ring.keys, |ring.keys|, OfAlg(ActiveKsk, a))
    || (opts.ignoreKskFlag && Any(ring.keys, |ring.keys|, OfAlg(ActiveZsk, a)))
  }

  /** A self-signed key is there, and no revoked key-signing key fails to sign the key set. */
  ghost predicate KeysAccepted(ring: Keyring, opts: Options) {
    && !Any(ring.keys, |ring.keys|, BadRevokedKsk)
    && (|| Any(ring.keys, |ring.keys|, ActiveKsk)
        || (opts.ignoreKskFlag && Any(ring.keys, |ring.keys|, SelfSigningZsk)))
  }

  /** Key-signing and zone-signing keys come in the same algorithms, where both are asked for. */
  ghost predicate Paired(ring: Keyring, opts: Options, a: Byte) {
    opts.ignoreKskFlag || opts.kskOnly
    || (Any(ring.keys, |ring.keys|, OfAlg(ActiveKsk, a)) <==> Any(ring.keys, |ring.keys|, OfAlg(ActiveZsk, a)))
  }

  /** The RRset `k` of node `i` is authoritative data: in the zone, not below a delegation, and signed at one. */
  ghost predicate Authoritative(origin: Name, nodes: seq<Node>, contents: Contents, i: int, k: int) {
    && 0 <= i < |nodes| && InZone(origin, nodes[i]) && !Occluded(origin, nodes, nodes[i].name)
    && 0 <= k < |contents.sets(nodes[i].name)|
    && var t := contents.sets(nodes[i].name)[k].rrtype;
       if nodes[i].name != origin && Data(NS) in nodes[i].rrsets then t == DS || t == NSEC else t != DNSKEY
  }

  /** Every RRset that has to be signed is signed with the algorithm. */
  ghost predicate FullySigned(ring: Keyring, nodes: seq<Node>, contents: Contents, a: Byte) {
    && (forall i, k :: Authoritative(ring.origin, nodes, contents, i, k) ==>
                         SignedWith(ring, nodes[i].name, contents.sets(nodes[i].name)[k], a))
    && (forall j, k :: 0 <= j < |contents.nsec3| && 0 <= k < |contents.nsec3[j].1| ==>
                         contents.nsec3[j].1[k].rrtype != DNSKEY ==>
                           SignedWith(ring, contents.nsec3[j].0, contents.nsec3[j].1[k], a))
  }

  /** What full signing gives each authoritative RRset: a signature of the algorithm, and the key that verifies it. */
  lemma EveryRRsetHasSignature(ring: Keyring, nodes: seq<Node>, contents: Contents, a: Byte, i: int, k: int)
    returns (sig: Sig, key: DnsKey)
    requires FullySigned(ring, nodes, contents, a) && Authoritative(ring.origin, nodes, contents, i, k)
    ensures var rrset := contents.sets(nodes[i].name)[k];
            && rrset.sigs.Some? && sig in rrset.sigs.value && sig.originalTtl == rrset.ttl
            && key in ring.keys && key.alg == sig.alg == a && key.id == sig.id
            && ring.verifies(nodes[i].name, rrset, key, sig)
  {
    sig, key := SignedMeans(ring, nodes[i].name, contents.sets(nodes[i].name)[k], a);
  }

  ghost predicate VisitLacks(ring: Keyring, contents: Contents, v: Visit, a: Byte) {
    Lacks(ring, v.node.name, contents.sets(v.node.name), v.delegation, |contents.sets(v.node.name)|, a)
  }

  ghost predicate SomeVisitLacks(ring: Keyring, contents: Contents, visits: seq<Visit>, n: nat, a: Byte) {
    exists j :: 0 <= j < n <= |visits| && VisitLacks(ring, contents, visits[j], a)
  }

  method VerifyVisits(ring: Keyring, contents: Contents, visits: seq<Visit>, act: array<bool>, bad: array<bool>)
    requires act != bad && act.Length == bad.Length == ALGORITHMS
    modifies bad
    ensures forall a: Byte :: bad[a] <==> old(bad[a]) || (act[a] && SomeVisitLacks(ring, contents, visits, |visits|, a))
  {
    for i := 0 to |visits|
      invariant forall a: Byte :: bad[a] <==> old(bad[a]) || (act[a] && SomeVisitLacks(ring, contents, visits, i, a))
    {
      hide Lacks;
      var v := visits[i];
      VerifyNode(ring, v.node.name, contents.sets(v.node.name), v.delegation, act, bad);
      forall a: Byte
        ensures SomeVisitLacks(ring, contents, visits, i + 1, a) <==>
                SomeVisitLacks(ring, contents, visits, i, a) || VisitLacks(ring, contents, visits[i], a)
      {
        SomeVisitNext(ring, contents, visits, i, a);
      }
    }
  }

  lemma SomeVisitNext(ring: Keyring, contents: Contents, visits: seq<Visit>, i: nat, a: Byte)
    requires i < |visits|
    ensures SomeVisitLacks(ring, contents, visits, i + 1, a) <==>
            SomeVisitLacks(ring, contents, visits, i, a) || VisitLacks(ring, contents, visits[i], a)
  {
    hide VisitLacks;
  }

  ghost predicate SomeNsec3Lacks(ring: Keyring, nsec3: seq<(Name, seq<SignedSet>)>, n: nat, a: Byte) {
    exists j :: 0 <= j < n <= |nsec3| && Lacks(ring, nsec3[j].0, nsec3[j].1, false, |nsec3[j].1|, a)
  }

  method VerifyNsec3Nodes(ring: Keyring, nsec3: seq<(Name, seq<SignedSet>)>, act: array<bool>, bad: array<bool>)
    requires act != bad && act.Length == bad.Length == ALGORITHMS
    modifies bad
    ensures forall a: Byte :: bad[a] <==> old(bad[a]) || (act[a] && SomeNsec3Lacks(ring, nsec3, |nsec3|, a))
  {
    for i := 0 to |nsec3|
      invariant forall a: Byte :: bad[a] <==> old(bad[a]) || (act[a] && SomeNsec3Lacks(ring, nsec3, i, a))
    {
      hide Lacks;
      VerifyNode(ring, nsec3[i].0, nsec3[i].1, false, act, bad);
      forall a: Byte
        ensures SomeNsec3Lacks(ring, nsec3, i + 1, a) <==>
                SomeNsec3Lacks(ring, nsec3, i, a) || Lacks(ring, nsec3[i].0, nsec3[i].1, false, |nsec3[i].1|, a)
      {
        SomeNsec3Next(ring, nsec3, i, a);
      }
    }
  }

  lemma SomeNsec3Next(ring: Keyring, nsec3: seq<(Name, seq<SignedSet>)>, i: nat, a: Byte)
    requires i < |nsec3|
    ensures SomeNsec3Lacks(ring, nsec3, i + 1, a) <==>
            SomeNsec3Lacks(ring, nsec3, i, a) || Lacks(ring, nsec3[i].0, nsec3[i].1, false, |nsec3[i].1|, a)
  {
    hide Lacks;
  }

  /** A node without RRsets has no contents. */
  ghost predicate ContentsOf(nodes: seq<Node>, contents: Contents) {
    forall i :: 0 <= i < |nodes| && IsEmpty(nodes[i]) ==> contents.sets(nodes[i].name) == []
  }

  /** The walk visits every node with authoritative data, so what it finds missing is what is missing. */
  lemma VisitsCover(ring: Keyring, nodes: seq<Node>, contents: Contents, a: Byte)
    requires ContentsOf(nodes, contents)
    ensures var visits := VisitsTo(ring.origin, nodes, |nodes|);
            FullySigned(ring, nodes, contents, a) <==>
            && !SomeVisitLacks(ring, contents, visits, |visits|, a)
            && !SomeNsec3Lacks(ring, contents.nsec3, |contents.nsec3|, a)
  {
    var visits := VisitsTo(ring.origin, nodes, |nodes|);
    if SomeVisitLacks(ring, contents, visits, |visits|, a) {
      var j :| 0 <= j < |visits| && VisitLacks(ring, contents, visits[j], a);
      VisitIsAuthoritative(ring, nodes, contents, visits[j], a);
    }
    forall i, k | Authoritative(ring.origin, nodes, contents, i, k)
                  && !SignedWith(ring, nodes[i].name, contents.sets(nodes[i].name)[k], a)
      ensures SomeVisitLacks(ring, contents, visits, |visits|, a)
    {
      VisitOfNode(ring.origin, nodes, |nodes|, i);
      var v := VisitOf(ring.origin, nodes, i);
      assert VisitLacks(ring, contents, v, a);
      var j :| 0 <= j < |visits| && visits[j] == v;
    }
    Nsec3Covered(ring, contents, a);
    hide SignedWith, Lacks, VisitLacks, VisitsTo, Authoritative, SomeNsec3Lacks;
  }

  lemma Nsec3Covered(ring: Keyring, contents: Contents, a: Byte)
    ensures SomeNsec3Lacks(ring, contents.nsec3, |contents.nsec3|, a) <==>
            !(forall j, k :: 0 <= j < |contents.nsec3| && 0 <= k < |contents.nsec3[j].1| ==>
                               contents.nsec3[j].1[k].rrtype != DNSKEY ==>
                                 SignedWith(ring, contents.nsec3[j].0, contents.nsec3[j].1[k], a))
  {
    hide SignedWith;
  }

  lemma VisitIsAuthoritative(ring: Keyring, nodes: seq<Node>, contents: Contents, v: Visit, a: Byte)
    requires v in VisitsTo(ring.origin, nodes, |nodes|) && VisitLacks(ring, contents, v, a)
    ensures !FullySigned(ring, nodes, contents, a)
  {
    hide SignedWith;
    var i := VisitsMember(ring.origin, nodes, |nodes|, v);
    var sets := contents.sets(v.node.name);
    var k :| 0 <= k < |sets| && MustCheck(v.delegation, sets[k].rrtype) && !SignedWith(ring, v.node.name, sets[k], a);
    assert Authoritative(ring.origin, nodes, contents, i, k);
  }

  lemma {:induction false} VisitOfNode(origin: Name, nodes: seq<Node>, n: nat, i: nat)
    requires i < n <= |nodes| && Visited(origin, nodes, i)
    ensures VisitOf(origin, nodes, i) in VisitsTo(origin, nodes, n)
  {
    hide Visited, VisitOf;
    if i < n - 1 {
      VisitOfNode(origin, nodes, n - 1, i);
    }
  }

  /** The tables set up before the walk. */
  method SetTables(ring: Keyring, opts: Options, act: array<bool>, bad: array<bool>) returns (accepted: bool)
    requires act != bad && act.Length == bad.Length == ALGORITHMS
    requires forall a: Byte :: !bad[a]
    modifies act, bad
    ensures accepted <==> KeysAccepted(ring, opts)
    ensures accepted ==> forall a: Byte :: act[a] <==> InUse(ring, opts, a)
    ensures accepted ==> forall a: Byte :: bad[a] <==> !Paired(ring, opts, a)
  {
    hide Any, OfAlg;
    var ksk := new Byte[ALGORITHMS](_ => 0);
    var zsk := new Byte[ALGORITHMS](_ => 0);
    var fatal, goodksk, goodzsk := CountKeys(ring.keys, ksk, zsk);
    if fatal || !(goodksk || (opts.ignoreKskFlag && goodzsk)) {
      return false;
    }
    for i := 0 to ALGORITHMS
      invariant forall a: Byte :: ksk[a] != 0 <==> Any(ring.keys, |ring.keys|, OfAlg(ActiveKsk, a))
      invariant forall a: Byte :: zsk[a] != 0 <==> Any(ring.keys, |ring.keys|, OfAlg(ActiveZsk, a))
      invariant forall a: Byte :: a < i ==> (act[a] <==> InUse(ring, opts, a))
      invariant forall a: Byte :: !bad[a]
    {
      act[i] := if opts.ignoreKskFlag then ksk[i] != 0 || zsk[i] != 0 else ksk[i] != 0;
    }
    if !opts.ignoreKskFlag && !opts.kskOnly {
      for i := 0 to ALGORITHMS
        invariant forall a: Byte :: ksk[a] != 0 <==> Any(ring.keys, |ring.keys|, OfAlg(ActiveKsk, a))
        invariant forall a: Byte :: zsk[a] != 0 <==> Any(ring.keys, |ring.keys|, OfAlg(ActiveZsk, a))
        invariant forall a: Byte :: act[a] <==> InUse(ring, opts, a)
        invariant forall a: Byte :: bad[a] <==> a < i && !Paired(ring, opts, a)
      {
        if (ksk[i] != 0) != (zsk[i] != 0) {
          bad[i] := true;
        }
      }
    }
    accepted := true;
  }

  /**
    The verifier ends without a fatal error over signatures if and only if the keys are acceptable, no
    NSEC record is where none may be, and every authoritative RRset is signed with every algorithm in use.
   */
  method VerifySignatures(ring: Keyring, opts: Options, nodes: seq<Node>, contents: Contents) returns (passed: bool)
    requires ZoneOk(ring.origin, nodes) && ContentsOf(nodes, contents)
    ensures passed <==>
            && KeysAccepted(ring, opts)
            && !(exists i :: NsecForbidden(ring.origin, nodes, i) && Has(nodes[i], NSEC))
            && forall a: Byte :: Paired(ring, opts, a)
                                 && (InUse(ring, opts, a) ==> FullySigned(ring, nodes, contents, a))
    ensures passed ==> forall a: Byte :: InUse(ring, opts, a) ==> AllSetsSigned(ring, nodes, contents, a)
  {
    hide ZoneOk, KeysAccepted, Paired, InUse, FullySigned, AllSetsSigned, VisitsTo, NsecForbidden, Has;
    forall a: Byte ensures FullySigned(ring, nodes, contents, a) ==> AllSetsSigned(ring, nodes, contents, a) {
      FullySignedIff(ring, nodes, contents, a);
    }
    var act := new bool[ALGORITHMS](_ => false);
    var bad := new bool[ALGORITHMS](_ => false);
    var accepted := SetTables(ring, opts, act, bad);
    if !accepted {
      return false;
    }
    var fatal, visits := Walk(ring.origin, nodes);
    if fatal {
      return false;
    }
    VerifyVisits(ring, contents, visits, act, bad);
    VerifyNsec3Nodes(ring, contents.nsec3, act, bad);
    forall a: Byte
      ensures bad[a] <==> !Paired(ring, opts, a) || (InUse(ring, opts, a) && !FullySigned(ring, nodes, contents, a))
    {
      VisitsCover(ring, nodes, contents, a);
    }
    hide SomeVisitLacks, SomeNsec3Lacks;
    passed := true;
    for i := 0 to ALGORITHMS
      invariant passed <==> forall a: Byte :: a < i ==> !bad[a]
      invariant forall a: Byte :: bad[a] <==> !Paired(ring, opts, a)
                                              || (InUse(ring, opts, a) && !FullySigned(ring, nodes, contents, a))
    {
      if bad[i] {
        passed := false;
      }
    }
  }

  // ----- what passing means, set by set

  /** Every DS and NSEC set of a delegation is signed, and away from delegations every set but DNSKEY. */
  lemma SignedSetBySet(ring: Keyring, nodes: seq<Node>, contents: Contents, a: Byte, i: int, k: int)
    requires FullySigned(ring, nodes, contents, a)
    requires 0 <= i < |nodes| && ring.origin <= nodes[i].name && 0 <= k < |contents.sets(nodes[i].name)|
    requires forall d :: 0 <= d < |nodes| && ring.origin < nodes[d].name < nodes[i].name ==>
               Data(NS) !in nodes[d].rrsets
    requires var t := contents.sets(nodes[i].name)[k].rrtype;
             if nodes[i].name != ring.origin && Data(NS) in nodes[i].rrsets then t in {DS, NSEC} else t != Other(48)
    ensures SignedWith(ring, nodes[i].name, contents.sets(nodes[i].name)[k], a)
  {
    hide SignedWith;
    assert Authoritative(ring.origin, nodes, contents, i, k);
  }

  /** The set of node `i` is one that nobody signs: below or outside the zone, or NS and glue at a delegation. */
  ghost predicate Exempt(origin: Name, nodes: seq<Node>, i: int, t: RRType)
    requires 0 <= i < |nodes|
  {
    || !(origin <= nodes[i].name)
    || (exists d :: 0 <= d < |nodes| && origin < nodes[d].name < nodes[i].name && Data(NS) in nodes[d].rrsets)
    || (nodes[i].name != origin && Data(NS) in nodes[i].rrsets && t != DS && t != NSEC)
    || t == Other(48)
  }

  /** Every set of the ordinary tree that is not exempt is signed with the algorithm. */
  ghost predicate AllSetsSigned(ring: Keyring, nodes: seq<Node>, contents: Contents, a: Byte) {
    forall i, k :: 0 <= i < |nodes| && 0 <= k < |contents.sets(nodes[i].name)|
                   && !Exempt(ring.origin, nodes, i, contents.sets(nodes[i].name)[k].rrtype)
                   ==> SignedWith(ring, nodes[i].name, contents.sets(nodes[i].name)[k], a)
  }

  lemma FullySignedIff(ring: Keyring, nodes: seq<Node>, contents: Contents, a: Byte)
    ensures FullySigned(ring, nodes, contents, a) <==>
            && AllSetsSigned(ring, nodes, contents, a)
            && forall j, k :: 0 <= j < |contents.nsec3| && 0 <= k < |contents.nsec3[j].1| ==>
                                contents.nsec3[j].1[k].rrtype != Other(48) ==>
                                  SignedWith(ring, contents.nsec3[j].0, contents.nsec3[j].1[k], a)
  {
    hide SignedWith, Authoritative, Exempt;
    forall i, k
      ensures Authoritative(ring.origin, nodes, contents, i, k) <==>
              && 0 <= i < |nodes| && 0 <= k < |contents.sets(nodes[i].name)|
              && !Exempt(ring.origin, nodes, i, contents.sets(nodes[i].name)[k].rrtype)
    {
      AuthoritativeIndex(ring.origin, nodes, contents, i, k);
      if 0 <= i < |nodes| {
        ExemptIsNotAuthoritative(ring.origin, nodes, contents, i, k);
      }
    }
  }

  lemma AuthoritativeIndex(origin: Name, nodes: seq<Node>, contents: Contents, i: int, k: int)
    ensures Authoritative(origin, nodes, contents, i, k) ==> 0 <= i < |nodes| && 0 <= k < |contents.sets(nodes[i].name)|
  {
  }

  /** The same zone but for the signatures of exempt sets. */
  ghost predicate SameButExempt(origin: Name, nodes: seq<Node>, a: Contents, b: Contents) {
    && a.nsec3 == b.nsec3
    && forall i :: 0 <= i < |nodes| ==> SameSets(origin, nodes, i, a.sets(nodes[i].name), b.sets(nodes[i].name))
  }

  ghost predicate SameSets(origin: Name, nodes: seq<Node>, i: int, x: seq<SignedSet>, y: seq<SignedSet>)
    requires 0 <= i < |nodes|
  {
    && |x| == |y|
    && forall k :: 0 <= k < |x| ==>
                     x[k].rrtype == y[k].rrtype && (x[k] == y[k] || Exempt(origin, nodes, i, x[k].rrtype))
  }

  /** Whether exempt sets are signed makes no difference. */
  lemma ExemptSetsDoNotMatter(ring: Keyring, nodes: seq<Node>, a: Contents, b: Contents, alg: Byte)
    requires SameButExempt(ring.origin, nodes, a, b)
    ensures FullySigned(ring, nodes, a, alg) <==> FullySigned(ring, nodes, b, alg)
  {
    hide SignedWith;
    forall i, k
      ensures Authoritative(ring.origin, nodes, a, i, k) <==> Authoritative(ring.origin, nodes, b, i, k)
      ensures Authoritative(ring.origin, nodes, a, i, k) ==>
                a.sets(nodes[i].name)[k] == b.sets(nodes[i].name)[k]
    {
      if 0 <= i < |nodes| {
        assert SameSets(ring.origin, nodes, i, a.sets(nodes[i].name), b.sets(nodes[i].name));
        ExemptIsNotAuthoritative(ring.origin, nodes, a, i, k);
        ExemptIsNotAuthoritative(ring.origin, nodes, b, i, k);
      }
    }
  }

  lemma ExemptIsNotAuthoritative(origin: Name, nodes: seq<Node>, contents: Contents, i: int, k: int)
    requires 0 <= i < |nodes|
    ensures 0 <= k < |contents.sets(nodes[i].name)| ==>
              (Authoritative(origin, nodes, contents, i, k) <==>
               !Exempt(origin, nodes, i, contents.sets(nodes[i].name)[k].rrtype))
  {
  }

  /** Key `k` of the set is an active key-signing key, or an active zone-signing key, of the algorithm. */
  ghost predicate IsKskOf(ring: Keyring, k: int, a: Byte) {
    && 0 <= k < |ring.keys| && ring.keys[k].alg == a && ring.keys[k].zone && !ring.keys[k].revoked
    && ring.keys[k].ksk && ring.keys[k].selfSigns
  }

  ghost predicate IsZskOf(ring: Keyring, k: int, a: Byte) {
    && 0 <= k < |ring.keys| && ring.keys[k].alg == a && ring.keys[k].zone && !ring.keys[k].revoked
    && !ring.keys[k].ksk && (ring.keys[k].selfSigns || ring.keys[k].signsSoa)
  }

  /** Which algorithms count, and when they come in pairs, key by key. */
  lemma AlgorithmsIff(ring: Keyring, opts: Options, a: Byte)
    ensures InUse(ring, opts, a) <==>
            (exists k :: IsKskOf(ring, k, a)) || (opts.ignoreKskFlag && exists k :: IsZskOf(ring, k, a))
    ensures Paired(ring, opts, a) <==>
            || opts.ignoreKskFlag || opts.kskOnly
            || ((exists k :: IsKskOf(ring, k, a)) <==> (exists k :: IsZskOf(ring, k, a)))
  {
    assert Any(ring.keys, |ring.keys|, OfAlg(ActiveKsk, a)) <==> exists k :: IsKskOf(ring, k, a) by {
      if Any(ring.keys, |ring.keys|, OfAlg(ActiveKsk, a)) {
        var k :| 0 <= k < |ring.keys| && OfAlg(ActiveKsk, a)(ring.keys[k]);
        assert ring.keys[k].alg == a && ActiveKsk(ring.keys[k]);
        assert IsKskOf(ring, k, a);
      }
      if k :| IsKskOf(ring, k, a) {
        assert ring.keys[k].alg == a && ActiveKsk(ring.keys[k]);
        assert OfAlg(ActiveKsk, a)(ring.keys[k]);
      }
    }
    assert Any(ring.keys, |ring.keys|, OfAlg(ActiveZsk, a)) <==> exists k :: IsZskOf(ring, k, a) by {
      if Any(ring.keys, |ring.keys|, OfAlg(ActiveZsk, a)) {
        var k :| 0 <= k < |ring.keys| && OfAlg(ActiveZsk, a)(ring.keys[k]);
        assert ring.keys[k].alg == a && ActiveZsk(ring.keys[k]);
        assert IsZskOf(ring, k, a);
      }
      if k :| IsZskOf(ring, k, a) {
        assert ring.keys[k].alg == a && ActiveZsk(ring.keys[k]);
        assert OfAlg(ActiveZsk, a)(ring.keys[k]);
      }
    }
  }

  /** The key set is refused over a revoked KSK that does not sign it, or for want of a key that does. */
  lemma AcceptedIff(ring: Keyring, opts: Options)
    ensures KeysAccepted(ring, opts) <==>
            && (forall k :: k in ring.keys && k.zone && k.revoked && k.ksk ==> k.selfSigns)
            && exists k :: k in ring.keys && k.zone && !k.revoked && k.selfSigns && (k.ksk || opts.ignoreKskFlag)
  {
    if KeysAccepted(ring, opts) {
      if Any(ring.keys, |ring.keys|, ActiveKsk) {
        var j :| 0 <= j < |ring.keys| && ActiveKsk(ring.keys[j]);
        assert ring.keys[j] in ring.keys;
      } else {
        var j :| 0 <= j < |ring.keys| && SelfSigningZsk(ring.keys[j]);
        assert ring.keys[j] in ring.keys;
      }
    }
    if k :| k in ring.keys && k.zone && !k.revoked && k.selfSigns && (k.ksk || opts.ignoreKskFlag) {
      var j :| 0 <= j < |ring.keys| && ring.keys[j] == k;
      assert ActiveKsk(ring.keys[j]) || SelfSigningZsk(ring.keys[j]);
    }
  }

  /** A DNSKEY record that does not parse, with no key ahead of it that verifies, ends the search. */
  lemma UnparsableStops(ring: Keyring, name: Name, rrset: SignedSet, sig: Sig, j: int)
    requires 0 <= j < |ring.keys| && !ring.keys[j].parses
    requires forall k :: 0 <= k < j ==> !(sig.alg == ring.keys[k].alg && sig.id == ring.keys[k].id
                                          && ring.verifies(name, rrset, ring.keys[k], sig))
    ensures !Supports(ring, name, rrset, sig)
  {
  }

  /** Any key of the set that matches and verifies, with only records that parse ahead of it, is enough. */
  lemma OneKeyIsEnough(ring: Keyring, name: Name, rrset: SignedSet, sig: Sig, j: int)
    requires 0 <= j < |ring.keys| && (forall k :: 0 <= k <= j ==> ring.keys[k].parses)
    requires sig.alg == ring.keys[j].alg && sig.id == ring.keys[j].id && sig.signer == ring.origin
    requires ring.verifies(name, rrset, ring.keys[j], sig) && sig.originalTtl == rrset.ttl
    ensures Supports(ring, name, rrset, sig)
  {
    assert Vouches(ring, j, name, rrset, sig);
  }
}
