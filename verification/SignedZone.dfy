/**
  From the chain builders to the verifier, for whole zones: what `nsecify` or `nsec3ify` built, the worker
  tasks sign, `signname` hands to `signset`, and `verifyzone` checks.
 */
module SignedZone {
  import opened Names
  import opened Zone
  import opened NsecChain
  import opened Nsec3Chain
  import opened VerifyWalk
  import T = SignerTasks
  import V = VerifySigs
  import A = SignAndVerify

  // ----- signname

  function DenialType(mode: Denial): RRType { if mode.UseNsec? then NSEC else NSEC3 }

  /** At a delegation only the denial record and DS are signed. */
  predicate HandsOver(mode: Denial, delegation: bool, t: RRType) { !delegation || t == DS || t == DenialType(mode) }

  /** `signname`: the types given to `signset`, in iterator order, or the fatal error over a DS without NS. */
  method SignName(mode: Denial, origin: Name, n: Node, sets: seq<RRset>) returns (fatal: bool, handed: seq<RRType>)
    requires forall r :: r in sets <==> r in n.rrsets
    ensures fatal <==> Has(n, DS) && !IsDelegation(origin, n)
    ensures !fatal ==> forall t :: t in handed <==> Has(n, t) && HandsOver(mode, IsDelegation(origin, n), t)
    ensures !fatal ==> forall t :: t in handed <==>
              && Data(t) in n.rrsets
              && (n.name == origin || !Has(n, NS) || t == DS || (if mode.UseNsec? then t == NSEC else t == NSEC3))
  {
    var delegation := IsDelegation(origin, n);
    handed := [];
    for i := 0 to |sets|
      invariant Data(DS) in sets[..i] ==> delegation
      invariant forall t :: t in handed <==> Data(t) in sets[..i] && HandsOver(mode, delegation, t)
    {
      assert sets[..i + 1] == sets[..i] + [sets[i]];
      if sets[i].Data? && (!delegation || HandsOver(mode, delegation, sets[i].rrtype)) {
        if !delegation && sets[i].rrtype == DS {
          assert Data(DS) in sets;
          return true, handed;
        }
        handed := handed + [sets[i].rrtype];
      }
    }
    assert sets[..|sets|] == sets;
    fatal := false;
  }

  // ----- the zone handed to the workers

  /** The ordinary tree is what the chain builder left of `pre`. */
  ghost predicate BuiltFrom(job: T.Job, dsSets: Option<set<Name>>, pre: seq<Node>)
    requires job.plain <= |job.nodes|
  {
    && ZoneOk(job.origin, pre) && |pre| == job.plain
    && if job.mode.UseNsec? then NsecDone(job.origin, dsSets, pre, job.nodes[..job.plain], 0, |pre|)
       else forall i :: 0 <= i < |pre| ==> job.nodes[i] == Cleaned(UseNsec3, job.origin, dsSets, pre, i)
  }

  /** In NSEC mode the workers get the chain, and whatever stray NSEC records stand ahead of the origin. */
  lemma WantedIsChain(job: T.Job, dsSets: Option<set<Name>>, pre: seq<Node>, i: nat)
    requires i < job.plain <= |job.nodes| && job.mode.UseNsec? && BuiltFrom(job, dsSets, pre)
    ensures T.Wanted(job, i) <==> InChain(job.origin, pre, i) || StrayNsec(job.origin, pre, i)
  {
    var mid := job.nodes[..job.plain];
    SelfSigned(mid);
    NsecZoneShape(job.origin, dsSets, pre, mid, mid);
    NsecNodeAccepted(job.origin, dsSets, pre, mid, mid, i);
    ShapeFixesChain(job.origin, pre, mid);
    assert SameRole(pre[i], mid[i]) && mid[i] == job.nodes[i];
    var o := OriginIsFirst(job.origin, pre);
    NameOrder();
    if !NsecForbidden(job.origin, mid, i) && !Active(pre[i]) {
      InactiveIsEmptied(UseNsec, job.origin, dsSets, pre, i);
    }
  }

  lemma SelfSigned(z: seq<Node>)
    ensures SignedFrom(z, z)
  {
  }

  /** The RRsets of the zone, node by node; the NSEC3 tree holds NSEC3 RRsets or nothing. */
  ghost predicate Describes(job: T.Job, contents: V.Contents)
    requires job.plain <= |job.nodes|
  {
    && (forall i, k :: 0 <= i < job.plain && 0 <= k < |contents.sets(job.nodes[i].name)| ==>
                         Has(job.nodes[i], contents.sets(job.nodes[i].name)[k].rrtype))
    && |contents.nsec3| == |job.nodes| - job.plain
    && forall j :: 0 <= j < |contents.nsec3| ==>
                     && contents.nsec3[j].0 == job.nodes[job.plain + j].name
                     && !Has(job.nodes[job.plain + j], NS)
                     && (contents.nsec3[j].1 != [] ==> job.mode.UseNsec3? && Has(job.nodes[job.plain + j], NSEC3))
  }

  /** What the verifier must check lies at the origin or at a node sent to a worker, and `signname` hands it over. */
  lemma AuthoritativeIsHanded(job: T.Job, o: nat, dsSets: Option<set<Name>>, pre: seq<Node>, contents: V.Contents,
                              i: nat, k: nat)
    requires T.JobOk(job, o) && BuiltFrom(job, dsSets, pre) && Describes(job, contents)
    requires V.Authoritative(job.origin, job.nodes[..job.plain], contents, i, k)
    ensures i < job.plain && T.Wanted(job, i)
    ensures HandsOver(job.mode, IsDelegation(job.origin, job.nodes[i]), contents.sets(job.nodes[i].name)[k].rrtype)
  {
    var mid := job.nodes[..job.plain];
    assert mid[i] == job.nodes[i];
    if job.mode.UseNsec? {
      HeldIsInChain(job, dsSets, pre, i, contents.sets(job.nodes[i].name)[k].rrtype);
      WantedIsChain(job, dsSets, pre, i);
    } else {
      NsecIsRemoved(job, dsSets, pre, i);
    }
  }

  lemma HeldIsInChain(job: T.Job, dsSets: Option<set<Name>>, pre: seq<Node>, i: nat, t: RRType)
    requires i < job.plain <= |job.nodes| && job.mode.UseNsec? && BuiltFrom(job, dsSets, pre)
    requires InZone(job.origin, job.nodes[i]) && !Occluded(job.origin, job.nodes[..job.plain], job.nodes[i].name)
    requires Has(job.nodes[i], t)
    ensures InChain(job.origin, pre, i)
  {
    var mid := job.nodes[..job.plain];
    assert mid[i] == job.nodes[i];
    SelfSigned(mid);
    NsecZoneShape(job.origin, dsSets, pre, mid, mid);
    ShapeFixesChain(job.origin, pre, mid);
    assert SameRole(pre[i], mid[i]);
    NotBeforeOrigin(job.origin, pre[i].name);
    assert mid[i] == NsecNode(job.origin, dsSets, pre, i);
    if !Active(pre[i]) {
      InactiveIsEmptied(UseNsec, job.origin, dsSets, pre, i);
    }
  }

  lemma NsecIsRemoved(job: T.Job, dsSets: Option<set<Name>>, pre: seq<Node>, i: nat)
    requires i < job.plain <= |job.nodes| && job.mode.UseNsec3? && BuiltFrom(job, dsSets, pre)
    requires InZone(job.origin, job.nodes[i])
    ensures !Has(job.nodes[i], NSEC)
  {
    NotBeforeOrigin(job.origin, pre[i].name);
    assert Data(NSEC) !in AfterActive(UseNsec3, pre[i]).rrsets;
  }

  lemma NotBeforeOrigin(origin: Name, x: Name)
    requires IsSubdomain(x, origin)
    ensures !NameLess(x, origin)
  {
    NameOrder();
    if x != origin {
      PrefixIsLess(origin, x);
    }
  }

  // ----- a finished run

  /** The node is the origin, signed before the workers start, or a worker has signed it. */
  ghost predicate Reached(last: T.State, o: nat, i: nat) { i == o || multiset(last.signed)[i] == 1 }

  /** When the tasks have shut down, every RRset the verifier must check lies at a node signed exactly once. */
  lemma EveryRRsetIsReached(job: T.Job, o: nat, dsSets: Option<set<Name>>, pre: seq<Node>, contents: V.Contents,
                            sts: seq<T.State>, events: seq<T.Event>, i: nat, k: nat)
    requires T.JobOk(job, o) && BuiltFrom(job, dsSets, pre) && Describes(job, contents)
    requires T.Run(job, o, sts, events) && sts[|events|].shutdowns == 1
    requires V.Authoritative(job.origin, job.nodes[..job.plain], contents, i, k)
    ensures Reached(sts[|events|], o, i)
  {
    hide BuiltFrom, Describes, T.Enabled, T.Next, T.Initial, T.Wanted;
    AuthoritativeIsHanded(job, o, dsSets, pre, contents, i, k);
    T.EveryRunEnds(job, o, sts, events);
    assert T.Complete(job, o, sts[|events|], i);
  }

  lemma EveryNsec3IsReached(job: T.Job, o: nat, contents: V.Contents, sts: seq<T.State>, events: seq<T.Event>, j: nat)
    requires T.JobOk(job, o) && Describes(job, contents) && j < |contents.nsec3| && contents.nsec3[j].1 != []
    requires T.Run(job, o, sts, events) && sts[|events|].shutdowns == 1
    ensures Reached(sts[|events|], o, job.plain + j)
  {
    hide T.Enabled, T.Next, T.Initial, T.Wanted, ZoneOk;
    T.EveryRunEnds(job, o, sts, events);
    assert T.Complete(job, o, sts[|events|], job.plain + j);
  }

  // ----- from the signer to the verifier

  function SetsOf(job: T.Job, contents: V.Contents, i: nat): seq<V.SignedSet>
    requires job.plain <= i < |job.nodes| ==> |contents.nsec3| == |job.nodes| - job.plain
    requires i < |job.nodes|
  {
    if i < job.plain then contents.sets(job.nodes[i].name) else contents.nsec3[i - job.plain].1
  }

  /** One call of `signset`, with a key of the algorithm that signs, is published and is not blocked. */
  ghost predicate WellSigned(t: A.Setting, ring: V.Keyring, name: Name, rrset: V.SignedSet, alg: Byte) {
    && t.ring == ring && t.name == name && t.rrset == rrset
    && A.KeyPublished(t) && A.HandedOver(t) && A.CryptoSound(t) && A.NotBlocked(t)
    && t.keys[t.p].tag.alg == alg
  }

  /** Every RRset that `signname` handed over at a node reached by the run was well signed. */
  ghost predicate RunSigns(job: T.Job, o: nat, contents: V.Contents, last: T.State, ring: V.Keyring, alg: Byte,
                           setting: (nat, nat) -> A.Setting)
    requires job.plain <= |job.nodes| && Describes(job, contents)
  {
    forall i: nat, k: nat ::
      i < |job.nodes| && k < |SetsOf(job, contents, i)| && Reached(last, o, i)
      && HandsOver(job.mode, IsDelegation(job.origin, job.nodes[i]), SetsOf(job, contents, i)[k].rrtype)
      ==> WellSigned(setting(i, k), ring, job.nodes[i].name, SetsOf(job, contents, i)[k], alg)
  }

  lemma AuthoritativeAfterSigning(job: T.Job, z: seq<Node>, contents: V.Contents, i: nat, k: nat)
    requires job.plain <= |job.nodes| && SignedFrom(job.nodes[..job.plain], z)
    requires V.Authoritative(job.origin, z, contents, i, k)
    ensures V.Authoritative(job.origin, job.nodes[..job.plain], contents, i, k)
    ensures i < job.plain && job.nodes[i].name == z[i].name
  {
    var mid := job.nodes[..job.plain];
    SigningKeepsShape(mid, z);
    ShapeFixesChain(job.origin, mid, z);
    assert SameRole(mid[i], z[i]);
  }

  /**
    The whole way: a zone built by `nsecify` or `nsec3ify`, signed by any finished run of the worker tasks
    with a suitable key of an algorithm, is fully signed with that algorithm in the verifier's eyes.
   */
  lemma ZoneIsFullySigned(job: T.Job, o: nat, dsSets: Option<set<Name>>, pre: seq<Node>, z: seq<Node>,
                          contents: V.Contents, sts: seq<T.State>, events: seq<T.Event>, ring: V.Keyring, alg: Byte,
                          setting: (nat, nat) -> A.Setting)
    requires T.JobOk(job, o) && BuiltFrom(job, dsSets, pre) && Describes(job, contents)
    requires T.Run(job, o, sts, events) && sts[|events|].shutdowns == 1
    requires SignedFrom(job.nodes[..job.plain], z) && ring.origin == job.origin
    requires RunSigns(job, o, contents, sts[|events|], ring, alg, setting)
    ensures V.FullySigned(ring, z, contents, alg)
  {
    hide T.JobOk, T.Run, BuiltFrom, SignedFrom, V.Authoritative, V.SignedWith, HandsOver, WellSigned, Reached;
    forall i, k | V.Authoritative(ring.origin, z, contents, i, k)
      ensures 0 <= i < |z| && 0 <= k < |contents.sets(z[i].name)|
      ensures V.SignedWith(ring, z[i].name, contents.sets(z[i].name)[k], alg)
    {
      Indexed(ring.origin, z, contents, i, k);
      AuthoritativeAfterSigning(job, z, contents, i, k);
      AuthoritativeIsHanded(job, o, dsSets, pre, contents, i, k);
      EveryRRsetIsReached(job, o, dsSets, pre, contents, sts, events, i, k);
      SettingVerifies(setting(i, k), ring, job.nodes[i].name, SetsOf(job, contents, i)[k], alg);
    }
    forall j, k | 0 <= j < |contents.nsec3| && 0 <= k < |contents.nsec3[j].1|
      ensures V.SignedWith(ring, contents.nsec3[j].0, contents.nsec3[j].1[k], alg)
    {
      EveryNsec3IsReached(job, o, contents, sts, events, j);
      var i := job.plain + j;
      NotDelegated(job.mode, job.origin, job.nodes[i], SetsOf(job, contents, i)[k].rrtype);
      SettingVerifies(setting(i, k), ring, job.nodes[i].name, SetsOf(job, contents, i)[k], alg);
    }
  }

  lemma Indexed(origin: Name, z: seq<Node>, contents: V.Contents, i: int, k: int)
    requires V.Authoritative(origin, z, contents, i, k)
    ensures 0 <= i < |z| && 0 <= k < |contents.sets(z[i].name)|
  {
  }

  lemma NotDelegated(mode: Denial, origin: Name, n: Node, t: RRType)
    requires !Has(n, NS)
    ensures HandsOver(mode, IsDelegation(origin, n), t)
  {
  }

  lemma SettingVerifies(t: A.Setting, ring: V.Keyring, name: Name, rrset: V.SignedSet, alg: Byte)
    requires WellSigned(t, ring, name, rrset, alg)
    ensures V.SignedWith(ring, name, rrset, alg)
  {
    A.SignedThenVerified(t);
  }
}
