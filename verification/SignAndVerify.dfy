/**
  The signer's `signset` (bin/dnssec/dnssec-signzone.c) and the verifier's `verifyset`
  (bin/dnssec/dnssectool.c) on one RRset: when what the first leaves satisfies the second.
 */
module SignAndVerify {
  import opened Names
  import S = SignSet
  import V = VerifySigs

  /** A signature as the verifier reads it; `wire` stands for the fields it passes on to the cryptographic check. */
  function View(wire: S.Sig -> nat, s: S.Sig): V.Sig {
    V.Sig(s.tag.alg, s.tag.id, s.tag.signer, s.originalTtl, wire(s))
  }

  /** One RRset as the two tools see it, and a signing key together with its DNSKEY record. */
  datatype Setting = Setting(env: S.Env, target: S.Target, keys: seq<S.Key>, oldTtl: nat, sigs: seq<S.Sig>, p: nat,
                             wire: S.Sig -> nat, ring: V.Keyring, name: Name, rrset: V.SignedSet, k: nat)

  ghost function Outcome(t: Setting): S.Work { S.Completed(t.env, t.target, t.keys, t.oldTtl, t.sigs, |t.keys|) }

  ghost predicate Verified(t: Setting, s: S.Sig)
    requires t.k < |t.ring.keys|
  {
    t.ring.verifies(t.name, t.rrset, t.ring.keys[t.k], View(t.wire, s))
  }

  /** The key signs RRsets like this one, and its public half stands in a DNSKEY RRset whose records all parse. */
  ghost predicate KeyPublished(t: Setting) {
    && t.p < |t.keys| && S.IsSigning(t.keys[t.p]) && S.InRole(t.env, t.target, t.keys, t.p)
    && t.k < |t.ring.keys|
    && (forall j :: 0 <= j < |t.ring.keys| ==> t.ring.keys[j].parses)
    && t.keys[t.p].tag == S.Tag(t.ring.keys[t.k].id, t.ring.keys[t.k].alg, t.ring.origin)
  }

  /** The verifier reads the RRset the signer signed, with exactly the signatures the signer left. */
  ghost predicate HandedOver(t: Setting) {
    && t.rrset.ttl == t.target.ttl && t.rrset.sigs.Some?
    && (forall r :: r in S.Applied(t.sigs, t.oldTtl, Outcome(t)) ==> View(t.wire, r.sig) in t.rrset.sigs.value)
    && (forall v :: v in t.rrset.sigs.value ==>
                      exists r :: r in S.Applied(t.sigs, t.oldTtl, Outcome(t)) && v == View(t.wire, r.sig))
  }

  /** Cryptography: signatures just made verify, and both tools use the same check. */
  ghost predicate CryptoSound(t: Setting)
    requires KeyPublished(t)
  {
    && (forall n :: Verified(t, S.Fresh(t.env, t.target, t.keys[t.p], n).sig))
    && (forall s :: t.env.verifies(t.keys[t.p], s) ==> Verified(t, s))
  }

  /** No signature by the key is dated ahead, or another of its signatures was examined. */
  ghost predicate NotBlocked(t: Setting)
    requires t.p < |t.keys|
  {
    || (forall s :: s in t.sigs ==> !S.DatedAhead(t.env, t.keys, s, t.p))
    || (exists s :: s in t.sigs && S.Examined(t.env, t.keys, s, t.p))
  }

  lemma Accepts(t: Setting, r: S.Record)
    requires KeyPublished(t) && HandedOver(t) && r in S.Applied(t.sigs, t.oldTtl, Outcome(t))
    requires r.sig.tag == t.keys[t.p].tag && r.sig.originalTtl == t.target.ttl && Verified(t, r.sig)
    ensures V.SignedWith(t.ring, t.name, t.rrset, t.keys[t.p].tag.alg)
  {
    hide S.Applied, S.Completed, S.InRole;
    var v := View(t.wire, r.sig);
    assert V.Vouches(t.ring, t.k, t.name, t.rrset, v);
    assert V.Supports(t.ring, t.name, t.rrset, v);
  }

  /** What `signset` leaves for a signing key in its role satisfies `verifyset` for the key's algorithm. */
  lemma {:induction false} SignedThenVerified(t: Setting)
    requires KeyPublished(t) && HandedOver(t) && CryptoSound(t) && NotBlocked(t)
    ensures V.SignedWith(t.ring, t.name, t.rrset, t.keys[t.p].tag.alg)
  {
    hide S.Completed, S.InRole, S.DatedAhead, S.Examined, S.JudgeAt, S.Applied, HandedOver, V.SignedWith;
    S.CurrentIff(t.env, t.target, t.keys, t.oldTtl, t.sigs, t.p);
    var w := Outcome(t);
    var r: S.Record;
    if t.p in w.made {
      var m :| 0 <= m < |w.made| && w.made[m] == t.p;
      r := S.Fresh(t.env, t.target, t.keys[t.p], m);
      assert S.IsFresh(t.env, t.target, t.keys, w.made, r);
    } else {
      var s :| s in t.sigs && S.StaysValid(t.env, t.target, t.keys, s, t.p);
      r := S.Record(s, S.SigTtl(t.env, t.target));
    }
    S.SignaturesAfter(t.env, t.target, t.keys, t.oldTtl, t.sigs, w, r);
    Accepts(t, r);
  }

  /** The key is the only one of its algorithm, and the verifier refuses signatures not valid yet. */
  ghost predicate OnlyKey(t: Setting)
    requires KeyPublished(t)
  {
    && (forall q :: 0 <= q < |t.keys| && t.keys[q].tag.alg == t.keys[t.p].tag.alg ==> q == t.p)
    && (forall s :: s in t.sigs && s.tag.alg == t.keys[t.p].tag.alg ==> s.tag == t.keys[t.p].tag)
    && (forall j, s :: 0 <= j < |t.ring.keys| && S.Future(t.env, s) ==>
                         !t.ring.verifies(t.name, t.rrset, t.ring.keys[j], View(t.wire, s)))
  }

  /** The condition is exact: blocked by a signature dated ahead, the algorithm is reported as missing. */
  lemma {:induction false} BlockedIsRejected(t: Setting)
    requires KeyPublished(t) && HandedOver(t) && OnlyKey(t) && !NotBlocked(t)
    ensures !V.SignedWith(t.ring, t.name, t.rrset, t.keys[t.p].tag.alg)
  {
    hide S.Completed, S.InRole, S.JudgeAt, S.Applied;
    if V.SignedWith(t.ring, t.name, t.rrset, t.keys[t.p].tag.alg) {
      var v :| v in t.rrset.sigs.value && v.alg == t.keys[t.p].tag.alg && V.Supports(t.ring, t.name, t.rrset, v);
      var r :| r in S.Applied(t.sigs, t.oldTtl, Outcome(t)) && v == View(t.wire, r.sig);
      var j :| V.Vouches(t.ring, j, t.name, t.rrset, v);
      OnlyFutureLeft(t, r);
      assert false;
    }
  }

  lemma OnlyFutureLeft(t: Setting, r: S.Record)
    requires KeyPublished(t) && OnlyKey(t) && !NotBlocked(t)
    requires r in S.Applied(t.sigs, t.oldTtl, Outcome(t)) && r.sig.tag.alg == t.keys[t.p].tag.alg
    ensures S.Future(t.env, r.sig)
  {
    hide S.Completed, S.InRole, S.JudgeAt, S.Applied, S.Fresh;
    var w := Outcome(t);
    S.CurrentIff(t.env, t.target, t.keys, t.oldTtl, t.sigs, t.p);
    assert t.p !in w.made;
    S.SignaturesAfter(t.env, t.target, t.keys, t.oldTtl, t.sigs, w, r);
    if S.IsFresh(t.env, t.target, t.keys, w.made, r) {
      FreshAlg(t, r);
    } else {
      OwnSignature(t, r.sig);
      S.VerdictOnOwn(t.env, t.target, t.keys, r.sig, t.p);
    }
  }

  lemma FreshAlg(t: Setting, r: S.Record)
    requires KeyPublished(t) && OnlyKey(t) && S.IsFresh(t.env, t.target, t.keys, Outcome(t).made, r)
    requires r.sig.tag.alg == t.keys[t.p].tag.alg
    ensures t.p in Outcome(t).made
  {
    hide S.Completed, S.InRole;
    var made := Outcome(t).made;
    var m :| 0 <= m < |made| && made[m] < |t.keys| && r == S.Fresh(t.env, t.target, t.keys[made[m]], m);
  }

  lemma OwnSignature(t: Setting, s: S.Sig)
    requires KeyPublished(t) && OnlyKey(t) && s in t.sigs && s.tag.alg == t.keys[t.p].tag.alg
    ensures S.FindKey(t.keys, s.tag) == Some(t.p)
  {
    hide S.InRole;
    assert t.keys[t.p].tag == s.tag;
  }
}
