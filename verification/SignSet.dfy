/**
  Deciding which signatures over one RRset stay, go or are made again
  (`signset`, `keythatsigned`, bin/dnssec/dnssec-signzone.c).
 */
module SignSet {
  import opened Names
  import opened Serials

  /** How a signature names the key that made it. */
  datatype Tag = Tag(id: nat, alg: Byte, signer: Name)

  /** A `dns_dnsseckey_t`; its `index` is its place in the key list. */
  datatype Key = Key(tag: Tag, ksk: bool, zoneKey: bool, active: bool, revoked: bool, forceSign: bool, hintSign: bool,
                     forcePublish: bool, hintPublish: bool, hintRemove: bool)

  /** A key file, as far as it matters here. */
  datatype KeyFile = KeyFile(ksk: bool, zoneKey: bool, active: bool, revoked: bool)

  datatype Sig = Sig(tag: Tag, timeSigned: Serial, timeExpire: Serial, originalTtl: nat, data: nat)

  /** A signature as it stands in the database or in a difference. */
  datatype Record = Record(sig: Sig, ttl: nat)

  datatype Kind = Dnskey | CdsOrCdnskey | Ordinary

  /** The RRset to sign; `atOrigin` says whether its owner is the origin. */
  datatype Target = Target(kind: Kind, atOrigin: bool, ttl: nat)

  /** The options, the clock, and what lies outside: key files, zone contents and cryptography. */
  datatype Env = Env(origin: Name, now: Serial, cycle: nat, start: Serial, end: Serial,
                     removeOrphanSigs: bool, removeInactKeySigs: bool, ignoreKskFlag: bool, kskOnly: bool,
                     onDisk: Tag -> Option<KeyFile>, expectKey: Name -> bool,
                     verifies: (Key, Sig) -> bool, expiry: nat -> Serial, seal: (Key, nat) -> nat)

  /** The differences to apply, and the keys signed with, in order. */
  datatype Work = Work(del: seq<Record>, add: seq<Record>, made: seq<nat>)

  // ----- roles of a key

  predicate IsSigning(k: Key) { k.forceSign || k.hintSign }

  predicate IsPublished(k: Key) { (k.forcePublish || k.hintPublish) && !k.hintRemove }

  predicate IsZoneKey(env: Env, k: Key) { k.tag.signer == env.origin && k.zoneKey }

  predicate IsZsk(env: Env, k: Key) { env.ignoreKskFlag || !k.ksk }

  // ----- keythatsigned

  /** The first key with the tag. */
  function FindKey(keys: seq<Key>, tag: Tag): (r: Option<nat>)
    ensures r.Some? ==> r.value < |keys| && keys[r.value].tag == tag
    ensures r.Some? ==> forall p :: 0 <= p < r.value ==> keys[p].tag != tag
    ensures r.None? ==> forall p :: 0 <= p < |keys| ==> keys[p].tag != tag
  {
    if keys == [] then None
    else
      var r := FindKey(keys[..|keys| - 1], tag);
      if r.Some? then r else if keys[|keys| - 1].tag == tag then Some(|keys| - 1) else None
  }

  function Loaded(tag: Tag, f: KeyFile): Key {
    Key(tag, f.ksk, f.zoneKey, f.active, f.revoked, false, false, false, false, false)
  }

  /** A key from disk takes its flags from the file and is neither published nor signing. */
  lemma LoadedFlags(tag: Tag, f: KeyFile)
    ensures var k := Loaded(tag, f);
            && k.tag == tag && KeyFile(k.ksk, k.zoneKey, k.active, k.revoked) == f
            && !IsSigning(k) && !IsPublished(k) && !k.hintRemove
  {
  }

  /** The key list after a signature's key has been looked for, on disk if need be. */
  function Load(env: Env, keys: seq<Key>, tag: Tag): (r: seq<Key>)
    ensures keys <= r && |r| <= |keys| + 1
  {
    if FindKey(keys, tag).None? && env.onDisk(tag).Some? then keys + [Loaded(tag, env.onDisk(tag).value)] else keys
  }

  function LoadAll(env: Env, keys: seq<Key>, sigs: seq<Sig>, n: nat): (r: seq<Key>)
    requires n <= |sigs|
    ensures keys <= r && |r| <= |keys| + n
  {
    if n == 0 then keys else Load(env, LoadAll(env, keys, sigs, n - 1), sigs[n - 1].tag)
  }

  lemma FindInPrefix(a: seq<Key>, b: seq<Key>, tag: Tag)
    requires a <= b && FindKey(a, tag).Some?
    ensures FindKey(b, tag) == FindKey(a, tag)
  {
    var p := FindKey(a, tag).value;
    assert b[p].tag == tag;
    assert forall q :: 0 <= q < p ==> b[q] == a[q];
  }

  /** What a signature's key was when it was looked up is what it is in the final list. */
  lemma {:induction false} LookupIsStable(env: Env, keys: seq<Key>, sigs: seq<Sig>, n: nat, m: nat)
    requires n < m <= |sigs|
    ensures FindKey(LoadAll(env, keys, sigs, n + 1), sigs[n].tag) == FindKey(LoadAll(env, keys, sigs, m), sigs[n].tag)
    decreases m
  {
    hide Load, FindKey;
    if n + 1 < m {
      LookupIsStable(env, keys, sigs, n, m - 1);
      LoadedOrAbsent(env, LoadAll(env, keys, sigs, n), sigs[n].tag);
      LoadKeeps(env, LoadAll(env, keys, sigs, m - 1), sigs[m - 1].tag, sigs[n].tag);
    }
  }

  lemma LoadKeeps(env: Env, keys: seq<Key>, other: Tag, tag: Tag)
    requires FindKey(keys, tag).Some? || env.onDisk(tag).None?
    ensures FindKey(Load(env, keys, other), tag) == FindKey(keys, tag)
  {
    if FindKey(keys, tag).Some? {
      FindInPrefix(keys, Load(env, keys, other), tag);
    }
  }

  lemma LoadedOrAbsent(env: Env, keys: seq<Key>, tag: Tag)
    ensures FindKey(Load(env, keys, tag), tag).None? ==> env.onDisk(tag).None?
  {
    if FindKey(keys, tag).None? && env.onDisk(tag).Some? {
      var r := Load(env, keys, tag);
      assert r[|r| - 1].tag == tag;
    }
  }

  /** Keys taken from disk never sign. */
  lemma {:induction false} LoadedDoNotSign(env: Env, keys: seq<Key>, sigs: seq<Sig>, n: nat, p: nat)
    requires n <= |sigs| && |keys| <= p < |LoadAll(env, keys, sigs, n)|
    ensures !IsSigning(LoadAll(env, keys, sigs, n)[p])
  {
    if n != 0 {
      var before := LoadAll(env, keys, sigs, n - 1);
      assert LoadAll(env, keys, sigs, n) == Load(env, before, sigs[n - 1].tag);
      if p < |before| {
        LoadedDoNotSign(env, keys, sigs, n - 1, p);
      }
    }
  }

  // ----- the verdict on one signature

  datatype Verdict = Keep | Drop | Resign

  function KeyOf(keys: seq<Key>, tag: Tag): Option<Key> {
    match FindKey(keys, tag) case Some(p) => Some(keys[p]) case None => None
  }

  predicate Future(env: Env, s: Sig) { SerialLt(env.now, s.timeSigned) }

  predicate Inverted(s: Sig) { SerialGt(s.timeSigned, s.timeExpire) }

  /** Signing keys replace their signatures a cycle early. */
  predicate Expired(env: Env, key: Option<Key>, s: Sig) {
    SerialGt(if key.Some? && IsSigning(key.value) then SerialAdd(env.now, env.cycle) else env.now, s.timeExpire)
  }

  predicate Good(env: Env, rrset: Target, key: Key, s: Sig) {
    !Expired(env, Some(key), s) && s.originalTtl == rrset.ttl && env.verifies(key, s)
  }

  function Judge(env: Env, rrset: Target, key: Option<Key>, s: Sig): Verdict {
    if Inverted(s) || (key.None? && !Future(env, s) && env.expectKey(s.tag.signer)) then Drop
    else if key.None? || Future(env, s) then
      if !Expired(env, key, s) && !env.removeOrphanSigs then Keep else Drop
    else if !key.value.active && env.removeInactKeySigs then Drop
    else if IsSigning(key.value) then if Good(env, rrset, key.value, s) then Keep else Resign
    else if !IsPublished(key.value) && env.removeOrphanSigs then Drop
    else if IsZoneKey(env, key.value) then if Good(env, rrset, key.value, s) then Keep else Drop
    else if !Expired(env, key, s) then Keep else Drop
  }

  /**
    The verdict, field by field.  A signature with an inverted period, or past its end, goes.  One whose key is
    not found, or that is not valid yet, stays unless orphans are removed or the key should have been found.
    One by a signing key, or by a published key of the zone, must verify and carry the RRset's TTL; a signing
    key makes it again if it does not.
   */
  lemma VerdictIff(env: Env, rrset: Target, key: Option<Key>, s: Sig)
    ensures var future := SerialLt(env.now, s.timeSigned);
            var signing := key.Some? && (key.value.forceSign || key.value.hintSign);
            var published := key.Some? && (key.value.forcePublish || key.value.hintPublish) && !key.value.hintRemove;
            var ofZone := key.Some? && key.value.tag.signer == env.origin && key.value.zoneKey;
            var inverted := SerialGt(s.timeSigned, s.timeExpire);
            var expired := SerialGt(if signing then (env.now + env.cycle) % TWO_32 else env.now, s.timeExpire);
            var examined := key.Some? && !future && !inverted && (key.value.active || !env.removeInactKeySigs);
            && (Judge(env, rrset, key, s) == Keep <==>
                && !inverted && !expired
                && (key.None? || future ==> !env.removeOrphanSigs && (future || !env.expectKey(s.tag.signer)))
                && (key.Some? && !future ==>
                      && examined && (signing || published || !env.removeOrphanSigs)
                      && (signing || ofZone ==> s.originalTtl == rrset.ttl && env.verifies(key.value, s))))
            && (Judge(env, rrset, key, s) == Resign <==>
                examined && signing && (expired || s.originalTtl != rrset.ttl || !env.verifies(key.value, s)))
  {
  }

  // ----- the differences

  function SigTtl(env: Env, rrset: Target): nat {
    var life := SerialSub(env.end, env.start);
    if rrset.ttl < life then rrset.ttl else life
  }

  /** Signatures live no longer in caches than the RRset, nor than their validity period, 32 bits wide. */
  lemma SigTtlIs(env: Env, rrset: Target)
    ensures SigTtl(env, rrset) <= rrset.ttl && SigTtl(env, rrset) <= (env.end - env.start) % TWO_32
    ensures SigTtl(env, rrset) == rrset.ttl || SigTtl(env, rrset) == (env.end - env.start) % TWO_32
  {
  }

  /** The `n`th signature made, by a key. */
  function Fresh(env: Env, rrset: Target, key: Key, n: nat): Record {
    Record(Sig(key.tag, env.start, env.expiry(n), rrset.ttl, env.seal(key, n)), SigTtl(env, rrset))
  }

  function SignWith(env: Env, rrset: Target, keys: seq<Key>, p: nat, w: Work): Work
    requires p < |keys|
  {
    w.(add := w.add + [Fresh(env, rrset, keys[p], |w.made|)], made := w.made + [p])
  }

  function JudgeAt(env: Env, rrset: Target, keys: seq<Key>, s: Sig): Verdict {
    Judge(env, rrset, KeyOf(keys, s.tag), s)
  }

  /** What one existing signature adds to the differences. */
  function SigStep(env: Env, rrset: Target, keys: seq<Key>, oldTtl: nat, s: Sig, w: Work): Work {
    var ttl := SigTtl(env, rrset);
    match JudgeAt(env, rrset, keys, s)
    case Keep =>
      if oldTtl == ttl then w else w.(del := w.del + [Record(s, oldTtl)], add := w.add + [Record(s, ttl)])
    case Drop => w.(del := w.del + [Record(s, oldTtl)])
    case Resign => SignWith(env, rrset, keys, FindKey(keys, s.tag).value, w.(del := w.del + [Record(s, oldTtl)]))
  }

  function Through(env: Env, rrset: Target, keys: seq<Key>, oldTtl: nat, sigs: seq<Sig>, n: nat): Work
    requires n <= |sigs|
  {
    if n == 0 then Work([], [], [])
    else SigStep(env, rrset, keys, oldTtl, sigs[n - 1], Through(env, rrset, keys, oldTtl, sigs, n - 1))
  }

  /** `nowsignedby` after `n` signatures. */
  ghost predicate Covered(env: Env, rrset: Target, keys: seq<Key>, sigs: seq<Sig>, n: nat, p: nat) {
    exists j :: 0 <= j < n <= |sigs| && FindKey(keys, sigs[j].tag) == Some(p)
                && JudgeAt(env, rrset, keys, sigs[j]) != Drop
  }

  /** Some key of the algorithm that is not revoked is a key-signing key, or the key itself is one. */
  ghost predicate HaveKsk(keys: seq<Key>, p: nat)
    requires p < |keys|
  {
    || keys[p].ksk
    || exists q :: 0 <= q < |keys| && keys[q].tag.alg == keys[p].tag.alg && !keys[q].revoked && keys[q].ksk
  }

  /** The RRsets a signing key is there to sign. */
  ghost predicate InRole(env: Env, rrset: Target, keys: seq<Key>, p: nat)
    requires p < |keys|
  {
    if rrset.kind == Dnskey && rrset.atOrigin then
      keys[p].ksk || !HaveKsk(keys, p) || (IsZsk(env, keys[p]) && !env.kskOnly)
    else rrset.kind == CdsOrCdnskey || IsZsk(env, keys[p])
  }

  ghost function KeyStep(env: Env, rrset: Target, keys: seq<Key>, sigs: seq<Sig>, p: nat, w: Work): Work
    requires p < |keys|
  {
    if !Covered(env, rrset, keys, sigs, |sigs|, p) && IsSigning(keys[p]) && InRole(env, rrset, keys, p)
    then SignWith(env, rrset, keys, p, w) else w
  }

  ghost function Completed(env: Env, rrset: Target, keys: seq<Key>, oldTtl: nat, sigs: seq<Sig>, n: nat): Work
    requires n <= |keys|
  {
    if n == 0 then Through(env, rrset, keys, oldTtl, sigs, |sigs|)
    else KeyStep(env, rrset, keys, sigs, n - 1, Completed(env, rrset, keys, oldTtl, sigs, n - 1))
  }

  // ----- signset

  /** The branches of `signset` on one signature. */
  method Weigh(env: Env, rrset: Target, key: Option<Key>, s: Sig) returns (mark: bool, keep: bool, resign: bool)
    ensures mark ==> key.Some?
    ensures keep <==> Judge(env, rrset, key, s) == Keep
    ensures resign <==> Judge(env, rrset, key, s) == Resign
  {
    mark, keep, resign := false, false, false;
    var future := Future(env, s);
    var expired := Expired(env, key, s);
    if Inverted(s) {
    } else if key.None? && !future && env.expectKey(s.tag.signer) {
    } else if key.None? || future {
      keep := !expired && !env.removeOrphanSigs;
    } else if !key.value.active && env.removeInactKeySigs {
    } else if IsSigning(key.value) {
      mark := true;
      if !expired && s.originalTtl == rrset.ttl && env.verifies(key.value, s) {
        keep := true;
      } else {
        resign := true;
      }
    } else if !IsPublished(key.value) && env.removeOrphanSigs {
    } else if IsZoneKey(env, key.value) {
      mark := true;
      keep := !expired && s.originalTtl == rrset.ttl && env.verifies(key.value, s);
    } else {
      keep := !expired;
    }
    assert resign ==> !keep;
  }

  method ScanForKsk(keys: seq<Key>, p: nat) returns (have: bool)
    requires p < |keys|
    ensures have <==> HaveKsk(keys, p)
  {
    have := keys[p].ksk;
    for q := 0 to |keys|
      invariant have <==> keys[p].ksk || exists r :: 0 <= r < q && keys[r].tag.alg == keys[p].tag.alg
                                                     && !keys[r].revoked && keys[r].ksk
    {
      if keys[q].tag.alg == keys[p].tag.alg && !keys[q].revoked && keys[q].ksk {
        have := true;
      }
    }
  }

  /** The differences for one signature, once the verdict is in. */
  method Tally(env: Env, rrset: Target, keys: seq<Key>, oldTtl: nat, at: Option<nat>, s: Sig,
               keep: bool, resign: bool, w: Work)
    returns (w': Work)
    requires at == FindKey(keys, s.tag)
    requires keep <==> JudgeAt(env, rrset, keys, s) == Keep
    requires resign <==> JudgeAt(env, rrset, keys, s) == Resign
    ensures w' == SigStep(env, rrset, keys, oldTtl, s, w)
  {
    w' := w;
    var ttl := SigTtl(env, rrset);
    if keep {
      if oldTtl != ttl {
        w' := w'.(del := w'.del + [Record(s, oldTtl)]);
        w' := w'.(add := w'.add + [Record(s, ttl)]);
      }
    } else {
      w' := w'.(del := w'.del + [Record(s, oldTtl)]);
    }
    if resign {
      w' := SignWith(env, rrset, keys, at.value, w');
    }
  }

  /** A longer key list with the same key for the signature gives the same step. */
  lemma StepIsStable(env: Env, rrset: Target, keys: seq<Key>, all: seq<Key>, oldTtl: nat, s: Sig, w: Work)
    requires keys <= all && FindKey(keys, s.tag) == FindKey(all, s.tag)
    ensures JudgeAt(env, rrset, keys, s) == JudgeAt(env, rrset, all, s)
    ensures SigStep(env, rrset, keys, oldTtl, s, w) == SigStep(env, rrset, all, oldTtl, s, w)
  {
    assert KeyOf(keys, s.tag) == KeyOf(all, s.tag);
    hide Judge, SigTtl, Fresh;
    var at := FindKey(keys, s.tag);
    assert at.Some? ==> keys[at.value] == all[at.value];
  }

  /** The round for signature `i` gives what it would have given with the final key list. */
  lemma RoundIsStable(env: Env, rrset: Target, first: seq<Key>, oldTtl: nat, sigs: seq<Sig>, i: nat, w: Work)
    requires i < |sigs|
    ensures var keys, all, s := LoadAll(env, first, sigs, i + 1), LoadAll(env, first, sigs, |sigs|), sigs[i];
            && FindKey(keys, s.tag) == FindKey(all, s.tag)
            && JudgeAt(env, rrset, keys, s) == JudgeAt(env, rrset, all, s)
            && SigStep(env, rrset, keys, oldTtl, s, w) == SigStep(env, rrset, all, oldTtl, s, w)
  {
    LookupIsStable(env, first, sigs, i, |sigs|);
    LoadAllGrows(env, first, sigs, i + 1, |sigs|);
    StepIsStable(env, rrset, LoadAll(env, first, sigs, i + 1), LoadAll(env, first, sigs, |sigs|), oldTtl, sigs[i], w);
  }

  lemma {:induction false} LoadAllGrows(env: Env, keys: seq<Key>, sigs: seq<Sig>, n: nat, m: nat)
    requires n <= m <= |sigs|
    ensures LoadAll(env, keys, sigs, n) <= LoadAll(env, keys, sigs, m)
    decreases m
  {
    if n < m {
      LoadAllGrows(env, keys, sigs, n, m - 1);
    }
  }

  class KeyList {
    var keys: seq<Key>

    constructor (keys: seq<Key>)
      ensures this.keys == keys
    {
      this.keys := keys;
    }

    method FindLoaded(tag: Tag) returns (r: Option<nat>)
      ensures r == FindKey(keys, tag)
    {
      for p := 0 to |keys|
        invariant forall q :: 0 <= q < p ==> keys[q].tag != tag
      {
        if keys[p].tag == tag {
          return Some(p);
        }
      }
      return None;
    }

    method KeyThatSigned(env: Env, tag: Tag) returns (r: Option<nat>)
      modifies this
      ensures keys == Load(env, old(keys), tag)
      ensures r == FindKey(keys, tag)
    {
      r := FindLoaded(tag);
      if r.None? {
        var file := env.onDisk(tag);
        if file.Some? {
          keys := keys + [Loaded(tag, file.value)];
          r := Some(|keys| - 1);
        }
      }
    }

    /** One round of the first loop. */
    method JudgeOne(env: Env, rrset: Target, oldTtl: nat, s: Sig, w: Work,
                    wasSignedBy: array<bool>, nowSignedBy: array<bool>)
      returns (w': Work)
      requires wasSignedBy != nowSignedBy && |keys| < wasSignedBy.Length == nowSignedBy.Length
      modifies this, wasSignedBy, nowSignedBy
      ensures keys == Load(env, old(keys), s.tag)
      ensures w' == SigStep(env, rrset, keys, oldTtl, s, w)
      ensures forall p :: 0 <= p < nowSignedBy.Length ==>
                nowSignedBy[p] == (|| old(nowSignedBy[p])
                                   || (FindKey(keys, s.tag) == Some(p) && JudgeAt(env, rrset, keys, s) != Drop))
    {
      hide Judge, JudgeAt, SigStep;
      var at := KeyThatSigned(env, s.tag);
      var mark, keep, resign := WeighAt(env, rrset, keys, at, s);
      w' := Tally(env, rrset, keys, oldTtl, at, s, keep, resign, w);
      if mark {
        wasSignedBy[at.value] := true;
      }
      if (keep && at.Some?) || resign {
        nowSignedBy[at.value] := true;
      }
    }

    /** The first loop: every existing signature is looked at once. */
    method JudgeExisting(env: Env, rrset: Target, oldTtl: nat, sigs: seq<Sig>,
                         wasSignedBy: array<bool>, nowSignedBy: array<bool>)
      returns (w: Work)
      requires wasSignedBy != nowSignedBy
      requires wasSignedBy.Length == nowSignedBy.Length == |keys| + |sigs|
      requires forall p :: 0 <= p < nowSignedBy.Length ==> !nowSignedBy[p]
      modifies this, wasSignedBy, nowSignedBy
      ensures keys == LoadAll(env, old(keys), sigs, |sigs|)
      ensures w == Through(env, rrset, keys, oldTtl, sigs, |sigs|)
      ensures forall p :: 0 <= p < nowSignedBy.Length ==>
                (nowSignedBy[p] <==> Covered(env, rrset, keys, sigs, |sigs|, p))
    {
      hide Judge, JudgeAt, SigStep, FindKey, Load;
      ghost var first, all := keys, LoadAll(env, keys, sigs, |sigs|);
      w := Work([], [], []);
      for i := 0 to |sigs|
        invariant keys == LoadAll(env, first, sigs, i)
        invariant w == Through(env, rrset, all, oldTtl, sigs, i)
        invariant forall p :: 0 <= p < nowSignedBy.Length ==> (nowSignedBy[p] <==> Covered(env, rrset, all, sigs, i, p))
      {
        ghost var before := w;
        w := JudgeOne(env, rrset, oldTtl, sigs[i], w, wasSignedBy, nowSignedBy);
        RoundIsStable(env, rrset, first, oldTtl, sigs, i, before);
        forall p | 0 <= p < nowSignedBy.Length
          ensures nowSignedBy[p] <==> Covered(env, rrset, all, sigs, i + 1, p)
        {
          CoveredStep(env, rrset, all, sigs, i, p);
        }
      }
    }

    /** One call of `signset`, from the key list and the existing signatures to the differences. */
    method SignSet(env: Env, rrset: Target, oldTtl: nat, sigs: seq<Sig>) returns (w: Work)
      modifies this
      ensures keys == LoadAll(env, old(keys), sigs, |sigs|)
      ensures w == Completed(env, rrset, keys, oldTtl, sigs, |keys|)
    {
      hide Through, Covered, InRole, SignWith;
      var arraysize := |keys| + |sigs|;
      var wasSignedBy := new bool[arraysize](_ => false);
      var nowSignedBy := new bool[arraysize](_ => false);
      w := JudgeExisting(env, rrset, oldTtl, sigs, wasSignedBy, nowSignedBy);
      ghost var all, marks := keys, nowSignedBy[..];
      for p := 0 to |keys|
        invariant keys == all && nowSignedBy[..] == marks
        invariant w == Completed(env, rrset, keys, oldTtl, sigs, p)
      {
        if !nowSignedBy[p] && IsSigning(keys[p]) {
          var inRole := CheckRole(env, rrset, keys, p);
          if inRole {
            w := SignWith(env, rrset, keys, p, w);
          }
        }
      }
    }
  }

  method WeighAt(env: Env, rrset: Target, keys: seq<Key>, at: Option<nat>, s: Sig)
    returns (mark: bool, keep: bool, resign: bool)
    requires at == FindKey(keys, s.tag)
    ensures (mark || resign ==> at.Some?) && !(keep && resign)
    ensures keep <==> JudgeAt(env, rrset, keys, s) == Keep
    ensures resign <==> JudgeAt(env, rrset, keys, s) == Resign
  {
    mark, keep, resign := Weigh(env, rrset, if at.Some? then Some(keys[at.value]) else None, s);
  }

  lemma CoveredStep(env: Env, rrset: Target, keys: seq<Key>, sigs: seq<Sig>, i: nat, p: nat)
    requires i < |sigs|
    ensures Covered(env, rrset, keys, sigs, i + 1, p) <==>
            || Covered(env, rrset, keys, sigs, i, p)
            || (FindKey(keys, sigs[i].tag) == Some(p) && JudgeAt(env, rrset, keys, sigs[i]) != Drop)
  {
    hide JudgeAt;
  }

  method CheckRole(env: Env, rrset: Target, keys: seq<Key>, p: nat) returns (r: bool)
    requires p < |keys|
    ensures r <==> InRole(env, rrset, keys, p)
  {
    if rrset.kind == Dnskey && rrset.atOrigin {
      var haveKsk := ScanForKsk(keys, p);
      r := keys[p].ksk || !haveKsk || (IsZsk(env, keys[p]) && !env.kskOnly);
    } else {
      r := rrset.kind == CdsOrCdnskey || IsZsk(env, keys[p]);
    }
  }

  // ----- what the differences amount to

  /** The signatures in the database once the deletions, then the additions, have been applied. */
  ghost function Applied(sigs: seq<Sig>, oldTtl: nat, w: Work): set<Record> {
    (set s | s in sigs :: Record(s, oldTtl)) - (set d | d in w.del) + (set a | a in w.add)
  }

  ghost predicate IsFresh(env: Env, rrset: Target, keys: seq<Key>, made: seq<nat>, r: Record) {
    exists m :: 0 <= m < |made| && made[m] < |keys| && r == Fresh(env, rrset, keys[made[m]], m)
  }

  ghost predicate Kept(env: Env, rrset: Target, keys: seq<Key>, sigs: seq<Sig>, n: nat, s: Sig) {
    n <= |sigs| && s in sigs[..n] && JudgeAt(env, rrset, keys, s) == Keep
  }

  /** What the differences say after `n` signatures. */
  ghost predicate WorkSays(env: Env, rrset: Target, keys: seq<Key>, oldTtl: nat, sigs: seq<Sig>, n: nat,
                           w: Work, r: Record)
    requires n <= |sigs|
  {
    var ttl := SigTtl(env, rrset);
    && (r in w.del <==>
        r.ttl == oldTtl && r.sig in sigs[..n] && (JudgeAt(env, rrset, keys, r.sig) != Keep || oldTtl != ttl))
    && (r in w.add <==>
        || (r.ttl == ttl && oldTtl != ttl && Kept(env, rrset, keys, sigs, n, r.sig))
        || IsFresh(env, rrset, keys, w.made, r))
  }

  lemma SignWithFresh(env: Env, rrset: Target, keys: seq<Key>, p: nat, w: Work, r: Record)
    requires p < |keys|
    ensures var made := SignWith(env, rrset, keys, p, w).made;
            IsFresh(env, rrset, keys, made, r) <==>
            IsFresh(env, rrset, keys, w.made, r) || r == Fresh(env, rrset, keys[p], |w.made|)
  {
    hide Fresh;
    var made := SignWith(env, rrset, keys, p, w).made;
    assert forall m :: 0 <= m < |w.made| ==> made[m] == w.made[m];
    assert made[|w.made|] == p;
    if IsFresh(env, rrset, keys, w.made, r) {
      var m :| 0 <= m < |w.made| && w.made[m] < |keys| && r == Fresh(env, rrset, keys[w.made[m]], m);
      assert made[m] == w.made[m];
    }
  }

  lemma {:induction false} ThroughSays(env: Env, rrset: Target, keys: seq<Key>, oldTtl: nat,
                                       sigs: seq<Sig>, n: nat, r: Record)
    requires n <= |sigs|
    ensures WorkSays(env, rrset, keys, oldTtl, sigs, n, Through(env, rrset, keys, oldTtl, sigs, n), r)
  {
    hide JudgeAt, SigTtl, Fresh;
    if n != 0 {
      ThroughSays(env, rrset, keys, oldTtl, sigs, n - 1, r);
      var s := sigs[n - 1];
      assert sigs[..n] == sigs[..n - 1] + [s];
      if JudgeAt(env, rrset, keys, s) == Resign {
        ResignHasKey(env, rrset, keys, s);
        var w := Through(env, rrset, keys, oldTtl, sigs, n - 1);
        SignWithFresh(env, rrset, keys, FindKey(keys, s.tag).value, w.(del := w.del + [Record(s, oldTtl)]), r);
      }
    }
  }

  lemma ResignHasKey(env: Env, rrset: Target, keys: seq<Key>, s: Sig)
    ensures JudgeAt(env, rrset, keys, s) == Resign ==>
              FindKey(keys, s.tag).Some? && IsSigning(keys[FindKey(keys, s.tag).value])
  {
  }

  lemma {:induction false} CompletedSays(env: Env, rrset: Target, keys: seq<Key>, oldTtl: nat,
                                         sigs: seq<Sig>, n: nat, r: Record)
    requires n <= |keys|
    ensures WorkSays(env, rrset, keys, oldTtl, sigs, |sigs|, Completed(env, rrset, keys, oldTtl, sigs, n), r)
  {
    hide JudgeAt, SigTtl, Fresh, Covered, InRole, Kept, Through;
    if n == 0 {
      ThroughSays(env, rrset, keys, oldTtl, sigs, |sigs|, r);
    } else {
      CompletedSays(env, rrset, keys, oldTtl, sigs, n - 1, r);
      SignWithFresh(env, rrset, keys, n - 1, Completed(env, rrset, keys, oldTtl, sigs, n - 1), r);
    }
  }

  /**
    After one run, with deletes applied before adds, the signatures in the database are exactly the existing
    ones that were kept and the new ones; all carry the TTL of this run, and every other old one is gone.
   */
  lemma {:induction false} SignaturesAfter(env: Env, rrset: Target, keys: seq<Key>, oldTtl: nat,
                                           sigs: seq<Sig>, w: Work, r: Record)
    requires w == Completed(env, rrset, keys, oldTtl, sigs, |keys|)
    ensures r in Applied(sigs, oldTtl, w) <==>
            || (r.sig in sigs && JudgeAt(env, rrset, keys, r.sig) == Keep && r.ttl == SigTtl(env, rrset))
            || IsFresh(env, rrset, keys, w.made, r)
    ensures r in Applied(sigs, oldTtl, w) ==> r.ttl == SigTtl(env, rrset)
    ensures r.sig in sigs && r.ttl == oldTtl && JudgeAt(env, rrset, keys, r.sig) != Keep ==> r in w.del
  {
    hide JudgeAt, Completed, SigTtl;
    CompletedSays(env, rrset, keys, oldTtl, sigs, |keys|, r);
    assert sigs[..|sigs|] == sigs;
  }

  // ----- who signs

  ghost predicate Resigned(env: Env, rrset: Target, keys: seq<Key>, sigs: seq<Sig>, n: nat, p: nat) {
    exists j :: 0 <= j < n <= |sigs| && FindKey(keys, sigs[j].tag) == Some(p)
                && JudgeAt(env, rrset, keys, sigs[j]) == Resign
  }

  lemma {:induction false} ThroughMade(env: Env, rrset: Target, keys: seq<Key>, oldTtl: nat,
                                       sigs: seq<Sig>, n: nat, p: nat)
    requires n <= |sigs|
    ensures p in Through(env, rrset, keys, oldTtl, sigs, n).made <==> Resigned(env, rrset, keys, sigs, n, p)
  {
    hide JudgeAt, SigTtl, Fresh;
    if n != 0 {
      ThroughMade(env, rrset, keys, oldTtl, sigs, n - 1, p);
      ResignHasKey(env, rrset, keys, sigs[n - 1]);
    }
  }

  /** A key signs to replace a signature of its own, or because it has none that stays; no other key signs. */
  ghost predicate Signs(env: Env, rrset: Target, keys: seq<Key>, sigs: seq<Sig>, p: nat)
    requires p < |keys|
  {
    || Resigned(env, rrset, keys, sigs, |sigs|, p)
    || (!Covered(env, rrset, keys, sigs, |sigs|, p) && IsSigning(keys[p]) && InRole(env, rrset, keys, p))
  }

  lemma {:induction false} CompletedMade(env: Env, rrset: Target, keys: seq<Key>, oldTtl: nat,
                                         sigs: seq<Sig>, n: nat, p: nat)
    requires n <= |keys| && p < |keys|
    ensures p in Completed(env, rrset, keys, oldTtl, sigs, n).made <==>
            Resigned(env, rrset, keys, sigs, |sigs|, p) || (p < n && Signs(env, rrset, keys, sigs, p))
  {
    hide JudgeAt, SigTtl, Fresh, Covered, InRole, Resigned, Through;
    if n == 0 {
      ThroughMade(env, rrset, keys, oldTtl, sigs, |sigs|, p);
    } else {
      CompletedMade(env, rrset, keys, oldTtl, sigs, n - 1, p);
    }
  }

  /** The keys that signed are the keys that had to, and all of them are signing keys. */
  lemma WhoSigns(env: Env, rrset: Target, keys: seq<Key>, oldTtl: nat, sigs: seq<Sig>, p: nat)
    requires p < |keys|
    ensures p in Completed(env, rrset, keys, oldTtl, sigs, |keys|).made <==> Signs(env, rrset, keys, sigs, p)
    ensures Signs(env, rrset, keys, sigs, p) ==> IsSigning(keys[p])
  {
    hide JudgeAt, Covered, InRole, Completed;
    CompletedMade(env, rrset, keys, oldTtl, sigs, |keys|, p);
    if Resigned(env, rrset, keys, sigs, |sigs|, p) {
      var j :| 0 <= j < |sigs| && FindKey(keys, sigs[j].tag) == Some(p) && JudgeAt(env, rrset, keys, sigs[j]) == Resign;
      ResignHasKey(env, rrset, keys, sigs[j]);
    }
  }

  lemma MadeIsFresh(env: Env, rrset: Target, keys: seq<Key>, made: seq<nat>, p: nat) returns (r: Record)
    requires p in made && p < |keys|
    ensures IsFresh(env, rrset, keys, made, r) && r.sig.tag == keys[p].tag
  {
    var m :| 0 <= m < |made| && made[m] == p;
    r := Fresh(env, rrset, keys[p], m);
  }

  /** Every signing key owns a signature on every RRset in its role. */
  lemma EverySigningKeyOwns(env: Env, rrset: Target, keys: seq<Key>, oldTtl: nat, sigs: seq<Sig>, p: nat)
    returns (r: Record)
    requires p < |keys| && IsSigning(keys[p])
    requires InRole(env, rrset, keys, p) || Covered(env, rrset, keys, sigs, |sigs|, p)
    ensures r in Applied(sigs, oldTtl, Completed(env, rrset, keys, oldTtl, sigs, |keys|))
    ensures r.sig.tag == keys[p].tag
  {
    hide JudgeAt, InRole, Completed, Applied, SigTtl, Fresh;
    var w := Completed(env, rrset, keys, oldTtl, sigs, |keys|);
    WhoSigns(env, rrset, keys, oldTtl, sigs, p);
    if p in w.made {
      r := MadeIsFresh(env, rrset, keys, w.made, p);
    } else {
      var j :| 0 <= j < |sigs| && FindKey(keys, sigs[j].tag) == Some(p) && JudgeAt(env, rrset, keys, sigs[j]) != Drop;
      assert JudgeAt(env, rrset, keys, sigs[j]) != Resign;
      r := Record(sigs[j], SigTtl(env, rrset));
    }
    SignaturesAfter(env, rrset, keys, oldTtl, sigs, w, r);
  }

  /** A signing key with the zone-signing role owns a signature on every ordinary RRset. */
  lemma EveryZskOwns(env: Env, rrset: Target, keys: seq<Key>, oldTtl: nat, sigs: seq<Sig>, p: nat)
    returns (r: Record)
    requires p < |keys| && IsSigning(keys[p]) && IsZsk(env, keys[p]) && rrset.kind == Ordinary
    ensures r in Applied(sigs, oldTtl, Completed(env, rrset, keys, oldTtl, sigs, |keys|))
    ensures r.sig.tag == keys[p].tag
  {
    r := EverySigningKeyOwns(env, rrset, keys, oldTtl, sigs, p);
  }

  // ----- which key signs what

  /** Without a signature of its own, a signing key signs exactly the RRsets of its role. */
  lemma SignsFirst(env: Env, rrset: Target, keys: seq<Key>, oldTtl: nat, sigs: seq<Sig>, p: nat)
    requires p < |keys| && (keys[p].forceSign || keys[p].hintSign)
    requires forall s :: s in sigs ==> s.tag != keys[p].tag
    ensures p in Completed(env, rrset, keys, oldTtl, sigs, |keys|).made <==>
            match rrset.kind
            case CdsOrCdnskey => true
            case Ordinary => env.ignoreKskFlag || !keys[p].ksk
            case Dnskey =>
              if rrset.atOrigin then
                || keys[p].ksk
                || (forall q :: 0 <= q < |keys| && keys[q].tag.alg == keys[p].tag.alg && keys[q].ksk ==>
                                  keys[q].revoked)
                || !env.kskOnly
              else env.ignoreKskFlag || !keys[p].ksk
  {
    hide JudgeAt, Completed;
    WhoSigns(env, rrset, keys, oldTtl, sigs, p);
  }

  /** Every signing key owns a signature on the DNSKEY RRset at the origin, if it is a KSK or its algorithm has none. */
  lemma OwnsDnskey(env: Env, rrset: Target, keys: seq<Key>, oldTtl: nat, sigs: seq<Sig>, p: nat) returns (r: Record)
    requires p < |keys| && (keys[p].forceSign || keys[p].hintSign) && rrset.kind == Dnskey && rrset.atOrigin
    requires || keys[p].ksk || !env.kskOnly
             || forall q :: 0 <= q < |keys| && keys[q].tag.alg == keys[p].tag.alg && keys[q].ksk ==> keys[q].revoked
    ensures r in Applied(sigs, oldTtl, Completed(env, rrset, keys, oldTtl, sigs, |keys|))
    ensures r.sig.tag == keys[p].tag
  {
    r := EverySigningKeyOwns(env, rrset, keys, oldTtl, sigs, p);
  }

  /** Every signing key owns a signature on the CDS and CDNSKEY RRsets. */
  lemma OwnsCds(env: Env, rrset: Target, keys: seq<Key>, oldTtl: nat, sigs: seq<Sig>, p: nat) returns (r: Record)
    requires p < |keys| && (keys[p].forceSign || keys[p].hintSign) && rrset.kind == CdsOrCdnskey
    ensures r in Applied(sigs, oldTtl, Completed(env, rrset, keys, oldTtl, sigs, |keys|))
    ensures r.sig.tag == keys[p].tag
  {
    r := EverySigningKeyOwns(env, rrset, keys, oldTtl, sigs, p);
  }

  /** One of the key's own signatures is deleted. */
  ghost predicate ReplacesOwn(keys: seq<Key>, oldTtl: nat, sigs: seq<Sig>, w: Work, p: nat)
    requires p < |keys|
  {
    exists s :: s in sigs && s.tag == keys[p].tag && Record(s, oldTtl) in w.del
  }

  /**
    Outside its role a key makes a signature only in place of one of its own: a plain ZSK on the DNSKEY RRset
    when only KSKs sign it and its algorithm has one, a KSK on an ordinary RRset unless the flag is ignored.
   */
  lemma OutOfRoleOnlyReplaces(env: Env, rrset: Target, keys: seq<Key>, oldTtl: nat, sigs: seq<Sig>, p: nat, q: nat)
    requires p < |keys| && q < |keys|
    requires || (rrset.kind == Dnskey && rrset.atOrigin && env.kskOnly && !keys[p].ksk
                 && keys[q].tag.alg == keys[p].tag.alg && keys[q].ksk && !keys[q].revoked)
             || ((rrset.kind == Ordinary || (rrset.kind == Dnskey && !rrset.atOrigin))
                 && keys[p].ksk && !env.ignoreKskFlag)
    ensures var w := Completed(env, rrset, keys, oldTtl, sigs, |keys|);
            p in w.made ==> ReplacesOwn(keys, oldTtl, sigs, w, p)
  {
    hide JudgeAt, Completed, Applied;
    var w := Completed(env, rrset, keys, oldTtl, sigs, |keys|);
    WhoSigns(env, rrset, keys, oldTtl, sigs, p);
    if p in w.made {
      var j :| 0 <= j < |sigs| && FindKey(keys, sigs[j].tag) == Some(p) && JudgeAt(env, rrset, keys, sigs[j]) == Resign;
      SignaturesAfter(env, rrset, keys, oldTtl, sigs, w, Record(sigs[j], oldTtl));
    }
  }

  // ----- whether the signature can be used now

  /** The key made a signature in this run, or one of its own that is already valid stays and verifies. */
  ghost predicate HasCurrent(env: Env, rrset: Target, keys: seq<Key>, sigs: seq<Sig>, made: seq<nat>, p: nat)
    requires p < |keys|
  {
    || p in made
    || exists s :: s in sigs && StaysValid(env, rrset, keys, s, p)
  }

  ghost predicate StaysValid(env: Env, rrset: Target, keys: seq<Key>, s: Sig, p: nat)
    requires p < |keys|
  {
    && FindKey(keys, s.tag) == Some(p) && JudgeAt(env, rrset, keys, s) == Keep
    && !Future(env, s) && Good(env, rrset, keys[p], s)
  }

  /** A signature by the key that is not valid yet and passes the tests made on such signatures. */
  ghost predicate DatedAhead(env: Env, keys: seq<Key>, s: Sig, p: nat)
    requires p < |keys|
  {
    && FindKey(keys, s.tag) == Some(p)
    && Future(env, s) && !Inverted(s) && !Expired(env, Some(keys[p]), s) && !env.removeOrphanSigs
  }

  /** A signature by the key that gets as far as being verified or replaced. */
  ghost predicate Examined(env: Env, keys: seq<Key>, s: Sig, p: nat)
    requires p < |keys|
  {
    && FindKey(keys, s.tag) == Some(p)
    && !Future(env, s) && !Inverted(s) && (keys[p].active || !env.removeInactKeySigs)
  }

  lemma VerdictOnOwn(env: Env, rrset: Target, keys: seq<Key>, s: Sig, p: nat)
    requires p < |keys| && IsSigning(keys[p]) && FindKey(keys, s.tag) == Some(p)
    ensures JudgeAt(env, rrset, keys, s) != Drop <==> DatedAhead(env, keys, s, p) || Examined(env, keys, s, p)
    ensures Examined(env, keys, s, p) <==> JudgeAt(env, rrset, keys, s) == Resign || StaysValid(env, rrset, keys, s, p)
  {
    hide SerialLt, SerialGt;
  }

  /**
    A signing key in its role ends up with a signature usable now, unless what it has is a signature dated
    ahead, which counts as signed, and none of its other signatures was examined.
   */
  lemma CurrentIff(env: Env, rrset: Target, keys: seq<Key>, oldTtl: nat, sigs: seq<Sig>, p: nat)
    requires p < |keys| && IsSigning(keys[p]) && InRole(env, rrset, keys, p)
    ensures HasCurrent(env, rrset, keys, sigs, Completed(env, rrset, keys, oldTtl, sigs, |keys|).made, p) <==>
            || (forall s :: s in sigs ==> !DatedAhead(env, keys, s, p))
            || (exists s :: s in sigs && Examined(env, keys, s, p))
  {
    hide JudgeAt, InRole, Completed, DatedAhead, Examined, StaysValid;
    WhoSigns(env, rrset, keys, oldTtl, sigs, p);
    forall j | 0 <= j < |sigs| && FindKey(keys, sigs[j].tag) == Some(p)
      ensures JudgeAt(env, rrset, keys, sigs[j]) != Drop <==>
              DatedAhead(env, keys, sigs[j], p) || Examined(env, keys, sigs[j], p)
      ensures Examined(env, keys, sigs[j], p) <==>
              JudgeAt(env, rrset, keys, sigs[j]) == Resign || StaysValid(env, rrset, keys, sigs[j], p)
    {
      VerdictOnOwn(env, rrset, keys, sigs[j], p);
    }
    forall s | s in sigs ensures FindKey(keys, s.tag) != Some(p) ==>
        !DatedAhead(env, keys, s, p) && !Examined(env, keys, s, p) && !StaysValid(env, rrset, keys, s, p)
    {
      if FindKey(keys, s.tag) != Some(p) {
        NotOwn(env, rrset, keys, s, p);
      }
    }
  }

  lemma NotOwn(env: Env, rrset: Target, keys: seq<Key>, s: Sig, p: nat)
    requires p < |keys| && FindKey(keys, s.tag) != Some(p)
    ensures !DatedAhead(env, keys, s, p) && !Examined(env, keys, s, p) && !StaysValid(env, rrset, keys, s, p)
  {
  }

  /** One zone-signing key whose only signature starts ten seconds from now: it does not sign. */
  lemma DatedAheadBlocks(env: Env, rrset: Target)
    requires env.now == 0 && env.cycle == 0 && !env.removeOrphanSigs && rrset.kind == Ordinary && !rrset.atOrigin
    ensures var tag := Tag(1, 8, env.origin);
            var keys := [Key(tag, false, true, true, false, true, true, true, true, false)];
            var sigs := [Sig(tag, 10, 100, rrset.ttl, 0)];
            && IsSigning(keys[0]) && InRole(env, rrset, keys, 0)
            && !HasCurrent(env, rrset, keys, sigs, Completed(env, rrset, keys, 0, sigs, 1).made, 0)
  {
    var tag := Tag(1, 8, env.origin);
    var keys := [Key(tag, false, true, true, false, true, true, true, true, false)];
    var s := Sig(tag, 10, 100, rrset.ttl, 0);
    CurrentIff(env, rrset, keys, 0, [s], 0);
    assert FindKey(keys, tag) == Some(0);
    assert DatedAhead(env, keys, s, 0);
    assert !Examined(env, keys, s, 0);
  }
}
