/**
  The signer's NSEC3 chain and the verifier: whatever `nsec3ify` built, and however the zone was signed
  afterwards, `verifyzone` collects the same chain and accepts it.
 */
module Agreement {
  import opened Names
  import opened Sequences
  import opened Zone
  import opened ZoneDb
  import opened HashList
  import opened Nsec3Names
  import opened NsecChain
  import opened Nsec3Chain
  import opened ChainCheck
  import opened VerifyWalk
  import opened VerifyNsec3

  // ----- the verifier as a whole

  datatype Verdict = Accept | Reject | Fatal

  /** `isoptout`: the flag of the first record at the origin's hash. */
  predicate IsOptOut(m: Tree, h: Bytes) { Present(m, h) && m[h][0].optOut }

  ghost function ZoneChecks(origin: Name, s: seq<Node>): seq<Check> {
    ChecksTo(VisitsTo(origin, s, |s|), |VisitsTo(origin, s, |s|)|)
  }

  ghost function ExpectedChain(origin: Name, s: seq<Node>, m: Tree, params: Params, hash: Name -> Bytes): seq<Element> {
    AllRecorded(m, params, hash, ZoneChecks(origin, s))
  }

  ghost predicate ForbiddenNsec(origin: Name, s: seq<Node>) {
    exists i :: NsecForbidden(origin, s, i) && Has(s[i], NSEC)
  }

  ghost predicate ClosedInOrder(es: seq<Element>) {
    exists v :: HeapOrder(v) && multiset(v) == multiset(es) && ChainsClosed(v)
  }

  /** Every lookup succeeds, expected and found records agree one for one, and the chains are closed. */
  ghost predicate ChainAccepted(origin: Name, s: seq<Node>, m: Tree, params: Params, hash: Name -> Bytes) {
    && AllGood(m, params, IsOptOut(m, hash(origin)), hash, ZoneChecks(origin, s))
    && (forall e: Element :: multiset(ExpectedChain(origin, s, m, params, hash))[e] == FoundCount(m, params, e))
    && ClosedInOrder(ExpectedChain(origin, s, m, params, hash))
  }

  /** The NSEC3 part of `verifyzone`. */
  method VerifyZone(origin: Name, s: seq<Node>, m: Tree, params: Params, hash: Name -> Bytes) returns (verdict: Verdict)
    requires ZoneOk(origin, s)
    ensures verdict == Fatal <==> ForbiddenNsec(origin, s)
    ensures verdict == Accept <==> !ForbiddenNsec(origin, s) && ChainAccepted(origin, s, m, params, hash)
    ensures verdict == Accept ==> AllCovered(origin, s, m, params, hash)
  {
    hide ZoneOk, HeapOrder, NoDup, ChainsClosed, AllGood, AllCovered, Values, FoundCount;
    AllGoodIsCovered(origin, s, m, params, hash);
    var fatal, visits := Walk(origin, s);
    if fatal {
      return Fatal;
    }
    var ok, expected := CollectExpected(m, params, IsOptOut(m, hash(origin)), hash, visits);
    var found := CollectFound(m, params);
    var eblocks := HeapBlocks(expected);
    var fblocks := HeapBlocks(found);
    var closed, freed := VerifyNsec3Chains(eblocks, fblocks);
    ClosedByAnyOrder(expected, Values(eblocks));
    CountsDecide(expected, found);
    verdict := if ok && closed then Accept else Reject;
  }

  // ----- the verdict, name by name

  /** At the hash stands a first record of this chain, with a next hash of full length, and no later one. */
  ghost predicate OneRecord(m: Tree, params: Params, h: Bytes) {
    h in m && exists k :: 0 <= k < |m[h]| && IsTheRecord(m[h], params, |h|, k)
  }

  ghost predicate IsTheRecord(rs: seq<Nsec3Record>, params: Params, len: nat, k: nat)
    requires k < |rs|
  {
    && rs[k].params == params && |rs[k].next| == len
    && (forall j :: 0 <= j < k ==> rs[j].params != params || |rs[j].next| != len)
    && (forall j :: k < j < |rs| ==> rs[j].params != params)
  }

  /** The name has its record, or has none at all and needs none. */
  ghost predicate NameCovered(m: Tree, params: Params, h: Bytes, needsNone: bool) {
    OneRecord(m, params, h) || ((h !in m || m[h] == []) && needsNone)
  }

  /** `x` is an empty node above visited node `i` and above no node visited before it. */
  ghost predicate EmptyAbove(origin: Name, s: seq<Node>, i: int, x: Name) {
    && Visited(origin, s, i) && origin <= x < s[i].name
    && forall j :: 0 <= j < i && Visited(origin, s, j) ==> !(x <= s[j].name)
  }

  ghost predicate ApexOptsOut(m: Tree, h: Bytes) { h in m && m[h] != [] && m[h][0].optOut }

  /** Only a delegation without DS may go without a record; an empty node only above one that opted out. */
  ghost predicate AllCovered(origin: Name, s: seq<Node>, m: Tree, params: Params, hash: Name -> Bytes) {
    && (forall i :: Visited(origin, s, i) ==>
                      NameCovered(m, params, hash(s[i].name), IsDelegation(origin, s[i]) && !Has(s[i], DS)))
    && (forall i, x :: EmptyAbove(origin, s, i, x) ==>
                         NameCovered(m, params, hash(x), IsDelegation(origin, s[i]) && ApexOptsOut(m, hash(origin))))
  }

  lemma CheckIsCovered(m: Tree, params: Params, optOut: bool, hash: Name -> Bytes, c: Check)
    ensures CheckGood(m, params, optOut, hash, c) <==>
            NameCovered(m, params, hash(c.name), c.delegation && if c.empty then optOut else !c.ds)
  {
    var h := hash(c.name);
    if Present(m, h) {
      var i := FirstMatch(m[h], params, |h|);
      if i < |m[h]| && MatchGood(m[h], params, |h|) {
        assert IsTheRecord(m[h], params, |h|, i);
      }
      if OneRecord(m, params, h) {
        var k :| 0 <= k < |m[h]| && IsTheRecord(m[h], params, |h|, k);
        assert Matches(m[h][k], params, |h|);
        assert i == k;
      }
    }
  }

  /** A check is for a visited name before `n`, or for an empty node above one. */
  ghost predicate IsCheckBefore(origin: Name, s: seq<Node>, n: nat, c: Check) {
    || (exists i :: 0 <= i < n && IsNameCheck(origin, s, i, c))
    || (exists i :: 0 <= i < n && IsEmptyCheck(origin, s, i, c))
  }

  ghost predicate IsNameCheck(origin: Name, s: seq<Node>, i: int, c: Check) {
    Visited(origin, s, i) && c == Check(s[i].name, IsDelegation(origin, s[i]), false, Has(s[i], DS))
  }

  ghost predicate IsEmptyCheck(origin: Name, s: seq<Node>, i: int, c: Check) {
    EmptyAbove(origin, s, i, c.name) && c == Check(c.name, IsDelegation(origin, s[i]), true, false)
  }

  /** The last visit to a node before `n`. */
  lemma {:induction false} LastVisit(origin: Name, s: seq<Node>, n: nat) returns (p: int)
    requires n <= |s|
    ensures VisitsTo(origin, s, n) == [] ==> forall j :: 0 <= j < n ==> !Visited(origin, s, j)
    ensures VisitsTo(origin, s, n) != [] ==>
              && 0 <= p < n && Visited(origin, s, p) && (forall j :: p < j < n ==> !Visited(origin, s, j))
              && VisitsTo(origin, s, n)[|VisitsTo(origin, s, n)| - 1].node == s[p]
  {
    hide Visited;
    p := 0;
    if n != 0 {
      if Visited(origin, s, n - 1) {
        p := n - 1;
      } else {
        p := LastVisit(origin, s, n - 1);
      }
    }
  }

  /** With the previous visit at `p`, the empty nodes checked for node `i` are those above no earlier visited name. */
  lemma EmptyAboveIs(origin: Name, s: seq<Node>, p: int, i: int, x: Name)
    requires ZoneOk(origin, s) && 0 <= p < i < |s| && Visited(origin, s, p) && Visited(origin, s, i)
    requires forall j :: p < j < i ==> !Visited(origin, s, j)
    ensures EmptyAbove(origin, s, i, x) <==> Common(s[p].name, s[i].name) < |x| < |s[i].name| && x <= s[i].name
  {
    var a, b := s[p].name, s[i].name;
    var k := Common(a, b);
    VisitedIsBelow(origin, s, p);
    VisitedIsBelow(origin, s, i);
    PrefixesAgree(a, b, |origin|);
    PrefixOfBoth(a, b, x);
    if k < |x| < |b| && x <= b {
      assert origin == b[..|origin|] && x == b[..|x|];
      assert origin <= x;
      forall j | 0 <= j < i && Visited(origin, s, j) ensures !(x <= s[j].name) {
        if x <= s[j].name && j < p {
          SubtreeIsInterval(x, s[j].name, a, b);
        }
      }
    }
  }

  lemma PrefixOfBoth(a: Name, b: Name, x: Name)
    ensures x <= b ==> (|x| <= Common(a, b) <==> x <= a)
  {
    if x <= a && x <= b {
      assert a[..|x|] == x == b[..|x|];
      PrefixesAgree(a, b, |x|);
    }
    var k := Common(a, b);
    if |x| <= k && x <= b {
      assert x == b[..|x|] == b[..k][..|x|] == a[..k][..|x|] == a[..|x|];
    }
  }

  lemma VisitedIsBelow(origin: Name, s: seq<Node>, i: int)
    requires Visited(origin, s, i)
    ensures origin <= s[i].name
  {
  }

  lemma {:induction false} ChecksBefore(origin: Name, s: seq<Node>, n: nat, c: Check)
    requires ZoneOk(origin, s) && n <= |s|
    ensures c in ChecksTo(VisitsTo(origin, s, n), |VisitsTo(origin, s, n)|) <==> IsCheckBefore(origin, s, n, c)
  {
    hide ZoneOk, Visited, IsCheckBefore, IsNameCheck, IsEmptyCheck, ChecksOf, VisitOf;
    CheckBeforeStep(origin, s, n, c);
    if n != 0 {
      ChecksBefore(origin, s, n - 1, c);
      if Visited(origin, s, n - 1) {
        var before, v := VisitsTo(origin, s, n - 1), VisitOf(origin, s, n - 1);
        ChecksPrefix(before, v, |before|);
        ChecksAtVisit(origin, s, n - 1, c);
      } else {
        NotVisited(origin, s, n - 1, c);
      }
    }
  }

  lemma CheckBeforeStep(origin: Name, s: seq<Node>, n: nat, c: Check)
    ensures IsCheckBefore(origin, s, n, c) <==>
            0 < n && (|| IsCheckBefore(origin, s, n - 1, c)
                      || IsNameCheck(origin, s, n - 1, c) || IsEmptyCheck(origin, s, n - 1, c))
  {
    hide IsNameCheck, IsEmptyCheck;
  }

  lemma NotVisited(origin: Name, s: seq<Node>, i: int, c: Check)
    requires !Visited(origin, s, i)
    ensures !IsNameCheck(origin, s, i, c) && !IsEmptyCheck(origin, s, i, c)
  {
  }

  lemma {:induction false} ChecksPrefix(visits: seq<Visit>, v: Visit, k: nat)
    requires k <= |visits|
    ensures ChecksTo(visits + [v], k) == ChecksTo(visits, k)
  {
    hide EmptyChecks, Common;
    if k != 0 {
      ChecksPrefix(visits, v, k - 1);
    }
  }

  /** What the visit to node `i` adds. */
  lemma ChecksAtVisit(origin: Name, s: seq<Node>, i: nat, c: Check)
    requires ZoneOk(origin, s) && i < |s| && Visited(origin, s, i)
    ensures var visits := VisitsTo(origin, s, i) + [VisitOf(origin, s, i)];
            c in ChecksOf(visits, |visits| - 1) <==> IsNameCheck(origin, s, i, c) || IsEmptyCheck(origin, s, i, c)
  {
    hide ZoneOk, Common;
    var before := VisitsTo(origin, s, i);
    var visits := before + [VisitOf(origin, s, i)];
    var p := LastVisit(origin, s, i);
    var b := s[i].name;
    if before == [] {
      FirstHasNoEmpty(origin, s, i, c.name);
      assert ChecksOf(visits, 0) == [VisitCheck(visits[0])];
    } else {
      assert visits[|visits| - 2] == before[|before| - 1];
      EmptyAboveIs(origin, s, p, i, c.name);
      hide Visited, EmptyAbove;
      var a := s[p].name;
      EmptyUpMembers(b, Common(a, b), |b|, c.name);
      var up := EmptyUp(b, Common(a, b), |b|);
      EmptyCheckMember(up, IsDelegation(origin, s[i]), c);
    }
  }

  lemma EmptyCheckMember(up: seq<Name>, delegation: bool, c: Check)
    ensures c in EmptyChecks(up, delegation) <==> c.name in up && c == Check(c.name, delegation, true, false)
  {
    if c.name in up {
      var j :| 0 <= j < |up| && up[j] == c.name;
      assert EmptyChecks(up, delegation)[j] == Check(c.name, delegation, true, false);
    }
  }

  lemma FirstHasNoEmpty(origin: Name, s: seq<Node>, i: int, x: Name)
    requires ZoneOk(origin, s) && Visited(origin, s, i) && forall j :: 0 <= j < i ==> !Visited(origin, s, j)
    ensures !EmptyAbove(origin, s, i, x)
  {
    var o := OriginIsFirst(origin, s);
    assert Visited(origin, s, o);
  }

  /** The checks all succeed exactly when every name is covered. */
  lemma AllGoodIsCovered(origin: Name, s: seq<Node>, m: Tree, params: Params, hash: Name -> Bytes)
    requires ZoneOk(origin, s)
    ensures AllGood(m, params, IsOptOut(m, hash(origin)), hash, ZoneChecks(origin, s)) <==>
            AllCovered(origin, s, m, params, hash)
  {
    hide ZoneOk, Visited, EmptyAbove, NameCovered, CheckGood;
    var optOut := IsOptOut(m, hash(origin));
    var cs := ZoneChecks(origin, s);
    forall c
      ensures c in cs <==> IsCheckBefore(origin, s, |s|, c)
      ensures CheckGood(m, params, optOut, hash, c) <==>
              NameCovered(m, params, hash(c.name), c.delegation && if c.empty then optOut else !c.ds)
    {
      ChecksBefore(origin, s, |s|, c);
      CheckIsCovered(m, params, optOut, hash, c);
    }
    if AllGood(m, params, optOut, hash, cs) {
      forall i | Visited(origin, s, i)
        ensures 0 <= i < |s|
        ensures NameCovered(m, params, hash(s[i].name), IsDelegation(origin, s[i]) && !Has(s[i], DS))
      {
        VisitedIsIndex(origin, s, i);
        var c := Check(s[i].name, IsDelegation(origin, s[i]), false, Has(s[i], DS));
        assert IsNameCheck(origin, s, i, c);
        assert c in cs;
      }
      forall i, x | EmptyAbove(origin, s, i, x)
        ensures 0 <= i < |s|
        ensures NameCovered(m, params, hash(x), IsDelegation(origin, s[i]) && ApexOptsOut(m, hash(origin)))
      {
        EmptyAboveIsIndex(origin, s, i, x);
        var c := Check(x, IsDelegation(origin, s[i]), true, false);
        assert IsEmptyCheck(origin, s, i, c);
        assert c in cs;
      }
    }
  }

  /** Acceptance, without the checks: every name covered, records one for one, and the chains closed. */
  lemma AcceptedIff(origin: Name, s: seq<Node>, m: Tree, params: Params, hash: Name -> Bytes)
    requires ZoneOk(origin, s)
    ensures ChainAccepted(origin, s, m, params, hash) <==>
            && AllCovered(origin, s, m, params, hash)
            && (forall e: Element :: multiset(ExpectedChain(origin, s, m, params, hash))[e] == FoundCount(m, params, e))
            && ClosedInOrder(ExpectedChain(origin, s, m, params, hash))
  {
    hide ZoneOk, AllGood, AllCovered, ExpectedChain, FoundCount, ClosedInOrder;
    AllGoodIsCovered(origin, s, m, params, hash);
  }

  /** A visited name that needs a record and has none: the verdict is not Accept. */
  lemma MissingIsRejected(origin: Name, s: seq<Node>, m: Tree, params: Params, hash: Name -> Bytes, i: int)
    requires ZoneOk(origin, s) && Visited(origin, s, i) && (hash(s[i].name) !in m || m[hash(s[i].name)] == [])
    requires !IsDelegation(origin, s[i]) || Has(s[i], DS)
    ensures !ChainAccepted(origin, s, m, params, hash)
  {
    hide ZoneOk, Visited;
    AcceptedIff(origin, s, m, params, hash);
  }

  /** An empty node without a record, above a name that is not an opted-out delegation: likewise. */
  lemma MissingEmptyIsRejected(origin: Name, s: seq<Node>, m: Tree, params: Params, hash: Name -> Bytes, i: int,
                               x: Name)
    requires ZoneOk(origin, s) && EmptyAbove(origin, s, i, x) && (hash(x) !in m || m[hash(x)] == [])
    requires !IsDelegation(origin, s[i]) || !ApexOptsOut(m, hash(origin))
    ensures !ChainAccepted(origin, s, m, params, hash)
  {
    hide ZoneOk, EmptyAbove;
    AcceptedIff(origin, s, m, params, hash);
  }

  lemma VisitedIsIndex(origin: Name, s: seq<Node>, i: int)
    requires Visited(origin, s, i)
    ensures 0 <= i < |s|
  {
  }

  lemma EmptyAboveIsIndex(origin: Name, s: seq<Node>, i: int, x: Name)
    requires EmptyAbove(origin, s, i, x)
    ensures 0 <= i < |s|
  {
  }

  lemma ClosedByAnyOrder(es: seq<Element>, v: seq<Element>)
    requires HeapOrder(v) && multiset(v) == multiset(es)
    ensures ClosedInOrder(es) <==> ChainsClosed(v)
  {
    hide HeapOrder, ChainsClosed;
    if ClosedInOrder(es) {
      var u :| HeapOrder(u) && multiset(u) == multiset(es) && ChainsClosed(u);
      HeapOrderUnique(u, v);
    }
  }

  lemma CountsDecide(es: seq<Element>, fs: seq<Element>)
    ensures multiset(es) == multiset(fs) <==> forall e: Element :: multiset(es)[e] == multiset(fs)[e]
  {
  }

  // ----- the signed zone as the walk sees it

  ghost predicate Built3(origin: Name, cfg: Config, hash: Name -> Bytes, len: nat, pre: seq<Node>, z: seq<Node>,
                         s: seq<Node>, m: Tree, ring: seq<Bytes>)
  {
    && ZoneOk(origin, pre) && CleanedTo(origin, cfg, pre, z) && SignedFrom(z, s)
    && (forall x :: |hash(x)| == len)
    && ChainBuilt(origin, cfg, hash, z, m, ring)
  }

  lemma SignedZone(origin: Name, cfg: Config, pre: seq<Node>, z: seq<Node>, s: seq<Node>)
    requires ZoneOk(origin, pre) && CleanedTo(origin, cfg, pre, z) && SignedFrom(z, s)
    ensures SameShape(z, s) && SameShape(pre, z) && ZoneOk(origin, s) && ZoneOk(origin, z)
  {
    CleanedZone(origin, cfg, pre, z);
    SigningKeepsShape(z, s);
    var o := OriginIsFirst(origin, z);
    assert NodeSigned(z[o], s[o]);
    forall i | 0 <= i < |s| ensures !Has(s[i], NSEC3) && s[i].name == z[i].name {
      assert NodeSigned(z[i], s[i]);
    }
  }

  /** The verifier visits exactly the base chain, and meets a forbidden NSEC record only ahead of the origin. */
  lemma VisitsAreChain(origin: Name, cfg: Config, pre: seq<Node>, z: seq<Node>, s: seq<Node>, i: int)
    requires ZoneOk(origin, pre) && CleanedTo(origin, cfg, pre, z) && SignedFrom(z, s)
    requires 0 <= i < |s|
    ensures Visited(origin, s, i) <==> InChain(origin, z, i)
    ensures NsecForbidden(origin, s, i) && Has(s[i], NSEC) <==> StrayNsec(origin, pre, i)
    ensures s[i].name == z[i].name && IsDelegation(origin, s[i]) == IsDelegation(origin, z[i])
    ensures Has(s[i], DS) == Has(z[i], DS)
  {
    SignedZone(origin, cfg, pre, z, s);
    ShapeFixesChain(origin, z, s);
    assert SameRole(z[i], s[i]) && SameRole(pre[i], z[i]) && NodeSigned(z[i], s[i]);
    var o := OriginIsFirst(origin, z);
    NameOrder();
    if !NameLess(pre[i].name, origin) {
      if !Active(pre[i]) {
        InactiveIsEmptied(UseNsec3, origin, cfg.dsSets, pre, i);
      }
      NsecIsGone(origin, cfg, pre, z, i);
    } else {
      assert !InZone(origin, z[i]);
    }
  }

  lemma NsecIsGone(origin: Name, cfg: Config, pre: seq<Node>, z: seq<Node>, i: int)
    requires CleanedTo(origin, cfg, pre, z) && 0 <= i < |pre| && !NameLess(pre[i].name, origin)
    ensures !Has(z[i], NSEC)
  {
    var a := AfterActive(UseNsec3, pre[i]);
    assert Data(NSEC) !in a.rrsets;
  }

  lemma {:induction false} VisitNames(origin: Name, z: seq<Node>, s: seq<Node>, k: nat)
    requires |z| == |s| && k <= |z|
    requires forall i :: 0 <= i < |s| ==> (Visited(origin, s, i) <==> InChain(origin, z, i)) && s[i].name == z[i].name
    ensures |VisitsTo(origin, s, k)| == |ChainTo(origin, z, false, k)|
    ensures forall i :: 0 <= i < |VisitsTo(origin, s, k)| ==>
              VisitsTo(origin, s, k)[i].node.name == ChainTo(origin, z, false, k)[i]
  {
    hide Visited, InChain;
    if 0 < k {
      VisitNames(origin, z, s, k - 1);
      assert Kept(origin, z, false, k - 1) <==> InChain(origin, z, k - 1);
    }
  }

  ghost function CheckNames(cs: seq<Check>): (xs: seq<Name>)
    ensures |xs| == |cs| && forall i :: 0 <= i < |cs| ==> xs[i] == cs[i].name
  {
    seq(|cs|, i requires 0 <= i < |cs| => cs[i].name)
  }

  /** Shortest first or longest first, the empty nodes of a span are the same. */
  lemma SameEmptyNodes(a: Name, b: Name)
    ensures multiset(EmptyUp(b, Common(a, b), |b|)) == multiset(Ents(a, b))
  {
    var k := Common(a, b);
    EmptyUpMembers(b, k, |b|, []);
    EntsDownMembers(b, k, |b|, []);
    forall x ensures x in EmptyUp(b, k, |b|) <==> x in Ents(a, b) {
      EmptyUpMembers(b, k, |b|, x);
      EntsDownMembers(b, k, |b|, x);
    }
    NoDupSameMembers(EmptyUp(b, k, |b|), Ents(a, b));
  }

  /** The empty nodes between chain names `k - 1` and `k`. */
  ghost function SpanBefore(c: seq<Name>, k: nat): seq<Name>
    requires k < |c|
  {
    if k == 0 then [] else Ents(c[k - 1], c[k])
  }

  lemma ChecksOfStep(visits: seq<Visit>, c: seq<Name>, k: nat)
    requires |visits| == |c| && k < |c| && forall i :: 0 <= i < |c| ==> visits[i].node.name == c[i]
    ensures multiset(CheckNames(ChecksTo(visits, k + 1)))
            == multiset(CheckNames(ChecksTo(visits, k))) + multiset{c[k]} + multiset(SpanBefore(c, k))
  {
    hide Common, Ents, EmptyChecks, CheckNames;
    ChecksStep(visits, k);
    var v, cs := visits[k], ChecksTo(visits, k);
    CheckNamesSnoc(cs, VisitCheck(v));
    if 0 < k {
      SameEmptyNodes(c[k - 1], c[k]);
      CheckNamesEmpty(cs + [VisitCheck(v)], EmptyUp(c[k], Common(c[k - 1], c[k]), |c[k]|), v.delegation);
    }
  }

  lemma HashNamesOfStep(c: seq<Name>, k: nat)
    requires k < |c|
    ensures multiset(HashNames(c[..k + 1])) == multiset(HashNames(c[..k])) + multiset{c[k]} + multiset(SpanBefore(c, k))
  {
    hide Ents;
    if 0 < k {
      assert c[..k + 1] == c[..k - 1] + [c[k - 1]] + [c[k]] && c[..k] == c[..k - 1] + [c[k - 1]];
      HashNamesSnoc(c[..k - 1], c[k - 1], c[k]);
    } else {
      assert c[..k + 1] == [c[0]];
    }
  }

  /** The verifier's walk checks the same names as the signer's walk hashes, in another order. */
  lemma {:induction false} ChecksAreHashNames(visits: seq<Visit>, c: seq<Name>, k: nat)
    requires |visits| == |c| && k <= |c|
    requires forall i :: 0 <= i < |c| ==> visits[i].node.name == c[i]
    ensures multiset(CheckNames(ChecksTo(visits, k))) == multiset(HashNames(c[..k]))
  {
    if 0 < k {
      hide SpanBefore;
      ChecksAreHashNames(visits, c, k - 1);
      ChecksOfStep(visits, c, k - 1);
      HashNamesOfStep(c, k - 1);
    }
  }

  lemma CheckNamesSnoc(cs: seq<Check>, c: Check)
    ensures CheckNames(cs + [c]) == CheckNames(cs) + [c.name]
  {
  }

  lemma CheckNamesEmpty(cs: seq<Check>, xs: seq<Name>, delegation: bool)
    ensures CheckNames(cs + EmptyChecks(xs, delegation)) == CheckNames(cs) + xs
  {
  }

  // ----- what the checks record

  ghost function RingElement(ring: seq<Bytes>, cfg: Config, len: nat, h: Bytes): Element
    requires h in ring && forall x :: x in ring ==> |x| == len
  {
    ElementOf(cfg.params, h, CycleNext(ring, h))
  }

  ghost predicate RingFits(ring: seq<Bytes>, len: nat) {
    forall x :: x in ring ==> |x| == len
  }

  /** The elements for those of the names `xs` whose hash is on the ring. */
  ghost function Picked(ring: seq<Bytes>, cfg: Config, len: nat, hash: Name -> Bytes, xs: seq<Name>): seq<Element>
    requires RingFits(ring, len)
  {
    if xs == [] then []
    else
      var n := |xs| - 1;
      Picked(ring, cfg, len, hash, xs[..n])
      + if hash(xs[n]) in ring then [RingElement(ring, cfg, len, hash(xs[n]))] else []
  }

  lemma RingFitsHashes(origin: Name, cfg: Config, hash: Name -> Bytes, len: nat, pre: seq<Node>, z: seq<Node>,
                       s: seq<Node>, m: Tree, ring: seq<Bytes>)
    requires Built3(origin, cfg, hash, len, pre, z, s, m, ring)
    ensures RingFits(ring, len)
  {
    hide ZoneOk, CleanedTo, SignedFrom, ZoneNames;
    SameMembers(ring, Hashes(hash, ZoneNames(origin, z, cfg.optOut)));
  }

  /** On a finished chain a check records one element if the hash is on the ring, and nothing otherwise. */
  lemma RecordedOne(origin: Name, cfg: Config, hash: Name -> Bytes, len: nat, z: seq<Node>, m: Tree,
                    ring: seq<Bytes>, c: Check)
    requires ChainBuilt(origin, cfg, hash, z, m, ring) && RingFits(ring, len) && |hash(c.name)| == len
    ensures var h := hash(c.name);
            && (Present(m, h) <==> h in ring)
            && (h in ring ==> MatchGood(m[h], cfg.params, |h|))
            && Recorded(m, cfg.params, hash, c)
               == if h in ring then [RingElement(ring, cfg, len, h)] else []
  {
    hide Sorted, NoDup, ZoneNames, CycleNext;
  }

  lemma {:induction false} RecordedIsPicked(origin: Name, cfg: Config, hash: Name -> Bytes, len: nat, z: seq<Node>,
                                            m: Tree, ring: seq<Bytes>, cs: seq<Check>)
    requires ChainBuilt(origin, cfg, hash, z, m, ring) && RingFits(ring, len) && forall x :: |hash(x)| == len
    ensures AllRecorded(m, cfg.params, hash, cs) == Picked(ring, cfg, len, hash, CheckNames(cs))
  {
    hide ChainBuilt, RingElement, Recorded, RingFits;
    if cs != [] {
      var n := |cs| - 1;
      RecordedIsPicked(origin, cfg, hash, len, z, m, ring, cs[..n]);
      RecordedOne(origin, cfg, hash, len, z, m, ring, cs[n]);
      assert CheckNames(cs)[..n] == CheckNames(cs[..n]);
    }
  }

  lemma {:induction false} PickedMember(ring: seq<Bytes>, cfg: Config, len: nat, hash: Name -> Bytes,
                                        xs: seq<Name>, e: Element)
    requires RingFits(ring, len)
    ensures e in Picked(ring, cfg, len, hash, xs)
            <==> e.owner in ring && e == RingElement(ring, cfg, len, e.owner)
                 && exists i :: 0 <= i < |xs| && hash(xs[i]) == e.owner
  {
    hide CycleNext;
    if xs != [] {
      var n := |xs| - 1;
      PickedMember(ring, cfg, len, hash, xs[..n], e);
      assert (exists i :: 0 <= i < |xs| && hash(xs[i]) == e.owner)
        <==> hash(xs[n]) == e.owner || exists i :: 0 <= i < n && hash(xs[..n][i]) == e.owner by {
        if i :| 0 <= i < |xs| && hash(xs[i]) == e.owner && i != n {
          assert hash(xs[..n][i]) == e.owner;
        }
        if i :| 0 <= i < n && hash(xs[..n][i]) == e.owner {
          assert hash(xs[i]) == e.owner;
        }
      }
    }
  }

  /** No two of the names hash to the same place on the ring. */
  ghost predicate InjectiveOnRing(ring: seq<Bytes>, hash: Name -> Bytes, xs: seq<Name>) {
    forall i, j :: 0 <= i < j < |xs| && hash(xs[i]) in ring ==> hash(xs[i]) != hash(xs[j])
  }

  lemma {:induction false} PickedNoDup(ring: seq<Bytes>, cfg: Config, len: nat, hash: Name -> Bytes, xs: seq<Name>)
    requires RingFits(ring, len)
    ensures NoDup(Picked(ring, cfg, len, hash, xs)) <==> InjectiveOnRing(ring, hash, xs)
  {
    if xs != [] {
      var n := |xs| - 1;
      var ys, x := xs[..n], xs[n];
      PickedNoDup(ring, cfg, len, hash, ys);
      var rest := Picked(ring, cfg, len, hash, ys);
      InjectiveSnoc(ring, hash, ys, x);
      assert xs == ys + [x];
      if hash(x) in ring {
        var e := RingElement(ring, cfg, len, hash(x));
        PickedMember(ring, cfg, len, hash, ys, e);
        NoDupSnoc(rest, e);
      } else {
        assert Picked(ring, cfg, len, hash, xs) == rest;
      }
    }
  }

  lemma InjectiveSnoc(ring: seq<Bytes>, hash: Name -> Bytes, ys: seq<Name>, x: Name)
    ensures InjectiveOnRing(ring, hash, ys + [x])
            <==> InjectiveOnRing(ring, hash, ys)
                 && (hash(x) in ring ==> forall i :: 0 <= i < |ys| ==> hash(ys[i]) != hash(x))
  {
    var xs := ys + [x];
    if InjectiveOnRing(ring, hash, xs) {
      forall i, j | 0 <= i < j < |ys| && hash(ys[i]) in ring ensures hash(ys[i]) != hash(ys[j]) {
        assert hash(xs[i]) != hash(xs[j]);
      }
      if hash(x) in ring {
        forall i | 0 <= i < |ys| ensures hash(ys[i]) != hash(x) {
          assert xs[i] == ys[i] && xs[|ys|] == x;
        }
      }
    }
  }

  // ----- the ring as a chain of elements

  ghost function RingElements(ring: seq<Bytes>, cfg: Config, len: nat): (v: seq<Element>)
    requires RingFits(ring, len)
    ensures |v| == |ring|
    ensures forall i {:trigger v[i]} :: 0 <= i < |ring| ==> v[i] == RingElement(ring, cfg, len, ring[i])
  {
    seq(|ring|, i requires 0 <= i < |ring| => RingElement(ring, cfg, len, ring[i]))
  }

  lemma RingElementsSet(ring: seq<Bytes>, cfg: Config, len: nat)
    requires RingFits(ring, len) && NoDup(ring)
    ensures NoDup(RingElements(ring, cfg, len))
    ensures forall e: Element :: e in RingElements(ring, cfg, len)
                                 <==> e.owner in ring && e == RingElement(ring, cfg, len, e.owner)
  {
    hide CycleNext;
    var v: seq<Element> := RingElements(ring, cfg, len);
    forall i, j | 0 <= i < j < |v| ensures v[i] != v[j] {
      assert v[i].owner == ring[i] && v[j].owner == ring[j];
    }
    forall e: Element | e.owner in ring && e == RingElement(ring, cfg, len, e.owner) ensures e in v {
      var i :| 0 <= i < |ring| && ring[i] == e.owner;
      assert v[i] == e;
    }
  }

  lemma PayloadOrder(p: Bytes, a: Bytes, b: Bytes, x: Bytes, y: Bytes)
    requires |a| == |b| && BytesLess(a, b)
    ensures BytesLess(p + a + x, p + b + y)
  {
    var k := Common(a, b);
    var s, t := p + a + x, p + b + y;
    assert s[..|p| + k] == p + a[..k] == p + b[..k] == t[..|p| + k];
    assert s[|p| + k] == a[k] && t[|p| + k] == b[k];
    CommonUnique(s, t, |p| + k);
  }

  /** All elements of a ring belong to one chain and differ in their hashes only. */
  lemma RingFields(ring: seq<Bytes>, cfg: Config, len: nat, i: nat)
    requires RingFits(ring, len) && i < |ring|
    ensures var e := RingElements(ring, cfg, len)[i];
            && e.alg == cfg.params.alg && e.iterations == cfg.params.iterations && e.salt == cfg.params.salt
            && e.owner == ring[i] && e.next == CycleNext(ring, ring[i]) && |e.owner| == |e.next| == len
  {
  }

  lemma RingHeapOrder(ring: seq<Bytes>, cfg: Config, len: nat)
    requires RingFits(ring, len) && Sorted(ring) && NoDup(ring)
    ensures HeapOrder(RingElements(ring, cfg, len))
  {
    hide BytesLess, CycleNext, RingElements;
    var v: seq<Element> := RingElements(ring, cfg, len);
    forall i, j | 0 <= i < j < |v| ensures !ChainCompare(v[j], v[i]) {
      RingFields(ring, cfg, len, i);
      RingFields(ring, cfg, len, j);
      OwnersOrder(v[i], v[j]);
    }
  }

  lemma OwnersOrder(a: Element, b: Element)
    requires a.alg == b.alg && a.iterations == b.iterations && a.salt == b.salt && |a.next| == |b.next|
    requires a.owner != b.owner && !BytesLess(b.owner, a.owner)
    ensures !ChainCompare(b, a)
  {
    hide BytesLess;
    BytesOrder();
    PayloadOrder(a.salt, a.owner, b.owner, a.next, b.next);
  }

  lemma {:induction false} RingStartsAtZero(ring: seq<Bytes>, cfg: Config, len: nat, i: nat)
    requires RingFits(ring, len) && i < |ring|
    ensures Start(RingElements(ring, cfg, len), i) == 0
  {
    hide CycleNext, RingElements;
    if 0 < i {
      RingStartsAtZero(ring, cfg, len, i - 1);
      RingFields(ring, cfg, len, i - 1);
      RingFields(ring, cfg, len, i);
    }
  }

  /** The ring is closed: each element names the next owner, and the last one the first. */
  lemma RingIsClosed(ring: seq<Bytes>, cfg: Config, len: nat)
    requires RingFits(ring, len) && NoDup(ring)
    ensures ChainsClosed(RingElements(ring, cfg, len))
  {
    hide CycleNext, RingElements, NoDup;
    var v: seq<Element> := RingElements(ring, cfg, len);
    forall i | 0 <= i < |v| ensures LinkGood(v, i) {
      RingStartsAtZero(ring, cfg, len, i);
      CycleNextAt(ring, i);
      RingFields(ring, cfg, len, i);
      RingFields(ring, cfg, len, Wrap(i, 1, |ring|));
    }
  }

  lemma FoundAtRing(ring: seq<Bytes>, cfg: Config, len: nat, h: Bytes)
    requires RingFits(ring, len) && h in ring
    ensures FoundAt(h, [RecordAt(ring, cfg, h)], cfg.params) == [RingElement(ring, cfg, len, h)]
  {
    hide CycleNext;
    var rs := [RecordAt(ring, cfg, h)];
    assert rs[1..] == [];
  }

  /** The found chain of a finished zone is the ring. */
  lemma FoundIsRing(origin: Name, cfg: Config, hash: Name -> Bytes, len: nat, z: seq<Node>, m: Tree,
                    ring: seq<Bytes>, e: Element)
    requires ChainBuilt(origin, cfg, hash, z, m, ring) && RingFits(ring, len)
    ensures multiset(RingElements(ring, cfg, len))[e] == FoundCount(m, cfg.params, e)
  {
    hide Sorted, NoDup, ZoneNames, CycleNext, RingElements, RingElement;
    RingElementsSet(ring, cfg, len);
    NoDupCounts(RingElements(ring, cfg, len));
    var v: seq<Element> := RingElements(ring, cfg, len);
    assert e in v <==> multiset(v)[e] > 0;
    if e.owner in ring {
      FoundAtRing(ring, cfg, len, e.owner);
    } else if e.owner in m {
      assert FoundAt(e.owner, m[e.owner], cfg.params) == [];
    }
  }

  // ----- the checks succeed

  /** Every check belongs to a visit: to the visited name or to an empty node above it. */
  lemma {:induction false} CheckBelongs(visits: seq<Visit>, k: nat, c: Check) returns (j: nat)
    requires k <= |visits| && c in ChecksTo(visits, k)
    ensures j < k
    ensures c == VisitCheck(visits[j])
            || (c.empty && c.delegation == visits[j].delegation && c.name <= visits[j].node.name)
  {
    var rest := ChecksTo(visits, k - 1);
    if c in rest {
      j := CheckBelongs(visits, k - 1, c);
    } else {
      j := k - 1;
      var v := visits[j];
      if c != VisitCheck(v) {
        var b, a := v.node.name, visits[j - 1].node.name;
        var up := EmptyUp(b, Common(a, b), |b|);
        var i :| 0 <= i < |up| && c == EmptyChecks(up, v.delegation)[i];
        EmptyUpMembers(b, Common(a, b), |b|, up[i]);
      }
    }
  }

  /** Opting names out only shrinks the list of names. */
  lemma OptOutShrinks(origin: Name, z: seq<Node>, optOut: bool, x: Name)
    requires ZoneOk(origin, z) && x in ZoneNames(origin, z, optOut)
    ensures x in ZoneNames(origin, z, false)
  {
    hide NameLess, ZoneOk;
    ZoneChainIsChain(origin, z, optOut);
    ZoneChainIsChain(origin, z, false);
    HashNamesAreClosure(origin, Chain(origin, z, optOut), x);
    HashNamesAreClosure(origin, Chain(origin, z, false), x);
    var c, d := Chain(origin, z, optOut), Chain(origin, z, false);
    var i :| 0 <= i < |c| && x <= c[i];
    var n := ChainIsKept(origin, z, optOut, |z|, c[i]);
    assert Kept(origin, z, false, n);
    KeptInChain(origin, z, false, |z|, n);
    var k :| 0 <= k < |d| && d[k] == c[i];
    assert x <= d[k];
  }

  /** Whatever lies above a linked name, down from the origin, is on the list. */
  lemma AboveKeptIsListed(origin: Name, z: seq<Node>, optOut: bool, i: nat, x: Name)
    requires ZoneOk(origin, z) && i < |z| && Kept(origin, z, optOut, i) && origin <= x <= z[i].name
    ensures x in ZoneNames(origin, z, optOut)
  {
    hide NameLess, ZoneOk, Kept;
    ZoneChainIsChain(origin, z, optOut);
    var c := Chain(origin, z, optOut);
    HashNamesAreClosure(origin, c, x);
    KeptInChain(origin, z, optOut, |z|, i);
    var k :| 0 <= k < |c| && c[k] == z[i].name;
    assert x <= c[k];
  }

  lemma ListedIsOnRing(origin: Name, cfg: Config, hash: Name -> Bytes, z: seq<Node>, m: Tree, ring: seq<Bytes>, x: Name)
    requires ChainBuilt(origin, cfg, hash, z, m, ring) && x in ZoneNames(origin, z, cfg.optOut)
    ensures hash(x) in ring
  {
    hide Sorted, NoDup, ZoneNames;
    RingIsHit(hash, ring, ZoneNames(origin, z, cfg.optOut));
  }

  lemma OnRingIsListed(origin: Name, cfg: Config, hash: Name -> Bytes, z: seq<Node>, m: Tree,
                       ring: seq<Bytes>, h: Bytes)
    returns (x: Name)
    requires ChainBuilt(origin, cfg, hash, z, m, ring) && h in ring
    ensures x in ZoneNames(origin, z, cfg.optOut) && hash(x) == h
  {
    hide Sorted, NoDup, ZoneNames;
    var xs := ZoneNames(origin, z, cfg.optOut);
    SameMembers(ring, Hashes(hash, xs));
    var i :| 0 <= i < |xs| && Hashes(hash, xs)[i] == h;
    x := xs[i];
  }

  /** The names the verifier checks are exactly the names of the zone without opt-out, once each. */
  lemma {:induction false} ZoneCheckNames(origin: Name, cfg: Config, pre: seq<Node>, z: seq<Node>, s: seq<Node>)
    requires ZoneOk(origin, pre) && CleanedTo(origin, cfg, pre, z) && SignedFrom(z, s)
    ensures multiset(CheckNames(ZoneChecks(origin, s))) == multiset(ZoneNames(origin, z, false))
    ensures NoDup(CheckNames(ZoneChecks(origin, s)))
  {
    hide ZoneOk, Visited, InChain, IsChain, SameShape, CleanedTo, SignedFrom, NoDup;
    SignedZone(origin, cfg, pre, z, s);
    forall i | 0 <= i < |s| ensures (Visited(origin, s, i) <==> InChain(origin, z, i)) && s[i].name == z[i].name {
      VisitsAreChain(origin, cfg, pre, z, s, i);
    }
    ZoneChainIsChain(origin, z, false);
    HashNamesDistinct(origin, Chain(origin, z, false));
    var c, visits := Chain(origin, z, false), VisitsTo(origin, s, |s|);
    VisitNames(origin, z, s, |s|);
    ChecksAreHashNames(visits, c, |c|);
    assert c[..|c|] == c;
    NoDupPermuted(CheckNames(ZoneChecks(origin, s)), HashNames(c));
  }

  lemma CheckSucceeds(origin: Name, cfg: Config, hash: Name -> Bytes, len: nat, pre: seq<Node>, z: seq<Node>,
                      s: seq<Node>, m: Tree, ring: seq<Bytes>, c: Check)
    requires Built3(origin, cfg, hash, len, pre, z, s, m, ring) && RingFits(ring, len) && c in ZoneChecks(origin, s)
    ensures CheckGood(m, cfg.params, IsOptOut(m, hash(origin)), hash, c)
  {
    RecordedOne(origin, cfg, hash, len, z, m, ring, c);
    if hash(c.name) !in ring {
      OptedOutCheck(origin, cfg, hash, len, pre, z, s, m, ring, c);
      OriginOptOut(origin, cfg, hash, len, pre, z, s, m, ring);
    }
  }

  /** The record at the origin carries the opt-out flag of the chain. */
  lemma OriginOptOut(origin: Name, cfg: Config, hash: Name -> Bytes, len: nat, pre: seq<Node>, z: seq<Node>,
                     s: seq<Node>, m: Tree, ring: seq<Bytes>)
    requires Built3(origin, cfg, hash, len, pre, z, s, m, ring)
    ensures IsOptOut(m, hash(origin)) == cfg.optOut
  {
    SignedZone(origin, cfg, pre, z, s);
    var o := OriginIsFirst(origin, z);
    assert Kept(origin, z, cfg.optOut, o);
    hide ZoneOk, CleanedTo, SignedFrom, InChain, Kept;
    AboveKeptIsListed(origin, z, cfg.optOut, o, origin);
    ListedIsOnRing(origin, cfg, hash, z, m, ring, origin);
  }

  /** A check that finds no record is for, or above, a delegation that was opted out. */
  lemma {:induction false} OptedOutCheck(origin: Name, cfg: Config, hash: Name -> Bytes, len: nat,
                                         pre: seq<Node>, z: seq<Node>, s: seq<Node>, m: Tree,
                                         ring: seq<Bytes>, c: Check)
    requires Built3(origin, cfg, hash, len, pre, z, s, m, ring)
    requires c in ZoneChecks(origin, s) && hash(c.name) !in ring
    ensures cfg.optOut && c.delegation && (!c.empty ==> !c.ds)
  {
    hide ZoneOk, CleanedTo, SignedFrom, InChain, SameShape, ChainBuilt;
    SignedZone(origin, cfg, pre, z, s);
    var visits := VisitsTo(origin, s, |s|);
    var j := CheckBelongs(visits, |visits|, c);
    var i := VisitsMember(origin, s, |s|, visits[j]);
    VisitsAreChain(origin, cfg, pre, z, s, i);
    CheckIsListed(origin, cfg, pre, z, s, c);
    if Kept(origin, z, cfg.optOut, i) {
      AboveKeptIsListed(origin, z, cfg.optOut, i, c.name);
      ListedIsOnRing(origin, cfg, hash, z, m, ring, c.name);
    }
  }

  lemma CheckIsListed(origin: Name, cfg: Config, pre: seq<Node>, z: seq<Node>, s: seq<Node>, c: Check)
    requires ZoneOk(origin, pre) && CleanedTo(origin, cfg, pre, z) && SignedFrom(z, s) && ZoneOk(origin, z)
    requires c in ZoneChecks(origin, s)
    ensures origin <= c.name && c.name in ZoneNames(origin, z, false)
  {
    hide ZoneOk, CleanedTo, SignedFrom, NoDup, NameLess;
    ZoneCheckNames(origin, cfg, pre, z, s);
    ZoneChainIsChain(origin, z, false);
    SameMembers(CheckNames(ZoneChecks(origin, s)), ZoneNames(origin, z, false));
    var cs := ZoneChecks(origin, s);
    var i :| 0 <= i < |cs| && cs[i] == c;
    assert CheckNames(cs)[i] == c.name;
    HashNamesAreClosure(origin, Chain(origin, z, false), c.name);
  }

  // ----- the main result

  /** No name of the zone shares its hash with another name that is linked. */
  ghost predicate NoHiddenCollision(origin: Name, hash: Name -> Bytes, z: seq<Node>, optOut: bool) {
    forall x, y :: x in ZoneNames(origin, z, false) && y in ZoneNames(origin, z, optOut) ==>
                     hash(x) == hash(y) ==> x == y
  }

  lemma NoCollisionIsInjective(origin: Name, cfg: Config, hash: Name -> Bytes, z: seq<Node>, m: Tree, ring: seq<Bytes>,
                               xs: seq<Name>, i: nat, j: nat)
    requires ChainBuilt(origin, cfg, hash, z, m, ring) && NoHiddenCollision(origin, hash, z, cfg.optOut)
    requires forall x :: x in xs ==> x in ZoneNames(origin, z, false)
    requires NoDup(xs) && i < j < |xs| && hash(xs[i]) in ring
    ensures hash(xs[i]) != hash(xs[j])
  {
    hide ChainBuilt, ZoneNames;
    var y := OnRingIsListed(origin, cfg, hash, z, m, ring, hash(xs[i]));
    assert xs[i] in xs && xs[j] in xs;
  }

  lemma InjectiveIsNoCollision(origin: Name, cfg: Config, hash: Name -> Bytes, z: seq<Node>, m: Tree, ring: seq<Bytes>,
                               xs: seq<Name>, x: Name, y: Name)
    requires ZoneOk(origin, z) && ChainBuilt(origin, cfg, hash, z, m, ring) && InjectiveOnRing(ring, hash, xs)
    requires forall x :: x in ZoneNames(origin, z, false) ==> x in xs
    requires x in ZoneNames(origin, z, false) && y in ZoneNames(origin, z, cfg.optOut) && hash(x) == hash(y)
    ensures x == y
  {
    hide ZoneOk, ChainBuilt, ZoneNames;
    ListedIsOnRing(origin, cfg, hash, z, m, ring, y);
    OptOutShrinks(origin, z, cfg.optOut, y);
    var i :| 0 <= i < |xs| && xs[i] == x;
    var j :| 0 <= j < |xs| && xs[j] == y;
  }

  /** On the names the verifier checks, hidden collisions and repeated ring positions are the same thing. */
  lemma CollisionsDecide(origin: Name, cfg: Config, hash: Name -> Bytes, z: seq<Node>, m: Tree,
                         ring: seq<Bytes>, xs: seq<Name>)
    requires ZoneOk(origin, z) && ChainBuilt(origin, cfg, hash, z, m, ring)
    requires NoDup(xs) && multiset(xs) == multiset(ZoneNames(origin, z, false))
    ensures InjectiveOnRing(ring, hash, xs) <==> NoHiddenCollision(origin, hash, z, cfg.optOut)
  {
    hide ZoneOk, ChainBuilt, ZoneNames, NoDup;
    SameMembers(xs, ZoneNames(origin, z, false));
    if NoHiddenCollision(origin, hash, z, cfg.optOut) {
      forall i, j | 0 <= i < j < |xs| && hash(xs[i]) in ring ensures hash(xs[i]) != hash(xs[j]) {
        NoCollisionIsInjective(origin, cfg, hash, z, m, ring, xs, i, j);
      }
    } else {
      var x, y :| x in ZoneNames(origin, z, false) && y in ZoneNames(origin, z, cfg.optOut)
                  && hash(x) == hash(y) && x != y;
      if InjectiveOnRing(ring, hash, xs) {
        InjectiveIsNoCollision(origin, cfg, hash, z, m, ring, xs, x, y);
      }
    }
  }

  /** Every element of the ring is expected, and nothing else. */
  lemma PickedIsRing(origin: Name, cfg: Config, hash: Name -> Bytes, len: nat, z: seq<Node>, m: Tree,
                     ring: seq<Bytes>, xs: seq<Name>, e: Element)
    requires ZoneOk(origin, z) && ChainBuilt(origin, cfg, hash, z, m, ring) && RingFits(ring, len)
    requires forall x :: x in ZoneNames(origin, z, false) ==> x in xs
    ensures e in Picked(ring, cfg, len, hash, xs) <==> e.owner in ring && e == RingElement(ring, cfg, len, e.owner)
  {
    hide ZoneOk, ChainBuilt, ZoneNames, RingElement;
    PickedMember(ring, cfg, len, hash, xs, e);
    if e.owner in ring {
      var x := OnRingIsListed(origin, cfg, hash, z, m, ring, e.owner);
      OptOutShrinks(origin, z, cfg.optOut, x);
      var i :| 0 <= i < |xs| && xs[i] == x;
      assert hash(xs[i]) == e.owner;
    }
  }

  /** The expected chain is the ring, element for element, unless some element is expected twice. */
  lemma ExpectedIsRing(origin: Name, cfg: Config, hash: Name -> Bytes, len: nat, z: seq<Node>, m: Tree,
                       ring: seq<Bytes>, xs: seq<Name>)
    requires ZoneOk(origin, z) && ChainBuilt(origin, cfg, hash, z, m, ring) && RingFits(ring, len)
    requires NoDup(xs) && multiset(xs) == multiset(ZoneNames(origin, z, false))
    ensures multiset(Picked(ring, cfg, len, hash, xs)) == multiset(RingElements(ring, cfg, len))
            <==> NoHiddenCollision(origin, hash, z, cfg.optOut)
  {
    RingElementsSet(ring, cfg, len);
    SameMembers(xs, ZoneNames(origin, z, false));
    CollisionsDecide(origin, cfg, hash, z, m, ring, xs);
    PickedNoDup(ring, cfg, len, hash, xs);
    hide ZoneOk, ChainBuilt, ZoneNames, NoHiddenCollision, InjectiveOnRing, RingElements, RingElement, NoDup, RingFits;
    var p, v: seq<Element> := Picked(ring, cfg, len, hash, xs), RingElements(ring, cfg, len);
    forall e: Element ensures e in p <==> e in v {
      PickedIsRing(origin, cfg, hash, len, z, m, ring, xs, e);
    }
    if NoDup(p) {
      NoDupSameMembers(p, v);
    } else if multiset(p) == multiset(v) {
      NoDupPermuted(p, v);
    }
  }

  lemma ForbiddenIsStray(origin: Name, cfg: Config, pre: seq<Node>, z: seq<Node>, s: seq<Node>)
    requires ZoneOk(origin, pre) && CleanedTo(origin, cfg, pre, z) && SignedFrom(z, s)
    ensures ForbiddenNsec(origin, s) <==> exists i :: StrayNsec(origin, pre, i)
  {
    forall i | 0 <= i < |s| ensures NsecForbidden(origin, s, i) && Has(s[i], NSEC) <==> StrayNsec(origin, pre, i) {
      VisitsAreChain(origin, cfg, pre, z, s, i);
    }
  }

  /** Expected and found records agree one for one exactly when there is no hidden collision. */
  lemma CountsMatch(origin: Name, cfg: Config, hash: Name -> Bytes, len: nat, pre: seq<Node>, z: seq<Node>,
                    s: seq<Node>, m: Tree, ring: seq<Bytes>)
    requires Built3(origin, cfg, hash, len, pre, z, s, m, ring) && RingFits(ring, len)
    ensures multiset(ExpectedChain(origin, s, m, cfg.params, hash)) == multiset(RingElements(ring, cfg, len))
            <==> NoHiddenCollision(origin, hash, z, cfg.optOut)
  {
    hide ZoneOk, CleanedTo, SignedFrom, SameShape, ChainBuilt, RingElements, NoHiddenCollision, NoDup, ZoneChecks,
         ZoneNames, RingFits;
    SignedZone(origin, cfg, pre, z, s);
    var cs := ZoneChecks(origin, s);
    RecordedIsPicked(origin, cfg, hash, len, z, m, ring, cs);
    ZoneCheckNames(origin, cfg, pre, z, s);
    ExpectedIsRing(origin, cfg, hash, len, z, m, ring, CheckNames(cs));
  }

  lemma FoundCountsAreRing(origin: Name, cfg: Config, hash: Name -> Bytes, len: nat, z: seq<Node>, m: Tree,
                           ring: seq<Bytes>, es: seq<Element>)
    requires ChainBuilt(origin, cfg, hash, z, m, ring) && RingFits(ring, len)
    ensures (forall e: Element :: multiset(es)[e] == FoundCount(m, cfg.params, e))
            <==> multiset(es) == multiset(RingElements(ring, cfg, len))
  {
    hide ChainBuilt, RingElements, RingFits, FoundCount;
    var v: seq<Element> := RingElements(ring, cfg, len);
    forall e: Element ensures multiset(v)[e] == FoundCount(m, cfg.params, e) {
      FoundIsRing(origin, cfg, hash, len, z, m, ring, e);
    }
    CountsDecide(es, v);
  }

  lemma AllChecksGood(origin: Name, cfg: Config, hash: Name -> Bytes, len: nat, pre: seq<Node>, z: seq<Node>,
                      s: seq<Node>, m: Tree, ring: seq<Bytes>)
    requires Built3(origin, cfg, hash, len, pre, z, s, m, ring) && RingFits(ring, len)
    ensures AllGood(m, cfg.params, IsOptOut(m, hash(origin)), hash, ZoneChecks(origin, s))
  {
    hide Built3, ZoneChecks, CheckGood, RingFits;
    forall c | c in ZoneChecks(origin, s) ensures CheckGood(m, cfg.params, IsOptOut(m, hash(origin)), hash, c) {
      CheckSucceeds(origin, cfg, hash, len, pre, z, s, m, ring, c);
    }
  }

  /**
    For every zone built by `nsec3ify`, with or without opt-out, and signed in any way: the verifier
    looks up exactly the right names, collects exactly the records that were written and finds the chain
    closed, if and only if no opted-out name collides with a linked one; without opt-out the signer's own
    duplicate test has already ruled that out.  It stops fatally only over an NSEC record that stood at
    an out-of-zone node ahead of the origin.
   */
  lemma {:induction false} Nsec3Agreement(origin: Name, cfg: Config, hash: Name -> Bytes, len: nat,
                                          pre: seq<Node>, z: seq<Node>, s: seq<Node>, m: Tree,
                                          ring: seq<Bytes>)
    requires Built3(origin, cfg, hash, len, pre, z, s, m, ring)
    ensures ZoneOk(origin, s)
    ensures ForbiddenNsec(origin, s) <==> exists i :: StrayNsec(origin, pre, i)
    ensures ChainAccepted(origin, s, m, cfg.params, hash) <==> NoHiddenCollision(origin, hash, z, cfg.optOut)
    ensures !cfg.optOut ==> ChainAccepted(origin, s, m, cfg.params, hash)
  {
    hide ZoneOk, CleanedTo, SignedFrom, SameShape, ChainBuilt, ForbiddenNsec, StrayNsec, AllGood, ExpectedChain,
         RingElements, NoHiddenCollision, ZoneChecks, HeapOrder, ChainsClosed, RingFits, FoundCount;
    SignedZone(origin, cfg, pre, z, s);
    ForbiddenIsStray(origin, cfg, pre, z, s);
    RingFitsHashes(origin, cfg, hash, len, pre, z, s, m, ring);
    AllChecksGood(origin, cfg, hash, len, pre, z, s, m, ring);
    CountsMatch(origin, cfg, hash, len, pre, z, s, m, ring);
    FoundCountsAreRing(origin, cfg, hash, len, z, m, ring, ExpectedChain(origin, s, m, cfg.params, hash));
    RingIsOrdered(origin, cfg, hash, len, z, m, ring);
    NoOptOutNoCollision(origin, cfg, hash, z, m, ring);
    var v: seq<Element> := RingElements(ring, cfg, len);
    assert HeapOrder(v) && ChainsClosed(v);
  }

  lemma RingIsOrdered(origin: Name, cfg: Config, hash: Name -> Bytes, len: nat, z: seq<Node>, m: Tree, ring: seq<Bytes>)
    requires ChainBuilt(origin, cfg, hash, z, m, ring) && RingFits(ring, len)
    ensures HeapOrder(RingElements(ring, cfg, len)) && ChainsClosed(RingElements(ring, cfg, len))
  {
    RingHeapOrder(ring, cfg, len);
    RingIsClosed(ring, cfg, len);
  }

  lemma NoOptOutNoCollision(origin: Name, cfg: Config, hash: Name -> Bytes, z: seq<Node>, m: Tree, ring: seq<Bytes>)
    requires ChainBuilt(origin, cfg, hash, z, m, ring)
    ensures !cfg.optOut ==> NoHiddenCollision(origin, hash, z, cfg.optOut)
  {
    hide Sorted, ZoneNames;
    var xs := ZoneNames(origin, z, cfg.optOut);
    NoDupPermuted(ring, Hashes(hash, xs));
    if !cfg.optOut {
      forall x, y | x in xs && y in xs && hash(x) == hash(y) ensures x == y {
        var i :| 0 <= i < |xs| && xs[i] == x;
        var j :| 0 <= j < |xs| && xs[j] == y;
        assert Hashes(hash, xs)[i] == Hashes(hash, xs)[j];
      }
    }
  }

  /**
    Building a chain, signing the zone in any way and verifying it: the two tools agree end to end.
    `built` is the zone between the building and the signing.
   */
  method BuildSignVerify(db: Database, cfg: Config, hash: Name -> Bytes, len: nat, sign: seq<Node> -> seq<Node>)
    returns (outcome: Outcome, verdict: Verdict, ghost built: seq<Node>)
    requires ZoneOk(db.origin, db.nodes) && forall x :: |hash(x)| == len
    requires forall z :: SignedFrom(z, sign(z))
    modifies db`nodes, db`nsec3
    ensures outcome == OtherChainPresent <==>
              exists i :: IsOrigin(db.origin, old(db.nodes), i)
                          && ChainConflict(old(db.nodes)[i], NSEC, cfg.updateChain)
    ensures outcome != OtherChainPresent ==> CleanedTo(db.origin, cfg, old(db.nodes), built)
    ensures outcome != OtherChainPresent ==>
              (outcome == DuplicateHash <==> !NoDup(Hashes(hash, ZoneNames(db.origin, built, cfg.optOut))))
    ensures outcome == Built ==>
              && db.nodes == sign(built)
              && (verdict == Fatal <==> exists i :: StrayNsec(db.origin, old(db.nodes), i))
              && (verdict == Accept <==> (forall i :: !StrayNsec(db.origin, old(db.nodes), i))
                                         && NoHiddenCollision(db.origin, hash, built, cfg.optOut))
              && (verdict == Reject ==> cfg.optOut)
  {
    hide ZoneOk, CleanedTo, ChainBuilt, NoDup, ZoneNames, Hashes, StrayNsec, NoHiddenCollision, ChainConflict,
         ForbiddenNsec, ChainAccepted, SignedFrom;
    ghost var pre := db.nodes;
    ghost var ring;
    outcome, ring := Nsec3ify(db, cfg, hash, len);
    verdict, built := Reject, db.nodes;
    if outcome == Built {
      db.nodes := sign(db.nodes);
      Nsec3Agreement(db.origin, cfg, hash, len, pre, built, db.nodes, db.nsec3, ring);
      verdict := VerifyZone(db.origin, db.nodes, db.nsec3, cfg.params, hash);
    }
  }

  // ----- a hidden collision

  /**
    An apex and one insecure delegation, signed with opt-out, under a hash that does not tell the two
    apart: the signer sees no duplicate and builds the chain, and the verifier rejects it.
   */
  lemma CollisionIsHidden(params: Params, h: Bytes)
    ensures var origin, hash := [[2]], (x: Name) => h;
            var z := [Node([[2]], {Data(SOA)}, []), Node([[2], [3]], {Data(NS)}, [])];
            var cfg := Config(params, true, None, false);
            && ZoneOk(origin, z) && CleanedTo(origin, cfg, z, z)
            && (forall i :: 0 <= i < |z| ==> !ChainConflict(z[i], NSEC, cfg.updateChain))
            && (forall i :: !StrayNsec(origin, z, i))
            && NoDup(Hashes(hash, ZoneNames(origin, z, true)))
            && !NoHiddenCollision(origin, hash, z, true)
  {
    hide ZoneOk, CleanedTo, ChainConflict, StrayNsec, ZoneNames;
    var z := [Node([[2]], {Data(SOA)}, []), Node([[2], [3]], {Data(NS)}, [])];
    CollisionZone(z);
    CollisionCleaned(z, params);
    OneDelegation(z);
    var xs := ZoneNames([[2]], z, false);
    assert xs[0] in xs && xs[1] in xs && xs[0] != xs[1];
  }

  lemma CollisionZone(z: seq<Node>)
    requires z == [Node([[2]], {Data(SOA)}, []), Node([[2], [3]], {Data(NS)}, [])]
    ensures ZoneOk([[2]], z) && (forall i :: !StrayNsec([[2]], z, i))
    ensures forall i :: 0 <= i < |z| ==> !ChainConflict(z[i], NSEC, false)
  {
    PrefixIsLess([[2]], [[2], [3]]);
    hide NameLess;
    assert z[0].name == [[2]] && Has(z[0], SOA);
  }

  lemma CollisionCleaned(z: seq<Node>, params: Params)
    requires z == [Node([[2]], {Data(SOA)}, []), Node([[2], [3]], {Data(NS)}, [])]
    ensures CleanedTo([[2]], Config(params, true, None, false), z, z)
  {
    forall i | 0 <= i < |z| ensures z[i] == Cleaned(UseNsec3, [[2]], None, z, i) {
      assert IsContent(Data(SOA)) && Data(SOA) in z[0].rrsets;
      assert IsContent(Data(NS)) && Data(NS) in z[1].rrsets;
    }
  }

  lemma OneDelegation(z: seq<Node>)
    requires z == [Node([[2]], {Data(SOA)}, []), Node([[2], [3]], {Data(NS)}, [])]
    ensures ZoneNames([[2]], z, true) == [[[2]]] && ZoneNames([[2]], z, false) == [[[2]], [[2], [3]]]
  {
    assert IsContent(Data(SOA)) && Data(SOA) in z[0].rrsets;
    assert IsContent(Data(NS)) && Data(NS) in z[1].rrsets;
    assert !Occluded([[2]], z, [[2]]) && !Occluded([[2]], z, [[2], [3]]);
    assert Kept([[2]], z, true, 0) && !Kept([[2]], z, true, 1);
    assert Kept([[2]], z, false, 0) && Kept([[2]], z, false, 1);
    assert ChainTo([[2]], z, true, 1) == [[[2]]] && ChainTo([[2]], z, false, 1) == [[[2]]];
    var c: seq<Name> := [[[2]], [[2], [3]]];
    CommonUnique<Bytes>([[2]], [[2], [3]], 1);
    assert Ents(c[0], c[1]) == [];
    assert c[..1] == [[[2]]];
    assert HashNames(c) == HashNames(c[..1]) + Ents(c[0], c[1]) + [c[1]];
  }
}
