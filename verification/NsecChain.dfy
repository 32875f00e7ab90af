/** `nsecify` (bin/dnssec/dnssec-signzone.c): the NSEC chain, built in place in one walk. */
module NsecChain {
  import opened Names
  import opened Zone
  import opened ZoneDb

  /** `dns_nsec_build`. */
  function BuildNsec(n: Node, next: Name): (m: Node) {
    n.(rrsets := n.rrsets + {Data(NSEC)}, next := next)
  }

  /** Node `i` after `nsecify`: cleaned, and linked to its chain successor when it is in the chain. */
  ghost function NsecNode(origin: Name, dsSets: Option<set<Name>>, nodes: seq<Node>, i: int): (m: Node)
    requires 0 <= i < |nodes|
    ensures m.name == nodes[i].name
  {
    var c := Cleaned(UseNsec, origin, dsSets, nodes, i);
    if InChain(origin, nodes, i) then BuildNsec(c, Successor(origin, nodes, false, i)) else c
  }

  ghost predicate NsecDone(origin: Name, dsSets: Option<set<Name>>, pre: seq<Node>, post: seq<Node>,
                           from: int, to: int)
  {
    && |post| == |pre|
    && forall j :: 0 <= from <= j < to <= |pre| ==> post[j] == NsecNode(origin, dsSets, pre, j)
  }

  ghost predicate Untouched(pre: seq<Node>, post: seq<Node>, from: int) {
    && |post| == |pre|
    && forall j :: 0 <= from <= j < |pre| ==> post[j] == pre[j]
  }

  /** `remove_records` at the apex refuses to drop a chain of the other kind without `-u`. */
  predicate ChainConflict(n: Node, t: RRType, updateChain: bool) {
    !updateChain && (Data(t) in n.rrsets || Sig(t) in n.rrsets)
  }

  /** What the inner loop learns about one node, and what it leaves there when it moves on. */
  lemma {:induction false} SkipStep(origin: Name, dsSets: Option<set<Name>>, pre: seq<Node>,
                                    cur: nat, i: nat, zonecut: Option<Name>)
    requires ZoneOk(origin, pre) && InChain(origin, pre, cur) && cur < i < |pre|
    requires CutState(origin, pre, i, zonecut)
    ensures Kept(origin, pre, false, i)
            <==> Active(pre[i]) && IsSubdomain(pre[i].name, origin) && !BelowCut(pre[i].name, zonecut)
    ensures !Kept(origin, pre, false, i) ==>
              && CutState(origin, pre, i + 1, zonecut)
              && NsecNode(origin, dsSets, pre, i)
                 == (var a := AfterActive(UseNsec, pre[i]);
                     if Active(pre[i]) then RemoveRecords(RemoveSigs(UseNsec, a, false), NSEC) else a)
  {
    MostRecentCutSuffices(origin, pre, i, zonecut);
    CutStateStep(origin, pre, i, zonecut);
    var o := OriginIsFirst(origin, pre);
    NameOrder();
    assert NameLess(origin, pre[i].name);
  }

  /** The inner loop: skip and clean nodes after `cur` until the next one that belongs in the chain. */
  method FindNextNode(db: Database, dsSets: Option<set<Name>>, cur: nat, zonecut: Option<Name>, ghost pre: seq<Node>)
    returns (i: nat)
    requires ZoneOk(db.origin, pre) && cur < |pre| && InChain(db.origin, pre, cur)
    requires CutState(db.origin, pre, cur + 1, zonecut)
    requires Untouched(pre, db.nodes, cur + 1)
    modifies db`nodes
    ensures IsNextKept(db.origin, pre, false, cur, i)
    ensures CutState(db.origin, pre, i, zonecut)
    ensures |db.nodes| == |pre| && forall j :: 0 <= j <= cur ==> db.nodes[j] == old(db.nodes)[j]
    ensures forall j :: cur < j < i ==> db.nodes[j] == NsecNode(db.origin, dsSets, pre, j)
    ensures i < |pre| ==> db.nodes[i] == AfterActive(UseNsec, pre[i]) && Untouched(pre, db.nodes, i + 1)
  {
    hide ZoneOk, CutState, InChain, NsecNode, AfterActive, RemoveSigs, RemoveRecords, Active;
    i := cur + 1;
    while i < |db.nodes|
      invariant cur < i <= |pre| == |db.nodes|
      invariant forall j :: cur < j < i ==> !Kept(db.origin, pre, false, j)
      invariant CutState(db.origin, pre, i, zonecut)
      invariant forall j :: 0 <= j <= cur ==> db.nodes[j] == old(db.nodes)[j]
      invariant forall j :: cur < j < i ==> db.nodes[j] == NsecNode(db.origin, dsSets, pre, j)
      invariant Untouched(pre, db.nodes, i)
    {
      SkipStep(db.origin, dsSets, pre, cur, i, zonecut);
      var active, n := ActiveNode(UseNsec, db.nodes[i]);
      db.nodes := db.nodes[i := n];
      if active {
        if !IsSubdomain(n.name, db.origin) || BelowCut(n.name, zonecut) {
          db.nodes := db.nodes[i := RemoveRecords(RemoveSigs(UseNsec, n, false), NSEC)];
        } else {
          break;
        }
      }
      i := i + 1;
    }
  }

  /** What the outer loop does to the chain node it stands on, before it looks for the next one. */
  lemma StandStep(origin: Name, dsSets: Option<set<Name>>, pre: seq<Node>, o: nat, cur: nat, zonecut: Option<Name>)
    requires ZoneOk(origin, pre) && IsOrigin(origin, pre, o) && cur < |pre|
    requires InChain(origin, pre, cur) && CutState(origin, pre, cur, zonecut)
    ensures pre[cur].name == origin <==> cur == o
    ensures NsecNode(origin, dsSets, pre, cur)
            == BuildNsec(Cleaned(UseNsec, origin, dsSets, pre, cur), Successor(origin, pre, false, cur))
    ensures Cleaned(UseNsec, origin, dsSets, pre, cur)
            == (if cur == o then RemoveRecords(pre[o], NSEC3PARAM)
                else
                  var a := AfterActive(UseNsec, pre[cur]);
                  if IsDelegation(origin, a) then AtDelegation(UseNsec, dsSets, a) else a)
    ensures CutState(origin, pre, cur + 1,
                     if cur != o && IsDelegation(origin, AfterActive(UseNsec, pre[cur])) then Some(pre[cur].name)
                     else zonecut)
  {
    var o' := OriginIsFirst(origin, pre);
    CutStateStep(origin, pre, cur, zonecut);
    NameOrder();
    assert cur != o ==> NameLess(origin, pre[cur].name);
    assert Has(pre[cur], NS) == Has(AfterActive(UseNsec, pre[cur]), NS);
  }

  /** Nodes before the origin are out of the zone and stay as they are. */
  lemma BeforeOrigin(origin: Name, dsSets: Option<set<Name>>, pre: seq<Node>, o: nat, i: nat, zonecut: Option<Name>)
    requires ZoneOk(origin, pre) && IsOrigin(origin, pre, o) && i < |pre|
    requires CutState(origin, pre, i, zonecut)
    ensures IsSubdomain(pre[i].name, origin) ==> o <= i
    ensures !IsSubdomain(pre[i].name, origin) ==> !InChain(origin, pre, i)
    ensures i < o ==> !InChain(origin, pre, i) && NsecNode(origin, dsSets, pre, i) == pre[i]
    ensures i < o ==> CutState(origin, pre, i + 1, zonecut)
  {
    var o' := OriginIsFirst(origin, pre);
    CutStateStep(origin, pre, i, zonecut);
  }

  /** The outer loop at a chain node: the apex check, the zone cut, the clean-up at a delegation. */
  method PrepareNode(db: Database, updateChain: bool, dsSets: Option<set<Name>>, cur: nat, cut: Option<Name>,
                     ghost o: nat, ghost pre: seq<Node>) returns (ok: bool, zonecut: Option<Name>)
    requires ZoneOk(db.origin, pre) && IsOrigin(db.origin, pre, o) && cur < |pre| == |db.nodes|
    requires InChain(db.origin, pre, cur) && CutState(db.origin, pre, cur, cut)
    requires db.nodes[cur] == if cur == o then pre[o] else AfterActive(UseNsec, pre[cur])
    modifies db`nodes
    ensures !ok ==> cur == o && ChainConflict(pre[o], NSEC3PARAM, updateChain)
    ensures ok ==> cur == o ==> !ChainConflict(pre[o], NSEC3PARAM, updateChain)
    ensures ok ==> db.nodes == old(db.nodes)[cur := Cleaned(UseNsec, db.origin, dsSets, pre, cur)]
    ensures ok ==> CutState(db.origin, pre, cur + 1, zonecut)
  {
    hide ZoneOk, CutState, InChain, Cleaned, AfterActive, RemoveRecords, AtDelegation, ChainConflict, NsecNode;
    StandStep(db.origin, dsSets, pre, o, cur, cut);
    zonecut := cut;
    var name := db.nodes[cur].name;
    if name == db.origin {
      if ChainConflict(db.nodes[cur], NSEC3PARAM, updateChain) {
        return false, zonecut;
      }
      db.nodes := db.nodes[cur := RemoveRecords(db.nodes[cur], NSEC3PARAM)];
    }
    if IsDelegation(db.origin, db.nodes[cur]) {
      zonecut := Some(name);
      db.nodes := db.nodes[cur := AtDelegation(UseNsec, dsSets, db.nodes[cur])];
    }
    ok := true;
  }

  /** The NSEC3 tree with the nodes outside `todo` emptied. */
  ghost predicate Emptied(m: map<Bytes, seq<Nsec3Record>>, m0: map<Bytes, seq<Nsec3Record>>, todo: set<Bytes>) {
    m.Keys == m0.Keys && forall h :: h in m ==> m[h] == if h in todo then m0[h] else []
  }

  /** The first loop: any NSEC3 chain is removed. */
  method RemoveNsec3s(db: Database)
    modifies db`nsec3
    ensures Emptied(db.nsec3, old(db.nsec3), {})
  {
    var todo := db.nsec3.Keys;
    while todo != {}
      invariant todo <= db.nsec3.Keys && Emptied(db.nsec3, old(db.nsec3), todo)
      decreases todo
    {
      var h :| h in todo;
      db.nsec3 := db.nsec3[h := []];
      todo := todo - {h};
    }
  }

  /**
    Every node is left as `NsecNode` says: each chain member points at the next one, the last at the
    origin, and nothing else keeps an NSEC record (section 2.3 of RFC 4035).
   */
  method Nsecify(db: Database, updateChain: bool, dsSets: Option<set<Name>>) returns (ok: bool)
    requires ZoneOk(db.origin, db.nodes)
    modifies db`nodes, db`nsec3
    ensures Emptied(db.nsec3, old(db.nsec3), {})
    ensures ok <==> forall i :: IsOrigin(db.origin, old(db.nodes), i)
                                ==> !ChainConflict(old(db.nodes)[i], NSEC3PARAM, updateChain)
    ensures ok ==> NsecDone(db.origin, dsSets, old(db.nodes), db.nodes, 0, |old(db.nodes)|)
    ensures ok ==> LeftRight(UseNsec, db.origin, dsSets, old(db.nodes), db.nodes)
  {
    hide ZoneOk, CutState, InChain, IsNextKept, Cleaned, AfterActive, ChainConflict, NsecNode, BuildNsec, NsecDone,
         Emptied, LeftRight;
    ghost var pre := db.nodes;
    RemoveNsec3s(db);
    ghost var tree := db.nsec3;
    ghost var o := OriginIndex(db.origin, pre);
    var zonecut: Option<Name> := None;
    NoCutYet(db.origin, pre);
    NsecDoneNone(db.origin, dsSets, pre);
    var i := 0;
    while i < |db.nodes|
      invariant 0 <= i <= |pre| == |db.nodes| && db.nsec3 == tree
      invariant NsecDone(db.origin, dsSets, pre, db.nodes, 0, i)
      invariant CutState(db.origin, pre, i, zonecut)
      invariant i <= o ==> Untouched(pre, db.nodes, i)
      invariant o < i ==> !ChainConflict(pre[o], NSEC3PARAM, updateChain)
      invariant o < i < |pre| ==> InChain(db.origin, pre, i) && db.nodes[i] == AfterActive(UseNsec, pre[i])
      invariant Untouched(pre, db.nodes, i + 1)
    {
      var cur := i;
      BeforeOrigin(db.origin, dsSets, pre, o, cur, zonecut);
      if !IsSubdomain(db.nodes[cur].name, db.origin) {
        NsecDoneExtends(db.origin, dsSets, pre, db.nodes, cur);
        i := i + 1;
        continue;
      }
      ghost var before := db.nodes;
      ok, zonecut := PrepareNode(db, updateChain, dsSets, cur, zonecut, o, pre);
      if !ok {
        return;
      }
      i := FindNextNode(db, dsSets, cur, zonecut, pre);
      var nextname := if i < |db.nodes| then db.nodes[i].name else db.origin;
      NextKeptIs(db.origin, pre, false, cur, i);
      NextIsInChain(db.origin, pre, cur, i);
      ChainNode(db.origin, dsSets, pre, cur);
      db.nodes := db.nodes[cur := BuildNsec(db.nodes[cur], nextname)];
      NsecDoneJoins(db.origin, dsSets, pre, before, db.nodes, cur, i);
    }
    NsecDoneLeaves(db.origin, dsSets, pre, db.nodes);
    ok := true;
  }

  lemma ChainNode(origin: Name, dsSets: Option<set<Name>>, pre: seq<Node>, cur: nat)
    requires cur < |pre| && InChain(origin, pre, cur)
    ensures NsecNode(origin, dsSets, pre, cur)
            == BuildNsec(Cleaned(UseNsec, origin, dsSets, pre, cur), Successor(origin, pre, false, cur))
  {
  }

  lemma NsecDoneNone(origin: Name, dsSets: Option<set<Name>>, pre: seq<Node>)
    ensures NsecDone(origin, dsSets, pre, pre, 0, 0)
  {
  }

  lemma NsecDoneExtends(origin: Name, dsSets: Option<set<Name>>, pre: seq<Node>, post: seq<Node>, i: nat)
    requires i < |pre| && NsecDone(origin, dsSets, pre, post, 0, i) && post[i] == NsecNode(origin, dsSets, pre, i)
    ensures NsecDone(origin, dsSets, pre, post, 0, i + 1)
  {
    hide NsecNode;
  }

  lemma NextIsInChain(origin: Name, nodes: seq<Node>, cur: nat, i: nat)
    requires IsNextKept(origin, nodes, false, cur, i)
    ensures cur < i <= |nodes| && (i < |nodes| ==> InChain(origin, nodes, i))
  {
  }

  lemma NsecDoneJoins(origin: Name, dsSets: Option<set<Name>>, pre: seq<Node>, a: seq<Node>, b: seq<Node>,
                      cur: nat, i: nat)
    requires cur < i <= |pre| == |b|
    requires NsecDone(origin, dsSets, pre, a, 0, cur) && forall j :: 0 <= j < cur ==> b[j] == a[j]
    requires b[cur] == NsecNode(origin, dsSets, pre, cur)
    requires forall j :: cur < j < i ==> b[j] == NsecNode(origin, dsSets, pre, j)
    ensures NsecDone(origin, dsSets, pre, b, 0, i)
  {
    hide NsecNode;
  }

  lemma NoCutYet(origin: Name, nodes: seq<Node>)
    ensures CutState(origin, nodes, 0, None)
  {
  }

  // ----- what is left at each node, record by record

  /** Whether an RRset stands at node `i` once a chain builder is done. */
  ghost predicate LeftAt(mode: Denial, origin: Name, dsSets: Option<set<Name>>, pre: seq<Node>, i: int, r: RRset)
    requires 0 <= i < |pre|
  {
    var n := pre[i];
    if NameLess(n.name, origin) then r in n.rrsets
    else if mode.UseNsec? && InChain(origin, pre, i) && r == Data(NSEC) then true
    else if n.name == origin then
      var other := if mode.UseNsec? then NSEC3PARAM else NSEC;
      r in n.rrsets && r != Data(other) && r != Sig(other)
    else
      match r
      case Data(t) =>
        if t == NSEC then false
        else if t == DS && InChain(origin, pre, i) && Has(n, NS) && dsSets.Some? then n.name in dsSets.value
        else r in n.rrsets
      case Sig(t) =>
        && InChain(origin, pre, i) && r in n.rrsets && Has(n, t)
        && !(mode.UseNsec3? && t == NSEC)
        && (Has(n, NS) ==> || (t == DS && (dsSets.Some? ==> n.name in dsSets.value))
                           || (t == NSEC && mode.UseNsec?))
  }

  ghost predicate LeftRight(mode: Denial, origin: Name, dsSets: Option<set<Name>>, pre: seq<Node>, post: seq<Node>) {
    && |post| == |pre|
    && (forall i :: 0 <= i < |pre| ==> post[i].name == pre[i].name)
    && forall i, r :: 0 <= i < |pre| ==> (r in post[i].rrsets <==> LeftAt(mode, origin, dsSets, pre, i, r))
  }

  lemma CleanedLeaves(mode: Denial, origin: Name, dsSets: Option<set<Name>>, pre: seq<Node>, i: int, r: RRset)
    requires ZoneOk(origin, pre) && 0 <= i < |pre| && !(mode.UseNsec? && r == Data(NSEC))
    ensures r in Cleaned(mode, origin, dsSets, pre, i).rrsets <==> LeftAt(mode, origin, dsSets, pre, i, r)
  {
    NameOrder();
    hide NameLess, Occluded;
    var n := pre[i];
    if r.Data? && r in n.rrsets && r.rrtype != NSEC {
      assert IsContent(r);
    }
  }

  lemma NsecLeaves(origin: Name, dsSets: Option<set<Name>>, pre: seq<Node>, i: int)
    requires ZoneOk(origin, pre) && 0 <= i < |pre|
    ensures Data(NSEC) in NsecNode(origin, dsSets, pre, i).rrsets
            <==> LeftAt(UseNsec, origin, dsSets, pre, i, Data(NSEC))
  {
    var o := OriginIsFirst(origin, pre);
    NameOrder();
    hide NameLess, Occluded;
  }

  /** The NSEC walk, record by record. */
  lemma NsecDoneLeaves(origin: Name, dsSets: Option<set<Name>>, pre: seq<Node>, post: seq<Node>)
    requires ZoneOk(origin, pre) && NsecDone(origin, dsSets, pre, post, 0, |pre|)
    ensures LeftRight(UseNsec, origin, dsSets, pre, post)
  {
    hide ZoneOk, LeftAt, Cleaned, InChain, Successor;
    forall i, r | 0 <= i < |pre|
      ensures post[i].name == pre[i].name && (r in post[i].rrsets <==> LeftAt(UseNsec, origin, dsSets, pre, i, r))
    {
      if r == Data(NSEC) {
        NsecLeaves(origin, dsSets, pre, i);
      } else {
        CleanedLeaves(UseNsec, origin, dsSets, pre, i, r);
      }
    }
    forall i | 0 <= i < |pre| ensures post[i].name == pre[i].name {
      assert post[i] == NsecNode(origin, dsSets, pre, i);
    }
  }

  /**
    Which delegations end up with a DS: those with a DS set loaded, when DS records are generated, and else
    those that had one.  At a delegation only signatures over DS, and over NSEC in an NSEC zone, survive; at
    an occluded or out-of-zone node none does.
   */
  lemma DelegationsAfter(mode: Denial, origin: Name, dsSets: Option<set<Name>>, pre: seq<Node>, post: seq<Node>,
                         i: int)
    requires LeftRight(mode, origin, dsSets, pre, post) && 0 <= i < |pre|
    ensures InChain(origin, pre, i) && IsDelegation(origin, pre[i]) ==>
              && (Has(post[i], DS) <==> if dsSets.Some? then pre[i].name in dsSets.value else Has(pre[i], DS))
              && forall t :: Sig(t) in post[i].rrsets ==> t == DS || (mode.UseNsec? && t == NSEC)
    ensures !InChain(origin, pre, i) && !NameLess(pre[i].name, origin) && pre[i].name != origin ==>
              forall t :: Sig(t) !in post[i].rrsets
  {
    NameOrder();
    if InZone(origin, pre[i]) && pre[i].name != origin {
      PrefixIsLess(origin, pre[i].name);
    }
    hide NameLess, Occluded;
  }

  /** The builders refuse a zone whose apex has data or signatures of the other chain, unless told to update. */
  lemma ConflictIff(n: Node, t: RRType, updateChain: bool)
    ensures ChainConflict(n, t, updateChain)
            <==> !updateChain && exists r :: r in n.rrsets && (r == Data(t) || r == Sig(t))
  {
  }
}
