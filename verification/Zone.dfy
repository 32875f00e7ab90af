/**
  A zone database as the DNSSEC tools walk it: the nodes in canonical order, each with its RRsets,
  and the tests that every walk makes on a node (bin/dnssec/dnssec-signzone.c, bin/dnssec/dnssectool.c).
 */
module Zone {
  import opened Names

  datatype RRType = SOA | NS | DS | NSEC | NSEC3 | NSEC3PARAM | Other(code: nat)

  /** An RRset of a node: plain data, or the signatures over one type. */
  datatype RRset = Data(rrtype: RRType) | Sig(covers: RRType)

  /** `next` is the next-name field of the NSEC record, meaningful when there is one. */
  datatype Node = Node(name: Name, rrsets: set<RRset>, next: Name)

  /** The signer's `nsec_datatype`. */
  datatype Denial = UseNsec | UseNsec3

  predicate Has(n: Node, t: RRType) { Data(t) in n.rrsets }

  predicate IsContent(r: RRset) { r.Data? && r.rrtype != NSEC && r.rrtype != NSEC3 }

  /** What `active_node` tests: something besides NSEC, NSEC3 and signatures. */
  predicate Active(n: Node) { exists r :: r in n.rrsets && IsContent(r) }

  /** What the verifier's `is_empty` tests: no RRset at all. */
  predicate IsEmpty(n: Node) { n.rrsets == {} }

  predicate InZone(origin: Name, n: Node) { IsSubdomain(n.name, origin) }

  predicate IsDelegation(origin: Name, n: Node) { n.name != origin && Has(n, NS) }

  /** The standing assumptions on the nodes an iterator over the non-NSEC3 tree yields. */
  ghost predicate ZoneOk(origin: Name, nodes: seq<Node>) {
    && (forall i, j :: 0 <= i < j < |nodes| ==> NameLess(nodes[i].name, nodes[j].name))
    && (exists o :: 0 <= o < |nodes| && nodes[o].name == origin && Has(nodes[o], SOA))
    && (forall i :: 0 <= i < |nodes| ==> !Has(nodes[i], NSEC3))
  }

  ghost predicate IsCut(origin: Name, nodes: seq<Node>, d: int) {
    0 <= d < |nodes| && InZone(origin, nodes[d]) && IsDelegation(origin, nodes[d])
  }

  /** Some proper ancestor inside the zone is a delegation. */
  ghost predicate Occluded(origin: Name, nodes: seq<Node>, name: Name) {
    exists d :: IsCut(origin, nodes, d) && nodes[d].name < name
  }

  /** The names section 2.3 of RFC 4035 gives an NSEC record: authoritative data and delegation points. */
  ghost predicate InChain(origin: Name, nodes: seq<Node>, i: int) {
    && 0 <= i < |nodes|
    && InZone(origin, nodes[i])
    && Active(nodes[i])
    && !Occluded(origin, nodes, nodes[i].name)
  }

  predicate OptedOut(origin: Name, n: Node, optOut: bool) {
    optOut && IsDelegation(origin, n) && !Has(n, DS)
  }

  /** The nodes the signer links: with opt-out, insecure delegations are left out. */
  ghost predicate Kept(origin: Name, nodes: seq<Node>, optOut: bool, i: int) {
    InChain(origin, nodes, i) && !OptedOut(origin, nodes[i], optOut)
  }

  // ----- the most recent zone cut

  ghost predicate ChainCut(origin: Name, nodes: seq<Node>, c: int) {
    InChain(origin, nodes, c) && IsDelegation(origin, nodes[c])
  }

  /** `zonecut` as a walk holds it when it is about to look at node `i`. */
  ghost predicate CutState(origin: Name, nodes: seq<Node>, i: int, zonecut: Option<Name>) {
    match zonecut
    case None => forall c :: 0 <= c < i ==> !ChainCut(origin, nodes, c)
    case Some(z) => exists c :: IsLastCut(origin, nodes, i, c) && nodes[c].name == z
  }

  ghost predicate IsLastCut(origin: Name, nodes: seq<Node>, i: int, c: int) {
    && 0 <= c < i
    && ChainCut(origin, nodes, c)
    && forall k :: c < k < i ==> !ChainCut(origin, nodes, k)
  }

  predicate BelowCut(name: Name, zonecut: Option<Name>) {
    zonecut.Some? && IsSubdomain(name, zonecut.value)
  }

  /** Above an occluded name there is a topmost delegation, which is itself not occluded. */
  lemma TopmostCut(origin: Name, nodes: seq<Node>, name: Name) returns (d: int)
    requires Occluded(origin, nodes, name)
    ensures IsCut(origin, nodes, d) && nodes[d].name < name
    ensures ChainCut(origin, nodes, d)
    decreases |name|
  {
    d :| IsCut(origin, nodes, d) && nodes[d].name < name;
    if Occluded(origin, nodes, nodes[d].name) {
      d := TopmostCut(origin, nodes, nodes[d].name);
    } else {
      assert Data(NS) in nodes[d].rrsets && IsContent(Data(NS));
    }
  }

  /** In a sorted zone, position and canonical order agree. */
  lemma OrderGivesIndex(nodes: seq<Node>, i: int, j: int)
    requires forall i, j :: 0 <= i < j < |nodes| ==> NameLess(nodes[i].name, nodes[j].name)
    requires 0 <= i < |nodes| && 0 <= j < |nodes| && NameLess(nodes[i].name, nodes[j].name)
    ensures i < j
  {
    NameOrder();
  }

  /** Remembering only the most recent zone cut is enough. */
  lemma MostRecentCutSuffices(origin: Name, nodes: seq<Node>, i: int, zonecut: Option<Name>)
    requires ZoneOk(origin, nodes) && 0 <= i < |nodes| && CutState(origin, nodes, i, zonecut)
    ensures Occluded(origin, nodes, nodes[i].name) <==> BelowCut(nodes[i].name, zonecut)
  {
    NameOrder();
    if Occluded(origin, nodes, nodes[i].name) {
      var d := TopmostCut(origin, nodes, nodes[i].name);
      PrefixIsLess(nodes[d].name, nodes[i].name);
      OrderGivesIndex(nodes, d, i);
      assert ChainCut(origin, nodes, d);
      var c :| IsLastCut(origin, nodes, i, c) && nodes[c].name == zonecut.value;
      if c != d {
        SubtreeIsInterval(nodes[d].name, nodes[d].name, nodes[c].name, nodes[i].name);
      }
    }
  }

  /** How the remembered cut moves past a node. */
  lemma CutStateStep(origin: Name, nodes: seq<Node>, i: int, zonecut: Option<Name>)
    requires 0 <= i < |nodes| && CutState(origin, nodes, i, zonecut)
    ensures !ChainCut(origin, nodes, i) ==> CutState(origin, nodes, i + 1, zonecut)
    ensures ChainCut(origin, nodes, i) ==> CutState(origin, nodes, i + 1, Some(nodes[i].name))
  {
    if ChainCut(origin, nodes, i) {
      assert IsLastCut(origin, nodes, i + 1, i);
    } else if zonecut.Some? {
      var c :| IsLastCut(origin, nodes, i, c) && nodes[c].name == zonecut.value;
      assert IsLastCut(origin, nodes, i + 1, c);
    }
  }

  // ----- the origin

  ghost predicate IsOrigin(origin: Name, nodes: seq<Node>, o: int) {
    0 <= o < |nodes| && nodes[o].name == origin
  }

  /** The origin heads the chain, and the in-zone nodes all follow it. */
  lemma OriginIsFirst(origin: Name, nodes: seq<Node>) returns (o: int)
    requires ZoneOk(origin, nodes)
    ensures IsOrigin(origin, nodes, o) && InChain(origin, nodes, o) && Has(nodes[o], SOA)
    ensures forall i :: 0 <= i < |nodes| && InZone(origin, nodes[i]) ==> o <= i
    ensures forall i :: 0 <= i < |nodes| && nodes[i].name == origin ==> i == o
  {
    o :| 0 <= o < |nodes| && nodes[o].name == origin && Has(nodes[o], SOA);
    assert Data(SOA) in nodes[o].rrsets && IsContent(Data(SOA));
    NameOrder();
    forall i | 0 <= i < |nodes| && InZone(origin, nodes[i]) ensures o <= i {
      if nodes[i].name != origin {
        PrefixIsLess(origin, nodes[i].name);
      }
    }
  }

  lemma OriginIndex(origin: Name, nodes: seq<Node>) returns (o: int)
    requires ZoneOk(origin, nodes)
    ensures IsOrigin(origin, nodes, o) && InChain(origin, nodes, o)
    ensures forall i :: IsOrigin(origin, nodes, i) ==> i == o
  {
    o := OriginIsFirst(origin, nodes);
  }

  // ----- the chain, as a sequence of names

  /** The first kept node at or after `i`, or the number of nodes. */
  ghost function NextKept(origin: Name, nodes: seq<Node>, optOut: bool, i: nat): (k: nat)
    requires i <= |nodes|
    ensures i <= k <= |nodes|
    ensures k < |nodes| ==> Kept(origin, nodes, optOut, k)
    ensures forall j :: i <= j < k ==> !Kept(origin, nodes, optOut, j)
    decreases |nodes| - i
  {
    if i == |nodes| || Kept(origin, nodes, optOut, i) then i else NextKept(origin, nodes, optOut, i + 1)
  }

  /** `i` is the first kept node after `cur`, or the end of the zone. */
  ghost predicate IsNextKept(origin: Name, nodes: seq<Node>, optOut: bool, cur: int, i: int) {
    && cur < i <= |nodes|
    && (i < |nodes| ==> Kept(origin, nodes, optOut, i))
    && forall j :: cur < j < i ==> !Kept(origin, nodes, optOut, j)
  }

  lemma NextKeptIs(origin: Name, nodes: seq<Node>, optOut: bool, cur: nat, i: nat)
    requires cur < |nodes| && IsNextKept(origin, nodes, optOut, cur, i)
    ensures NextKept(origin, nodes, optOut, cur + 1) == i
    ensures Successor(origin, nodes, optOut, cur) == if i < |nodes| then nodes[i].name else origin
  {
    hide Kept;
  }

  /** The chain successor of node `i`: the next kept name, wrapping to the origin. */
  ghost function Successor(origin: Name, nodes: seq<Node>, optOut: bool, i: nat): Name
    requires i < |nodes|
  {
    var k := NextKept(origin, nodes, optOut, i + 1);
    if k == |nodes| then origin else nodes[k].name
  }

  /** The names of the kept nodes before `i`, in order. */
  ghost function ChainTo(origin: Name, nodes: seq<Node>, optOut: bool, i: nat): (c: seq<Name>)
    requires i <= |nodes|
  {
    if i == 0 then []
    else if Kept(origin, nodes, optOut, i - 1) then ChainTo(origin, nodes, optOut, i - 1) + [nodes[i - 1].name]
    else ChainTo(origin, nodes, optOut, i - 1)
  }

  /** The whole chain. */
  ghost function Chain(origin: Name, nodes: seq<Node>, optOut: bool): seq<Name> {
    ChainTo(origin, nodes, optOut, |nodes|)
  }

  lemma {:induction false} ChainSkips(origin: Name, nodes: seq<Node>, optOut: bool, i: nat, k: nat)
    requires i <= k <= |nodes|
    requires forall j :: i <= j < k ==> !Kept(origin, nodes, optOut, j)
    ensures ChainTo(origin, nodes, optOut, i) == ChainTo(origin, nodes, optOut, k)
    decreases k - i
  {
    hide Kept;
    if i < k {
      ChainSkips(origin, nodes, optOut, i, k - 1);
    }
  }

  /** Every kept node before `i` is in the chain so far. */
  lemma {:induction false} KeptInChain(origin: Name, nodes: seq<Node>, optOut: bool, i: nat, j: nat)
    requires j < i <= |nodes| && Kept(origin, nodes, optOut, j)
    ensures nodes[j].name in ChainTo(origin, nodes, optOut, i)
  {
    hide Kept;
    if j < i - 1 {
      KeptInChain(origin, nodes, optOut, i - 1, j);
    }
  }

  /** Every name of the chain so far comes from a kept node before `i`. */
  lemma {:induction false} ChainIsKept(origin: Name, nodes: seq<Node>, optOut: bool, i: nat, x: Name) returns (j: nat)
    requires i <= |nodes| && x in ChainTo(origin, nodes, optOut, i)
    ensures j < i && Kept(origin, nodes, optOut, j) && nodes[j].name == x
  {
    hide Kept;
    if Kept(origin, nodes, optOut, i - 1) && nodes[i - 1].name == x {
      j := i - 1;
    } else {
      j := ChainIsKept(origin, nodes, optOut, i - 1, x);
    }
  }

  ghost predicate Ascending(c: seq<Name>) {
    forall i, j :: 0 <= i < j < |c| ==> NameLess(c[i], c[j])
  }

  lemma AscendingSnoc(c: seq<Name>, x: Name)
    requires Ascending(c) && forall k :: 0 <= k < |c| ==> NameLess(c[k], x)
    ensures Ascending(c + [x])
  {
    hide NameLess;
  }

  lemma {:induction false} ChainAscending(origin: Name, nodes: seq<Node>, optOut: bool, i: nat)
    requires ZoneOk(origin, nodes) && i <= |nodes|
    ensures Ascending(ChainTo(origin, nodes, optOut, i))
  {
    hide Kept, NameLess;
    if 0 < i {
      ChainAscending(origin, nodes, optOut, i - 1);
      var c := ChainTo(origin, nodes, optOut, i - 1);
      forall k | 0 <= k < |c| ensures NameLess(c[k], nodes[i - 1].name) {
        var j := ChainIsKept(origin, nodes, optOut, i - 1, c[k]);
      }
      AscendingSnoc(c, nodes[i - 1].name);
    }
  }

  // ----- what the signer does to single nodes

  /** The database after `active_node` has looked at a node. */
  function AfterActive(mode: Denial, n: Node): (m: Node)
    ensures m.name == n.name && m.next == n.next
  {
    if !Active(n) && mode.UseNsec? then
      n.(rrsets := {})
    else
      n.(rrsets := set r | r in n.rrsets && !Stale(mode, n, r))
  }

  /** NSEC data when signing with NSEC3, and signatures over types that no longer exist. */
  predicate Stale(mode: Denial, n: Node, r: RRset) {
    || (mode.UseNsec3? && (r == Data(NSEC) || r == Sig(NSEC)))
    || (r.Sig? && !Has(n, r.covers))
  }

  /** `remove_sigs` with no type given. */
  function RemoveSigs(mode: Denial, n: Node, delegation: bool): (m: Node)
    ensures m.name == n.name && m.next == n.next
  {
    n.(rrsets := set r | r in n.rrsets &&
                         (r.Data? || (delegation && (r.covers == DS || (mode.UseNsec? && r.covers == NSEC)))))
  }

  /** `remove_records`. */
  function RemoveRecords(n: Node, t: RRType): (m: Node)
    ensures m.name == n.name && m.next == n.next
  {
    n.(rrsets := n.rrsets - {Data(t), Sig(t)})
  }

  /** `add_ds`; `found` says whether DS records for the name could be loaded. */
  function AddDs(n: Node, found: bool): (m: Node)
    ensures m.name == n.name && m.next == n.next
  {
    var bare := n.rrsets - {Data(DS)};
    if found then n.(rrsets := bare + {Data(DS)})
    else if Has(n, DS) then n.(rrsets := bare - {Sig(DS)})
    else n.(rrsets := bare)
  }

  /** What both chain builders do at a delegation; `dsSets` is there when DS records are generated. */
  function AtDelegation(mode: Denial, dsSets: Option<set<Name>>, n: Node): (m: Node)
    ensures m.name == n.name && m.next == n.next
  {
    var m := RemoveSigs(mode, n, true);
    if dsSets.Some? then AddDs(m, n.name in dsSets.value) else m
  }

  /** `active_node`: one pass to find content, another to delete what no longer belongs. */
  method ActiveNode(mode: Denial, n: Node) returns (active: bool, m: Node)
    ensures active == Active(n)
    ensures active <==> exists t :: Data(t) in n.rrsets && t != NSEC && t != NSEC3
    ensures m == AfterActive(mode, n)
  {
    active := false;
    var todo := n.rrsets;
    while todo != {} && !active
      invariant todo <= n.rrsets
      invariant !active ==> forall r :: r in n.rrsets && r !in todo ==> !IsContent(r)
      invariant active ==> Active(n)
      decreases todo
    {
      var r :| r in todo;
      active := IsContent(r);
      todo := todo - {r};
    }
    if active {
      var r :| r in n.rrsets && IsContent(r);
      assert Data(r.rrtype) == r;
    }
    forall t | Data(t) in n.rrsets && t != NSEC && t != NSEC3 ensures Active(n) {
      assert IsContent(Data(t));
    }
    m := n;
    todo := n.rrsets;
    var deleteAll := !active && mode.UseNsec?;
    while todo != {}
      invariant todo <= n.rrsets
      invariant m == n.(rrsets := m.rrsets)
      invariant m.rrsets == set r | r in n.rrsets && (r in todo || !(deleteAll || Stale(mode, n, r)))
      decreases todo
    {
      var r :| r in todo;
      if deleteAll || Stale(mode, n, r) {
        m := m.(rrsets := m.rrsets - {r});
      }
      todo := todo - {r};
    }
  }

  /** What the first pass over the zone leaves at node `i`, apart from the new NSEC records. */
  ghost function Cleaned(mode: Denial, origin: Name, dsSets: Option<set<Name>>, nodes: seq<Node>, i: int): (m: Node)
    requires 0 <= i < |nodes|
    ensures m.name == nodes[i].name
  {
    var n := nodes[i];
    if NameLess(n.name, origin) then n
    else if n.name == origin then RemoveRecords(n, if mode.UseNsec? then NSEC3PARAM else NSEC)
    else
      var a := AfterActive(mode, n);
      if !Active(n) then a
      else if !InZone(origin, n) || Occluded(origin, nodes, n.name) then
        var s := RemoveSigs(mode, a, false);
        if mode.UseNsec? then RemoveRecords(s, NSEC) else s
      else if IsDelegation(origin, n) then AtDelegation(mode, dsSets, a)
      else a
  }

  // ----- changes that leave the chain alone

  ghost predicate SameShape(a: seq<Node>, b: seq<Node>) {
    && |a| == |b|
    && forall i :: 0 <= i < |a| ==> SameRole(a[i], b[i])
  }

  ghost predicate SameRole(m: Node, n: Node) {
    && m.name == n.name
    && Has(m, NS) == Has(n, NS)
    && Active(m) == Active(n)
  }

  lemma ShapeFixesChain(origin: Name, a: seq<Node>, b: seq<Node>)
    requires SameShape(a, b)
    ensures forall i :: InChain(origin, a, i) == InChain(origin, b, i)
    ensures forall x :: Occluded(origin, a, x) == Occluded(origin, b, x)
    ensures forall i :: ChainCut(origin, a, i) == ChainCut(origin, b, i)
  {
    forall i ensures IsCut(origin, a, i) == IsCut(origin, b, i) {
      if 0 <= i < |a| { assert SameRole(a[i], b[i]); }
    }
    forall x ensures Occluded(origin, a, x) == Occluded(origin, b, x) {
      if Occluded(origin, a, x) {
        var d :| IsCut(origin, a, d) && a[d].name < x;
        assert SameRole(a[d], b[d]) && IsCut(origin, b, d);
      }
      if Occluded(origin, b, x) {
        var d :| IsCut(origin, b, d) && b[d].name < x;
        assert SameRole(a[d], b[d]) && IsCut(origin, a, d);
      }
    }
    forall i ensures InChain(origin, a, i) == InChain(origin, b, i) {
      if 0 <= i < |a| { assert SameRole(a[i], b[i]); }
    }
    forall i ensures ChainCut(origin, a, i) == ChainCut(origin, b, i) {
      if 0 <= i < |a| { assert SameRole(a[i], b[i]); }
    }
  }

  /** Cleaning touches neither NS records nor the activity of a node. */
  lemma CleaningKeepsRole(mode: Denial, origin: Name, dsSets: Option<set<Name>>, nodes: seq<Node>, i: int)
    requires ZoneOk(origin, nodes) && 0 <= i < |nodes|
    ensures SameRole(nodes[i], Cleaned(mode, origin, dsSets, nodes, i))
    ensures !Has(Cleaned(mode, origin, dsSets, nodes, i), NSEC3)
    ensures nodes[i].name == origin ==> Has(Cleaned(mode, origin, dsSets, nodes, i), SOA)
  {
    var n, m := nodes[i], Cleaned(mode, origin, dsSets, nodes, i);
    var o := OriginIsFirst(origin, nodes);
    if n.name == origin {
      RoleByContent(n, m, Data(SOA));
    } else if !NameLess(n.name, origin) {
      AfterActiveKeepsRole(mode, n);
      var a := AfterActive(mode, n);
      if IsDelegation(origin, n) {
        RoleByContent(n, m, Data(NS));
      } else if Active(n) {
        var r :| r in n.rrsets && IsContent(r);
        RoleByContent(n, m, r);
      }
    }
  }

  lemma RoleByContent(n: Node, m: Node, r: RRset)
    requires n.name == m.name && r in n.rrsets && r in m.rrsets && IsContent(r) && Has(n, NS) == Has(m, NS)
    ensures SameRole(n, m)
  {
  }

  lemma AfterActiveKeepsRole(mode: Denial, n: Node)
    ensures forall t :: t != NSEC && Active(n) ==> Has(AfterActive(mode, n), t) == Has(n, t)
    ensures SameRole(n, AfterActive(mode, n))
  {
    var a := AfterActive(mode, n);
    if Active(n) {
      var r :| r in n.rrsets && IsContent(r);
      assert r in a.rrsets;
    } else {
      assert a.rrsets <= n.rrsets;
      assert IsContent(Data(NS));
    }
  }

  /** After cleaning, an inactive node from the origin on is empty. */
  lemma InactiveIsEmptied(mode: Denial, origin: Name, dsSets: Option<set<Name>>, nodes: seq<Node>, i: int)
    requires ZoneOk(origin, nodes) && 0 <= i < |nodes|
    requires !NameLess(nodes[i].name, origin) && !Active(nodes[i])
    ensures IsEmpty(Cleaned(mode, origin, dsSets, nodes, i))
  {
    var o := OriginIsFirst(origin, nodes);
    var m := Cleaned(mode, origin, dsSets, nodes, i);
    assert forall r :: r in nodes[i].rrsets ==> !IsContent(r);
    assert forall r :: r in m.rrsets ==> r in nodes[i].rrsets;
    assert m.rrsets == {};
  }

  /** Signing after the chain is built: data stay, and a node without data gets no signature. */
  ghost predicate SignedFrom(a: seq<Node>, b: seq<Node>) {
    && |a| == |b|
    && forall i :: 0 <= i < |a| ==> NodeSigned(a[i], b[i])
  }

  ghost predicate NodeSigned(m: Node, n: Node) {
    && m.name == n.name
    && m.next == n.next
    && (forall t :: Has(m, t) == Has(n, t))
    && (IsEmpty(m) ==> IsEmpty(n))
  }

  lemma SigningKeepsShape(a: seq<Node>, b: seq<Node>)
    requires SignedFrom(a, b)
    ensures SameShape(a, b)
  {
    forall i | 0 <= i < |a| ensures SameRole(a[i], b[i]) {
      var m, n := a[i], b[i];
      assert NodeSigned(m, n);
      if Active(m) {
        var r :| r in m.rrsets && IsContent(r);
        assert Has(m, r.rrtype) && Has(n, r.rrtype) && Data(r.rrtype) == r;
      }
      if Active(n) {
        var r :| r in n.rrsets && IsContent(r);
        assert Has(n, r.rrtype) && Has(m, r.rrtype) && Data(r.rrtype) == r;
      }
    }
  }
}
