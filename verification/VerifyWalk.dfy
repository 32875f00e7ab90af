/**
  The main walk of `verifyzone` (bin/dnssec/dnssectool.c): its own loop over the zone, with its own
  notion of an empty node, and its agreement with the walk of `nsecify`.
 */
module VerifyWalk {
  import opened Names
  import opened Zone
  import opened NsecChain

  /** One call of `verifynode` made by the walk. */
  datatype Visit = Visit(node: Node, delegation: bool, next: Name)

  /** Nodes at which `check_no_nsec` forbids an NSEC record. */
  ghost predicate NsecForbidden(origin: Name, nodes: seq<Node>, i: int) {
    0 <= i < |nodes| && (!InZone(origin, nodes[i]) || Occluded(origin, nodes, nodes[i].name))
  }

  /** Nodes handed to `verifynode`. */
  ghost predicate Visited(origin: Name, nodes: seq<Node>, i: int) {
    && 0 <= i < |nodes|
    && !NsecForbidden(origin, nodes, i)
    && (nodes[i].name == origin || !IsEmpty(nodes[i]))
  }

  ghost function NextVisited(origin: Name, nodes: seq<Node>, i: nat): (k: nat)
    requires i <= |nodes|
    ensures i <= k <= |nodes|
    ensures k < |nodes| ==> Visited(origin, nodes, k)
    ensures forall j :: i <= j < k ==> !Visited(origin, nodes, j)
    decreases |nodes| - i
  {
    if i == |nodes| || Visited(origin, nodes, i) then i else NextVisited(origin, nodes, i + 1)
  }

  /** `i` is the first node after `cur` to be visited, or the end of the zone. */
  ghost predicate IsNextVisited(origin: Name, nodes: seq<Node>, cur: int, i: int) {
    && cur < i <= |nodes|
    && (i < |nodes| ==> Visited(origin, nodes, i))
    && forall j :: cur < j < i ==> !Visited(origin, nodes, j)
  }

  ghost function VisitOf(origin: Name, nodes: seq<Node>, i: nat): Visit
    requires i < |nodes|
  {
    var k := NextVisited(origin, nodes, i + 1);
    Visit(nodes[i], IsDelegation(origin, nodes[i]), if k == |nodes| then origin else nodes[k].name)
  }

  /** The visits to nodes before `i`, in order. */
  ghost function VisitsTo(origin: Name, nodes: seq<Node>, i: nat): seq<Visit>
    requires i <= |nodes|
  {
    if i == 0 then []
    else if Visited(origin, nodes, i - 1) then VisitsTo(origin, nodes, i - 1) + [VisitOf(origin, nodes, i - 1)]
    else VisitsTo(origin, nodes, i - 1)
  }

  lemma {:induction false} VisitsSkip(origin: Name, nodes: seq<Node>, i: nat, k: nat)
    requires i <= k <= |nodes|
    requires forall j :: i <= j < k ==> !Visited(origin, nodes, j)
    ensures VisitsTo(origin, nodes, i) == VisitsTo(origin, nodes, k)
    decreases k - i
  {
    hide Visited;
    if i < k {
      VisitsSkip(origin, nodes, i, k - 1);
    }
  }

  lemma WalkStep(origin: Name, nodes: seq<Node>, i: int, zonecut: Option<Name>)
    requires ZoneOk(origin, nodes) && 0 <= i < |nodes| && CutState(origin, nodes, i, zonecut)
    ensures NsecForbidden(origin, nodes, i)
            <==> !IsSubdomain(nodes[i].name, origin) || BelowCut(nodes[i].name, zonecut)
    ensures CutState(origin, nodes, i + 1,
                     if !NsecForbidden(origin, nodes, i) && IsDelegation(origin, nodes[i])
                     then Some(nodes[i].name) else zonecut)
    ensures Visited(origin, nodes, i) ==> !NsecForbidden(origin, nodes, i)
    ensures nodes[i].name == origin ==> Visited(origin, nodes, i) && !IsEmpty(nodes[i])
    ensures IsDelegation(origin, nodes[i]) ==> !IsEmpty(nodes[i])
  {
    var o := OriginIsFirst(origin, nodes);
    MostRecentCutSuffices(origin, nodes, i, zonecut);
    CutStateStep(origin, nodes, i, zonecut);
    if Has(nodes[i], NS) {
      assert IsContent(Data(NS)) && Data(NS) in nodes[i].rrsets;
    }
  }

  /** No forbidden NSEC record among the nodes from `from` up to `to`. */
  ghost predicate NoneForbidden(origin: Name, nodes: seq<Node>, from: int, to: int) {
    forall j :: from <= j < to && NsecForbidden(origin, nodes, j) ==> !Has(nodes[j], NSEC)
  }

  lemma NoneForbiddenJoins(origin: Name, nodes: seq<Node>, a: int, b: int, c: int)
    requires NoneForbidden(origin, nodes, 0, a)
    requires a < b && NoneForbidden(origin, nodes, b, c) && b <= c && a + 1 == b
    requires 0 <= a < |nodes| && (NsecForbidden(origin, nodes, a) ==> !Has(nodes[a], NSEC))
    ensures NoneForbidden(origin, nodes, 0, c)
  {
    hide NsecForbidden, Has;
  }

  lemma NoneForbiddenDecides(origin: Name, nodes: seq<Node>)
    requires NoneForbidden(origin, nodes, 0, |nodes|)
    ensures !exists i :: NsecForbidden(origin, nodes, i) && Has(nodes[i], NSEC)
  {
  }

  /** The inner loop: the next node after `cur` to visit, unless a forbidden NSEC record is met first. */
  method NextVisit(origin: Name, nodes: seq<Node>, cur: nat, zonecut: Option<Name>) returns (fatal: bool, i: nat)
    requires ZoneOk(origin, nodes) && cur < |nodes| && CutState(origin, nodes, cur + 1, zonecut)
    ensures cur < i <= |nodes|
    ensures fatal ==> NsecForbidden(origin, nodes, i) && Has(nodes[i], NSEC)
    ensures !fatal ==> IsNextVisited(origin, nodes, cur, i) && CutState(origin, nodes, i, zonecut)
    ensures !fatal ==> NoneForbidden(origin, nodes, cur + 1, i)
  {
    hide ZoneOk, CutState, IsDelegation, NsecForbidden;
    i := cur + 1;
    while i < |nodes|
      invariant cur < i <= |nodes|
      invariant CutState(origin, nodes, i, zonecut)
      invariant forall j :: cur < j < i ==> !Visited(origin, nodes, j)
      invariant forall j :: cur < j < i ==> NsecForbidden(origin, nodes, j) ==> !Has(nodes[j], NSEC)
    {
      WalkStep(origin, nodes, i, zonecut);
      if !IsSubdomain(nodes[i].name, origin) || BelowCut(nodes[i].name, zonecut) {
        if Has(nodes[i], NSEC) {
          return true, i;
        }
      } else if !IsEmpty(nodes[i]) {
        assert Visited(origin, nodes, i);
        break;
      }
      i := i + 1;
    }
    fatal := false;
  }

  /**
    The walk stops fatally exactly when a forbidden NSEC record is there; otherwise it visits exactly
    the nodes of `Visited`, in order, each with the next visited name as the expected successor.
   */
  method Walk(origin: Name, nodes: seq<Node>) returns (fatal: bool, visits: seq<Visit>)
    requires ZoneOk(origin, nodes)
    ensures fatal <==> exists i :: NsecForbidden(origin, nodes, i) && Has(nodes[i], NSEC)
    ensures !fatal ==> visits == VisitsTo(origin, nodes, |nodes|)
  {
    hide ZoneOk, CutState, NsecForbidden, Visited, IsDelegation, VisitOf, IsNextVisited, IsEmpty, BelowCut,
         Has, NoneForbidden;
    ghost var o := OriginIndex(origin, nodes);
    visits := [];
    var zonecut: Option<Name> := None;
    NoCutYet(origin, nodes);
    NoneForbiddenHere(origin, nodes, 0);
    var i := 0;
    while i < |nodes|
      invariant 0 <= i <= |nodes|
      invariant CutState(origin, nodes, i, zonecut)
      invariant visits == VisitsTo(origin, nodes, i)
      invariant NoneForbidden(origin, nodes, 0, i)
      invariant o < i < |nodes| ==> Visited(origin, nodes, i)
    {
      var cur := i;
      WalkStep(origin, nodes, cur, zonecut);
      var name := nodes[cur].name;
      if !IsSubdomain(name, origin) {
        if Has(nodes[cur], NSEC) {
          return true, visits;
        }
        NoneForbiddenHere(origin, nodes, cur + 1);
        NoneForbiddenJoins(origin, nodes, cur, cur + 1, cur + 1);
        i := i + 1;
      } else {
        InZoneFromOrigin(origin, nodes, o, cur);
        var delegation := IsDelegation(origin, nodes[cur]);
        if delegation {
          zonecut := Some(name);
        }
        fatal, i := NextVisit(origin, nodes, cur, zonecut);
        if fatal {
          return;
        }
        var next := if i < |nodes| then nodes[i].name else origin;
        NoneForbiddenJoins(origin, nodes, cur, cur + 1, i);
        VisitsGrow(origin, nodes, cur, i);
        visits := visits + [Visit(nodes[cur], delegation, next)];
      }
    }
    NoneForbiddenDecides(origin, nodes);
    fatal := false;
  }

  lemma NoneForbiddenHere(origin: Name, nodes: seq<Node>, i: int)
    ensures NoneForbidden(origin, nodes, i, i)
  {
  }

  lemma InZoneFromOrigin(origin: Name, nodes: seq<Node>, o: int, i: int)
    requires ZoneOk(origin, nodes) && IsOrigin(origin, nodes, o)
    requires 0 <= i < |nodes| && IsSubdomain(nodes[i].name, origin)
    ensures o <= i
  {
    var o' := OriginIsFirst(origin, nodes);
  }

  lemma VisitsGrow(origin: Name, nodes: seq<Node>, cur: nat, i: nat)
    requires 0 <= cur < |nodes| && Visited(origin, nodes, cur) && IsNextVisited(origin, nodes, cur, i)
    ensures i < |nodes| ==> Visited(origin, nodes, i)
    ensures VisitsTo(origin, nodes, i)
            == VisitsTo(origin, nodes, cur)
               + [Visit(nodes[cur], IsDelegation(origin, nodes[cur]), if i < |nodes| then nodes[i].name else origin)]
  {
    hide Visited, IsDelegation;
    VisitsSkip(origin, nodes, cur + 1, i);
    assert NextVisited(origin, nodes, cur + 1) == i;
  }

  /** `verifynsec`: the record is there and names the expected successor. */
  predicate NsecGood(v: Visit) { Has(v.node, NSEC) && v.node.next == v.next }

  // ----- agreement with the signer

  ghost predicate StrayNsec(origin: Name, nodes: seq<Node>, i: int) {
    0 <= i < |nodes| && NameLess(nodes[i].name, origin) && Has(nodes[i], NSEC)
  }

  /** One node of a zone built by `nsecify` and then signed, as the verifier meets it. */
  lemma NsecNodeAccepted(origin: Name, dsSets: Option<set<Name>>, pre: seq<Node>, mid: seq<Node>, z: seq<Node>, i: int)
    requires ZoneOk(origin, pre) && NsecDone(origin, dsSets, pre, mid, 0, |pre|) && SignedFrom(mid, z)
    requires SameShape(pre, z) && 0 <= i < |pre|
    ensures Visited(origin, z, i) <==> InChain(origin, pre, i)
    ensures Visited(origin, z, i) ==> Has(z[i], NSEC) && z[i].next == Successor(origin, pre, false, i)
    ensures NsecForbidden(origin, z, i) ==> (Has(z[i], NSEC) <==> StrayNsec(origin, pre, i))
  {
    ShapeFixesChain(origin, pre, z);
    assert SameRole(pre[i], z[i]);
    assert mid[i] == NsecNode(origin, dsSets, pre, i);
    assert NodeSigned(mid[i], z[i]);
    var o := OriginIsFirst(origin, pre);
    NameOrder();
    if !Active(pre[i]) && !NameLess(pre[i].name, origin) {
      InactiveIsEmptied(UseNsec, origin, dsSets, pre, i);
    }
    if Active(pre[i]) {
      assert Active(z[i]);
    }
    if InZone(origin, pre[i]) && pre[i].name != origin {
      PrefixIsLess(origin, pre[i].name);
    }
  }

  lemma NsecZoneShape(origin: Name, dsSets: Option<set<Name>>, pre: seq<Node>, mid: seq<Node>, z: seq<Node>)
    requires ZoneOk(origin, pre) && NsecDone(origin, dsSets, pre, mid, 0, |pre|) && SignedFrom(mid, z)
    ensures SameShape(pre, z) && ZoneOk(origin, z)
  {
    SigningKeepsShape(mid, z);
    forall i | 0 <= i < |pre|
      ensures SameRole(pre[i], z[i]) && !Has(z[i], NSEC3) && (pre[i].name == origin ==> Has(z[i], SOA))
    {
      NsecNodeRole(origin, dsSets, pre, i);
      assert SameRole(mid[i], z[i]) && NodeSigned(mid[i], z[i]);
    }
    var o := OriginIsFirst(origin, pre);
    assert z[o].name == origin && Has(z[o], SOA);
  }

  lemma NsecNodeRole(origin: Name, dsSets: Option<set<Name>>, pre: seq<Node>, i: int)
    requires ZoneOk(origin, pre) && 0 <= i < |pre|
    ensures SameRole(pre[i], NsecNode(origin, dsSets, pre, i))
    ensures !Has(NsecNode(origin, dsSets, pre, i), NSEC3)
    ensures pre[i].name == origin ==> Has(NsecNode(origin, dsSets, pre, i), SOA)
  {
    CleaningKeepsRole(UseNsec, origin, dsSets, pre, i);
    var c, m := Cleaned(UseNsec, origin, dsSets, pre, i), NsecNode(origin, dsSets, pre, i);
    if Active(c) {
      var r :| r in c.rrsets && IsContent(r);
      assert r in m.rrsets;
    }
  }

  /**
    Whatever zone goes through `nsecify` and is then signed, the verifier's walk computes the same
    successor for every name and accepts every NSEC record; it stops fatally if and only if an
    out-of-zone node ahead of the origin, which `nsecify` never touches, carried an NSEC record.
   */
  lemma {:induction false} NsecAgreement(origin: Name, dsSets: Option<set<Name>>,
                                         pre: seq<Node>, mid: seq<Node>, z: seq<Node>)
    requires ZoneOk(origin, pre) && NsecDone(origin, dsSets, pre, mid, 0, |pre|) && SignedFrom(mid, z)
    ensures ZoneOk(origin, z)
    ensures (exists i :: NsecForbidden(origin, z, i) && Has(z[i], NSEC)) <==> exists i :: StrayNsec(origin, pre, i)
    ensures forall i :: Visited(origin, z, i) <==> InChain(origin, pre, i)
    ensures forall i :: Visited(origin, z, i) ==> VisitOf(origin, z, i).next == Successor(origin, pre, false, i)
    ensures forall v :: v in VisitsTo(origin, z, |z|) ==> NsecGood(v)
  {
    NsecZoneShape(origin, dsSets, pre, mid, z);
    forall i | 0 <= i < |pre|
      ensures Visited(origin, z, i) <==> InChain(origin, pre, i)
      ensures Visited(origin, z, i) ==> Has(z[i], NSEC) && z[i].next == Successor(origin, pre, false, i)
      ensures NsecForbidden(origin, z, i) ==> (Has(z[i], NSEC) <==> StrayNsec(origin, pre, i))
      ensures StrayNsec(origin, pre, i) ==> NsecForbidden(origin, z, i)
    {
      NsecNodeAccepted(origin, dsSets, pre, mid, z, i);
      var o := OriginIsFirst(origin, pre);
      assert SameRole(pre[i], z[i]);
      NameOrder();
    }
    SameSuccessors(origin, pre, z);
    forall v | v in VisitsTo(origin, z, |z|) ensures NsecGood(v) {
      var i := VisitsMember(origin, z, |z|, v);
    }
  }

  lemma SameSuccessors(origin: Name, pre: seq<Node>, z: seq<Node>)
    requires |z| == |pre| && forall i :: 0 <= i < |z| ==> z[i].name == pre[i].name
    requires forall i :: 0 <= i < |z| ==> (Visited(origin, z, i) <==> InChain(origin, pre, i))
    ensures forall i :: 0 <= i < |z| ==> VisitOf(origin, z, i).next == Successor(origin, pre, false, i)
  {
    hide Visited, InChain;
    forall i | 0 <= i < |z| ensures VisitOf(origin, z, i).next == Successor(origin, pre, false, i) {
      var j, k := NextVisited(origin, z, i + 1), NextKept(origin, pre, false, i + 1);
      assert k < |z| ==> Visited(origin, z, k);
      assert j < |z| ==> Kept(origin, pre, false, j);
      assert j == k;
    }
  }

  lemma {:induction false} VisitsMember(origin: Name, nodes: seq<Node>, i: nat, v: Visit) returns (j: int)
    requires i <= |nodes| && v in VisitsTo(origin, nodes, i)
    ensures 0 <= j < i && Visited(origin, nodes, j) && v == VisitOf(origin, nodes, j)
  {
    hide Visited, VisitOf;
    if Visited(origin, nodes, i - 1) && v == VisitOf(origin, nodes, i - 1) {
      j := i - 1;
    } else {
      j := VisitsMember(origin, nodes, i - 1, v);
    }
  }

  /** An NSEC record at [1], ahead of a zone whose origin is [2]: signed in any way, the zone is refused. */
  lemma StrayIsRefused(mid: seq<Node>, z: seq<Node>)
    requires NsecDone([[2]], None, [Node([[1]], {Data(NSEC)}, []), Node([[2]], {Data(SOA)}, [])], mid, 0, 2)
    requires SignedFrom(mid, z)
    ensures exists i :: NsecForbidden([[2]], z, i) && Has(z[i], NSEC)
  {
    var pre := [Node([[1]], {Data(NSEC)}, []), Node([[2]], {Data(SOA)}, [])];
    StrayZone();
    NsecAgreement([[2]], None, pre, mid, z);
  }

  lemma StrayZone()
    ensures var pre := [Node([[1]], {Data(NSEC)}, []), Node([[2]], {Data(SOA)}, [])];
            ZoneOk([[2]], pre) && StrayNsec([[2]], pre, 0)
  {
    var pre := [Node([[1]], {Data(NSEC)}, []), Node([[2]], {Data(SOA)}, [])];
    BytesOrder();
    CommonUnique<Byte>([1], [2], 0);
    assert BytesLess([1], [2]);
    CommonUnique<Bytes>([[1]], [[2]], 0);
    assert NameLess(pre[0].name, pre[1].name);
    assert pre[1].name == [[2]] && Has(pre[1], SOA);
  }
}
