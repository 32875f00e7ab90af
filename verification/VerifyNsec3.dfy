/**
  The NSEC3 side of `verifyzone` (bin/dnssec/dnssectool.c): a record is looked up for every name the
  walk visits and for the empty nodes above it, the records met are the expected chain, the records
  in the NSEC3 tree the found one.
 */
module VerifyNsec3 {
  import opened Names
  import opened Zone
  import opened ZoneDb
  import opened Sequences
  import opened ChainCheck
  import opened VerifyWalk

  type Tree = map<Bytes, seq<Nsec3Record>>

  /** One call of `verifynsec3`. */
  datatype Check = Check(name: Name, delegation: bool, empty: bool, ds: bool)

  predicate Present(m: Tree, h: Bytes) { h in m && m[h] != [] }

  predicate Matches(r: Nsec3Record, params: Params, len: nat) { r.params == params && |r.next| == len }

  /** The first record of this chain, or the number of records. */
  function FirstMatch(rs: seq<Nsec3Record>, params: Params, len: nat): (i: nat)
    ensures i <= |rs| && (i < |rs| ==> Matches(rs[i], params, len))
    ensures forall j :: 0 <= j < i ==> !Matches(rs[j], params, len)
  {
    if rs == [] || Matches(rs[0], params, len) then 0 else 1 + FirstMatch(rs[1..], params, len)
  }

  /** `match_nsec3` succeeds: there is a record of this chain and no second one. */
  ghost predicate MatchGood(rs: seq<Nsec3Record>, params: Params, len: nat) {
    var i := FirstMatch(rs, params, len);
    i < |rs| && forall j :: i < j < |rs| ==> rs[j].params != params
  }

  function ElementOf(params: Params, h: Bytes, next: Bytes): (e: Element)
    requires |h| == |next|
    ensures e.owner == h && e.next == next
    ensures e.alg == params.alg && e.iterations == params.iterations && e.salt == params.salt
  {
    ChainFixed(params.alg, params.iterations, params.salt, h, next)
  }

  ghost predicate CheckGood(m: Tree, params: Params, optOut: bool, hash: Name -> Bytes, c: Check) {
    var h := hash(c.name);
    if Present(m, h) then MatchGood(m[h], params, |h|)
    else c.delegation && if c.empty then optOut else !c.ds
  }

  /** What a check adds to the expected chain. */
  ghost function Recorded(m: Tree, params: Params, hash: Name -> Bytes, c: Check): seq<Element> {
    var h := hash(c.name);
    if h !in m then []
    else
      var i := FirstMatch(m[h], params, |h|);
      if i < |m[h]| then [ElementOf(params, h, m[h][i].next)] else []
  }

  ghost function AllRecorded(m: Tree, params: Params, hash: Name -> Bytes, cs: seq<Check>): seq<Element> {
    if cs == [] then []
    else AllRecorded(m, params, hash, cs[..|cs| - 1]) + Recorded(m, params, hash, cs[|cs| - 1])
  }

  ghost predicate AllGood(m: Tree, params: Params, optOut: bool, hash: Name -> Bytes, cs: seq<Check>) {
    forall c :: c in cs ==> CheckGood(m, params, optOut, hash, c)
  }

  /** `verifynsec3` with `match_nsec3`. */
  method VerifyOne(m: Tree, params: Params, optOut: bool, hash: Name -> Bytes, c: Check)
    returns (good: bool, recorded: seq<Element>)
    ensures good <==> CheckGood(m, params, optOut, hash, c)
    ensures recorded == Recorded(m, params, hash, c)
  {
    var h := hash(c.name);
    recorded := [];
    if !Present(m, h) {
      good := !(!c.delegation || (c.empty && !optOut) || (!c.empty && c.ds));
      return;
    }
    var rs := m[h];
    var i := 0;
    while i < |rs| && !Matches(rs[i], params, |h|)
      invariant 0 <= i <= |rs|
      invariant forall j :: 0 <= j < i ==> !Matches(rs[j], params, |h|)
    {
      i := i + 1;
    }
    assert i == FirstMatch(rs, params, |h|);
    if i == |rs| {
      return false, [];
    }
    recorded := [ElementOf(params, h, rs[i].next)];
    var j := i + 1;
    while j < |rs|
      invariant i < j <= |rs|
      invariant forall x :: i < x < j ==> rs[x].params != params
    {
      if rs[j].params == params {
        return false, recorded;
      }
      j := j + 1;
    }
    good := true;
  }

  // ----- the checks made along the walk

  /** The empty nodes above `b` that `verifyemptynodes` checks, shortest first. */
  ghost function EmptyUp(b: Name, k: nat, to: nat): seq<Name>
    requires to <= |b|
  {
    if to <= k + 1 then [] else EmptyUp(b, k, to - 1) + [b[..to - 1]]
  }

  lemma {:induction false} EmptyUpMembers(b: Name, k: nat, to: nat, x: Name)
    requires to <= |b|
    ensures x in EmptyUp(b, k, to) <==> k < |x| < to && x <= b
    ensures NoDup(EmptyUp(b, k, to))
  {
    if k + 1 < to {
      EmptyUpMembers(b, k, to - 1, x);
      EmptyUpMembers(b, k, to - 1, b[..to - 1]);
      var rest := EmptyUp(b, k, to - 1);
      assert x in EmptyUp(b, k, to) <==> x == b[..to - 1] || x in rest;
      assert x <= b && |x| == to - 1 ==> x == b[..to - 1];
    }
  }

  ghost function EmptyChecks(xs: seq<Name>, delegation: bool): (cs: seq<Check>)
    ensures |cs| == |xs| && forall i :: 0 <= i < |xs| ==> cs[i] == Check(xs[i], delegation, true, false)
  {
    seq(|xs|, i requires 0 <= i < |xs| => Check(xs[i], delegation, true, false))
  }

  ghost function VisitCheck(v: Visit): Check {
    Check(v.node.name, v.delegation, false, Has(v.node, DS))
  }

  ghost function ChecksOf(visits: seq<Visit>, k: nat): seq<Check>
    requires k < |visits|
  {
    var v := visits[k];
    [VisitCheck(v)]
    + if k == 0 then []
      else EmptyChecks(EmptyUp(v.node.name, Common(visits[k - 1].node.name, v.node.name), |v.node.name|), v.delegation)
  }

  ghost function ChecksTo(visits: seq<Visit>, k: nat): seq<Check>
    requires k <= |visits|
  {
    if k == 0 then [] else ChecksTo(visits, k - 1) + ChecksOf(visits, k - 1)
  }

  lemma AllGoodConcat(m: Tree, params: Params, optOut: bool, hash: Name -> Bytes, cs: seq<Check>, ds: seq<Check>)
    ensures AllGood(m, params, optOut, hash, cs + ds)
            <==> AllGood(m, params, optOut, hash, cs) && AllGood(m, params, optOut, hash, ds)
  {
    hide CheckGood;
    assert forall c :: c in cs + ds <==> c in cs || c in ds;
  }

  lemma RecordedSnoc(m: Tree, params: Params, hash: Name -> Bytes, cs: seq<Check>, c: Check)
    ensures AllRecorded(m, params, hash, cs + [c]) == AllRecorded(m, params, hash, cs) + Recorded(m, params, hash, c)
  {
    assert (cs + [c])[..|cs|] == cs;
  }

  /** What has been collected after the checks `cs`. */
  ghost predicate Collected(m: Tree, params: Params, optOut: bool, hash: Name -> Bytes, cs: seq<Check>,
                            ok: bool, expected: seq<Element>)
  {
    && (ok <==> AllGood(m, params, optOut, hash, cs))
    && expected == AllRecorded(m, params, hash, cs)
  }

  method CollectOne(m: Tree, params: Params, optOut: bool, hash: Name -> Bytes, c: Check,
                    ok0: bool, expected0: seq<Element>, ghost cs: seq<Check>)
    returns (ok: bool, expected: seq<Element>)
    requires Collected(m, params, optOut, hash, cs, ok0, expected0)
    ensures Collected(m, params, optOut, hash, cs + [c], ok, expected)
  {
    hide CheckGood, Recorded;
    var good, recorded := VerifyOne(m, params, optOut, hash, c);
    AllGoodConcat(m, params, optOut, hash, cs, [c]);
    RecordedSnoc(m, params, hash, cs, c);
    ok, expected := ok0 && good, expected0 + recorded;
  }

  lemma EmptyChecksNone(cs: seq<Check>, delegation: bool)
    ensures cs + EmptyChecks([], delegation) == cs
  {
  }

  lemma EmptyChecksSnoc(cs: seq<Check>, xs: seq<Name>, x: Name, delegation: bool)
    ensures cs + EmptyChecks(xs, delegation) + [Check(x, delegation, true, false)]
            == cs + EmptyChecks(xs + [x], delegation)
  {
  }

  /** `verifyemptynodes`. */
  method CollectEmpty(m: Tree, params: Params, optOut: bool, hash: Name -> Bytes, prevname: Name, name: Name,
                      delegation: bool, ok0: bool, expected0: seq<Element>, ghost cs: seq<Check>)
    returns (ok: bool, expected: seq<Element>)
    requires Collected(m, params, optOut, hash, cs, ok0, expected0)
    ensures Collected(m, params, optOut, hash,
                      cs + EmptyChecks(EmptyUp(name, Common(prevname, name), |name|), delegation), ok, expected)
  {
    hide Collected, Common, EmptyChecks;
    ok, expected := ok0, expected0;
    var labels := Common(prevname, name);
    ghost var done: seq<Name> := [];
    EmptyChecksNone(cs, delegation);
    var i := labels + 1;
    while i < |name|
      invariant labels < i && (i <= |name| || i == labels + 1)
      invariant done == if i <= |name| then EmptyUp(name, labels, i) else []
      invariant Collected(m, params, optOut, hash, cs + EmptyChecks(done, delegation), ok, expected)
    {
      var c := Check(name[..i], delegation, true, false);
      ok, expected := CollectOne(m, params, optOut, hash, c, ok, expected, cs + EmptyChecks(done, delegation));
      EmptyChecksSnoc(cs, done, name[..i], delegation);
      done := done + [name[..i]];
      i := i + 1;
    }
    assert done == EmptyUp(name, labels, |name|);
  }

  /** `verifynsec3s` for every visited node and `verifyemptynodes` for the span before it. */
  method CollectExpected(m: Tree, params: Params, optOut: bool, hash: Name -> Bytes, visits: seq<Visit>)
    returns (ok: bool, expected: seq<Element>)
    ensures ok <==> AllGood(m, params, optOut, hash, ChecksTo(visits, |visits|))
    ensures expected == AllRecorded(m, params, hash, ChecksTo(visits, |visits|))
  {
    hide Collected, Common, EmptyChecks;
    ok, expected := true, [];
    NothingCollected(m, params, optOut, hash);
    for k := 0 to |visits|
      invariant Collected(m, params, optOut, hash, ChecksTo(visits, k), ok, expected)
    {
      var v := visits[k];
      ghost var cs := ChecksTo(visits, k);
      ok, expected := CollectOne(m, params, optOut, hash, Check(v.node.name, v.delegation, false, Has(v.node, DS)),
                                 ok, expected, cs);
      if k > 0 {
        ok, expected := CollectEmpty(m, params, optOut, hash, visits[k - 1].node.name, v.node.name, v.delegation,
                                     ok, expected, cs + [VisitCheck(v)]);
      }
      ChecksStep(visits, k);
    }
    CollectedMeans(m, params, optOut, hash, ChecksTo(visits, |visits|), ok, expected);
  }

  lemma CollectedMeans(m: Tree, params: Params, optOut: bool, hash: Name -> Bytes, cs: seq<Check>,
                       ok: bool, expected: seq<Element>)
    requires Collected(m, params, optOut, hash, cs, ok, expected)
    ensures ok <==> AllGood(m, params, optOut, hash, cs)
    ensures expected == AllRecorded(m, params, hash, cs)
  {
  }

  lemma ChecksStep(visits: seq<Visit>, k: nat)
    requires k < |visits|
    ensures var v := visits[k];
            var cs := ChecksTo(visits, k) + [VisitCheck(v)];
            ChecksTo(visits, k + 1)
            == if k == 0 then cs
               else cs + EmptyChecks(EmptyUp(v.node.name, Common(visits[k - 1].node.name, v.node.name), |v.node.name|),
                                     v.delegation)
  {
    hide EmptyChecks, Common;
  }

  lemma NothingCollected(m: Tree, params: Params, optOut: bool, hash: Name -> Bytes)
    ensures Collected(m, params, optOut, hash, [], true, [])
  {
  }

  // ----- the found chain

  /** `record_found` at one NSEC3 node. */
  function FoundAt(h: Bytes, rs: seq<Nsec3Record>, params: Params): (es: seq<Element>)
    ensures forall e :: e in es ==> e.owner == h
  {
    if rs == [] then []
    else (if Matches(rs[0], params, |h|) then [ElementOf(params, h, rs[0].next)] else []) + FoundAt(h, rs[1..], params)
  }

  ghost function FoundCount(m: Tree, params: Params, e: Element): nat {
    if e.owner in m then multiset(FoundAt(e.owner, m[e.owner], params))[e] else 0
  }

  ghost predicate OfChain(e: Element, params: Params) {
    e.alg == params.alg && e.iterations == params.iterations && e.salt == params.salt
  }

  /** How many records have the parameters and the next hash, with either opt-out flag. */
  ghost function Times(rs: seq<Nsec3Record>, params: Params, next: Bytes): nat {
    multiset(rs)[Nsec3Record(params, true, next)] + multiset(rs)[Nsec3Record(params, false, next)]
  }

  /** An element is found once for each record at its owner with its parameters and next hash, whatever the flag. */
  lemma {:induction false} FoundCountIs(m: Tree, params: Params, e: Element)
    ensures FoundCount(m, params, e)
            == if e.owner in m && OfChain(e, params) then Times(m[e.owner], params, e.next) else 0
  {
    if e.owner in m {
      FoundAtCounts(e.owner, m[e.owner], params, e);
    }
  }

  lemma {:induction false} FoundAtCounts(h: Bytes, rs: seq<Nsec3Record>, params: Params, e: Element)
    requires e.owner == h
    ensures multiset(FoundAt(h, rs, params))[e] == if OfChain(e, params) then Times(rs, params, e.next) else 0
  {
    if rs != [] {
      FoundAtCounts(h, rs[1..], params, e);
      assert rs == [rs[0]] + rs[1..];
      assert multiset(rs) == multiset{rs[0]} + multiset(rs[1..]);
      var r := rs[0];
      assert r == Nsec3Record(r.params, r.optOut, r.next);
      if Matches(r, params, |h|) {
        var f: Element := ElementOf(params, h, r.next);
        assert FoundAt(h, rs, params) == [f] + FoundAt(h, rs[1..], params);
        assert multiset([f] + FoundAt(h, rs[1..], params)) == multiset{f} + multiset(FoundAt(h, rs[1..], params));
        assert f == e <==> OfChain(e, params) && r.next == e.next;
      } else {
        assert FoundAt(h, rs, params) == FoundAt(h, rs[1..], params);
      }
    }
  }

  /** `record_found` at every NSEC3 node, in whatever order the iterator yields them. */
  method CollectFound(m: Tree, params: Params) returns (found: seq<Element>)
    ensures forall e: Element :: multiset(found)[e] == FoundCount(m, params, e)
  {
    found := [];
    var todo := m.Keys;
    while todo != {}
      invariant todo <= m.Keys
      invariant forall e: Element :: multiset(found)[e] == if e.owner in todo then 0 else FoundCount(m, params, e)
      decreases todo
    {
      var h :| h in todo;
      var es: seq<Element> := FoundAt(h, m[h], params);
      forall e: Element
        ensures multiset(found + es)[e] == if e.owner in todo - {h} then 0 else FoundCount(m, params, e)
      {
        assert multiset(es)[e] > 0 ==> e in es;
      }
      found := found + es;
      todo := todo - {h};
    }
  }

  // ----- the heaps

  /** The order in which an `isc_heap` yields what was inserted, each element in its own block. */
  method HeapBlocks(es: seq<Element>) returns (blocks: seq<Block>)
    ensures HeapOrder(Values(blocks)) && NoDup(blocks) && multiset(Values(blocks)) == multiset(es)
  {
    blocks := [];
    for k := 0 to |es|
      invariant HeapOrder(Values(blocks)) && NoDup(blocks)
      invariant forall i :: 0 <= i < |blocks| ==> blocks[i].address < k
      invariant multiset(Values(blocks)) == multiset(es[..k])
    {
      var p := 0;
      while p < |blocks| && !ChainCompare(es[k], blocks[p].element)
        invariant 0 <= p <= |blocks|
        invariant forall i :: 0 <= i < p ==> !ChainCompare(es[k], blocks[i].element)
      {
        p := p + 1;
      }
      HeapInsert(blocks, p, Block(k, es[k]));
      assert es[..k + 1] == es[..k] + [es[k]];
      blocks := blocks[..p] + [Block(k, es[k])] + blocks[p..];
    }
    assert es[..|es|] == es;
  }

  lemma HeapInsert(blocks: seq<Block>, p: nat, b: Block)
    requires HeapOrder(Values(blocks)) && NoDup(blocks) && p <= |blocks|
    requires forall i :: 0 <= i < |blocks| ==> blocks[i].address < b.address
    requires forall i :: 0 <= i < p ==> !ChainCompare(b.element, blocks[i].element)
    requires p < |blocks| ==> ChainCompare(b.element, blocks[p].element)
    ensures var s := blocks[..p] + [b] + blocks[p..];
            HeapOrder(Values(s)) && NoDup(s) && multiset(Values(s)) == multiset(Values(blocks)) + multiset{b.element}
  {
    hide ChainCompare, HeapOrder, NoDup, Values;
    var s, v := blocks[..p] + [b] + blocks[p..], Values(blocks);
    assert Values(s) == v[..p] + [b.element] + v[p..];
    InsertKeepsOrder(v, p, b.element);
    NoDupAppend(blocks, b);
    InsertCounts(blocks, p, b);
    InsertCounts(v, p, b.element);
    assert multiset(blocks + [b]) == multiset(blocks) + multiset{b};
    NoDupPermuted(s, blocks + [b]);
  }

  lemma InsertCounts<T>(s: seq<T>, p: nat, x: T)
    requires p <= |s|
    ensures multiset(s[..p] + [x] + s[p..]) == multiset(s) + multiset{x}
  {
    assert s == s[..p] + s[p..];
  }

  lemma NoDupAppend(blocks: seq<Block>, b: Block)
    requires NoDup(blocks) && forall i :: 0 <= i < |blocks| ==> blocks[i].address < b.address
    ensures NoDup(blocks + [b])
  {
  }

  lemma InsertKeepsOrder(v: seq<Element>, p: nat, e: Element)
    requires HeapOrder(v) && p <= |v| && (forall i :: 0 <= i < p ==> !ChainCompare(e, v[i]))
    requires p < |v| ==> ChainCompare(e, v[p])
    ensures HeapOrder(v[..p] + [e] + v[p..])
  {
    hide ChainCompare;
    ChainOrder();
    var w := v[..p] + [e] + v[p..];
    forall j | p <= j < |v| ensures !ChainCompare(v[j], e) {
      assert j == p || !ChainCompare(v[j], v[p]);
    }
    forall i, j | 0 <= i < j < |w| ensures !ChainCompare(w[j], w[i]) {
      assert i < p ==> w[i] == v[i];
      assert p < i ==> w[i] == v[i - 1];
      assert j < p ==> w[j] == v[j];
      assert p < j ==> w[j] == v[j - 1];
    }
  }
}
