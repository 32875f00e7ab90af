/**
  Which names `nsec3ify` hashes (bin/dnssec/dnssec-signzone.c): the chain names and, by label
  arithmetic on neighbours, the empty non-terminals between them.
 */
module Nsec3Names {
  import opened Names
  import opened Sequences
  import opened Zone

  /** The proper prefixes of `b` longer than `k` labels and shorter than `count`, longest first. */
  function EntsDown(b: Name, k: nat, count: nat): (e: seq<Name>)
    requires count <= |b|
  {
    if count > k + 1 then [b[..count - 1]] + EntsDown(b, k, count - 1) else []
  }

  /** The empty nodes `nsec3ify` adds for the span from `a` to `b`. */
  function Ents(a: Name, b: Name): (e: seq<Name>) { EntsDown(b, Common(a, b), |b|) }

  lemma {:induction false} EntsDownMembers(b: Name, k: nat, count: nat, x: Name)
    requires count <= |b|
    ensures x in EntsDown(b, k, count) <==> k < |x| < count && x <= b
    ensures NoDup(EntsDown(b, k, count))
  {
    if count > k + 1 {
      EntsDownMembers(b, k, count - 1, x);
      EntsDownMembers(b, k, count - 1, b[..count - 1]);
      var rest := EntsDown(b, k, count - 1);
      assert x in EntsDown(b, k, count) <==> x == b[..count - 1] || x in rest;
      assert x <= b && |x| == count - 1 ==> x == b[..count - 1];
    }
  }

  lemma {:induction false} EntsDownAt(b: Name, k: nat, count: nat, j: nat)
    requires count <= |b|
    ensures |EntsDown(b, k, count)| == if count > k + 1 then count - 1 - k else 0
    ensures j < |EntsDown(b, k, count)| ==> EntsDown(b, k, count)[j] == b[..count - 1 - j]
  {
    if count > k + 1 {
      EntsDownAt(b, k, count - 1, if j > 0 then j - 1 else 0);
    }
  }

  lemma EntsLength(a: Name, b: Name)
    ensures |Ents(a, b)| == if |b| > Common(a, b) + 1 then |b| - 1 - Common(a, b) else 0
  {
    EntsDownAt(b, Common(a, b), |b|, 0);
  }

  lemma EntsAt(a: Name, b: Name, j: nat)
    requires j < |Ents(a, b)|
    ensures j < |b| && Ents(a, b)[j] == b[..|b| - 1 - j]
  {
    EntsDownAt(b, Common(a, b), |b|, j);
  }

  /** All names hashed for a chain, in the order of the walk. */
  ghost function HashNames(c: seq<Name>): (xs: seq<Name>) {
    if |c| == 0 then []
    else if |c| == 1 then [c[0]]
    else
      var n := |c| - 1;
      HashNames(c[..n]) + Ents(c[n - 1], c[n]) + [c[n]]
  }

  ghost predicate AboveSome(c: seq<Name>, x: Name) {
    exists i :: 0 <= i < |c| && x <= c[i]
  }

  /** The chain names and all their ancestors down from the origin: section 7.1 of RFC 5155. */
  ghost predicate InClosure(origin: Name, c: seq<Name>, x: Name) {
    origin <= x && AboveSome(c, x)
  }

  ghost predicate IsChain(origin: Name, c: seq<Name>) {
    && c != [] && c[0] == origin
    && Ascending(c)
    && forall i :: 0 <= i < |c| ==> origin <= c[i]
  }

  lemma ChainPrefix(origin: Name, c: seq<Name>)
    requires IsChain(origin, c) && 1 < |c|
    ensures IsChain(origin, c[..|c| - 1])
  {
    hide NameLess;
  }

  lemma CommonKeepsOrigin(origin: Name, a: Name, b: Name)
    requires origin <= a && origin <= b
    ensures |origin| <= Common(a, b)
  {
    assert forall i :: 0 <= i < |origin| ==> a[i] == origin[i] == b[i];
  }

  /** A prefix of the new name is a prefix of the one before it, an empty node of the span, or the name itself. */
  lemma PrefixSplits(a: Name, b: Name, x: Name)
    ensures x <= b <==> (x <= b && x <= a) || x in Ents(a, b) || x == b
  {
    var k := Common(a, b);
    EntsDownMembers(b, k, |b|, x);
    if x <= b && |x| <= k {
      assert x == b[..|x|] == b[..k][..|x|] == a[..k][..|x|] == a[..|x|];
    }
  }

  lemma AboveSomeSnoc(d: seq<Name>, b: Name, x: Name)
    ensures AboveSome(d + [b], x) <==> AboveSome(d, x) || x <= b
  {
    var c := d + [b];
    if AboveSome(d, x) {
      var i :| 0 <= i < |d| && x <= d[i];
      assert x <= c[i];
    }
    if x <= b { assert x <= c[|d|]; }
  }

  /**
    The names hashed are exactly the chain names and the empty non-terminals above them:
    everything at or below the origin that is an ancestor of, or equal to, a chain name.
   */
  lemma {:induction false} HashNamesAreClosure(origin: Name, c: seq<Name>, x: Name)
    requires IsChain(origin, c)
    ensures x in HashNames(c) <==> InClosure(origin, c, x)
  {
    hide Ents, NameLess;
    var n := |c| - 1;
    if n == 0 {
      assert x <= c[0] && origin <= x ==> x == origin;
      assert x == origin ==> x <= c[0];
    } else {
      var a, b := c[n - 1], c[n];
      ChainPrefix(origin, c);
      HashNamesAreClosure(origin, c[..n], x);
      assert c == c[..n] + [b];
      AboveSomeSnoc(c[..n], b, x);
      PrefixSplits(a, b, x);
      assert x <= a ==> AboveSome(c[..n], x) by {
        if x <= a { assert x <= c[..n][n - 1]; }
      }
      EntsBelowOrigin(origin, a, b, x);
    }
  }

  lemma EntsBelowOrigin(origin: Name, a: Name, b: Name, x: Name)
    requires origin <= a && origin <= b
    ensures x in Ents(a, b) ==> origin <= x
  {
    CommonKeepsOrigin(origin, a, b);
    EntsDownMembers(b, Common(a, b), |b|, x);
  }

  /** Nothing hashed for a chain sorts after its last name. */
  lemma ClosureNotAfterLast(origin: Name, c: seq<Name>, x: Name)
    requires IsChain(origin, c) && InClosure(origin, c, x)
    ensures x == c[|c| - 1] || NameLess(x, c[|c| - 1])
  {
    hide NameLess;
    NameOrder();
    var i :| 0 <= i < |c| && x <= c[i];
    if x != c[i] {
      PrefixIsLess(x, c[i]);
    }
  }

  lemma EntsAreNew(a: Name, b: Name, x: Name)
    requires NameLess(a, b) && (x in Ents(a, b) || x == b)
    ensures NameLess(a, x)
  {
    if x in Ents(a, b) {
      EntsDownMembers(b, Common(a, b), |b|, x);
      assert x == b[..|x|];
      SpanPrefixBetween(a, b, |x|);
    }
  }

  lemma OldNotNew(a: Name, b: Name, x: Name)
    requires NameLess(a, b) && (x == a || NameLess(x, a))
    ensures x !in Ents(a, b) + [b]
  {
    hide NameLess, Ents;
    NameOrder();
    if x in Ents(a, b) + [b] {
      EntsAreNew(a, b, x);
    }
  }

  /** No name is hashed twice. */
  lemma {:induction false} HashNamesDistinct(origin: Name, c: seq<Name>)
    requires IsChain(origin, c)
    ensures NoDup(HashNames(c))
  {
    var n := |c| - 1;
    if n > 0 {
      hide NameLess, Ents, Ascending;
      var a, b := c[n - 1], c[n];
      ChainPrefix(origin, c);
      HashNamesDistinct(origin, c[..n]);
      EntsThenName(a, b);
      var t := Ents(a, b) + [b];
      assert NameLess(a, b) by { LastTwo(c); }
      forall x | x in HashNames(c[..n]) ensures x !in t {
        HashNamesAreClosure(origin, c[..n], x);
        ClosureNotAfterLast(origin, c[..n], x);
        OldNotNew(a, b, x);
      }
      NoDupConcat(HashNames(c[..n]), t);
      assert HashNames(c) == HashNames(c[..n]) + t;
    }
  }

  lemma LastTwo(c: seq<Name>)
    requires Ascending(c) && 1 < |c|
    ensures NameLess(c[|c| - 2], c[|c| - 1])
  {
    hide NameLess;
  }

  lemma EntsThenName(a: Name, b: Name)
    ensures NoDup(Ents(a, b) + [b])
  {
    EntsDownMembers(b, Common(a, b), |b|, b);
    NoDupConcat(Ents(a, b), [b]);
  }

  // ----- the chain of a zone

  lemma ZoneChainIsChain(origin: Name, nodes: seq<Node>, optOut: bool)
    requires ZoneOk(origin, nodes)
    ensures IsChain(origin, Chain(origin, nodes, optOut))
  {
    hide NameLess, ZoneOk;
    var c := Chain(origin, nodes, optOut);
    var o := OriginIsFirst(origin, nodes);
    ChainAscending(origin, nodes, optOut, |nodes|);
    assert Kept(origin, nodes, optOut, o);
    assert forall j :: 0 <= j < o ==> !Kept(origin, nodes, optOut, j);
    forall i | 0 <= i < |c| ensures origin <= c[i] {
      var j := ChainIsKept(origin, nodes, optOut, |nodes|, c[i]);
    }
    ChainHeadsWithOrigin(origin, nodes, optOut, o, |nodes|);
  }

  lemma {:induction false} ChainHeadsWithOrigin(origin: Name, nodes: seq<Node>, optOut: bool, o: nat, i: nat)
    requires o < i <= |nodes| && nodes[o].name == origin && Kept(origin, nodes, optOut, o)
    requires forall j :: 0 <= j < o ==> !Kept(origin, nodes, optOut, j)
    ensures ChainTo(origin, nodes, optOut, i) != [] && ChainTo(origin, nodes, optOut, i)[0] == origin
  {
    hide Kept;
    if i == o + 1 {
      ChainSkips(origin, nodes, optOut, 0, o);
    } else {
      ChainHeadsWithOrigin(origin, nodes, optOut, o, i - 1);
    }
  }
}
