/**
  `verify_nsec3_chains` (bin/dnssec/dnssectool.c): the records expected from the walk and those found
  in the NSEC3 tree are compared, and every chain is checked to be closed.
 */
module ChainCheck {
  import opened Names
  import opened Sequences

  datatype ChainFixed = ChainFixed(alg: nat, iterations: nat, salt: Bytes, owner: Bytes, next: Bytes)

  /** `struct nsec3_chain_fixed` with its trailing bytes; both hashes have `next_length` bytes. */
  type Element = e: ChainFixed | |e.owner| == |e.next| witness ChainFixed(0, 0, [], [], [])

  function Payload(e: Element): (p: Bytes)
    ensures |p| == |e.salt| + 2 * |e.next|
  {
    e.salt + e.owner + e.next
  }

  predicate ChainCompare(a: Element, b: Element) {
    if a.alg != b.alg then a.alg < b.alg
    else if a.iterations != b.iterations then a.iterations < b.iterations
    else if |a.salt| != |b.salt| then |a.salt| < |b.salt|
    else if |a.next| != |b.next| then |a.next| < |b.next|
    else BytesLess(Payload(a), Payload(b))
  }

  predicate ChainEqual(a: Element, b: Element) {
    && a.alg == b.alg && a.iterations == b.iterations
    && |a.salt| == |b.salt| && |a.next| == |b.next|
    && Payload(a) == Payload(b)
  }

  predicate NewChain(first: Element, e: Element) {
    first.alg != e.alg || first.iterations != e.iterations || |first.next| != |e.next| || first.salt != e.salt
  }

  predicate CheckNext(first: Element, e: Element)
    requires |first.next| == |e.owner|
  {
    first.next == e.owner
  }

  /** The comparison of fields and bytes is equality of elements. */
  lemma ChainEqualIsEquality(a: Element, b: Element)
    ensures ChainEqual(a, b) <==> a == b
  {
    if ChainEqual(a, b) {
      var p, q, s, n := Payload(a), Payload(b), |a.salt|, |a.next|;
      assert a.salt == p[..s] && b.salt == q[..s];
      assert a.owner == p[s..s + n] && b.owner == q[s..s + n];
      assert a.next == p[s + n..] && b.next == q[s + n..];
    }
  }

  /** The heap order is a strict total order, so the heap's order is determined. */
  lemma ChainOrder()
    ensures StrictTotal(ChainCompare)
  {
    hide BytesLess;
    BytesOrder();
    forall a: Element, b: Element ensures ChainCompare(a, b) || a == b || ChainCompare(b, a) {
      ChainEqualIsEquality(a, b);
    }
  }

  /** A heap block: its address and what is stored there. */
  datatype Block = Block(address: nat, element: Element)

  ghost function Values(s: seq<Block>): (v: seq<Element>)
    ensures |v| == |s| && forall i :: 0 <= i < |s| ==> v[i] == s[i].element
  {
    seq(|s|, i requires 0 <= i < |s| => s[i].element)
  }

  /** The order in which a heap yields its elements. */
  ghost predicate HeapOrder(v: seq<Element>) {
    forall i, j :: 0 <= i < j < |v| ==> !ChainCompare(v[j], v[i])
  }

  /** A multiset of elements has only one heap order. */
  lemma {:induction false} HeapOrderUnique(v: seq<Element>, w: seq<Element>)
    requires HeapOrder(v) && HeapOrder(w) && multiset(v) == multiset(w)
    ensures v == w
  {
    hide ChainCompare;
    assert |v| == |multiset(v)| == |multiset(w)| == |w|;
    if v != [] {
      assert v[0] in multiset(w) && w[0] in multiset(v);
      SameHead(v, w);
      SameTail(v, w);
      HeapOrderUnique(v[1..], w[1..]);
    }
  }

  lemma SameTail(v: seq<Element>, w: seq<Element>)
    requires v != [] && w != [] && v[0] == w[0] && multiset(v) == multiset(w)
    ensures multiset(v[1..]) == multiset(w[1..])
  {
    assert v == [v[0]] + v[1..] && w == [w[0]] + w[1..];
    assert multiset(v[1..]) == multiset(v) - multiset{v[0]};
    assert multiset(w[1..]) == multiset(w) - multiset{w[0]};
  }

  lemma SameHead(v: seq<Element>, w: seq<Element>)
    requires HeapOrder(v) && HeapOrder(w) && v != [] && w != [] && v[0] in w && w[0] in v
    ensures v[0] == w[0]
  {
    hide ChainCompare;
    ChainOrder();
    var i :| 0 <= i < |w| && w[i] == v[0];
    var j :| 0 <= j < |v| && v[j] == w[0];
  }

  // ----- closed chains

  /** Where the chain containing position `i` starts. */
  ghost function Start(v: seq<Element>, i: nat): (j: nat)
    requires i < |v|
    ensures j <= i && !NewChain(v[j], v[i])
  {
    if i == 0 || NewChain(v[i - 1], v[i]) then i else Start(v, i - 1)
  }

  /** The element that the next hash of element `i` must name. */
  ghost function Follower(v: seq<Element>, i: nat): (j: nat)
    requires i < |v|
    ensures j < |v| && !NewChain(v[i], v[j])
  {
    if i + 1 < |v| && !NewChain(v[i], v[i + 1]) then i + 1 else Start(v, i)
  }

  ghost predicate LinkGood(v: seq<Element>, i: int) {
    0 <= i < |v| && CheckNext(v[i], v[Follower(v, i)])
  }

  /** Within each chain every element names the next owner, and the last one the first. */
  ghost predicate ChainsClosed(v: seq<Element>) {
    forall i :: 0 <= i < |v| ==> LinkGood(v, i)
  }

  datatype Cursor = Cursor(result: bool, f: Option<Block>, found: seq<Block>)

  /** The first `k` expected and found elements are the same, and nothing else has been taken. */
  ghost predicate InStep(c: Cursor, v: seq<Element>, found: seq<Block>, k: nat) {
    && c.f.None? && k <= |found| && k <= |v|
    && c.found == found[k..]
    && forall i :: 0 <= i < k ==> v[i] == found[i].element
  }

  ghost predicate LinksGood(v: seq<Element>, k: int) {
    forall i :: 0 <= i < k ==> LinkGood(v, i)
  }

  lemma MatchStep(c: Cursor, d: Cursor, v: seq<Element>, found: seq<Block>, k: nat)
    requires k < |v| && InStep(c, v, found, k)
    requires d.result <==> c.found != [] && c.found[0].element == v[k]
    requires d.result ==> d.f.None? && d.found == c.found[1..]
    ensures if d.result then InStep(d, v, found, k + 1) else v != Values(found)
  {
    assert c.found != [] ==> c.found[0] == found[k];
  }

  lemma FullyMatched(c: Cursor, v: seq<Element>, found: seq<Block>)
    requires InStep(c, v, found, |v|)
    ensures v == Values(found) <==> c.found == []
  {
  }

  /** One round of matching an expected element `e` against the found heap. */
  method MatchOne(e: Element, c: Cursor) returns (d: Cursor)
    requires c.result ==> c.f.None?
    ensures !c.result ==> !d.result
    ensures c.result && c.f.None? ==>
              (d.result <==> c.found != [] && c.found[0].element == e)
    ensures d.result ==> d.f.None? && d.found == c.found[1..]
  {
    var result, f, found := c.result, c.f, c.found;
    if f.None? && found != [] {
      f := Some(found[0]);
    }
    if f.Some? {
      if found != [] {
        found := found[1..];
      }
      ChainEqualIsEquality(e, f.value.element);
      if ChainEqual(e, f.value.element) {
        f := None;
      } else {
        result := false;
        while f.Some? && !ChainCompare(e, f.value.element)
          invariant !result
          decreases |found|, f.Some?
        {
          f := if found != [] then Some(found[0]) else None;
          if f.Some? {
            found := found[1..];
            if ChainEqual(e, f.value.element) {
              f := None;
              break;
            }
          }
        }
      }
    } else {
      result := false;
    }
    d := Cursor(result, f, found);
  }

  lemma LinksNone(v: seq<Element>)
    ensures LinksGood(v, 0)
    ensures v == [] ==> ChainsClosed(v)
  {
  }

  lemma LinksStep(v: seq<Element>, k: nat)
    requires k < |v|
    ensures LinksGood(v, k + 1) <==> LinksGood(v, k) && LinkGood(v, k)
    ensures !LinkGood(v, k) ==> !ChainsClosed(v)
    ensures k + 1 == |v| ==> (LinksGood(v, k + 1) <==> ChainsClosed(v))
  {
    hide LinkGood;
  }

  /** How the link of the previous element is decided once element `k` is known. */
  lemma LinkStep(v: seq<Element>, k: nat)
    requires 0 < k < |v|
    ensures var q := Start(v, k - 1);
            if NewChain(v[q], v[k])
            then Start(v, k) == k && |v[k - 1].next| == |v[q].owner|
                 && (LinkGood(v, k - 1) <==> CheckNext(v[k - 1], v[q]))
            else Start(v, k) == q && |v[k - 1].next| == |v[k].owner|
                 && (LinkGood(v, k - 1) <==> CheckNext(v[k - 1], v[k]))
  {
    var q := Start(v, k - 1);
    assert NewChain(v[q], v[k]) <==> NewChain(v[k - 1], v[k]);
  }

  lemma LastLink(v: seq<Element>)
    requires v != []
    ensures |v[|v| - 1].next| == |v[Start(v, |v| - 1)].owner|
    ensures LinkGood(v, |v| - 1) <==> CheckNext(v[|v| - 1], v[Start(v, |v| - 1)])
  {
  }

  /** The blocks of the first `k` rounds, apart from the first of the chain and the last seen. */
  ghost predicate AllFreed(s: seq<Block>, k: nat, q: nat, freed: seq<Block>) {
    && q < k <= |s|
    && multiset(freed) + multiset{s[q]} + (if q == k - 1 then multiset{} else multiset{s[k - 1]}) == multiset(s[..k])
  }

  lemma TakeOneMore(s: seq<Block>, k: nat)
    requires k < |s|
    ensures multiset(s[..k + 1]) == multiset(s[..k]) + multiset{s[k]}
  {
    assert s[..k + 1] == s[..k] + [s[k]];
  }

  /** Frees what a round no longer needs: the last seen block, and the first one when the chain ends. */
  method Release(s: seq<Block>, k: nat, q: nat, freed: seq<Block>, newChain: bool) returns (out: seq<Block>)
    requires AllFreed(s, k, q, freed) && NoDup(s)
    ensures k < |s| ==> AllFreed(s, k + 1, if newChain then k else q, out)
    ensures k == |s| && newChain ==> multiset(out) == multiset(s)
  {
    assert q != k - 1 ==> s[q] != s[k - 1];
    hide NoDup;
    var first, prev := s[q], s[k - 1];
    out := if prev != first then freed + [prev] else freed;
    assert multiset(out) + multiset{first} == multiset(s[..k]);
    if newChain {
      out := out + [first];
      assert multiset(out) == multiset(s[..k]);
    }
    if k < |s| {
      TakeOneMore(s, k);
    } else {
      assert s[..k] == s;
    }
  }

  /** The final loop: whatever is left in the found heap is an error. */
  method Drain(c: Cursor) returns (result: bool)
    ensures result <==> c.result && c.f.None? && c.found == []
  {
    var f, found := c.f, c.found;
    result := c.result;
    while true
      invariant result ==> c.result
      invariant found == c.found && f == c.f ==> result == c.result
      invariant (found == c.found && f == c.f) || f.Some?
      invariant !(found == c.found && f == c.f) ==> c.found != []
      decreases |found|
    {
      if f.Some? {
        result := false;
      }
      if found == [] {
        break;
      }
      f, found := Some(found[0]), found[1..];
    }
  }

  /**
    Success means exactly that expected and found records are the same multiset and that every chain is
    closed; whatever the outcome, each expected block is freed once.
   */
  method VerifyNsec3Chains(expected: seq<Block>, found: seq<Block>) returns (ok: bool, freed: seq<Block>)
    requires HeapOrder(Values(expected)) && HeapOrder(Values(found)) && NoDup(expected)
    ensures ok <==> multiset(Values(expected)) == multiset(Values(found)) && ChainsClosed(Values(expected))
    ensures multiset(freed) == multiset(expected)
  {
    hide HeapOrder, LinkGood, LinksGood, ChainsClosed, NoDup, AllFreed, NewChain, CheckNext, InStep, Values;
    ghost var v, w := Values(expected), Values(found);
    var cursor := Cursor(true, None, found);
    freed := [];
    assert InStep(cursor, v, found, 0) by { NothingMatched(cursor, v, found); }
    LinksNone(v);
    if expected != [] {
      ghost var before := cursor;
      cursor := MatchOne(expected[0].element, cursor);
      MatchStep(before, cursor, v, found, 0);
      FirstHeld(expected);
      var k, q := 1, 0;
      while k < |expected|
        invariant 1 <= k <= |expected| == |v| && q == Start(v, k - 1)
        invariant cursor.result ==> cursor.f.None? && InStep(cursor, v, found, k) && LinksGood(v, k - 1)
        invariant !cursor.result ==> v != w || !ChainsClosed(v)
        invariant AllFreed(expected, k, q, freed)
      {
        before := cursor;
        var e := expected[k].element;
        assert e == v[k];
        cursor := MatchOne(e, cursor);
        if before.result {
          MatchStep(before, cursor, v, found, k);
        }
        LinkStep(v, k);
        LinksStep(v, k - 1);
        var newChain := NewChain(expected[q].element, e);
        var target := if newChain then expected[q].element else e;
        if !CheckNext(expected[k - 1].element, target) {
          cursor := cursor.(result := false);
        }
        freed := Release(expected, k, q, freed, newChain);
        q := if newChain then k else q;
        k := k + 1;
      }
      LastLink(v);
      LinksStep(v, k - 1);
      if !CheckNext(expected[k - 1].element, expected[q].element) {
        cursor := cursor.(result := false);
      }
      freed := Release(expected, k, q, freed, true);
    }
    ok := Drain(cursor);
    SameSequence(v, w);
    if cursor.result {
      FullyMatched(cursor, v, found);
    }
  }

  lemma NothingMatched(c: Cursor, v: seq<Element>, found: seq<Block>)
    requires c.f.None? && c.found == found
    ensures InStep(c, v, found, 0)
  {
  }

  lemma FirstHeld(s: seq<Block>)
    requires s != []
    ensures AllFreed(s, 1, 0, [])
  {
    TakeOneMore(s, 0);
  }

  lemma SameSequence(v: seq<Element>, w: seq<Element>)
    requires HeapOrder(v) && HeapOrder(w)
    ensures multiset(v) == multiset(w) <==> v == w
  {
    if multiset(v) == multiset(w) {
      HeapOrderUnique(v, w);
    }
  }

  // ----- closed chains, group by group

  /** Elements of the same chain: hash algorithm, iterations, salt and hash length agree. */
  ghost predicate SameGroup(a: Element, b: Element) {
    a.alg == b.alg && a.iterations == b.iterations && a.salt == b.salt && |a.next| == |b.next|
  }

  /** Element `j` follows `i` round its group: the one after it, or the first of the group after the last. */
  ghost predicate Follows(v: seq<Element>, i: int, j: int) {
    && 0 <= i < |v| && 0 <= j < |v|
    && if i + 1 < |v| && SameGroup(v[i], v[i + 1]) then j == i + 1
       else
         && j <= i && SameGroup(v[j], v[i])
         && (j == 0 || !SameGroup(v[j - 1], v[j]))
         && forall k :: j <= k <= i ==> SameGroup(v[k], v[i])
  }

  /** In heap order the elements of a group stand together. */
  lemma GroupsStandTogether(v: seq<Element>, i: nat, k: nat, j: nat)
    requires HeapOrder(v) && i <= k <= j < |v| && SameGroup(v[i], v[j])
    ensures SameGroup(v[i], v[k])
  {
    hide BytesLess, Payload;
    if i < k < j {
      var a, b, c := v[i], v[k], v[j];
      assert !ChainCompare(b, a) && !ChainCompare(c, b);
      SaltStays(a, Payload(b), c);
      SaltLeads(a);
      SaltLeads(b);
      SaltLeads(c);
    }
  }

  lemma SaltLeads(e: Element)
    ensures e.salt <= Payload(e) && e.salt == Payload(e)[..|e.salt|]
  {
  }

  /** Bytes between two payloads with the same salt start with that salt. */
  lemma SaltStays(a: Element, p: Bytes, c: Element)
    requires a.salt == c.salt && !BytesLess(p, Payload(a)) && !BytesLess(Payload(c), p)
    ensures a.salt <= p
  {
    hide BytesLess, Payload;
    SaltLeads(a);
    SaltLeads(c);
    BytesOrder();
    BytesInterval(a.salt, Payload(a), p, Payload(c));
  }

  lemma BytesInterval(d: Bytes, x: Bytes, y: Bytes, z: Bytes)
    requires d <= x && d <= z && (x == y || BytesLess(x, y)) && (y == z || BytesLess(y, z))
    ensures d <= y
  {
    PrefixInterval(ByteLess, d, x, y, z);
  }

  lemma {:induction false} StartIsFirst(v: seq<Element>, i: nat)
    requires i < |v|
    ensures var j := Start(v, i);
            && (j == 0 || !SameGroup(v[j - 1], v[j]))
            && forall k :: j <= k <= i ==> SameGroup(v[k], v[i])
  {
    if !(i == 0 || NewChain(v[i - 1], v[i])) {
      StartIsFirst(v, i - 1);
    }
  }

  /** The chains are closed exactly when every element names the owner that follows it round its group. */
  lemma ClosedIff(v: seq<Element>)
    ensures ChainsClosed(v) <==> forall i, j :: Follows(v, i, j) ==> v[i].next == v[j].owner
  {
    forall i, j ensures Follows(v, i, j) <==> 0 <= i < |v| && j == Follower(v, i) {
      if 0 <= i < |v| {
        FollowerIs(v, i, j);
      }
    }
    if forall i, j :: Follows(v, i, j) ==> v[i].next == v[j].owner {
      forall i | 0 <= i < |v| ensures LinkGood(v, i) {
        assert Follows(v, i, Follower(v, i));
      }
    } else {
      var i, j :| Follows(v, i, j) && v[i].next != v[j].owner;
      assert !LinkGood(v, i);
    }
  }

  ghost predicate IsFirst(v: seq<Element>, i: int, j: int) {
    && 0 <= j <= i < |v| && (j == 0 || !SameGroup(v[j - 1], v[j]))
    && forall k :: j <= k <= i ==> SameGroup(v[k], v[i])
  }

  lemma FirstIsUnique(v: seq<Element>, i: int, s: int, j: int)
    requires IsFirst(v, i, s) && IsFirst(v, i, j)
    ensures s == j
  {
    var a, b := if s < j then s else j, if s < j then j else s;
    assert IsFirst(v, i, a) && IsFirst(v, i, b);
    assert b == 0 || a == b || (SameGroup(v[b - 1], v[i]) && SameGroup(v[b], v[i]));
  }

  lemma FollowerIs(v: seq<Element>, i: nat, j: int)
    requires i < |v|
    ensures Follows(v, i, j) <==> j == Follower(v, i)
  {
    StartIsFirst(v, i);
    var s := Start(v, i);
    if Follows(v, i, j) && !(i + 1 < |v| && SameGroup(v[i], v[i + 1])) {
      FirstIsUnique(v, i, s, j);
    }
  }
}
