/**
  The name servers of a follow-up lookup and the order they are tried in (`followup_lookup`,
  `getaddresses`, bin/dig/dighost.c).
 */
module Shuffle {
  import opened Sequences

  /** A server entry; the identity tells list nodes apart. */
  datatype Server = Server(id: nat, address: string)

  function Without<T>(s: seq<T>, j: nat): (t: seq<T>)
    requires j < |s|
    ensures |t| == |s| - 1
  {
    s[..j] + s[j + 1..]
  }

  /** Each choice picks one of the servers still left. */
  ghost predicate InRange(choices: seq<nat>, n: nat) {
    |choices| == n && forall k :: 0 <= k < n ==> choices[k] < n - k
  }

  ghost function Shuffled<T>(s: seq<T>, choices: seq<nat>): (t: seq<T>)
    requires InRange(choices, |s|)
    ensures |t| == |s|
    decreases |s|
  {
    if s == [] then []
    else
      InRangeTail(choices, |s|);
      [s[choices[0]]] + Shuffled(Without(s, choices[0]), choices[1..])
  }

  lemma InRangeTail(choices: seq<nat>, n: nat)
    requires InRange(choices, n) && 0 < n
    ensures choices[0] < n && InRange(choices[1..], n - 1)
  {
    assert choices[0] < n - 0;
    forall k | 0 <= k < n - 1 ensures choices[1..][k] < n - 1 - k {
      assert choices[1..][k] == choices[k + 1];
    }
  }

  lemma WithoutCounts<T>(s: seq<T>, j: nat)
    requires j < |s|
    ensures multiset(s) == multiset{s[j]} + multiset(Without(s, j))
  {
    assert s == s[..j] + [s[j]] + s[j + 1..];
  }

  /** Nothing is lost or invented. */
  lemma {:induction false} ShuffledIsPermutation<T>(s: seq<T>, choices: seq<nat>)
    requires InRange(choices, |s|)
    ensures multiset(Shuffled(s, choices)) == multiset(s)
    decreases |s|
  {
    if s != [] {
      InRangeTail(choices, |s|);
      WithoutCounts(s, choices[0]);
      ShuffledIsPermutation(Without(s, choices[0]), choices[1..]);
    }
  }

  lemma WithoutNoDup<T>(s: seq<T>, j: nat)
    requires NoDup(s) && j < |s|
    ensures NoDup(Without(s, j))
  {
    NoDupCounts(s);
    WithoutCounts(s, j);
    NoDupCounts(Without(s, j));
  }

  /** Different choices give different orders. */
  lemma {:induction false} ShuffledIsInjective<T>(s: seq<T>, c: seq<nat>, d: seq<nat>)
    requires NoDup(s) && InRange(c, |s|) && InRange(d, |s|) && Shuffled(s, c) == Shuffled(s, d)
    ensures c == d
    decreases |s|
  {
    if s != [] {
      InRangeTail(c, |s|);
      InRangeTail(d, |s|);
      assert s[c[0]] == Shuffled(s, c)[0] == Shuffled(s, d)[0] == s[d[0]];
      assert c[0] == d[0];
      WithoutNoDup(s, c[0]);
      hide NoDup, Without;
      var t := Without(s, c[0]);
      assert Shuffled(t, c[1..]) == Shuffled(s, c)[1..] == Shuffled(s, d)[1..] == Shuffled(t, d[1..]);
      ShuffledIsInjective(t, c[1..], d[1..]);
      assert c == [c[0]] + c[1..] && d == [d[0]] + d[1..];
    }
  }

  /** Every order of the servers comes from some choices. */
  lemma {:induction false} ShuffledIsSurjective<T>(s: seq<T>, p: seq<T>) returns (c: seq<nat>)
    requires multiset(p) == multiset(s)
    ensures InRange(c, |s|) && Shuffled(s, c) == p
    decreases |s|
  {
    assert |p| == |multiset(p)| == |multiset(s)| == |s|;
    if s == [] {
      c := [];
    } else {
      assert p[0] in multiset(p);
      var j :| 0 <= j < |s| && s[j] == p[0];
      SameRest(s, p, j);
      hide Without;
      var rest := ShuffledIsSurjective(Without(s, j), p[1..]);
      c := [j] + rest;
      InRangeCons(j, rest, |s|);
      assert Shuffled(s, c) == [s[j]] + Shuffled(Without(s, j), c[1..]);
    }
  }

  lemma SameRest<T>(s: seq<T>, p: seq<T>, j: nat)
    requires j < |s| && p != [] && s[j] == p[0] && multiset(p) == multiset(s)
    ensures multiset(p[1..]) == multiset(Without(s, j))
  {
    hide Without;
    WithoutCounts(s, j);
    assert p == [p[0]] + p[1..];
    assert multiset(p) == multiset{p[0]} + multiset(p[1..]);
    assert multiset(p[1..]) == multiset(p) - multiset{p[0]};
    assert multiset(Without(s, j)) == multiset(s) - multiset{s[j]};
  }

  lemma InRangeCons(j: nat, rest: seq<nat>, n: nat)
    requires j < n && InRange(rest, n - 1)
    ensures InRange([j] + rest, n) && ([j] + rest)[1..] == rest
  {
    var c := [j] + rest;
    forall k | 0 <= k < n ensures c[k] < n - k {
      assert k > 0 ==> c[k] == rest[k - 1];
    }
  }

  /** The choices that a sequence of random numbers amounts to. */
  function Choices(random: seq<nat>, n: nat): (c: seq<nat>)
    requires |random| == n
    ensures |c| == n && forall k :: 0 <= k < n ==> c[k] == random[k] % (n - k)
  {
    seq(n, k requires 0 <= k < n => random[k] % (n - k))
  }

  lemma ChoicesInRange(random: seq<nat>, n: nat)
    requires |random| == n
    ensures InRange(Choices(random, n), n)
  {
  }

  lemma ChoicesTail(random: seq<nat>, n: nat)
    requires |random| == n && 0 < n
    ensures Choices(random, n)[0] == random[0] % n && Choices(random, n)[1..] == Choices(random[1..], n - 1)
  {
  }

  class Lookup {
    var my_server_list: seq<Server>

    /** `requeue_lookup` without servers: the new lookup starts with an empty list. */
    constructor ()
      ensures my_server_list == []
    {
      my_server_list := [];
    }

    /** `getaddresses`: the addresses found for a name are appended; a name that fails adds none. */
    method GetAddresses(found: seq<Server>) returns (count: nat)
      modifies this
      ensures my_server_list == old(my_server_list) + found && count == |found|
    {
      count := 0;
      while count < |found|
        invariant 0 <= count <= |found| && my_server_list == old(my_server_list) + found[..count]
      {
        my_server_list := my_server_list + [found[count]];
        count := count + 1;
      }
    }

    /** The randomizing loop; `i` never reaches zero while a server is left. */
    method Randomize(numLookups: nat, random: seq<nat>)
      requires numLookups == |my_server_list| == |random|
      modifies this
      ensures InRange(Choices(random, numLookups), numLookups)
      ensures my_server_list == Shuffled(old(my_server_list), Choices(random, numLookups))
    {
      ChoicesInRange(random, numLookups);
      var result: seq<Server> := [];
      ghost var whole := Shuffled(my_server_list, Choices(random, numLookups));
      var i, k := numLookups, 0;
      while my_server_list != []
        invariant 0 <= k <= |random| && i == |my_server_list| == |random[k..]|
        invariant InRange(Choices(random[k..], i), i)
        invariant whole == result + Shuffled(my_server_list, Choices(random[k..], i))
        decreases |my_server_list|
      {
        assert i > 0;
        var j := random[k] % i;
        ChoicesTail(random[k..], i);
        assert random[k..][1..] == random[k + 1..];
        ChoicesInRange(random[k + 1..], i - 1);
        var at := 0;
        while j > 0 && at + 1 < |my_server_list|
          invariant 0 <= j && at + j == random[k] % i && at <= random[k] % i < |my_server_list|
        {
          at := at + 1;
          j := j - 1;
        }
        var srv := my_server_list[at];
        my_server_list := Without(my_server_list, at);
        result := result + [srv];
        i := i - 1;
        k := k + 1;
      }
      my_server_list := result;
    }
  }

  function Flat(found: seq<seq<Server>>): seq<Server> {
    if found == [] then [] else Flat(found[..|found| - 1]) + found[|found| - 1]
  }

  /** The servers of all NS records are collected and then shuffled, unless there is only one. */
  method FollowUp(found: seq<seq<Server>>, random: seq<nat>) returns (lookup: Lookup, numLookups: nat)
    requires |random| == |Flat(found)|
    ensures fresh(lookup) && numLookups == |Flat(found)|
    ensures multiset(lookup.my_server_list) == multiset(Flat(found))
    ensures numLookups > 1 ==> InRange(Choices(random, numLookups), numLookups)
                               && lookup.my_server_list == Shuffled(Flat(found), Choices(random, numLookups))
  {
    lookup := new Lookup();
    numLookups := 0;
    for n := 0 to |found|
      invariant lookup.my_server_list == Flat(found[..n]) && numLookups == |lookup.my_server_list|
    {
      assert found[..n + 1][..n] == found[..n];
      var num := lookup.GetAddresses(found[n]);
      numLookups := numLookups + num;
    }
    assert found[..|found|] == found;
    if numLookups > 1 {
      ChoicesInRange(random, numLookups);
      ShuffledIsPermutation(lookup.my_server_list, Choices(random, numLookups));
      lookup.Randomize(numLookups, random);
    }
  }
}
