/**
  `nsec3ify` (bin/dnssec/dnssec-signzone.c): a first walk hashes names, the hashes are sorted and
  checked for duplicates, old records are cleaned out, and a second walk writes the NSEC3 records.
 */
module Nsec3Chain {
  import opened Names
  import opened Sequences
  import opened Zone
  import opened ZoneDb
  import opened HashList
  import opened Nsec3Names
  import opened NsecChain

  datatype Config = Config(params: Params, optOut: bool, dsSets: Option<set<Name>>, updateChain: bool)

  datatype Outcome = Built | OtherChainPresent | DuplicateHash

  const MAX_WIRE := 255

  function WireLength(x: Name): nat {
    if x == [] then 1 else |x[0]| + 1 + WireLength(x[1..])
  }

  function NamesOf(nodes: seq<Node>): (names: seq<Name>)
    ensures |names| == |nodes| && forall i :: 0 <= i < |nodes| ==> names[i] == nodes[i].name
  {
    seq(|nodes|, i requires 0 <= i < |nodes| => nodes[i].name)
  }

  /** Whether `addnowildcardhash` adds the wildcard below `x`: it fits in a name and is not in the database. */
  predicate WildcardMissing(names: seq<Name>, x: Name) {
    WireLength(x) + 2 <= MAX_WIRE && x + [WILDCARD] !in names
  }

  // ----- the list entries for a list of names

  ghost function EntriesOf(hash: Name -> Bytes, names: seq<Name>, x: Name): seq<Bytes> {
    [hash(x) + [0]] + if WildcardMissing(names, x) then [hash(x + [WILDCARD]) + [1]] else []
  }

  /** The list once the names `xs` have been hashed, each with its wildcard where that is missing. */
  ghost function Entries(hash: Name -> Bytes, names: seq<Name>, xs: seq<Name>): seq<Bytes> {
    Gather(xs, (x: Name) => EntriesOf(hash, names, x))
  }

  /** The octets of a name on the wire: each label with its length octet, and the root. */
  function WireSize(x: Name): nat {
    if x == [] then 1 else WireSize(x[..|x| - 1]) + |x[|x| - 1]| + 1
  }

  lemma {:induction false} WireLengthIsSize(x: Name)
    ensures WireLength(x) == WireSize(x)
  {
    if x != [] {
      WireLengthIsSize(x[1..]);
      WireSizeCons(x[0], x[1..]);
      assert x == [x[0]] + x[1..];
    }
  }

  lemma {:induction false} WireSizeCons(l: Bytes, x: Name)
    ensures WireSize([l] + x) == |l| + 1 + WireSize(x)
  {
    var y := [l] + x;
    if x == [] {
      assert y[..0] == [];
    } else {
      WireSizeCons(l, x[..|x| - 1]);
      assert y[..|y| - 1] == [l] + x[..|x| - 1];
    }
  }

  /** The list holds each name's hash as real, and that of a missing wildcard that fits as speculative. */
  lemma {:induction false} EntriesAre(hash: Name -> Bytes, names: seq<Name>, xs: seq<Name>, e: Bytes)
    ensures e in Entries(hash, names, xs) <==> exists x :: x in xs && IsEntryFor(hash, names, x, e)
  {
    if xs != [] {
      var n := |xs| - 1;
      EntriesAre(hash, names, xs[..n], e);
      WireLengthIsSize(xs[n]);
      assert (xs[n] + [WILDCARD])[..|xs[n]|] == xs[n];
      assert xs == xs[..n] + [xs[n]];
      EntriesSnoc(hash, names, xs[..n], xs[n]);
      assert e in EntriesOf(hash, names, xs[n]) <==> IsEntryFor(hash, names, xs[n], e);
      hide Entries, EntriesOf, IsEntryFor;
    }
  }

  ghost predicate IsEntryFor(hash: Name -> Bytes, names: seq<Name>, x: Name, e: Bytes) {
    || e == hash(x) + [0]
    || (e == hash(x + [[42]]) + [1] && x + [[42]] !in names && WireSize(x + [[42]]) <= 255)
  }

  ghost function Hashes(hash: Name -> Bytes, xs: seq<Name>): (hs: seq<Bytes>)
    ensures |hs| == |xs| && forall i :: 0 <= i < |xs| ==> hs[i] == hash(xs[i])
  {
    seq(|xs|, i requires 0 <= i < |xs| => hash(xs[i]))
  }

  lemma EntriesSnoc(hash: Name -> Bytes, names: seq<Name>, xs: seq<Name>, x: Name)
    ensures Entries(hash, names, xs + [x]) == Entries(hash, names, xs) + EntriesOf(hash, names, x)
  {
    assert (xs + [x])[..|xs|] == xs;
  }

  lemma RealAppends(s: seq<Bytes>, e: Bytes)
    ensures Real(s + [e]) == Real(s) + if IsReal(e) then [e[..|e| - 1]] else []
  {
    assert (s + [e])[..|s|] == s;
  }

  /** Speculative entries aside, the list holds just the hashes of the names. */
  lemma {:induction false} RealOfEntries(hash: Name -> Bytes, names: seq<Name>, xs: seq<Name>)
    ensures Real(Entries(hash, names, xs)) == Hashes(hash, xs)
  {
    hide EntriesOf;
    if xs != [] {
      var n := |xs| - 1;
      RealOfEntries(hash, names, xs[..n]);
      var s, x := Entries(hash, names, xs[..n]), xs[n];
      EntriesSnoc(hash, names, xs[..n], x);
      assert xs == xs[..n] + [x];
      RealOfOne(hash, names, s, x);
      assert Hashes(hash, xs) == Hashes(hash, xs[..n]) + [hash(x)];
    }
  }

  lemma RealOfOne(hash: Name -> Bytes, names: seq<Name>, s: seq<Bytes>, x: Name)
    ensures Real(s + EntriesOf(hash, names, x)) == Real(s) + [hash(x)]
  {
    var e := hash(x) + [0];
    assert e[..|e| - 1] == hash(x);
    RealAppends(s, e);
    if WildcardMissing(names, x) {
      var w := hash(x + [WILDCARD]) + [1];
      RealAppends(s + [e], w);
      assert s + EntriesOf(hash, names, x) == s + [e] + [w];
    } else {
      assert s + EntriesOf(hash, names, x) == s + [e];
    }
  }

  // ----- what one step of the first walk does

  ghost predicate CleanedTo(origin: Name, cfg: Config, pre: seq<Node>, z: seq<Node>) {
    && |z| == |pre|
    && forall i :: 0 <= i < |pre| ==> z[i] == Cleaned(UseNsec3, origin, cfg.dsSets, pre, i)
  }

  lemma CleanedZone(origin: Name, cfg: Config, pre: seq<Node>, z: seq<Node>)
    requires ZoneOk(origin, pre) && CleanedTo(origin, cfg, pre, z)
    ensures SameShape(pre, z) && ZoneOk(origin, z)
  {
    forall i | 0 <= i < |pre|
      ensures SameRole(pre[i], z[i]) && !Has(z[i], NSEC3) && (pre[i].name == origin ==> Has(z[i], SOA))
    {
      CleaningKeepsRole(UseNsec3, origin, cfg.dsSets, pre, i);
    }
    var o := OriginIsFirst(origin, pre);
    assert z[o].name == origin && Has(z[o], SOA);
  }

  /** The first walk, record by record. */
  lemma CleanedToLeaves(origin: Name, cfg: Config, pre: seq<Node>, z: seq<Node>)
    requires ZoneOk(origin, pre) && CleanedTo(origin, cfg, pre, z)
    ensures LeftRight(UseNsec3, origin, cfg.dsSets, pre, z)
  {
    hide ZoneOk, LeftAt, Cleaned;
    forall i, r | 0 <= i < |pre|
      ensures z[i].name == pre[i].name && (r in z[i].rrsets <==> LeftAt(UseNsec3, origin, cfg.dsSets, pre, i, r))
    {
      CleanedLeaves(UseNsec3, origin, cfg.dsSets, pre, i, r);
    }
    forall i | 0 <= i < |pre| ensures z[i].name == pre[i].name {
      assert z[i] == Cleaned(UseNsec3, origin, cfg.dsSets, pre, i);
    }
  }

  predicate Live(origin: Name, n: Node, zonecut: Option<Name>) {
    Active(n) && IsSubdomain(n.name, origin) && !BelowCut(n.name, zonecut)
  }

  /** The test a walk makes on node `i`, for any zone of the same shape; the cut moves with it. */
  lemma LiveStep(origin: Name, z: seq<Node>, optOut: bool, cur: nat, i: nat, zonecut: Option<Name>)
    requires ZoneOk(origin, z) && InChain(origin, z, cur) && cur < i < |z| && CutState(origin, z, i, zonecut)
    ensures Live(origin, z[i], zonecut) <==> InChain(origin, z, i)
    ensures Kept(origin, z, optOut, i) <==> Live(origin, z[i], zonecut) && !OptedOut(origin, z[i], optOut)
    ensures CutState(origin, z, i + 1,
                     if Live(origin, z[i], zonecut) && IsDelegation(origin, z[i]) then Some(z[i].name) else zonecut)
  {
    MostRecentCutSuffices(origin, z, i, zonecut);
    CutStateStep(origin, z, i, zonecut);
  }

  /** What the first walk leaves at node `i`, said in terms of its own tests. */
  lemma CleanStep(origin: Name, cfg: Config, pre: seq<Node>, z: seq<Node>, cur: nat, i: nat, zonecut: Option<Name>)
    requires ZoneOk(origin, pre) && CleanedTo(origin, cfg, pre, z)
    requires InChain(origin, z, cur) && cur < i < |z| && CutState(origin, z, i, zonecut)
    ensures var a := AfterActive(UseNsec3, pre[i]);
            z[i] == if !Active(pre[i]) then a
                    else if !IsSubdomain(pre[i].name, origin) || BelowCut(pre[i].name, zonecut)
                    then RemoveSigs(UseNsec3, a, false)
                    else if IsDelegation(origin, a) then AtDelegation(UseNsec3, cfg.dsSets, a)
                    else a
    ensures Active(pre[i]) == Active(z[i])
    ensures IsDelegation(origin, AfterActive(UseNsec3, pre[i])) == IsDelegation(origin, z[i])
  {
    CleanedZone(origin, cfg, pre, z);
    ShapeFixesChain(origin, pre, z);
    MostRecentCutSuffices(origin, z, i, zonecut);
    CleaningKeepsRole(UseNsec3, origin, cfg.dsSets, pre, i);
    var o := OriginIsFirst(origin, z);
    NameOrder();
    assert NameLess(origin, pre[i].name);
    assert Has(AfterActive(UseNsec3, pre[i]), NS) == Has(pre[i], NS);
  }

  /** `active_node` finds nothing left to delete when the second walk calls it again. */
  lemma SecondLookChangesNothing(origin: Name, cfg: Config, pre: seq<Node>, z: seq<Node>, i: nat)
    requires ZoneOk(origin, pre) && CleanedTo(origin, cfg, pre, z)
    requires i < |z| && NameLess(origin, z[i].name)
    ensures AfterActive(UseNsec3, z[i]) == z[i]
  {
    NameOrder();
    var n, m := pre[i], z[i];
    var a := AfterActive(UseNsec3, n);
    forall r | r in m.rrsets ensures !Stale(UseNsec3, m, r) {
      assert r in a.rrsets || r == Data(DS);
      if r.Sig? && r.covers != DS {
        assert Data(r.covers) in n.rrsets && Data(r.covers) in a.rrsets;
        assert Data(r.covers) in m.rrsets;
      }
    }
    assert AfterActive(UseNsec3, m).rrsets == m.rrsets;
  }

  // ----- the first walk

  ghost predicate HashesFit(hash: Name -> Bytes, table: Table) {
    forall x :: |hash(x)| + 1 == table.length
  }

  /** `hashlist_add_dns_name` for `x`, then `addnowildcardhash`. */
  method AddName(table: Table, hash: Name -> Bytes, names: seq<Name>, x: Name, ghost xs: seq<Name>)
    requires table.Valid() && HashesFit(hash, table)
    requires table.Contents() == Entries(hash, names, xs)
    modifies table`hashbuf, table`size, table`entries, table.hashbuf
    ensures table.Valid() && (table.hashbuf == old(table.hashbuf) || fresh(table.hashbuf))
    ensures table.Contents() == Entries(hash, names, xs + [x])
  {
    hide Table.Contents, Table.Valid, Entries;
    EntriesSnoc(hash, names, xs, x);
    table.Add(hash(x) + [0]);
    if WildcardMissing(names, x) {
      table.Add(hash(x + [WILDCARD]) + [1]);
      assert table.Contents() == Entries(hash, names, xs) + ([hash(x) + [0]] + [hash(x + [WILDCARD]) + [1]]);
    } else {
      assert table.Contents() == Entries(hash, names, xs) + ([hash(x) + [0]] + []);
    }
  }

  /** The closest-encloser loop: hashes for the empty nodes between `name` and `nextname`. */
  method AddEmptyNodes(table: Table, hash: Name -> Bytes, names: seq<Name>, name: Name, nextname: Name,
                       ghost xs: seq<Name>)
    requires table.Valid() && HashesFit(hash, table)
    requires table.Contents() == Entries(hash, names, xs)
    modifies table`hashbuf, table`size, table`entries, table.hashbuf
    ensures table.Valid() && (table.hashbuf == old(table.hashbuf) || fresh(table.hashbuf))
    ensures table.Contents() == Entries(hash, names, xs + Ents(name, nextname))
  {
    hide Table.Contents, Table.Valid, Entries, Common;
    var nlabels := Common(name, nextname);
    var count := |nextname|;
    ghost var ents, j := Ents(name, nextname), 0;
    EntsLength(name, nextname);
    hide Ents;
    assert xs + ents[..0] == xs;
    while count > nlabels + 1
      invariant 0 <= count <= |nextname| && j == |nextname| - count <= |ents|
      invariant table.Valid() && (table.hashbuf == old(table.hashbuf) || fresh(table.hashbuf))
      invariant table.Contents() == Entries(hash, names, xs + ents[..j])
    {
      count := count - 1;
      EntsAt(name, nextname, j);
      AddName(table, hash, names, nextname[..count], xs + ents[..j]);
      assert xs + ents[..j] + [ents[j]] == xs + ents[..j + 1];
      j := j + 1;
    }
    assert ents[..j] == ents;
  }

  ghost predicate Agree(a: seq<Node>, b: seq<Node>, from: int, to: int) {
    && |a| == |b|
    && forall j :: 0 <= from <= j < to <= |a| ==> a[j] == b[j]
  }

  /** The inner loop of the first walk, with the cleaning it does on the way. */
  method FindNextToHash(db: Database, cfg: Config, cur: nat, cut: Option<Name>,
                        ghost pre: seq<Node>, ghost z: seq<Node>)
    returns (i: nat, zonecut: Option<Name>)
    requires ZoneOk(db.origin, pre) && CleanedTo(db.origin, cfg, pre, z) && ZoneOk(db.origin, z)
    requires cur < |z| && InChain(db.origin, z, cur) && CutState(db.origin, z, cur + 1, cut)
    requires Agree(db.nodes, z, 0, cur + 1) && Agree(db.nodes, pre, cur + 1, |pre|)
    modifies db`nodes
    ensures IsNextKept(db.origin, z, cfg.optOut, cur, i)
    ensures CutState(db.origin, z, if i < |z| then i + 1 else i, zonecut)
    ensures Agree(db.nodes, z, 0, if i < |z| then i + 1 else i)
    ensures Agree(db.nodes, pre, i + 1, |pre|)
  {
    hide ZoneOk, CutState, InChain, Kept, CleanedTo, IsDelegation, AfterActive, RemoveSigs, AtDelegation, Active;
    zonecut := cut;
    i := cur + 1;
    while i < |db.nodes|
      invariant cur < i <= |pre| == |z| == |db.nodes|
      invariant forall j :: cur < j < i ==> !Kept(db.origin, z, cfg.optOut, j)
      invariant CutState(db.origin, z, i, zonecut)
      invariant Agree(db.nodes, z, 0, i) && Agree(db.nodes, pre, i, |pre|)
    {
      CleanStep(db.origin, cfg, pre, z, cur, i, zonecut);
      LiveStep(db.origin, z, cfg.optOut, cur, i, zonecut);
      var active, n := ActiveNode(UseNsec3, db.nodes[i]);
      if !active {
        db.nodes := db.nodes[i := n];
      } else if !IsSubdomain(n.name, db.origin) || BelowCut(n.name, zonecut) {
        db.nodes := db.nodes[i := RemoveSigs(UseNsec3, n, false)];
      } else if IsDelegation(db.origin, n) {
        zonecut := Some(n.name);
        db.nodes := db.nodes[i := AtDelegation(UseNsec3, cfg.dsSets, n)];
        if !(cfg.optOut && !Has(db.nodes[i], DS)) {
          break;
        }
      } else {
        db.nodes := db.nodes[i := n];
        break;
      }
      i := i + 1;
    }
  }

  ghost function CleanedNodes(origin: Name, cfg: Config, pre: seq<Node>): (z: seq<Node>)
    ensures CleanedTo(origin, cfg, pre, z)
  {
    seq(|pre|, i requires 0 <= i < |pre| => Cleaned(UseNsec3, origin, cfg.dsSets, pre, i))
  }

  /** All names a zone gives rise to, in walk order. */
  ghost function ZoneNames(origin: Name, z: seq<Node>, optOut: bool): seq<Name> {
    HashNames(Chain(origin, z, optOut))
  }

  /** The names handled before a walk stands on node `i`, the next one being that of node `i`. */
  ghost predicate Standing(origin: Name, z: seq<Node>, optOut: bool, i: int, xs: seq<Name>) {
    && 0 <= i < |z| && Kept(origin, z, optOut, i)
    && HashNames(ChainTo(origin, z, optOut, i + 1)) == xs + [z[i].name]
  }

  lemma StandAtOrigin(origin: Name, z: seq<Node>, optOut: bool, o: nat)
    requires ZoneOk(origin, z) && IsOrigin(origin, z, o)
    ensures Standing(origin, z, optOut, o, []) && InChain(origin, z, o)
    ensures CutState(origin, z, o, None) && CutState(origin, z, o + 1, None)
  {
    hide NameLess;
    var o' := OriginIsFirst(origin, z);
    assert o' == o && !IsDelegation(origin, z[o]);
    assert forall j :: 0 <= j < o ==> !InChain(origin, z, j);
    ChainSkips(origin, z, optOut, 0, o);
    assert ChainTo(origin, z, optOut, o + 1) == [origin];
  }

  /** From one kept node to the next: the name, the empty nodes of the span, the next name. */
  lemma MoveOn(origin: Name, z: seq<Node>, optOut: bool, cur: nat, i: nat, xs: seq<Name>)
    requires Standing(origin, z, optOut, cur, xs) && IsNextKept(origin, z, optOut, cur, i)
    ensures i < |z| ==> Standing(origin, z, optOut, i, xs + [z[cur].name] + Ents(z[cur].name, z[i].name))
    ensures i == |z| ==> ZoneNames(origin, z, optOut) == xs + [z[cur].name] + Ents(z[cur].name, origin)
  {
    assert origin <= z[cur].name;
    CommonUnique(z[cur].name, origin, |origin|);
    assert Ents(z[cur].name, origin) == [];
    hide Kept, Ents, Common;
    var c := ChainTo(origin, z, optOut, cur);
    ChainSkips(origin, z, optOut, cur + 1, i);
    if i < |z| {
      ChainGrows(origin, z, optOut, cur, i);
      HashNamesSnoc(c, z[cur].name, z[i].name);
    }
  }

  lemma ChainGrows(origin: Name, z: seq<Node>, optOut: bool, cur: nat, i: nat)
    requires cur < i < |z| && Kept(origin, z, optOut, cur) && Kept(origin, z, optOut, i)
    requires ChainTo(origin, z, optOut, i) == ChainTo(origin, z, optOut, cur + 1)
    ensures ChainTo(origin, z, optOut, cur + 1) == ChainTo(origin, z, optOut, cur) + [z[cur].name]
    ensures ChainTo(origin, z, optOut, i + 1) == ChainTo(origin, z, optOut, cur) + [z[cur].name] + [z[i].name]
  {
    hide Kept;
  }

  lemma HashNamesSnoc(c: seq<Name>, a: Name, b: Name)
    ensures HashNames(c + [a] + [b]) == HashNames(c + [a]) + Ents(a, b) + [b]
  {
    hide Ents;
    var d := c + [a] + [b];
    assert d[..|d| - 1] == c + [a] && d[|d| - 2] == a;
  }

  lemma {:induction false} HashNamesGrow(origin: Name, z: seq<Node>, optOut: bool, i: nat, k: nat)
    requires i <= k <= |z|
    ensures HashNames(ChainTo(origin, z, optOut, i)) <= HashNames(ChainTo(origin, z, optOut, k))
    decreases k - i
  {
    hide Kept, Ents;
    if i < k {
      HashNamesGrow(origin, z, optOut, i, k - 1);
      var c, d := ChainTo(origin, z, optOut, k - 1), ChainTo(origin, z, optOut, k);
      assert c == d || d[..|d| - 1] == c;
    }
  }

  /** The names a walk handles while it stands on a node all belong to the zone's list. */
  lemma StandingIsListed(origin: Name, z: seq<Node>, optOut: bool, i: nat, xs: seq<Name>, x: Name)
    requires Standing(origin, z, optOut, i, xs) && (x in xs || x == z[i].name)
    ensures x in ZoneNames(origin, z, optOut)
  {
    HashNamesGrow(origin, z, optOut, i + 1, |z|);
    assert x in xs + [z[i].name];
  }

  /** The first walk: every node is cleaned, and the list holds the entries of all the zone's names. */
  method CollectHashes(db: Database, cfg: Config, table: Table, hash: Name -> Bytes) returns (ok: bool)
    requires ZoneOk(db.origin, db.nodes)
    requires table.Valid() && table.Contents() == [] && HashesFit(hash, table)
    modifies db`nodes, table`hashbuf, table`size, table`entries, table.hashbuf
    ensures ok <==> forall i :: IsOrigin(db.origin, old(db.nodes), i)
                                ==> !ChainConflict(old(db.nodes)[i], NSEC, cfg.updateChain)
    ensures table.Valid() && (table.hashbuf == old(table.hashbuf) || fresh(table.hashbuf))
    ensures ok ==> CleanedTo(db.origin, cfg, old(db.nodes), db.nodes)
    ensures ok ==> table.Contents()
                   == Entries(hash, NamesOf(old(db.nodes)), ZoneNames(db.origin, db.nodes, cfg.optOut))
  {
    hide ZoneOk, CutState, InChain, Kept, CleanedTo, Standing, ZoneNames, ChainConflict, RemoveRecords,
         SameShape, Table.Contents, Table.Valid;
    assert Entries(hash, NamesOf(db.nodes), []) == [];
    hide Entries;
    ghost var pre := db.nodes;
    var names := NamesOf(db.nodes);
    ghost var z := CleanedNodes(db.origin, cfg, pre);
    CleanedZone(db.origin, cfg, pre, z);
    ghost var o := OriginIndex(db.origin, pre);
    StandAtOrigin(db.origin, z, cfg.optOut, o);
    var zonecut: Option<Name> := None;
    ghost var xs: seq<Name> := [];
    var i := SkipToOrigin(db.origin, db.nodes, o);
    CleanedBeforeOrigin(db.origin, cfg, pre, z, o);
    if ChainConflict(db.nodes[i], NSEC, cfg.updateChain) {
      return false;
    }
    db.nodes := db.nodes[i := RemoveRecords(db.nodes[i], NSEC)];
    while i < |db.nodes|
      invariant o <= i <= |pre| == |z| == |db.nodes|
      invariant i < |z| ==> Standing(db.origin, z, cfg.optOut, i, xs) && CutState(db.origin, z, i + 1, zonecut)
      invariant i == |z| ==> xs == ZoneNames(db.origin, z, cfg.optOut)
      invariant Agree(db.nodes, z, 0, if i < |z| then i + 1 else i) && Agree(db.nodes, pre, i + 1, |pre|)
      invariant table.Valid() && (table.hashbuf == old(table.hashbuf) || fresh(table.hashbuf))
      invariant table.Contents() == Entries(hash, names, xs)
    {
      var cur, name := i, db.nodes[i].name;
      StandingInChain(db.origin, z, cfg.optOut, cur, xs);
      i, zonecut := FindNextToHash(db, cfg, cur, zonecut, pre, z);
      MoveOn(db.origin, z, cfg.optOut, cur, i, xs);
      var nextname := if i < |db.nodes| then db.nodes[i].name else db.origin;
      AddName(table, hash, names, name, xs);
      AddEmptyNodes(table, hash, names, name, nextname, xs + [name]);
      xs := xs + [name] + Ents(name, nextname);
    }
    assert db.nodes == z;
    ok := true;
  }

  lemma StandingInChain(origin: Name, z: seq<Node>, optOut: bool, i: int, xs: seq<Name>)
    requires Standing(origin, z, optOut, i, xs)
    ensures 0 <= i < |z| && InChain(origin, z, i)
  {
  }

  lemma CleanedBeforeOrigin(origin: Name, cfg: Config, pre: seq<Node>, z: seq<Node>, o: nat)
    requires ZoneOk(origin, pre) && CleanedTo(origin, cfg, pre, z) && IsOrigin(origin, pre, o)
    ensures Agree(pre, z, 0, o) && z[o] == RemoveRecords(pre[o], NSEC)
  {
    NameOrder();
  }

  /** The outer loop's skip over the out-of-zone nodes that sort ahead of the origin. */
  method SkipToOrigin(origin: Name, nodes: seq<Node>, ghost o: nat) returns (i: nat)
    requires ZoneOk(origin, nodes) && IsOrigin(origin, nodes, o)
    ensures i == o
  {
    ghost var o' := OriginIsFirst(origin, nodes);
    i := 0;
    while i < |nodes| && !IsSubdomain(nodes[i].name, origin)
      invariant 0 <= i <= o
    {
      i := i + 1;
    }
  }

  // ----- cleaning out old records

  /** The records at one node that stay: none if the hash is not on the list, else those of this chain. */
  function KeepRecords(records: seq<Nsec3Record>, listed: bool, params: Params): (kept: seq<Nsec3Record>)
    ensures !listed ==> kept == []
  {
    if records == [] then []
    else (if listed && records[0].params == params then [records[0]] else [])
         + KeepRecords(records[1..], listed, params)
  }

  lemma {:induction false} KeptRecords(records: seq<Nsec3Record>, listed: bool, params: Params, r: Nsec3Record)
    ensures r in KeepRecords(records, listed, params) <==> r in records && listed && r.params == params
  {
    if records != [] {
      KeptRecords(records[1..], listed, params, r);
      assert records == [records[0]] + records[1..];
    }
  }

  /** The NSEC3 tree with every node outside `todo` cleaned. */
  ghost predicate CleanedBut(m: map<Bytes, seq<Nsec3Record>>, m0: map<Bytes, seq<Nsec3Record>>, todo: set<Bytes>,
                             ring: seq<Bytes>, params: Params)
  {
    && m.Keys == m0.Keys
    && forall h :: h in m ==> m[h] == if h in todo then m0[h] else KeepRecords(m0[h], h in ring, params)
  }

  lemma CleanOne(m: map<Bytes, seq<Nsec3Record>>, m0: map<Bytes, seq<Nsec3Record>>, todo: set<Bytes>,
                 ring: seq<Bytes>, params: Params, h: Bytes)
    requires CleanedBut(m, m0, todo, ring, params) && h in todo && h in m
    ensures CleanedBut(m[h := KeepRecords(m[h], h in ring, params)], m0, todo - {h}, ring, params)
  {
  }

  /** `nsec3clean` at every NSEC3 node: only records of this chain at hashes on the list survive. */
  method CleanOldRecords(db: Database, table: Table, params: Params)
    requires table.Valid() && Sorted(table.Contents())
    modifies db`nsec3
    ensures CleanedBut(db.nsec3, old(db.nsec3), {}, Real(table.Contents()), params)
  {
    hide Sorted, Table.Contents, Table.Valid, Real, CleanedBut;
    var todo := db.nsec3.Keys;
    ghost var m0, ring := db.nsec3, Real(table.Contents());
    NothingCleaned(m0, ring, params);
    while todo != {}
      invariant todo <= db.nsec3.Keys
      invariant CleanedBut(db.nsec3, m0, todo, ring, params)
      decreases todo
    {
      var h :| h in todo;
      CleanOne(db.nsec3, m0, todo, ring, params, h);
      var found := table.Exists(h);
      db.nsec3 := db.nsec3[h := KeepRecords(db.nsec3[h], found, params)];
      todo := todo - {h};
    }
  }

  lemma NothingCleaned(m: map<Bytes, seq<Nsec3Record>>, ring: seq<Bytes>, params: Params)
    ensures CleanedBut(m, m, m.Keys, ring, params)
  {
  }

  // ----- the second walk

  ghost function RecordAt(ring: seq<Bytes>, cfg: Config, h: Bytes): Nsec3Record
    requires h in ring
  {
    Nsec3Record(cfg.params, cfg.optOut, CycleNext(ring, h))
  }

  /** The NSEC3 tree once the records for the hashes `hs` have been written over `m0`. */
  ghost predicate Linked(m: map<Bytes, seq<Nsec3Record>>, m0: map<Bytes, seq<Nsec3Record>>,
                         ring: seq<Bytes>, cfg: Config, hs: seq<Bytes>)
  {
    && (forall h :: h in m <==> h in m0 || h in hs)
    && (forall h :: h in hs ==> h in ring && h in m && m[h] == [RecordAt(ring, cfg, h)])
    && (forall h :: h in m0 && h !in hs ==> m[h] == m0[h])
  }

  /** `addnsec3`: the lookup hits, and the record points at the next hash round the ring. */
  method AddNsec3(db: Database, cfg: Config, table: Table, h: Bytes, ghost ring: seq<Bytes>,
                  ghost m0: map<Bytes, seq<Nsec3Record>>, ghost hs: seq<Bytes>)
    requires table.Valid() && Sorted(table.Contents()) && Real(table.Contents()) == ring && NoDup(ring)
    requires h in ring && Linked(db.nsec3, m0, ring, cfg, hs)
    modifies db`nsec3
    ensures Linked(db.nsec3, m0, ring, cfg, hs + [h])
  {
    hide Sorted, NoDup, CycleNext, Table.Contents, Table.Valid, Real;
    var nexthash := table.FindNext(h);
    db.nsec3 := db.nsec3[h := [Nsec3Record(cfg.params, cfg.optOut, nexthash)]];
  }

  ghost predicate AllHit(hash: Name -> Bytes, ring: seq<Bytes>, xs: seq<Name>) {
    forall x :: x in xs ==> hash(x) in ring
  }

  lemma HashesSnoc(hash: Name -> Bytes, xs: seq<Name>, x: Name)
    ensures Hashes(hash, xs + [x]) == Hashes(hash, xs) + [hash(x)]
  {
  }

  method AddEmptyNsec3s(db: Database, cfg: Config, table: Table, hash: Name -> Bytes, name: Name, nextname: Name,
                        ghost ring: seq<Bytes>, ghost m0: map<Bytes, seq<Nsec3Record>>, ghost xs: seq<Name>)
    requires table.Valid() && Sorted(table.Contents()) && Real(table.Contents()) == ring && NoDup(ring)
    requires AllHit(hash, ring, Ents(name, nextname)) && Linked(db.nsec3, m0, ring, cfg, Hashes(hash, xs))
    modifies db`nsec3
    ensures Linked(db.nsec3, m0, ring, cfg, Hashes(hash, xs + Ents(name, nextname)))
  {
    hide Sorted, NoDup, Linked, Table.Contents, Table.Valid, Hashes, Real, Common;
    var nlabels := Common(name, nextname);
    var count := |nextname|;
    ghost var ents, j := Ents(name, nextname), 0;
    EntsLength(name, nextname);
    hide Ents;
    assert xs + ents[..0] == xs;
    while count > nlabels + 1
      invariant 0 <= count <= |nextname| && j == |nextname| - count <= |ents|
      invariant Linked(db.nsec3, m0, ring, cfg, Hashes(hash, xs + ents[..j]))
    {
      count := count - 1;
      EntsAt(name, nextname, j);
      HashesSnoc(hash, xs + ents[..j], ents[j]);
      AddNsec3(db, cfg, table, hash(nextname[..count]), ring, m0, Hashes(hash, xs + ents[..j]));
      assert xs + ents[..j] + [ents[j]] == xs + ents[..j + 1];
      j := j + 1;
    }
    assert ents[..j] == ents;
  }

  /** The inner loop of the second walk; `active_node` leaves the cleaned nodes as they are. */
  method FindNextToLink(db: Database, cfg: Config, cur: nat, cut: Option<Name>,
                        ghost pre: seq<Node>, ghost z: seq<Node>)
    returns (i: nat, zonecut: Option<Name>)
    requires ZoneOk(db.origin, pre) && CleanedTo(db.origin, cfg, pre, z) && ZoneOk(db.origin, z)
    requires cur < |z| && InChain(db.origin, z, cur) && CutState(db.origin, z, cur + 1, cut)
    requires db.nodes == z
    modifies db`nodes
    ensures db.nodes == z
    ensures IsNextKept(db.origin, z, cfg.optOut, cur, i)
    ensures CutState(db.origin, z, if i < |z| then i + 1 else i, zonecut)
  {
    hide ZoneOk, CutState, InChain, Kept, CleanedTo, IsDelegation, AfterActive, Active;
    zonecut := cut;
    i := cur + 1;
    while i < |db.nodes|
      invariant cur < i <= |z| && db.nodes == z
      invariant forall j :: cur < j < i ==> !Kept(db.origin, z, cfg.optOut, j)
      invariant CutState(db.origin, z, i, zonecut)
    {
      LiveStep(db.origin, z, cfg.optOut, cur, i, zonecut);
      AfterCurrent(db.origin, z, cur, i);
      SecondLookChangesNothing(db.origin, cfg, pre, z, i);
      var active, n := ActiveNode(UseNsec3, db.nodes[i]);
      db.nodes := db.nodes[i := n];
      if active && IsSubdomain(n.name, db.origin) && !BelowCut(n.name, zonecut) {
        if IsDelegation(db.origin, n) {
          zonecut := Some(n.name);
          if !(cfg.optOut && !Has(n, DS)) {
            break;
          }
        } else {
          break;
        }
      }
      i := i + 1;
    }
  }

  lemma AfterCurrent(origin: Name, z: seq<Node>, cur: nat, i: nat)
    requires ZoneOk(origin, z) && InChain(origin, z, cur) && cur < i < |z|
    ensures NameLess(origin, z[i].name)
  {
    var o := OriginIsFirst(origin, z);
  }

  /** The second walk: every lookup hits, and each name's record is written. */
  method WriteRecords(db: Database, cfg: Config, table: Table, hash: Name -> Bytes,
                      ghost pre: seq<Node>, ghost ring: seq<Bytes>)
    requires ZoneOk(db.origin, pre) && CleanedTo(db.origin, cfg, pre, db.nodes)
    requires table.Valid() && Sorted(table.Contents()) && Real(table.Contents()) == ring && NoDup(ring)
    requires AllHit(hash, ring, ZoneNames(db.origin, db.nodes, cfg.optOut))
    modifies db`nodes, db`nsec3
    ensures db.nodes == old(db.nodes)
    ensures Linked(db.nsec3, old(db.nsec3), ring, cfg, Hashes(hash, ZoneNames(db.origin, db.nodes, cfg.optOut)))
  {
    hide ZoneOk, CutState, InChain, Kept, CleanedTo, Standing, ZoneNames, Sorted, NoDup, Linked, AllHit,
         SameShape, Table.Contents, Table.Valid;
    ghost var z, m0 := db.nodes, db.nsec3;
    CleanedZone(db.origin, cfg, pre, z);
    ghost var o := OriginIndex(db.origin, z);
    StandAtOrigin(db.origin, z, cfg.optOut, o);
    var zonecut: Option<Name> := None;
    ghost var xs: seq<Name> := [];
    var i := SkipToOrigin(db.origin, db.nodes, o);
    assert Hashes(hash, xs) == [];
    hide Hashes, Real;
    assert Linked(db.nsec3, m0, ring, cfg, Hashes(hash, xs)) by { NothingLinked(m0, ring, cfg); }
    while i < |db.nodes|
      invariant o <= i <= |z| && db.nodes == z
      invariant i < |z| ==> Standing(db.origin, z, cfg.optOut, i, xs) && CutState(db.origin, z, i + 1, zonecut)
      invariant i == |z| ==> xs == ZoneNames(db.origin, z, cfg.optOut)
      invariant Linked(db.nsec3, m0, ring, cfg, Hashes(hash, xs))
    {
      var cur, name := i, db.nodes[i].name;
      StandingInChain(db.origin, z, cfg.optOut, cur, xs);
      i, zonecut := FindNextToLink(db, cfg, cur, zonecut, pre, z);
      MoveOn(db.origin, z, cfg.optOut, cur, i, xs);
      var nextname := if i < |db.nodes| then db.nodes[i].name else db.origin;
      SpanHits(db.origin, z, cfg.optOut, cur, i, xs, hash, ring);
      HashesSnoc(hash, xs, name);
      AddNsec3(db, cfg, table, hash(name), ring, m0, Hashes(hash, xs));
      AddEmptyNsec3s(db, cfg, table, hash, name, nextname, ring, m0, xs + [name]);
      xs := xs + [name] + Ents(name, nextname);
    }
  }

  lemma NothingLinked(m0: map<Bytes, seq<Nsec3Record>>, ring: seq<Bytes>, cfg: Config)
    ensures Linked(m0, m0, ring, cfg, [])
  {
  }

  /** Every hash looked up in one round of the second walk was added by the first. */
  lemma SpanHits(origin: Name, z: seq<Node>, optOut: bool, cur: nat, i: nat, xs: seq<Name>,
                 hash: Name -> Bytes, ring: seq<Bytes>)
    requires Standing(origin, z, optOut, cur, xs) && IsNextKept(origin, z, optOut, cur, i)
    requires AllHit(hash, ring, ZoneNames(origin, z, optOut))
    ensures hash(z[cur].name) in ring
    ensures AllHit(hash, ring, Ents(z[cur].name, if i < |z| then z[i].name else origin))
  {
    hide Standing, ZoneNames;
    MoveOn(origin, z, optOut, cur, i, xs);
    StandingIsListed(origin, z, optOut, cur, xs, z[cur].name);
    var ents := Ents(z[cur].name, if i < |z| then z[i].name else origin);
    forall x | x in ents ensures hash(x) in ring {
      var ys := xs + [z[cur].name] + ents;
      assert x in ys;
      if i < |z| {
        StandingIsListed(origin, z, optOut, i, ys, x);
      }
    }
  }

  // ----- the whole of nsec3ify

  /**
    The finished chain: `ring` lists, in order and once each, the hashes of all the zone's names; each
    has exactly one record, pointing at the next one round, and no other NSEC3 record is left.
   */
  ghost predicate ChainBuilt(origin: Name, cfg: Config, hash: Name -> Bytes, z: seq<Node>,
                             m: map<Bytes, seq<Nsec3Record>>, ring: seq<Bytes>)
  {
    && Sorted(ring) && NoDup(ring)
    && multiset(ring) == multiset(Hashes(hash, ZoneNames(origin, z, cfg.optOut)))
    && (forall h :: h in ring ==> h in m && m[h] == [RecordAt(ring, cfg, h)])
    && (forall h :: h in m && h !in ring ==> m[h] == [])
  }

  lemma SameMembers<T>(s: seq<T>, t: seq<T>)
    requires multiset(s) == multiset(t)
    ensures forall x :: x in s <==> x in t
  {
    forall x ensures x in s <==> x in t {
      assert x in s <==> x in multiset(s);
      assert x in t <==> x in multiset(t);
    }
  }

  lemma RingIsHit(hash: Name -> Bytes, ring: seq<Bytes>, xs: seq<Name>)
    requires multiset(ring) == multiset(Hashes(hash, xs))
    ensures AllHit(hash, ring, xs)
  {
    SameMembers(ring, Hashes(hash, xs));
    forall x | x in xs ensures hash(x) in ring {
      var i :| 0 <= i < |xs| && xs[i] == x;
      assert Hashes(hash, xs)[i] == hash(x);
    }
  }

  lemma LinkedIsBuilt(origin: Name, cfg: Config, hash: Name -> Bytes, z: seq<Node>, ring: seq<Bytes>,
                      m: map<Bytes, seq<Nsec3Record>>, m0: map<Bytes, seq<Nsec3Record>>)
    requires Sorted(ring) && NoDup(ring)
    requires multiset(ring) == multiset(Hashes(hash, ZoneNames(origin, z, cfg.optOut)))
    requires Linked(m, m0, ring, cfg, Hashes(hash, ZoneNames(origin, z, cfg.optOut)))
    requires forall h :: h in m0 && h !in ring ==> m0[h] == []
    ensures ChainBuilt(origin, cfg, hash, z, m, ring)
  {
    hide Sorted, NoDup, ZoneNames, RecordAt;
    SameMembers(ring, Hashes(hash, ZoneNames(origin, z, cfg.optOut)));
  }

  /** The list after sorting, seen through its real entries. */
  lemma SortedTable(hash: Name -> Bytes, names: seq<Name>, xs: seq<Name>, s: seq<Bytes>, w: nat)
    requires multiset(s) == multiset(Entries(hash, names, xs)) && Packed(s, w) && Sorted(s)
    ensures multiset(Real(s)) == multiset(Hashes(hash, xs)) && Sorted(Real(s))
    ensures NoDup(Real(s)) <==> NoDup(Hashes(hash, xs))
  {
    hide Sorted, NoDup, Entries, Hashes;
    RealIsPermuted(s, Entries(hash, names, xs));
    RealOfEntries(hash, names, xs);
    NoDupPermuted(Real(s), Hashes(hash, xs));
    RealIsSorted(s, w);
  }

  /** From the collected hashes to the finished chain: sort, check for duplicates, clean, link. */
  method LinkChain(db: Database, cfg: Config, hash: Name -> Bytes, table: Table, ghost pre: seq<Node>)
    returns (outcome: Outcome, ghost ring: seq<Bytes>)
    requires ZoneOk(db.origin, pre) && CleanedTo(db.origin, cfg, pre, db.nodes)
    requires table.Valid()
    requires table.Contents() == Entries(hash, NamesOf(pre), ZoneNames(db.origin, db.nodes, cfg.optOut))
    modifies db`nodes, db`nsec3, table.hashbuf
    ensures db.nodes == old(db.nodes) && outcome != OtherChainPresent
    ensures outcome == DuplicateHash <==> !NoDup(Hashes(hash, ZoneNames(db.origin, db.nodes, cfg.optOut)))
    ensures outcome == Built ==> ChainBuilt(db.origin, cfg, hash, db.nodes, db.nsec3, ring)
  {
    hide ZoneOk, CleanedTo, Sorted, NoDup, Linked, Table.Contents, Table.Valid, Hashes, ZoneNames, ChainBuilt,
         Entries, Packed, SortedList, Real;
    ghost var xs := ZoneNames(db.origin, db.nodes, cfg.optOut);
    table.Sort();
    ring := Real(table.Contents());
    SortedTable(hash, NamesOf(pre), xs, table.Contents(), table.length);
    var dup := table.HasDup();
    if dup {
      return DuplicateHash, ring;
    }
    CleanOldRecords(db, table, cfg.params);
    ghost var m0 := db.nsec3;
    RingIsHit(hash, ring, xs);
    WriteRecords(db, cfg, table, hash, pre, ring);
    LinkedIsBuilt(db.origin, cfg, hash, db.nodes, ring, db.nsec3, m0);
    outcome := Built;
  }

  /**
    `nsec3ify` refuses a zone with an NSEC chain unless told to update, reports two names with the same
    hash exactly when there are such names, and otherwise leaves the finished chain of `ChainBuilt`.
   */
  method Nsec3ify(db: Database, cfg: Config, hash: Name -> Bytes, hashLength: nat)
    returns (outcome: Outcome, ghost ring: seq<Bytes>)
    requires ZoneOk(db.origin, db.nodes) && forall x :: |hash(x)| == hashLength
    modifies db`nodes, db`nsec3
    ensures outcome == OtherChainPresent <==>
              exists i :: IsOrigin(db.origin, old(db.nodes), i)
                          && ChainConflict(old(db.nodes)[i], NSEC, cfg.updateChain)
    ensures outcome != OtherChainPresent ==> CleanedTo(db.origin, cfg, old(db.nodes), db.nodes)
    ensures outcome != OtherChainPresent ==> LeftRight(UseNsec3, db.origin, cfg.dsSets, old(db.nodes), db.nodes)
    ensures outcome != OtherChainPresent ==>
              (outcome == DuplicateHash <==> !NoDup(Hashes(hash, ZoneNames(db.origin, db.nodes, cfg.optOut))))
    ensures outcome == Built ==> ChainBuilt(db.origin, cfg, hash, db.nodes, db.nsec3, ring)
  {
    hide ZoneOk, CleanedTo, NoDup, Table.Contents, Table.Valid, Hashes, ZoneNames, ChainBuilt, Entries, ChainConflict,
         LeftRight;
    ring := [];
    ghost var pre := db.nodes;
    var table := new Table(|db.nodes| * 2, hashLength);
    var ok := CollectHashes(db, cfg, table, hash);
    if !ok {
      return OtherChainPresent, ring;
    }
    outcome, ring := LinkChain(db, cfg, hash, table, pre);
    CleanedToLeaves(db.origin, cfg, pre, db.nodes);
  }
}
