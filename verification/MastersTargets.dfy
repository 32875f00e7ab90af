/**
  What the targets of a masters expansion are (bin/named/config.c), said without the expansion: which
  address entry each comes from, and where its port, dscp and key come from.
 */
module MastersTargets {
  import opened Names
  import opened Masters

  /** An entry: the lists on the way to its list, the places of the references followed, and its place there. */
  datatype Site = Site(path: seq<string>, steps: seq<nat>, at: nat)

  /** The list at the end of a path; the root at the end of the empty one. */
  ghost function ListAt(cfg: Config, root: MastersList, path: seq<string>): MastersList {
    if path == [] then root
    else match Find(cfg.lists, path[|path| - 1]) case Some(l) => l case None => root
  }

  /** Entry `at` of a list is a reference to the list of that folded name. */
  ghost predicate RefersAt(l: MastersList, at: nat, n: string) {
    at < |l.entries| && l.entries[at].Ref? && Fold(l.entries[at].name) == n
  }

  /** Each list on the path is referred to by the one before it, at the given place. */
  ghost predicate IsRoute(cfg: Config, root: MastersList, path: seq<string>, steps: seq<nat>) {
    && |steps| == |path|
    && forall k :: 0 <= k < |path| ==>
                     Find(cfg.lists, path[k]).Some? && RefersAt(ListAt(cfg, root, path[..k]), steps[k], path[k])
  }

  /** One entry comes before another in pre-order. */
  ghost predicate Earlier(s: Site, t: Site) {
    var a, b := s.steps + [s.at], t.steps + [t.at];
    exists k :: 0 <= k < |a| && k < |b| && a[..k] == b[..k] && a[k] < b[k]
  }

  ghost predicate InOrder(sites: seq<Site>) {
    forall i, j :: 0 <= i < j < |sites| ==> Earlier(sites[i], sites[j])
  }

  /** Every site lies at or below place `from` or later of the list reached by `steps`. */
  ghost predicate Under(sites: seq<Site>, steps: seq<nat>, from: nat) {
    forall j :: 0 <= j < |sites| ==>
                  var a := sites[j].steps + [sites[j].at];
                  |steps| < |a| && a[..|steps|] == steps && from <= a[|steps|]
  }

  /** `v` is the port set by the nearest list on the path that sets one, or else the default. */
  ghost predicate PortFrom(cfg: Config, root: MastersList, path: seq<string>, port: nat, v: nat) {
    || (exists k :: PortSetAt(cfg, root, path, k, v))
    || (v == port && forall j {:trigger path[..j]} :: 0 <= j <= |path| ==> ListAt(cfg, root, path[..j]).port.None?)
  }

  ghost predicate PortSetAt(cfg: Config, root: MastersList, path: seq<string>, k: int, v: nat) {
    && 0 <= k <= |path| && ListAt(cfg, root, path[..k]).port == Some(v)
    && forall j {:trigger path[..j]} :: k < j <= |path| ==> ListAt(cfg, root, path[..j]).port.None?
  }

  ghost predicate DscpFrom(cfg: Config, root: MastersList, path: seq<string>, dscp: int, v: int) {
    || (exists k :: DscpSetAt(cfg, root, path, k, v))
    || (v == dscp && forall j {:trigger path[..j]} :: 0 <= j <= |path| ==> ListAt(cfg, root, path[..j]).dscp.None?)
  }

  ghost predicate DscpSetAt(cfg: Config, root: MastersList, path: seq<string>, k: int, v: int) {
    && 0 <= k <= |path| && ListAt(cfg, root, path[..k]).dscp.Some? && ListAt(cfg, root, path[..k]).dscp.value == v
    && forall j {:trigger path[..j]} :: k < j <= |path| ==> ListAt(cfg, root, path[..j]).dscp.None?
  }

  ghost predicate IsAddress(l: MastersList, at: nat) { at < |l.entries| && l.entries[at].Address? }

  /** The target is the one the entry stands for. */
  ghost predicate Fits(cfg: Config, root: MastersList, port: nat, dscp: int, s: Site, t: Target) {
    && IsRoute(cfg, root, s.path, s.steps) && IsAddress(ListAt(cfg, root, s.path), s.at)
    && var e := ListAt(cfg, root, s.path).entries[s.at];
       && t.ip == e.ip
       && (if e.port != 0 then t.port == e.port else PortFrom(cfg, root, s.path, port, t.port))
       && (if e.dscp != -1 then t.dscp == e.dscp else DscpFrom(cfg, root, s.path, dscp, t.dscp))
       && (if e.key.Some? then t.key.Some? && t.key == cfg.parseKey(e.key.value) else t.key.None?)
  }

  /** The list a path ends in: none for the root. */
  function End(path: seq<string>): Option<string> { if path == [] then None else Some(path[|path| - 1]) }

  ghost predicate At(s: Site, end: Option<string>, at: nat) { End(s.path) == end && s.at == at }

  ghost predicate Distinct(sites: seq<Site>) {
    forall i, j :: 0 <= i < j < |sites| ==> !At(sites[j], End(sites[i].path), sites[i].at)
  }

  /** Every site lies in the current list from place `from` on, or in a list first seen on the way. */
  ghost predicate Within(sites: seq<Site>, path: seq<string>, from: nat, seen: set<string>, seen': set<string>) {
    forall j :: 0 <= j < |sites| ==>
                  || (End(sites[j].path) == End(path) && from <= sites[j].at)
                  || (End(sites[j].path).Some? && End(sites[j].path).value in seen' - seen)
  }

  ghost predicate Hit(sites: seq<Site>, end: Option<string>, at: nat) {
    exists j :: 0 <= j < |sites| && At(sites[j], end, at)
  }

  ghost predicate Complete(cfg: Config, sites: seq<Site>, path: seq<string>, l: MastersList, from: nat,
                           seen: set<string>, seen': set<string>)
  {
    && (forall at: nat :: from <= at && IsAddress(l, at) ==> Hit(sites, End(path), at))
    && (forall n, at: nat :: n in seen' - seen && Find(cfg.lists, n).Some? && IsAddress(Find(cfg.lists, n).value, at)
                             ==> Hit(sites, Some(n), at))
  }

  ghost predicate AllFit(cfg: Config, root: MastersList, port: nat, dscp: int, sites: seq<Site>, ts: seq<Target>) {
    |sites| == |ts| && forall j :: 0 <= j < |ts| ==> Fits(cfg, root, port, dscp, sites[j], ts[j])
  }

  /** The sites of what an expansion from place `from` of a list gives. */
  ghost predicate SitesOk(cfg: Config, root: MastersList, port: nat, dscp: int, path: seq<string>,
                          steps: seq<nat>, from: nat, seen: set<string>, r: Expansion, sites: seq<Site>)
    requires r.Expanded?
  {
    && AllFit(cfg, root, port, dscp, sites, r.targets) && Distinct(sites)
    && InOrder(sites) && Under(sites, steps, from)
    && Within(sites, path, from, seen, r.seen)
    && Complete(cfg, sites, path, ListAt(cfg, root, path), from, seen, r.seen)
  }

  /** A walk standing in a list: how it got there, with the port and dscp in force. */
  ghost predicate Standing(cfg: Config, root: MastersList, port0: nat, dscp0: int, path: seq<string>,
                           steps: seq<nat>, port: nat, dscp: int, seen: set<string>)
  {
    && IsRoute(cfg, root, path, steps) && (path != [] ==> path[|path| - 1] in seen)
    && PortFrom(cfg, root, path, port0, port) && DscpFrom(cfg, root, path, dscp0, dscp)
  }

  lemma StandAtRoot(cfg: Config, root: MastersList, port: nat, dscp: int)
    ensures Standing(cfg, root, port, dscp, [], [], if root.port.Some? then root.port.value else port,
                     if root.dscp.Some? then root.dscp.value else dscp, {})
  {
    var path: seq<string> := [];
    assert path[..0] == [];
    if root.port.Some? {
      assert PortSetAt(cfg, root, path, 0, root.port.value);
    }
    if root.dscp.Some? {
      assert DscpSetAt(cfg, root, path, 0, root.dscp.value);
    }
  }

  /** Entering a list that the current one refers to. */
  lemma Enter(cfg: Config, root: MastersList, port0: nat, dscp0: int, path: seq<string>, steps: seq<nat>,
              port: nat, dscp: int, seen: set<string>, at: nat, n: string)
    requires Standing(cfg, root, port0, dscp0, path, steps, port, dscp, seen)
    requires RefersAt(ListAt(cfg, root, path), at, n) && Find(cfg.lists, n).Some?
    ensures var l := Find(cfg.lists, n).value;
            ListAt(cfg, root, path + [n]) == l
            && Standing(cfg, root, port0, dscp0, path + [n], steps + [at], if l.port.Some? then l.port.value else port,
                        if l.dscp.Some? then l.dscp.value else dscp, seen + {n})
  {
    hide RefersAt, Find;
    var longer, l := path + [n], Find(cfg.lists, n).value;
    forall k | 0 <= k <= |path| ensures longer[..k] == path[..k] {
    }
    assert path[..|path|] == path && longer[..|longer|] == longer;
    EnterPort(cfg, root, port0, path, port, n);
    EnterDscp(cfg, root, dscp0, path, dscp, n);
  }

  lemma EnterPort(cfg: Config, root: MastersList, port0: nat, path: seq<string>, port: nat, n: string)
    requires PortFrom(cfg, root, path, port0, port) && Find(cfg.lists, n).Some?
    ensures var l := Find(cfg.lists, n).value;
            PortFrom(cfg, root, path + [n], port0, if l.port.Some? then l.port.value else port)
  {
    hide Find;
    var longer, l := path + [n], Find(cfg.lists, n).value;
    forall k | 0 <= k <= |path| ensures longer[..k] == path[..k] {
    }
    assert longer[..|longer|] == longer && ListAt(cfg, root, longer) == l;
    if l.port.Some? {
      assert PortSetAt(cfg, root, longer, |longer|, l.port.value);
    } else if k :| PortSetAt(cfg, root, path, k, port) {
      assert PortSetAt(cfg, root, longer, k, port);
    }
  }

  lemma EnterDscp(cfg: Config, root: MastersList, dscp0: int, path: seq<string>, dscp: int, n: string)
    requires DscpFrom(cfg, root, path, dscp0, dscp) && Find(cfg.lists, n).Some?
    ensures var l := Find(cfg.lists, n).value;
            DscpFrom(cfg, root, path + [n], dscp0, if l.dscp.Some? then l.dscp.value else dscp)
  {
    hide Find;
    var longer, l := path + [n], Find(cfg.lists, n).value;
    forall k | 0 <= k <= |path| ensures longer[..k] == path[..k] {
    }
    assert longer[..|longer|] == longer && ListAt(cfg, root, longer) == l;
    if l.dscp.Some? {
      assert DscpSetAt(cfg, root, longer, |longer|, l.dscp.value);
    } else if k :| DscpSetAt(cfg, root, path, k, dscp) {
      assert DscpSetAt(cfg, root, longer, k, dscp);
    }
  }

  // ----- collecting the sites

  lemma NoSites(cfg: Config, root: MastersList, port0: nat, dscp0: int, path: seq<string>, steps: seq<nat>,
                from: nat, seen: set<string>)
    requires from == |ListAt(cfg, root, path).entries|
    ensures SitesOk(cfg, root, port0, dscp0, path, steps, from, seen, Expanded([], seen), [])
  {
  }

  /** An address entry is one more site. */
  lemma AddressSite(cfg: Config, root: MastersList, port0: nat, dscp0: int, path: seq<string>,
                    steps: seq<nat>, from: nat, port: nat, dscp: int, seen: set<string>, r: Expansion, sites: seq<Site>)
    requires Standing(cfg, root, port0, dscp0, path, steps, port, dscp, seen)
    requires IsAddress(ListAt(cfg, root, path), from) && !BadKeyIn(cfg, ListAt(cfg, root, path).entries[from])
    requires r.Expanded? && SitesOk(cfg, root, port0, dscp0, path, steps, from + 1, seen, r, sites)
    ensures var t := TargetOf(cfg, ListAt(cfg, root, path).entries[from], port, dscp);
            SitesOk(cfg, root, port0, dscp0, path, steps, from, seen, Prepend([t], r),
                    [Site(path, steps, from)] + sites)
  {
    hide Fits, ListAt, Find, TargetOf, Standing, BadKeyIn, Hit, Distinct;
    AddressFits(cfg, root, port0, dscp0, path, steps, from, port, dscp, seen);
    EndIsSeen(cfg, root, port0, dscp0, path, steps, port, dscp, seen);
    var all := [Site(path, steps, from)] + sites;
    assert forall j :: 0 < j < |all| ==> all[j] == sites[j - 1];
    forall end, at: nat ensures Hit(all, end, at) <==> Hit([Site(path, steps, from)], end, at) || Hit(sites, end, at) {
      HitsGrow([Site(path, steps, from)], sites, end, at);
    }
    OneHit(path, steps, from);
    AddressIsNew(path, steps, from, seen, r.seen, sites);
    AddressIsFirst(path, steps, from, sites);
  }

  lemma AddressIsFirst(path: seq<string>, steps: seq<nat>, from: nat, sites: seq<Site>)
    requires InOrder(sites) && Under(sites, steps, from + 1)
    ensures InOrder([Site(path, steps, from)] + sites) && Under([Site(path, steps, from)] + sites, steps, from)
  {
    var s := Site(path, steps, from);
    var all := [s] + sites;
    forall i, j | 0 <= i < j < |all| ensures Earlier(all[i], all[j]) {
      if i == 0 {
        assert (s.steps + [s.at])[..|steps|] == steps;
      } else {
        assert all[i] == sites[i - 1] && all[j] == sites[j - 1];
      }
    }
    forall j | 0 <= j < |all|
      ensures var a := all[j].steps + [all[j].at];
              |steps| < |a| && a[..|steps|] == steps && from <= a[|steps|]
    {
      assert (s.steps + [s.at])[..|steps|] == steps;
      assert 0 < j ==> all[j] == sites[j - 1];
    }
  }

  lemma OneHit(path: seq<string>, steps: seq<nat>, from: nat)
    ensures Hit([Site(path, steps, from)], End(path), from)
  {
    var one := [Site(path, steps, from)];
    assert At(one[0], End(path), from);
  }

  lemma AddressFits(cfg: Config, root: MastersList, port0: nat, dscp0: int, path: seq<string>,
                    steps: seq<nat>, from: nat, port: nat, dscp: int, seen: set<string>)
    requires Standing(cfg, root, port0, dscp0, path, steps, port, dscp, seen)
    requires IsAddress(ListAt(cfg, root, path), from) && !BadKeyIn(cfg, ListAt(cfg, root, path).entries[from])
    ensures Fits(cfg, root, port0, dscp0, Site(path, steps, from),
                 TargetOf(cfg, ListAt(cfg, root, path).entries[from], port, dscp))
  {
    hide IsRoute, PortFrom, DscpFrom, ListAt;
  }

  lemma AddressIsNew(path: seq<string>, steps: seq<nat>, from: nat, seen: set<string>, seen': set<string>,
                     sites: seq<Site>)
    requires Distinct(sites) && Within(sites, path, from + 1, seen, seen') && (path != [] ==> path[|path| - 1] in seen)
    ensures Distinct([Site(path, steps, from)] + sites)
  {
  }

  lemma HitsGrow(a: seq<Site>, b: seq<Site>, end: Option<string>, at: nat)
    ensures Hit(a + b, end, at) <==> Hit(a, end, at) || Hit(b, end, at)
  {
    hide At;
    var all := a + b;
    if j :| 0 <= j < |a| && At(a[j], end, at) {
      assert At(all[j], end, at);
    }
    if j :| 0 <= j < |b| && At(b[j], end, at) {
      assert At(all[|a| + j], end, at);
    }
  }

  /** A reference to a list already seen adds nothing. */
  lemma SkippedSite(cfg: Config, root: MastersList, port0: nat, dscp0: int, path: seq<string>,
                    steps: seq<nat>, from: nat, seen: set<string>, r: Expansion, sites: seq<Site>)
    requires from < |ListAt(cfg, root, path).entries| && ListAt(cfg, root, path).entries[from].Ref?
    requires r.Expanded? && SitesOk(cfg, root, port0, dscp0, path, steps, from + 1, seen, r, sites)
    ensures SitesOk(cfg, root, port0, dscp0, path, steps, from, seen, r, sites)
  {
    hide AllFit, Distinct, InOrder, Hit, ListAt, Find;
  }

  /** The sites of a list entered for the first time come before those of the rest. */
  lemma JoinSites(cfg: Config, root: MastersList, port0: nat, dscp0: int, path: seq<string>,
                  steps: seq<nat>, from: nat, n: string, seen: set<string>, inner: Expansion, r: Expansion,
                  a: seq<Site>, b: seq<Site>)
    requires from < |ListAt(cfg, root, path).entries| && ListAt(cfg, root, path).entries[from].Ref?
    requires n !in seen && (path != [] ==> path[|path| - 1] in seen)
    requires inner.Expanded? && r.Expanded? && seen + {n} <= inner.seen <= r.seen
    requires Find(cfg.lists, n).Some? && ListAt(cfg, root, path + [n]) == Find(cfg.lists, n).value
    requires SitesOk(cfg, root, port0, dscp0, path + [n], steps + [from], 0, seen + {n}, inner, a)
    requires SitesOk(cfg, root, port0, dscp0, path, steps, from + 1, inner.seen, r, b)
    ensures SitesOk(cfg, root, port0, dscp0, path, steps, from, seen, Prepend(inner.targets, r), a + b)
  {
    hide Fits, ListAt, Find;
    var all := a + b;
    forall end, at: nat ensures Hit(all, end, at) <==> Hit(a, end, at) || Hit(b, end, at) {
      HitsGrow(a, b, end, at);
    }
    assert End(path + [n]) == Some(n);
    JoinDistinct(path, from, n, seen, inner.seen, r.seen, a, b);
    JoinInOrder(steps, from, a, b);
    hide Hit, Distinct, InOrder, Under;
    assert forall j :: |a| <= j < |all| ==> all[j] == b[j - |a|];
  }

  lemma JoinInOrder(steps: seq<nat>, from: nat, a: seq<Site>, b: seq<Site>)
    requires InOrder(a) && InOrder(b) && Under(a, steps + [from], 0) && Under(b, steps, from + 1)
    ensures InOrder(a + b) && Under(a + b, steps, from)
  {
    var all, n := a + b, |steps|;
    forall i | 0 <= i < |a|
      ensures var x := a[i].steps + [a[i].at];
              n < |x| && x[..n] == steps && x[n] == from
    {
      var x := a[i].steps + [a[i].at];
      assert x[..n + 1] == steps + [from];
      assert x[..n] == x[..n + 1][..n] && x[n] == x[..n + 1][n];
    }
    forall i, j | 0 <= i < j < |all| ensures Earlier(all[i], all[j]) {
      if i < |a| <= j {
        assert all[i] == a[i] && all[j] == b[j - |a|];
      } else if |a| <= i {
        assert all[i] == b[i - |a|] && all[j] == b[j - |a|];
      } else {
        assert all[i] == a[i] && all[j] == a[j];
      }
    }
    assert forall j :: 0 <= j < |all| ==> all[j] == if j < |a| then a[j] else b[j - |a|];
  }

  lemma JoinDistinct(path: seq<string>, from: nat, n: string, seen: set<string>, seen1: set<string>, seen2: set<string>,
                     a: seq<Site>, b: seq<Site>)
    requires n !in seen && seen + {n} <= seen1 <= seen2 && (path != [] ==> path[|path| - 1] in seen)
    requires Distinct(a) && Distinct(b)
    requires Within(a, path + [n], 0, seen + {n}, seen1) && Within(b, path, from + 1, seen1, seen2)
    ensures Distinct(a + b)
  {
    var all := a + b;
    forall i, j | 0 <= i < j < |all| ensures !At(all[j], End(all[i].path), all[i].at) {
      if i < |a| <= j {
        assert all[i] == a[i] && all[j] == b[j - |a|];
        assert End(a[i].path).Some? && End(a[i].path).value in seen1 && End(a[i].path).value !in seen;
      }
    }
  }

  lemma {:induction false} FindSites(cfg: Config, root: MastersList, port0: nat, dscp0: int, path: seq<string>,
                                     steps: seq<nat>, from: nat,
                                     port: nat, dscp: int, seen: set<string>)
    returns (sites: seq<Site>)
    requires Standing(cfg, root, port0, dscp0, path, steps, port, dscp, seen)
    requires from <= |ListAt(cfg, root, path).entries|
    requires ExpandEntries(cfg, ListAt(cfg, root, path).entries[from..], port, dscp, seen).Expanded?
    ensures SitesOk(cfg, root, port0, dscp0, path, steps, from, seen,
                    ExpandEntries(cfg, ListAt(cfg, root, path).entries[from..], port, dscp, seen), sites)
    decreases Unseen(cfg, seen), |ListAt(cfg, root, path).entries| - from
  {
    hide Standing, SitesOk, ListAt, Find, Fold, Unseen, TargetOf, BadKeyIn;
    var l := ListAt(cfg, root, path);
    if from == |l.entries| {
      NoSites(cfg, root, port0, dscp0, path, steps, from, seen);
      return [];
    }
    var e := l.entries[from];
    assert l.entries[from..][0] == e && l.entries[from..][1..] == l.entries[from + 1..];
    if e.Address? {
      var rest := FindSites(cfg, root, port0, dscp0, path, steps, from + 1, port, dscp, seen);
      AddressSite(cfg, root, port0, dscp0, path, steps, from, port, dscp, seen,
                  ExpandEntries(cfg, l.entries[from + 1..], port, dscp, seen), rest);
      sites := [Site(path, steps, from)] + rest;
    } else if Fold(e.name) in seen {
      sites := FindSites(cfg, root, port0, dscp0, path, steps, from + 1, port, dscp, seen);
      SkippedSite(cfg, root, port0, dscp0, path, steps, from, seen,
                  ExpandEntries(cfg, l.entries[from + 1..], port, dscp, seen), sites);
    } else {
      sites := EnterSites(cfg, root, port0, dscp0, path, steps, from, port, dscp, seen);
    }
  }

  lemma {:induction false} EnterSites(cfg: Config, root: MastersList, port0: nat, dscp0: int, path: seq<string>,
                                      steps: seq<nat>, from: nat,
                                      port: nat, dscp: int, seen: set<string>)
    returns (sites: seq<Site>)
    requires Standing(cfg, root, port0, dscp0, path, steps, port, dscp, seen)
    requires from < |ListAt(cfg, root, path).entries| && ListAt(cfg, root, path).entries[from].Ref?
    requires Fold(ListAt(cfg, root, path).entries[from].name) !in seen
    requires ExpandEntries(cfg, ListAt(cfg, root, path).entries[from..], port, dscp, seen).Expanded?
    ensures SitesOk(cfg, root, port0, dscp0, path, steps, from, seen,
                    ExpandEntries(cfg, ListAt(cfg, root, path).entries[from..], port, dscp, seen), sites)
    decreases Unseen(cfg, seen), |ListAt(cfg, root, path).entries| - from, 0
  {
    hide Standing, SitesOk, ListAt, Find, Fold, Unseen, BadHeader;
    var l := ListAt(cfg, root, path);
    var name := l.entries[from].name;
    var n := Fold(name);
    assert l.entries[from..][0] == l.entries[from] && l.entries[from..][1..] == l.entries[from + 1..];
    FindFolded(cfg.lists, name);
    assert RefersAt(l, from, n);
    EndIsSeen(cfg, root, port0, dscp0, path, steps, port, dscp, seen);
    Enter(cfg, root, port0, dscp0, path, steps, port, dscp, seen, from, n);
    SeeingShrinks(cfg, seen, name);
    var m := Find(cfg.lists, n).value;
    assert ListAt(cfg, root, path + [n]).entries[0..] == m.entries;
    var inner := ExpandList(cfg, m, port, dscp, seen + {n});
    assert inner == ExpandEntries(cfg, m.entries, PortIn(m, port), DscpIn(m, dscp), seen + {n});
    var a := FindSites(cfg, root, port0, dscp0, path + [n], steps + [from], 0, PortIn(m, port), DscpIn(m, dscp),
                       seen + {n});
    UnseenMonotone(cfg, seen, inner.seen);
    StandingGrows(cfg, root, port0, dscp0, path, steps, port, dscp, seen, inner.seen);
    var b := FindSites(cfg, root, port0, dscp0, path, steps, from + 1, port, dscp, inner.seen);
    JoinSites(cfg, root, port0, dscp0, path, steps, from, n, seen, inner,
              ExpandEntries(cfg, l.entries[from + 1..], port, dscp, inner.seen), a, b);
    sites := a + b;
  }

  lemma StandingGrows(cfg: Config, root: MastersList, port0: nat, dscp0: int, path: seq<string>, steps: seq<nat>,
                      port: nat, dscp: int,
                      seen: set<string>, seen': set<string>)
    requires Standing(cfg, root, port0, dscp0, path, steps, port, dscp, seen) && seen <= seen'
    ensures Standing(cfg, root, port0, dscp0, path, steps, port, dscp, seen')
  {
    hide IsRoute, PortFrom, DscpFrom;
  }

  lemma EndIsSeen(cfg: Config, root: MastersList, port0: nat, dscp0: int, path: seq<string>, steps: seq<nat>,
                  port: nat, dscp: int,
                  seen: set<string>)
    requires Standing(cfg, root, port0, dscp0, path, steps, port, dscp, seen)
    ensures path != [] ==> path[|path| - 1] in seen
  {
  }

  /**
    The targets of a successful expansion are, one for one, the address entries of the root and of the
    reachable lists, in pre-order.  Each keeps the entry's address, its port and dscp if it has them, and
    else takes those of the nearest list on the way that sets them, or the defaults; its key is the entry's, parsed.
   */
  lemma TargetsAreEntries(cfg: Config, root: MastersList, port: nat, dscp: int) returns (sites: seq<Site>)
    requires ExpandList(cfg, root, port, dscp, {}).Expanded?
    ensures var ts := ExpandList(cfg, root, port, dscp, {}).targets;
            && |sites| == |ts| && (forall j :: 0 <= j < |ts| ==> Fits(cfg, root, port, dscp, sites[j], ts[j]))
            && (forall i, j :: 0 <= i < j < |sites| ==> !At(sites[j], End(sites[i].path), sites[i].at))
            && (forall i, j :: 0 <= i < j < |sites| ==> Earlier(sites[i], sites[j]))
            && (forall at: nat :: IsAddress(root, at) ==> exists j :: 0 <= j < |sites| && At(sites[j], None, at))
            && (forall n, at: nat :: Reachable(cfg, root.entries, n) && Find(cfg.lists, n).Some?
                                     && IsAddress(Find(cfg.lists, n).value, at)
                                     ==> exists j :: 0 <= j < |sites| && At(sites[j], Some(n), at))
  {
    hide Fits, Standing, Reachable, Find, Refers, IsAddress, At, Earlier, BadList, BadReachable;
    StandAtRoot(cfg, root, port, dscp);
    assert root.entries[0..] == root.entries;
    sites := FindSites(cfg, root, port, dscp, [], [], 0, PortIn(root, port), DscpIn(root, dscp), {});
    ExpansionSucceeds(cfg, root, port, dscp);
  }

  // ----- names and errors

  /** Two characters that are the same letter. */
  predicate SameLetter(c: char, d: char) {
    c == d || ('A' <= c <= 'Z' && d as int == c as int + 32) || ('A' <= d <= 'Z' && c as int == d as int + 32)
  }

  /** Names are the same when they differ in the case of letters only. */
  lemma SameName(a: string, b: string)
    ensures Fold(a) == Fold(b) <==> |a| == |b| && forall i :: 0 <= i < |a| ==> SameLetter(a[i], b[i])
  {
    if Fold(a) == Fold(b) {
      forall i | 0 <= i < |a| ensures SameLetter(a[i], b[i]) {
        assert Fold(a)[i] == Fold(b)[i];
      }
    }
  }

  /** A list is bad for a port or dscp out of range, a key that does not parse, or a name no list has. */
  lemma BadListIff(cfg: Config, l: MastersList)
    ensures BadList(cfg, l) <==>
            || (l.port.Some? && l.port.value > 65535)
            || (l.dscp.Some? && l.dscp.value > 63)
            || (exists i :: 0 <= i < |l.entries| && l.entries[i].Address? && l.entries[i].key.Some?
                            && cfg.parseKey(l.entries[i].key.value).None?)
            || (exists i :: 0 <= i < |l.entries| && l.entries[i].Ref?
                            && forall m :: m in cfg.lists ==> Fold(m.name) != Fold(l.entries[i].name))
  {
    hide Find, Fold;
    if BadEntries(cfg, l.entries) {
      var i :| 0 <= i < |l.entries| && BadEntry(cfg, l.entries[i]);
      assert 0 <= i < |l.entries|;
    }
    forall i | 0 <= i < |l.entries| && l.entries[i].Ref?
      ensures Find(cfg.lists, l.entries[i].name).None? <==>
              forall m :: m in cfg.lists ==> Fold(m.name) != Fold(l.entries[i].name)
    {
    }
  }

  /** The list found for a name is the first of that name. */
  lemma {:induction false} FindIsFirst(lists: seq<MastersList>, name: string, k: nat)
    requires k < |lists| && Fold(lists[k].name) == Fold(name)
    requires forall j :: 0 <= j < k ==> Fold(lists[j].name) != Fold(name)
    ensures Find(lists, name) == Some(lists[k])
  {
    hide Fold;
    if 0 < k {
      FindIsFirst(lists[1..], name, k - 1);
    }
  }

  /** What an error is about, in a list's entries. */
  ghost predicate FaultIn(cfg: Config, es: seq<Entry>, err: Error) {
    match err
    case BadKey => exists i :: 0 <= i < |es| && es[i].Address? && es[i].key.Some? && cfg.parseKey(es[i].key.value).None?
    case NotFound => exists i :: 0 <= i < |es| && es[i].Ref? && Find(cfg.lists, es[i].name).None?
    case Range => false
  }

  ghost predicate HeaderOutOfRange(l: MastersList) {
    (l.port.Some? && l.port.value > 65535) || (l.dscp.Some? && l.dscp.value > 63)
  }

  /** The error is about these entries, or about a list reachable from them. */
  ghost predicate Blames(cfg: Config, es: seq<Entry>, err: Error) {
    || FaultIn(cfg, es, err)
    || exists n :: Reachable(cfg, es, n) && FaultyList(cfg, n, err)
  }

  ghost predicate FaultyList(cfg: Config, n: string, err: Error) {
    && Find(cfg.lists, n).Some?
    && var l := Find(cfg.lists, n).value;
       FaultIn(cfg, l.entries, err) || (err == Range && HeaderOutOfRange(l))
  }

  lemma BlamesTail(cfg: Config, es: seq<Entry>, err: Error)
    requires es != [] && Blames(cfg, es[1..], err)
    ensures Blames(cfg, es, err)
  {
    hide Reachable, FaultyList, Find;
    if n :| Reachable(cfg, es[1..], n) && FaultyList(cfg, n, err) {
      ReachTail(cfg, es, n);
    } else {
      assert FaultIn(cfg, es[1..], err);
      assert forall i :: 0 <= i < |es[1..]| ==> es[1..][i] == es[i + 1];
    }
  }

  lemma BlamesThrough(cfg: Config, es: seq<Entry>, n: string, err: Error)
    requires Refers(es, n) && Find(cfg.lists, n).Some?
    requires || Blames(cfg, Find(cfg.lists, n).value.entries, err)
             || (err == Range && HeaderOutOfRange(Find(cfg.lists, n).value))
    ensures Blames(cfg, es, err)
  {
    hide Refers, Reachable, FaultIn, Find;
    ReachDirect(cfg, es, n);
    var l := Find(cfg.lists, n).value;
    if m :| Reachable(cfg, l.entries, m) && FaultyList(cfg, m, err) {
      ReachThrough(cfg, es, n, m);
    } else {
      assert FaultyList(cfg, n, err);
    }
  }

  /** An error is about the entries, or about a list reachable from them, and says what is wrong there. */
  lemma {:induction false} ErrorIsRight(cfg: Config, es: seq<Entry>, port: nat, dscp: int, seen: set<string>)
    requires ExpandEntries(cfg, es, port, dscp, seen).Failed?
    ensures Blames(cfg, es, ExpandEntries(cfg, es, port, dscp, seen).error)
    decreases Unseen(cfg, seen), |es|
  {
    hide Blames, Find, Fold, Unseen, BadHeader, TargetOf;
    var err := ExpandEntries(cfg, es, port, dscp, seen).error;
    if es[0].Address? {
      if BadKeyIn(cfg, es[0]) {
        HeadFault(cfg, es, err);
      } else {
        ErrorIsRight(cfg, es[1..], port, dscp, seen);
        BlamesTail(cfg, es, err);
      }
    } else if Fold(es[0].name) in seen {
      ErrorIsRight(cfg, es[1..], port, dscp, seen);
      BlamesTail(cfg, es, err);
    } else if Find(cfg.lists, es[0].name).None? {
      HeadFault(cfg, es, err);
    } else {
      ReferenceErrorIsRight(cfg, es, port, dscp, seen);
    }
  }

  lemma HeadFault(cfg: Config, es: seq<Entry>, err: Error)
    requires es != []
    requires || (err == BadKey && es[0].Address? && es[0].key.Some? && cfg.parseKey(es[0].key.value).None?)
             || (err == NotFound && es[0].Ref? && Find(cfg.lists, es[0].name).None?)
    ensures Blames(cfg, es, err)
  {
  }

  lemma {:induction false} ReferenceErrorIsRight(cfg: Config, es: seq<Entry>, port: nat, dscp: int, seen: set<string>)
    requires ExpandEntries(cfg, es, port, dscp, seen).Failed?
    requires es != [] && es[0].Ref? && Fold(es[0].name) !in seen && Find(cfg.lists, es[0].name).Some?
    ensures Blames(cfg, es, ExpandEntries(cfg, es, port, dscp, seen).error)
    decreases Unseen(cfg, seen), |es|, 0
  {
    hide Blames, Find, Fold, Unseen, Refers;
    var name := es[0].name;
    var l := Find(cfg.lists, name).value;
    FindFolded(cfg.lists, name);
    SeeingShrinks(cfg, seen, name);
    HeadRefers(es);
    var inner := ExpandList(cfg, l, port, dscp, seen + {Fold(name)});
    if inner.Failed? {
      if !BadHeader(l) {
        ErrorIsRight(cfg, l.entries, PortIn(l, port), DscpIn(l, dscp), seen + {Fold(name)});
      }
      BlamesThrough(cfg, es, Fold(name), inner.error);
    } else {
      UnseenMonotone(cfg, seen, inner.seen);
      ErrorIsRight(cfg, es[1..], port, dscp, inner.seen);
      BlamesTail(cfg, es, ExpandEntries(cfg, es, port, dscp, seen).error);
    }
  }

  lemma HeadRefers(es: seq<Entry>)
    requires es != [] && es[0].Ref?
    ensures Refers(es, Fold(es[0].name))
  {
  }
}
