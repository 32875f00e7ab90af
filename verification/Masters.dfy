/**
  Expansion of a `masters` list (bin/named/config.c): named lists may refer to each other, even in
  cycles; an explicit stack walks them, expanding each named list once.
 */
module Masters {
  import opened Names
  import opened Sequences

  /** An entry: an address with its own port (0 when unset), dscp (-1 when unset) and key, or a list name. */
  datatype Entry = Address(ip: nat, port: nat, dscp: int, key: Option<string>) | Ref(name: string)

  datatype MastersList = MastersList(name: string, port: Option<nat>, dscp: Option<nat>, entries: seq<Entry>)

  datatype Target = Target(ip: nat, port: nat, dscp: int, key: Option<string>)

  datatype Error = Range | NotFound | BadKey

  /** The targets and the names of the lists seen, or the first error. */
  datatype Expansion = Expanded(targets: seq<Target>, seen: set<string>) | Failed(error: Error)

  /** The configuration: the `masters` clauses and how a key name is parsed. */
  datatype Config = Config(lists: seq<MastersList>, parseKey: string -> Option<string>)

  const MAX_PORT := 65535
  const MAX_DSCP := 63

  function FoldChar(c: char): char {
    if 'A' <= c <= 'Z' then c + 32 as char else c
  }

  /** Names are compared without regard to case. */
  function Fold(s: string): (t: string)
    ensures |t| == |s|
  {
    seq(|s|, i requires 0 <= i < |s| => FoldChar(s[i]))
  }

  /** The first list with that name. */
  function Find(lists: seq<MastersList>, name: string): (r: Option<MastersList>)
    ensures r.Some? ==> r.value in lists && Fold(r.value.name) == Fold(name)
    ensures r.None? ==> forall l :: l in lists ==> Fold(l.name) != Fold(name)
  {
    if lists == [] then None
    else if Fold(lists[0].name) == Fold(name) then Some(lists[0])
    else Find(lists[1..], name)
  }

  method GetMastersDef(cfg: Config, name: string) returns (r: Option<MastersList>)
    ensures r == Find(cfg.lists, name)
  {
    hide Fold;
    for i := 0 to |cfg.lists|
      invariant Find(cfg.lists, name) == Find(cfg.lists[i..], name)
    {
      if Fold(cfg.lists[i].name) == Fold(name) {
        return Some(cfg.lists[i]);
      }
      assert cfg.lists[i..][1..] == cfg.lists[i + 1..];
    }
    r := None;
  }

  // ----- the recursive definition

  ghost function AllNames(cfg: Config): set<string> {
    set l | l in cfg.lists :: Fold(l.name)
  }

  ghost function Unseen(cfg: Config, seen: set<string>): nat {
    |AllNames(cfg) - seen|
  }

  lemma SeeingShrinks(cfg: Config, seen: set<string>, name: string)
    requires Fold(name) !in seen && Find(cfg.lists, name).Some?
    ensures Unseen(cfg, seen + {Fold(name)}) < Unseen(cfg, seen)
  {
    hide Fold;
    var l := Find(cfg.lists, name).value;
    assert Fold(l.name) in AllNames(cfg);
    assert AllNames(cfg) - (seen + {Fold(name)}) == AllNames(cfg) - seen - {Fold(name)};
  }

  lemma UnseenMonotone(cfg: Config, a: set<string>, b: set<string>)
    requires a <= b
    ensures Unseen(cfg, b) <= Unseen(cfg, a)
  {
    SubsetSize(AllNames(cfg) - b, AllNames(cfg) - a);
  }

  predicate BadHeader(l: MastersList) {
    || (l.port.Some? && l.port.value > MAX_PORT)
    || (l.dscp.Some? && l.dscp.value > MAX_DSCP)
  }

  function PortIn(l: MastersList, port: nat): nat { if l.port.Some? then l.port.value else port }

  function DscpIn(l: MastersList, dscp: int): int { if l.dscp.Some? then l.dscp.value else dscp }

  /** A key that is there must parse. */
  predicate BadKeyIn(cfg: Config, e: Entry) {
    e.Address? && e.key.Some? && cfg.parseKey(e.key.value).None?
  }

  function TargetOf(cfg: Config, e: Entry, port: nat, dscp: int): Target
    requires e.Address? && !BadKeyIn(cfg, e)
  {
    Target(e.ip, if e.port == 0 then port else e.port, if e.dscp == -1 then dscp else e.dscp,
           if e.key.Some? then cfg.parseKey(e.key.value) else None)
  }

  ghost function Prepend(ts: seq<Target>, r: Expansion): Expansion {
    match r
    case Expanded(us, seen) => Expanded(ts + us, seen)
    case Failed(_) => r
  }

  /** Enters a list: its own port and dscp, if any, override those inherited from the referring list. */
  ghost function ExpandList(cfg: Config, l: MastersList, port: nat, dscp: int, seen: set<string>): (r: Expansion)
    ensures r.Expanded? ==> seen <= r.seen
    decreases Unseen(cfg, seen), |l.entries|, 1
  {
    if BadHeader(l) then Failed(Range)
    else ExpandEntries(cfg, l.entries, PortIn(l, port), DscpIn(l, dscp), seen)
  }

  /** Entries in order; a named list is expanded in place, but only where its name first occurs. */
  ghost function ExpandEntries(cfg: Config, es: seq<Entry>, port: nat, dscp: int, seen: set<string>): (r: Expansion)
    ensures r.Expanded? ==> seen <= r.seen
    decreases Unseen(cfg, seen), |es|, 0
  {
    if es == [] then Expanded([], seen)
    else if es[0].Address? then
      if BadKeyIn(cfg, es[0]) then Failed(BadKey)
      else Prepend([TargetOf(cfg, es[0], port, dscp)], ExpandEntries(cfg, es[1..], port, dscp, seen))
    else if Fold(es[0].name) in seen then ExpandEntries(cfg, es[1..], port, dscp, seen)
    else
      match Find(cfg.lists, es[0].name)
      case None => Failed(NotFound)
      case Some(l) =>
        SeeingShrinks(cfg, seen, es[0].name);
        var inner := ExpandList(cfg, l, port, dscp, seen + {Fold(es[0].name)});
        if inner.Failed? then inner
        else
          UnseenMonotone(cfg, seen, inner.seen);
          Prepend(inner.targets, ExpandEntries(cfg, es[1..], port, dscp, inner.seen))
  }

  // ----- the explicit stack

  /** Where to resume a list once the one it refers to is done. */
  datatype Frame = Frame(entries: seq<Entry>, port: nat, dscp: int)

  ghost function Resume(cfg: Config, stack: seq<Frame>, seen: set<string>): Expansion
    decreases |stack|, 0
  {
    if stack == [] then Expanded([], seen)
    else
      var n := |stack| - 1;
      var f := stack[n];
      After(cfg, ExpandEntries(cfg, f.entries, f.port, f.dscp, seen), stack[..n])
  }

  /** What is still to come after `r`: the frames on the stack, from the top. */
  ghost function After(cfg: Config, r: Expansion, stack: seq<Frame>): Expansion
    decreases |stack|, 1
  {
    if r.Failed? then r else Prepend(r.targets, Resume(cfg, stack, r.seen))
  }

  lemma AfterPrepend(cfg: Config, ts: seq<Target>, r: Expansion, stack: seq<Frame>)
    ensures After(cfg, Prepend(ts, r), stack) == Prepend(ts, After(cfg, r, stack))
  {
    if r.Expanded? {
      PrependTwice(ts, r.targets, Resume(cfg, stack, r.seen));
    }
  }

  lemma PrependTwice(ts: seq<Target>, us: seq<Target>, r: Expansion)
    ensures Prepend(ts + us, r) == Prepend(ts, Prepend(us, r))
  {
    if r.Expanded? {
      assert ts + us + r.targets == ts + (us + r.targets);
    }
  }

  ghost function Work(stack: seq<Frame>): nat {
    if stack == [] then 0 else Work(stack[..|stack| - 1]) + |stack[|stack| - 1].entries| + 1
  }

  function Folded(names: seq<string>): set<string> {
    set n | n in names :: Fold(n)
  }

  /** The loop over `lists` that asks whether a name was seen. */
  method IsSeen(names: seq<string>, name: string) returns (seen: bool)
    ensures seen <==> Fold(name) in Folded(names)
  {
    hide Fold;
    for j := 0 to |names|
      invariant forall i :: 0 <= i < j ==> Fold(names[i]) != Fold(name)
    {
      if Fold(names[j]) == Fold(name) {
        return true;
      }
    }
    seen := false;
  }

  datatype State = State(entering: Option<MastersList>, entries: seq<Entry>, port: nat, dscp: int, stack: seq<Frame>,
                         names: seq<string>, targets: seq<Target>)

  /** What the recursive definition still has to deliver from a state of the loop. */
  ghost function Remaining(cfg: Config, st: State): Expansion {
    var seen := Folded(st.names);
    var r := if st.entering.Some? then ExpandList(cfg, st.entering.value, st.port, st.dscp, seen)
             else ExpandEntries(cfg, st.entries, st.port, st.dscp, seen);
    Prepend(st.targets, After(cfg, r, st.stack))
  }

  ghost function Effort(st: State): nat {
    Work(st.stack) + if st.entering.Some? then |st.entering.value.entries| + 1 else |st.entries|
  }

  predicate Finished(st: State) { st.entering.None? && st.entries == [] && st.stack == [] }

  lemma FinishedDelivers(cfg: Config, st: State)
    requires Finished(st)
    ensures Remaining(cfg, st) == Expanded(st.targets, Folded(st.names))
  {
    hide Folded;
    assert st.targets + ([] + []) == st.targets;
  }

  lemma PopDelivers(cfg: Config, st: State)
    requires st.entering.None? && st.entries == [] && st.stack != []
    ensures var n := |st.stack| - 1;
            var f := st.stack[n];
            var st' := st.(entries := f.entries, port := f.port, dscp := f.dscp, stack := st.stack[..n]);
            Remaining(cfg, st') == Remaining(cfg, st) && Effort(st') < Effort(st)
  {
    hide Folded;
    var n := |st.stack| - 1;
    var f, seen := st.stack[n], Folded(st.names);
    PrependNone(Resume(cfg, st.stack, seen));
  }

  lemma PrependNone(r: Expansion)
    ensures Prepend([], r) == r
  {
    if r.Expanded? {
      assert [] + r.targets == r.targets;
    }
  }

  lemma AddressDelivers(cfg: Config, st: State)
    requires st.entering.None? && st.entries != [] && st.entries[0].Address? && !BadKeyIn(cfg, st.entries[0])
    ensures var t := TargetOf(cfg, st.entries[0], st.port, st.dscp);
            Remaining(cfg, st.(entries := st.entries[1..], targets := st.targets + [t])) == Remaining(cfg, st)
  {
    hide Folded, TargetOf, BadKeyIn;
    var t := TargetOf(cfg, st.entries[0], st.port, st.dscp);
    var rest := ExpandEntries(cfg, st.entries[1..], st.port, st.dscp, Folded(st.names));
    AfterPrepend(cfg, [t], rest, st.stack);
    PrependTwice(st.targets, [t], After(cfg, rest, st.stack));
  }

  lemma SeenOneMore(names: seq<string>, name: string)
    ensures Folded(names + [name]) == Folded(names) + {Fold(name)}
  {
    hide Fold;
    assert forall n :: n in names + [name] <==> n in names || n == name;
  }

  lemma PushDelivers(cfg: Config, st: State, l: MastersList)
    requires st.entering.None? && st.entries != [] && st.entries[0].Ref?
    requires Fold(st.entries[0].name) !in Folded(st.names) && Find(cfg.lists, st.entries[0].name) == Some(l)
    ensures var name := st.entries[0].name;
            var st' := st.(entering := Some(l), names := st.names + [name],
                           stack := st.stack + [Frame(st.entries[1..], st.port, st.dscp)]);
            Remaining(cfg, st') == Remaining(cfg, st)
            && Unseen(cfg, Folded(st'.names)) < Unseen(cfg, Folded(st.names))
  {
    hide Folded, Fold, Unseen;
    var name, seen := st.entries[0].name, Folded(st.names);
    SeenOneMore(st.names, name);
    SeeingShrinks(cfg, seen, name);
    var frame := Frame(st.entries[1..], st.port, st.dscp);
    var stack' := st.stack + [frame];
    assert stack'[..|st.stack|] == st.stack;
    var inner := ExpandList(cfg, l, st.port, st.dscp, seen + {Fold(name)});
    if inner.Expanded? {
      var rest := ExpandEntries(cfg, frame.entries, frame.port, frame.dscp, inner.seen);
      AfterPrepend(cfg, inner.targets, rest, st.stack);
      assert ExpandEntries(cfg, st.entries, st.port, st.dscp, seen) == Prepend(inner.targets, rest);
      assert Resume(cfg, stack', inner.seen) == After(cfg, rest, st.stack);
    } else {
      assert ExpandEntries(cfg, st.entries, st.port, st.dscp, seen) == inner;
    }
  }

  lemma StartDelivers(cfg: Config, st: State)
    requires st.entering.Some? && st.stack == [] && st.names == [] && st.targets == []
    ensures Remaining(cfg, st) == ExpandList(cfg, st.entering.value, st.port, st.dscp, {})
  {
    var r := ExpandList(cfg, st.entering.value, st.port, st.dscp, {});
    assert Folded([]) == {};
    if r.Expanded? {
      assert [] + (r.targets + []) == r.targets;
    }
  }

  lemma EnterDelivers(cfg: Config, st: State)
    requires st.entering.Some?
    ensures var l := st.entering.value;
            var st' := st.(entering := None, entries := l.entries,
                           port := PortIn(l, st.port), dscp := DscpIn(l, st.dscp));
            if BadHeader(l) then Remaining(cfg, st) == Failed(Range)
            else Remaining(cfg, st') == Remaining(cfg, st) && Effort(st') < Effort(st)
  {
    hide Folded;
  }

  lemma EntryDelivers(cfg: Config, st: State)
    requires st.entering.None? && st.entries != []
    ensures var e, rest := st.entries[0], st.entries[1..];
            && (forall ts :: Effort(st.(entries := rest, targets := ts)) < Effort(st))
            && (BadKeyIn(cfg, e) ==> Remaining(cfg, st) == Failed(BadKey))
            && (e.Ref? && Fold(e.name) in Folded(st.names) ==>
                  Remaining(cfg, st.(entries := rest)) == Remaining(cfg, st))
            && (e.Ref? && Fold(e.name) !in Folded(st.names) && Find(cfg.lists, e.name).None? ==>
                  Remaining(cfg, st) == Failed(NotFound))
  {
    hide Folded, Fold;
  }

  /**
    `ns_config_getipandkeylist`: on every configuration, cyclic ones included, the explicit stack comes to
    an end with the targets, or the error, of the recursive definition.
   */
  method GetIpAndKeyList(cfg: Config, root: MastersList, port: nat, dscp: int) returns (r: Expansion)
    ensures r == ExpandList(cfg, root, port, dscp, {})
  {
    hide Folded, Unseen, Remaining, Effort, Fold, TargetOf, BadKeyIn;
    ghost var whole := ExpandList(cfg, root, port, dscp, {});
    var st := State(Some(root), [], port, dscp, [], [], []);
    assert Remaining(cfg, st) == whole by { StartDelivers(cfg, st); }
    while !Finished(st)
      invariant Remaining(cfg, st) == whole
      decreases Unseen(cfg, Folded(st.names)), Effort(st)
    {
      ghost var before := st;
      if st.entering.Some? {
        var l := st.entering.value;
        EnterDelivers(cfg, st);
        if BadHeader(l) {
          return Failed(Range);
        }
        st := st.(entering := None, entries := l.entries, port := PortIn(l, st.port), dscp := DscpIn(l, st.dscp));
      } else if st.entries == [] {
        PopDelivers(cfg, st);
        var f := st.stack[|st.stack| - 1];
        st := st.(entries := f.entries, port := f.port, dscp := f.dscp, stack := st.stack[..|st.stack| - 1]);
      } else if st.entries[0].Address? {
        EntryDelivers(cfg, st);
        if BadKeyIn(cfg, st.entries[0]) {
          return Failed(BadKey);
        }
        AddressDelivers(cfg, st);
        var t := TargetOf(cfg, st.entries[0], st.port, st.dscp);
        st := st.(entries := st.entries[1..], targets := st.targets + [t]);
      } else {
        var name := st.entries[0].name;
        EntryDelivers(cfg, st);
        var seen := IsSeen(st.names, name);
        if seen {
          st := st.(entries := st.entries[1..]);
        } else {
          var def := GetMastersDef(cfg, name);
          if def.None? {
            return Failed(NotFound);
          }
          PushDelivers(cfg, st, def.value);
          st := st.(entering := def, names := st.names + [name],
                    stack := st.stack + [Frame(st.entries[1..], st.port, st.dscp)]);
        }
      }
    }
    FinishedDelivers(cfg, st);
    r := Expanded(st.targets, Folded(st.names));
  }

  // ----- which lists are expanded, and when expansion fails

  lemma FoldTwice(s: string)
    ensures Fold(Fold(s)) == Fold(s)
  {
    assert forall i :: 0 <= i < |s| ==> FoldChar(FoldChar(s[i])) == FoldChar(s[i]);
  }

  lemma {:induction false} FindFolded(lists: seq<MastersList>, name: string)
    ensures Find(lists, Fold(name)) == Find(lists, name)
  {
    hide Fold;
    FoldTwice(name);
    if lists != [] {
      FindFolded(lists[1..], name);
    }
  }

  /** The entries refer to a list, by its folded name. */
  ghost predicate Refers(es: seq<Entry>, n: string) {
    exists i :: 0 <= i < |es| && es[i].Ref? && Fold(es[i].name) == n
  }

  ghost predicate BadEntry(cfg: Config, e: Entry) {
    BadKeyIn(cfg, e) || (e.Ref? && Find(cfg.lists, e.name).None?)
  }

  ghost predicate BadEntries(cfg: Config, es: seq<Entry>) {
    exists i :: 0 <= i < |es| && BadEntry(cfg, es[i])
  }

  /** A list that cannot be expanded: port or dscp out of range, a key that does not parse, an unknown name. */
  ghost predicate BadList(cfg: Config, l: MastersList) {
    BadHeader(l) || BadEntries(cfg, l.entries)
  }

  /** One list refers to the next, starting from the entries `es`. */
  ghost predicate IsPath(cfg: Config, es: seq<Entry>, path: seq<string>) {
    && path != [] && Refers(es, path[0])
    && forall k {:trigger path[k]} :: 0 <= k < |path| - 1 ==>
         Find(cfg.lists, path[k]).Some? && Refers(Find(cfg.lists, path[k]).value.entries, path[k + 1])
  }

  ghost predicate Reachable(cfg: Config, es: seq<Entry>, n: string) {
    exists path :: IsPath(cfg, es, path) && path[|path| - 1] == n
  }

  ghost predicate BadReachable(cfg: Config, es: seq<Entry>) {
    exists n :: Reachable(cfg, es, n) && Find(cfg.lists, n).Some? && BadList(cfg, Find(cfg.lists, n).value)
  }

  /** A seen list is in order, and so are its references. */
  ghost predicate Settled(cfg: Config, n: string, seen: set<string>) {
    && Find(cfg.lists, n).Some?
    && !BadList(cfg, Find(cfg.lists, n).value)
    && forall m :: Refers(Find(cfg.lists, n).value.entries, m) ==> m in seen
  }

  ghost predicate Resolved(cfg: Config, seen: set<string>) {
    forall n :: n in seen ==> Find(cfg.lists, n).Some?
  }

  /** What an expansion of `es` starting from `seen` tells. */
  ghost predicate Explains(cfg: Config, es: seq<Entry>, seen: set<string>, r: Expansion) {
    match r
    case Expanded(_, seen') =>
      && seen <= seen' && Resolved(cfg, seen')
      && !BadEntries(cfg, es)
      && (forall n :: Refers(es, n) ==> n in seen')
      && (forall n :: n in seen' && n !in seen ==> Settled(cfg, n, seen') && Reachable(cfg, es, n))
    case Failed(_) => BadEntries(cfg, es) || BadReachable(cfg, es)
  }

  lemma ReachDirect(cfg: Config, es: seq<Entry>, n: string)
    requires Refers(es, n)
    ensures Reachable(cfg, es, n)
  {
    hide Refers;
    assert IsPath(cfg, es, [n]);
  }

  lemma ReachThrough(cfg: Config, es: seq<Entry>, n: string, m: string)
    requires Refers(es, n) && Find(cfg.lists, n).Some? && Reachable(cfg, Find(cfg.lists, n).value.entries, m)
    ensures Reachable(cfg, es, m)
  {
    hide Refers, Find;
    var path :| IsPath(cfg, Find(cfg.lists, n).value.entries, path) && path[|path| - 1] == m;
    var longer := [n] + path;
    forall k | 0 <= k < |longer| - 1
      ensures Find(cfg.lists, longer[k]).Some? && Refers(Find(cfg.lists, longer[k]).value.entries, longer[k + 1])
    {
      assert 0 < k ==> longer[k] == path[k - 1];
    }
    assert IsPath(cfg, es, longer);
  }

  lemma RefersTail(es: seq<Entry>, n: string)
    requires es != []
    ensures Refers(es, n) <==> (es[0].Ref? && Fold(es[0].name) == n) || Refers(es[1..], n)
  {
    hide Fold;
    if Refers(es[1..], n) {
      var i :| 0 <= i < |es[1..]| && es[1..][i].Ref? && Fold(es[1..][i].name) == n;
      assert es[i + 1] == es[1..][i];
    }
    if i :| 0 < i < |es| && es[i].Ref? && Fold(es[i].name) == n {
      assert es[1..][i - 1] == es[i];
    }
  }

  lemma BadTail(cfg: Config, es: seq<Entry>)
    requires es != []
    ensures BadEntries(cfg, es) <==> BadEntry(cfg, es[0]) || BadEntries(cfg, es[1..])
  {
    hide BadEntry;
    if BadEntries(cfg, es[1..]) {
      var i :| 0 <= i < |es[1..]| && BadEntry(cfg, es[1..][i]);
      assert es[i + 1] == es[1..][i];
    }
    if i :| 0 < i < |es| && BadEntry(cfg, es[i]) {
      assert es[1..][i - 1] == es[i];
    }
  }

  lemma ReachTail(cfg: Config, es: seq<Entry>, n: string)
    requires es != [] && Reachable(cfg, es[1..], n)
    ensures Reachable(cfg, es, n)
  {
    hide Refers;
    var path :| IsPath(cfg, es[1..], path) && path[|path| - 1] == n;
    RefersTail(es, path[0]);
    assert IsPath(cfg, es, path);
  }

  /** From the expansion of the tail to that of the whole, when the head adds no list. */
  lemma ExplainTail(cfg: Config, es: seq<Entry>, seen: set<string>, ts: seq<Target>, r: Expansion)
    requires es != [] && Explains(cfg, es[1..], seen, r) && !BadEntry(cfg, es[0])
    requires es[0].Ref? ==> Fold(es[0].name) in seen
    ensures Explains(cfg, es, seen, Prepend(ts, r)) && Explains(cfg, es, seen, r)
  {
    hide Refers, BadEntry, BadEntries, Settled, Resolved, Reachable, BadList, Fold;
    BadTail(cfg, es);
    forall n { RefersTail(es, n); }
    forall n | Reachable(cfg, es[1..], n) ensures Reachable(cfg, es, n) { ReachTail(cfg, es, n); }
  }

  lemma SettledGrows(cfg: Config, n: string, a: set<string>, b: set<string>)
    requires Settled(cfg, n, a) && a <= b
    ensures Settled(cfg, n, b)
  {
  }

  lemma {:induction false} ExpansionExplained(cfg: Config, es: seq<Entry>, port: nat, dscp: int, seen: set<string>)
    requires Resolved(cfg, seen)
    ensures Explains(cfg, es, seen, ExpandEntries(cfg, es, port, dscp, seen))
    decreases Unseen(cfg, seen), |es|
  {
    if es != [] {
      var e, rest := es[0], es[1..];
      if e.Address? {
        if BadKeyIn(cfg, e) {
          assert BadEntry(cfg, es[0]);
        } else {
          ExpansionExplained(cfg, rest, port, dscp, seen);
          ExplainTail(cfg, es, seen, [TargetOf(cfg, e, port, dscp)], ExpandEntries(cfg, rest, port, dscp, seen));
        }
      } else if Fold(e.name) in seen {
        FindFolded(cfg.lists, e.name);
        ExpansionExplained(cfg, rest, port, dscp, seen);
        ExplainTail(cfg, es, seen, [], ExpandEntries(cfg, rest, port, dscp, seen));
      } else if Find(cfg.lists, e.name).None? {
        assert BadEntry(cfg, es[0]);
      } else {
        ReferenceExplained(cfg, es, port, dscp, seen);
      }
    }
  }

  lemma {:induction false} ReferenceExplained(cfg: Config, es: seq<Entry>, port: nat, dscp: int, seen: set<string>)
    requires Resolved(cfg, seen) && es != [] && es[0].Ref?
    requires Fold(es[0].name) !in seen && Find(cfg.lists, es[0].name).Some?
    ensures Explains(cfg, es, seen, ExpandEntries(cfg, es, port, dscp, seen))
    decreases Unseen(cfg, seen), |es|, 0
  {
    var name, n, rest := es[0].name, Fold(es[0].name), es[1..];
    var l := Find(cfg.lists, name).value;
    FindFolded(cfg.lists, name);
    SeeingShrinks(cfg, seen, name);
    var seen1 := seen + {n};
    var inner := ExpandList(cfg, l, port, dscp, seen1);
    assert Refers(es, n);
    ReachDirect(cfg, es, n);
    if BadHeader(l) {
      assert BadReachable(cfg, es);
    } else {
      ExpansionExplained(cfg, l.entries, PortIn(l, port), DscpIn(l, dscp), seen1);
      if inner.Failed? {
        InnerFailure(cfg, es, n);
      } else {
        UnseenMonotone(cfg, seen, inner.seen);
        ExpansionExplained(cfg, rest, port, dscp, inner.seen);
        JoinExplained(cfg, es, n, seen, inner, ExpandEntries(cfg, rest, port, dscp, inner.seen));
      }
    }
  }

  lemma InnerFailure(cfg: Config, es: seq<Entry>, n: string)
    requires Refers(es, n) && Find(cfg.lists, n).Some? && Reachable(cfg, es, n)
    requires BadEntries(cfg, Find(cfg.lists, n).value.entries) || BadReachable(cfg, Find(cfg.lists, n).value.entries)
    ensures BadReachable(cfg, es)
  {
    hide Refers, Reachable, BadEntries;
    var l := Find(cfg.lists, n).value;
    if !BadEntries(cfg, l.entries) {
      var m :| Reachable(cfg, l.entries, m) && Find(cfg.lists, m).Some? && BadList(cfg, Find(cfg.lists, m).value);
      ReachThrough(cfg, es, n, m);
    }
  }

  lemma JoinExplained(cfg: Config, es: seq<Entry>, n: string, seen: set<string>, inner: Expansion, r: Expansion)
    requires es != [] && es[0].Ref? && Fold(es[0].name) == n && Find(cfg.lists, n).Some? && !BadEntry(cfg, es[0])
    requires !BadHeader(Find(cfg.lists, n).value) && Refers(es, n) && Reachable(cfg, es, n)
    requires inner.Expanded? && Explains(cfg, Find(cfg.lists, n).value.entries, seen + {n}, inner)
    requires Explains(cfg, es[1..], inner.seen, r)
    ensures Explains(cfg, es, seen, Prepend(inner.targets, r))
  {
    var l := Find(cfg.lists, n).value;
    BadTail(cfg, es);
    assert Settled(cfg, n, inner.seen);
    hide Refers, BadEntry, BadEntries, Settled, Resolved, Reachable, BadList, Fold, Find, BadHeader;
    forall x { RefersTail(es, x); }
    forall x | Reachable(cfg, es[1..], x) ensures Reachable(cfg, es, x) { ReachTail(cfg, es, x); }
    if r.Expanded? {
      forall x | x in r.seen && x !in seen ensures Settled(cfg, x, r.seen) && Reachable(cfg, es, x) {
        if x in inner.seen {
          SettledGrows(cfg, x, inner.seen, r.seen);
          if x != n {
            ReachThrough(cfg, es, n, x);
          }
        }
      }
    }
  }

  /** What is reachable along a path is seen, once every seen list is settled. */
  lemma {:induction false} PathIsSeen(cfg: Config, es: seq<Entry>, path: seq<string>, seen: set<string>, k: nat)
    requires IsPath(cfg, es, path) && k < |path|
    requires (forall n :: Refers(es, n) ==> n in seen) && forall n :: n in seen ==> Settled(cfg, n, seen)
    ensures path[k] in seen
  {
    hide Refers, BadList, Find;
    if 0 < k {
      PathIsSeen(cfg, es, path, seen, k - 1);
    }
  }

  /**
    Expansion succeeds exactly when neither the list nor any list reachable from it is bad, and then the
    lists expanded are exactly the reachable ones.
   */
  lemma ExpansionSucceeds(cfg: Config, root: MastersList, port: nat, dscp: int)
    ensures var r := ExpandList(cfg, root, port, dscp, {});
            && (r.Expanded? <==> !BadList(cfg, root) && !BadReachable(cfg, root.entries))
            && (r.Expanded? ==> forall n :: n in r.seen <==> Reachable(cfg, root.entries, n))
  {
    var r := ExpandList(cfg, root, port, dscp, {});
    if !BadHeader(root) {
      ExpansionExplained(cfg, root.entries, PortIn(root, port), DscpIn(root, dscp), {});
      hide Refers, Settled, BadEntries, Find;
      if r.Expanded? {
        forall n | Reachable(cfg, root.entries, n) ensures n in r.seen {
          var path :| IsPath(cfg, root.entries, path) && path[|path| - 1] == n;
          PathIsSeen(cfg, root.entries, path, r.seen, |path| - 1);
        }
        hide Reachable;
        assert !BadReachable(cfg, root.entries) by {
          if BadReachable(cfg, root.entries) {
            var n :| Reachable(cfg, root.entries, n) && Find(cfg.lists, n).Some?
                     && BadList(cfg, Find(cfg.lists, n).value);
            SettledIsGood(cfg, n, r.seen);
          }
        }
      }
    }
  }

  lemma SettledIsGood(cfg: Config, n: string, seen: set<string>)
    requires Settled(cfg, n, seen)
    ensures Find(cfg.lists, n).Some? && !BadList(cfg, Find(cfg.lists, n).value)
  {
  }
}
