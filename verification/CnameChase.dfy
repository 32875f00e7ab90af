/** `chase_cnamechain` (bin/dig/host.c): following CNAME records through an answer section. */
module CnameChase {
  import opened Names
  import opened Sequences

  /** An RRset of the answer section; a CNAME set has at least one target. */
  datatype RRset = CnameSet(targets: seq<Name>) | OtherSet(records: nat)

  /** An owner name of the section with its RRsets, as the message parser lists them. */
  datatype Entry = Entry(owner: Name, sets: seq<RRset>)

  /** The last CNAME set of a name, which is how `dns_message_findtype` searches. */
  function FindType(sets: seq<RRset>): (r: Option<Name>) {
    if sets == [] then None
    else
      var last := sets[|sets| - 1];
      if last.CnameSet? && last.targets != [] then Some(last.targets[0]) else FindType(sets[..|sets| - 1])
  }

  /** The CNAME target of a name: only the last entry for the name is searched (`dns_message_findname`). */
  function Target(section: seq<Entry>, qname: Name): (r: Option<Name>) {
    if section == [] then None
    else
      var last := section[|section| - 1];
      if last.owner == qname then FindType(last.sets) else Target(section[..|section| - 1], qname)
  }

  /** The records of a section, which the message header's count is at least. */
  function RecordCount(section: seq<Entry>): nat {
    if section == [] then 0
    else RecordCount(section[..|section| - 1]) + SetCount(section[|section| - 1].sets)
  }

  function SetCount(sets: seq<RRset>): nat {
    if sets == [] then 0
    else
      var last := sets[|sets| - 1];
      SetCount(sets[..|sets| - 1]) + if last.CnameSet? then |last.targets| else last.records
  }

  /** The names with a CNAME. */
  ghost function Aliases(section: seq<Entry>): set<Name> {
    set e | e in section && Target(section, e.owner).Some? :: e.owner
  }

  lemma {:induction false} TargetIsAlias(section: seq<Entry>, q: Name)
    requires Target(section, q).Some?
    ensures exists e :: e in section && e.owner == q
  {
    var last := section[|section| - 1];
    if last.owner != q {
      TargetIsAlias(section[..|section| - 1], q);
      var e :| e in section[..|section| - 1] && e.owner == q;
      assert e in section;
    } else {
      assert last in section;
    }
  }

  lemma {:induction false} CnameIsCounted(sets: seq<RRset>)
    ensures FindType(sets).Some? ==> SetCount(sets) >= 1
  {
    if sets != [] {
      CnameIsCounted(sets[..|sets| - 1]);
    }
  }

  /** There are no more aliases than records. */
  lemma {:induction false} AliasesAreFew(section: seq<Entry>)
    ensures |Aliases(section)| <= RecordCount(section)
  {
    if section != [] {
      var n := |section| - 1;
      var front, last := section[..n], section[n];
      AliasesAreFew(front);
      CnameIsCounted(last.sets);
      var extra: set<Name> := if FindType(last.sets).Some? then {last.owner} else {};
      forall q | q in Aliases(section) ensures q in Aliases(front) + extra {
        AliasSplits(section, q);
      }
      hide Aliases;
      SubsetSize(Aliases(section), Aliases(front) + extra);
    }
  }

  lemma AliasSplits(section: seq<Entry>, q: Name)
    requires section != [] && q in Aliases(section)
    ensures var n := |section| - 1;
            q in Aliases(section[..n]) || (FindType(section[n].sets).Some? && q == section[n].owner)
  {
    var n := |section| - 1;
    if q != section[n].owner {
      TargetIsAlias(section[..n], q);
    }
  }

  /** The name after following `k` CNAMEs, as far as they go. */
  function Chase(section: seq<Entry>, q: Name, k: nat): (r: Name) {
    if k == 0 then q
    else
      var p := Chase(section, q, k - 1);
      match Target(section, p) case Some(t) => t case None => p
  }

  /** Before the chain ends, it comes back to a name it has been at. */
  ghost predicate Revisits(section: seq<Entry>, q: Name) {
    exists i: nat, j: nat :: i < j && Chase(section, q, i) == Chase(section, q, j)
                             && Target(section, Chase(section, q, i)).Some?
  }

  /** `chase_cnamechain`: at most as many steps as the answer section has records. */
  method ChaseCnameChain(section: seq<Entry>, count: nat, start: Name) returns (qname: Name)
    requires RecordCount(section) <= count
    ensures qname == Chase(section, start, count)
    ensures Target(section, qname).None? <==> !Revisits(section, start)
  {
    qname := start;
    var i := count;
    while i > 0
      invariant 0 <= i <= count && qname == Chase(section, start, count - i)
    {
      i := i - 1;
      var target := Target(section, qname);
      if target.None? {
        Settles(section, start, count - i - 1, count);
        EndsOrRevisits(section, start, count);
        return;
      }
      qname := target.value;
    }
    EndsOrRevisits(section, start, count);
  }

  /** Once a name has no CNAME, the chain stays there. */
  lemma {:induction false} Settles(section: seq<Entry>, q: Name, i: nat, j: nat)
    requires i <= j && Target(section, Chase(section, q, i)).None?
    ensures Chase(section, q, j) == Chase(section, q, i)
    decreases j - i
  {
    if i < j {
      Settles(section, q, i, j - 1);
    }
  }

  /** Two positions with the same name keep the same distance for ever. */
  lemma {:induction false} Repeats(section: seq<Entry>, q: Name, i: nat, j: nat, d: nat)
    requires Chase(section, q, i) == Chase(section, q, j)
    ensures Chase(section, q, i + d) == Chase(section, q, j + d)
  {
    if d > 0 {
      Repeats(section, q, i, j, d - 1);
    }
  }

  ghost function Visited(section: seq<Entry>, q: Name, k: nat): set<Name> {
    set i | 0 <= i < k :: Chase(section, q, i)
  }

  /** While the chain goes on without a repetition, each step meets a new alias. */
  lemma {:induction false} VisitedGrows(section: seq<Entry>, q: Name, k: nat)
    requires forall i :: 0 <= i < k ==> Target(section, Chase(section, q, i)).Some?
    requires forall i, j :: 0 <= i < j < k ==> Chase(section, q, i) != Chase(section, q, j)
    ensures |Visited(section, q, k)| == k && Visited(section, q, k) <= Aliases(section)
  {
    if k > 0 {
      VisitedGrows(section, q, k - 1);
      var x := Chase(section, q, k - 1);
      assert Visited(section, q, k) == Visited(section, q, k - 1) + {x};
      assert x !in Visited(section, q, k - 1);
      TargetIsAlias(section, x);
    } else {
      assert Visited(section, q, k) == {};
    }
  }

  /** By counting: after `count` steps the chain has ended, unless it revisits a name. */
  lemma EndsOrRevisits(section: seq<Entry>, q: Name, count: nat)
    requires RecordCount(section) <= count
    ensures Target(section, Chase(section, q, count)).None? <==> !Revisits(section, q)
  {
    if Revisits(section, q) {
      var i: nat, j: nat :| i < j && Chase(section, q, i) == Chase(section, q, j)
                            && Target(section, Chase(section, q, i)).Some?;
      CycleNeverEnds(section, q, i, j, count);
    } else if Target(section, Chase(section, q, count)).Some? {
      forall i | 0 <= i <= count ensures Target(section, Chase(section, q, i)).Some? {
        if Target(section, Chase(section, q, i)).None? {
          Settles(section, q, i, count);
        }
      }
      AliasesAreFew(section);
      VisitedGrows(section, q, count + 1);
      SubsetSize(Visited(section, q, count + 1), Aliases(section));
    }
  }

  lemma CycleNeverEnds(section: seq<Entry>, q: Name, i: nat, j: nat, k: nat)
    requires i < j && Chase(section, q, i) == Chase(section, q, j)
    requires Target(section, Chase(section, q, i)).Some?
    ensures Target(section, Chase(section, q, k)).Some?
  {
    if Target(section, Chase(section, q, k)).None? {
      if k <= i {
        Settles(section, q, k, i);
      } else {
        AllOnCycle(section, q, i, j, k);
      }
    }
  }

  /** Past the first repetition the chain only meets names of the cycle, all of which have a CNAME. */
  lemma {:induction false} AllOnCycle(section: seq<Entry>, q: Name, i: nat, j: nat, k: nat)
    requires i < j && i <= k && Chase(section, q, i) == Chase(section, q, j)
    requires Target(section, Chase(section, q, i)).Some?
    ensures Target(section, Chase(section, q, k)).Some?
    decreases k
  {
    if k < j {
      if Target(section, Chase(section, q, k)).None? {
        Settles(section, q, k, j);
      }
    } else {
      Repeats(section, q, i, j, k - j);
      AllOnCycle(section, q, i, j, i + (k - j));
    }
  }

  /** A CNAME that points at its own owner: the chase ends on a name that still has a CNAME. */
  lemma OwnTarget()
    ensures var section := [Entry([[1]], [CnameSet([[[1]]])])];
            && RecordCount(section) == 1 && Revisits(section, [[1]])
            && Target(section, Chase(section, [[1]], 1)) == Some([[1]])
  {
    var section := [Entry([[1]], [CnameSet([[[1]]])])];
    assert RecordCount(section[..0]) == 0 && SetCount([]) == 0;
    assert SetCount(section[0].sets) == 1;
    assert Target(section, [[1]]) == Some([[1]]);
    assert Chase(section, [[1]], 0) == Chase(section, [[1]], 1) == [[1]];
  }

  /** The target is the first of the last CNAME set of the last entry for the name. */
  lemma {:induction false} TargetIs(section: seq<Entry>, q: Name, i: nat, j: nat)
    requires i < |section| && section[i].owner == q && forall x :: i < x < |section| ==> section[x].owner != q
    requires j < |section[i].sets| && section[i].sets[j].CnameSet? && section[i].sets[j].targets != []
    requires forall y :: j < y < |section[i].sets| ==>
               section[i].sets[y].CnameSet? ==> section[i].sets[y].targets == []
    ensures Target(section, q) == Some(section[i].sets[j].targets[0])
    decreases |section|
  {
    var n := |section| - 1;
    if i == n {
      FindTypeIs(section[n].sets, j);
    } else {
      TargetIs(section[..n], q, i, j);
    }
  }

  lemma {:induction false} FindTypeIs(sets: seq<RRset>, j: nat)
    requires j < |sets| && sets[j].CnameSet? && sets[j].targets != []
    requires forall y :: j < y < |sets| ==> sets[y].CnameSet? ==> sets[y].targets == []
    ensures FindType(sets) == Some(sets[j].targets[0])
  {
    if j < |sets| - 1 {
      FindTypeIs(sets[..|sets| - 1], j);
    }
  }
}
