/**
  The signer's work distributor (`assignwork`, `startworker`, `sign`, `writenode`,
  bin/dnssec/dnssec-signzone.c) as a state machine over the events of its tasks.
 */
module SignerTasks {
  import opened Names
  import opened Zone

  /** The iterator's nodes: the first `plain` of them are the ordinary tree, the rest the NSEC3 tree. */
  datatype Job = Job(origin: Name, nodes: seq<Node>, plain: nat, mode: Denial, optOut: bool, ntasks: nat)

  /** A worker task: to be started, signing a node, waiting for the node to be written, or done. */
  datatype Worker = Waiting | Signing(node: nat) | Writing(node: nat) | Ended

  datatype State = State(pos: nat, finished: bool, ended: nat, cut: Option<Name>, workers: seq<Worker>,
                         dumped: seq<nat>, sent: seq<nat>, signed: seq<nat>, shutdowns: nat)

  ghost predicate JobOk(job: Job, o: nat) {
    && 0 < job.ntasks
    && job.plain <= |job.nodes|
    && ZoneOk(job.origin, job.nodes[..job.plain])
    && o < job.plain
    && forall i :: 0 <= i < |job.nodes| ==> (job.nodes[i].name == job.origin <==> i == o)
  }

  /** The nodes of the ordinary tree that must be signed: zone data, not glue and not out of zone. */
  ghost predicate Wanted(job: Job, i: nat)
    requires i < job.plain <= |job.nodes|
  {
    if job.mode.UseNsec? then Has(job.nodes[i], NSEC)
    else
      && InZone(job.origin, job.nodes[i])
      && !Occluded(job.origin, job.nodes[..job.plain], job.nodes[i].name)
      && !OptedOut(job.origin, job.nodes[i], job.optOut)
  }

  // ----- the search for the next node to sign

  /** Whether a node needs signing, and the zone cut after it. */
  function Decide(job: Job, n: Node, cut: Option<Name>): (bool, Option<Name>) {
    if Has(n, if job.mode.UseNsec? then NSEC else NSEC3) then (true, cut)
    else if job.mode.UseNsec3? && InZone(job.origin, n) && !BelowCut(n.name, cut) then
      if IsDelegation(job.origin, n) then (!job.optOut || Has(n, DS), Some(n.name)) else (true, cut)
    else (false, cut)
  }

  /** The node found, if any, the position and zone cut reached, and the nodes dumped on the way. */
  datatype Scan = Scan(found: Option<nat>, pos: nat, cut: Option<Name>, skipped: seq<nat>)

  function After(skipped: seq<nat>, r: Scan): Scan { r.(skipped := skipped + r.skipped) }

  function ScanFrom(job: Job, pos: nat, cut: Option<Name>): (r: Scan)
    requires pos <= |job.nodes|
    ensures pos <= r.pos <= |job.nodes| && (r.found.Some? ==> pos < r.pos)
    ensures r.found.None? ==> r.pos == |job.nodes|
    decreases |job.nodes| - pos
  {
    if pos == |job.nodes| then Scan(None, pos, cut, [])
    else if job.nodes[pos].name == job.origin then ScanFrom(job, pos + 1, cut)
    else
      var (found, cut') := Decide(job, job.nodes[pos], cut);
      if found then Scan(Some(pos), pos + 1, cut', []) else After([pos], ScanFrom(job, pos + 1, cut'))
  }

  method FindWork(job: Job, start: nat, startCut: Option<Name>)
    returns (found: Option<nat>, pos: nat, cut: Option<Name>, skipped: seq<nat>)
    requires start < |job.nodes|
    ensures Scan(found, pos, cut, skipped) == ScanFrom(job, start, startCut)
  {
    hide Decide;
    found, pos, cut, skipped := None, start, startCut, [];
    var finished := false;
    while found.None? && !finished
      invariant pos <= |job.nodes| && (finished <==> pos == |job.nodes|)
      invariant found.None? ==> After(skipped, ScanFrom(job, pos, cut)) == ScanFrom(job, start, startCut)
      invariant found.Some? ==> Scan(found, pos, cut, skipped) == ScanFrom(job, start, startCut)
      decreases |job.nodes| - pos, found.None?
    {
      if job.nodes[pos].name != job.origin {
        var (needed, cut') := Decide(job, job.nodes[pos], cut);
        cut := cut';
        if needed {
          found := Some(pos);
        } else {
          ghost var rest := ScanFrom(job, pos + 1, cut).skipped;
          assert skipped + ([pos] + rest) == skipped + [pos] + rest;
          skipped := skipped + [pos];
        }
      }
      pos := pos + 1;
      finished := pos == |job.nodes|;
    }
  }

  // ----- assignwork

  function Finish(job: Job, st: State, w: nat): State
    requires w < |st.workers|
  {
    st.(ended := st.ended + 1, workers := st.workers[w := Ended],
    shutdowns := st.shutdowns + if st.ended + 1 == job.ntasks then 1 else 0)
  }

  /** The state with the iterator moved on by a scan. */
  function Moved(job: Job, st: State, r: Scan): State {
    st.(pos := r.pos, cut := r.cut, finished := r.pos == |job.nodes|, dumped := st.dumped + r.skipped)
  }

  function Send(st: State, w: nat, i: nat): State
    requires w < |st.workers|
  {
    st.(workers := st.workers[w := Signing(i)], sent := st.sent + [i])
  }

  function Assign(job: Job, st: State, w: nat): State
    requires w < |st.workers| && st.pos <= |job.nodes|
  {
    if st.finished then Finish(job, st, w)
    else
      var r := ScanFrom(job, st.pos, st.cut);
      if r.found.None? then Finish(job, Moved(job, st, r), w) else Send(Moved(job, st, r), w, r.found.value)
  }

  /** The distributor's shared variables; `workers` records what each worker was last told to do. */
  class Distributor {
    const job: Job
    var pos: nat
    var finished: bool
    var ended: nat
    var zonecut: Option<Name>
    var workers: seq<Worker>
    var dumped: seq<nat>
    var sent: seq<nat>
    var signed: seq<nat>
    var shutdowns: nat

    function Value(): State
      reads this
    {
      State(pos, finished, ended, zonecut, workers, dumped, sent, signed, shutdowns)
    }

    /** After `signapex`: the origin is written, the iterator is at the first node, no worker has started. */
    constructor (job: Job, o: nat)
      ensures this.job == job && Value() == Initial(job, o)
    {
      this.job := job;
      pos, finished, ended, zonecut, shutdowns := 0, |job.nodes| == 0, 0, None, 0;
      workers, dumped, sent, signed := seq(job.ntasks, _ => Waiting), [o], [], [];
    }

    /** The critical section of `assignwork`. */
    method AssignWork(w: nat)
      requires w < |workers| && (if finished then pos == |job.nodes| else pos < |job.nodes|)
      modifies this
      ensures Value() == Assign(job, old(Value()), w)
    {
      hide ScanFrom;
      var found: Option<nat> := None;
      if !finished {
        ghost var was := Value();
        var skipped;
        found, pos, zonecut, skipped := FindWork(job, pos, zonecut);
        finished := pos == |job.nodes|;
        dumped := dumped + skipped;
        assert Value() == Moved(job, was, ScanFrom(job, was.pos, was.cut));
      }
      if found.None? {
        workers := workers[w := Ended];
        ended := ended + 1;
        if ended == job.ntasks {
          shutdowns := shutdowns + 1;
        }
      } else {
        workers := workers[w := Signing(found.value)];
        sent := sent + [found.value];
      }
    }
  }

  // ----- the events

  datatype Event = StartWorker(w: nat) | SignDone(w: nat) | WriteDone(w: nat)

  predicate Enabled(st: State, e: Event) {
    && e.w < |st.workers|
    && match e
       case StartWorker(w) => st.workers[w].Waiting?
       case SignDone(w) => st.workers[w].Signing?
       case WriteDone(w) => st.workers[w].Writing?
  }

  /** `writenode` first writes its node; only then is the worker free for more work. */
  function Written(st: State, w: nat): State
    requires w < |st.workers| && st.workers[w].Writing?
  {
    st.(dumped := st.dumped + [st.workers[w].node], workers := st.workers[w := Waiting])
  }

  function Signed(st: State, w: nat): State
    requires w < |st.workers| && st.workers[w].Signing?
  {
    st.(signed := st.signed + [st.workers[w].node], workers := st.workers[w := Writing(st.workers[w].node)])
  }

  function Next(job: Job, st: State, e: Event): State
    requires Enabled(st, e) && st.pos <= |job.nodes|
  {
    match e
    case StartWorker(w) => Assign(job, st, w)
    case SignDone(w) => Signed(st, w)
    case WriteDone(w) => Assign(job, Written(st, w), w)
  }

  function Initial(job: Job, o: nat): State {
    State(0, |job.nodes| == 0, 0, None, seq(job.ntasks, _ => Waiting), [o], [], [], 0)
  }

  // ----- sums over the workers

  ghost function Sum(ws: seq<Worker>, f: Worker -> nat): nat {
    if ws == [] then 0 else Sum(ws[..|ws| - 1], f) + f(ws[|ws| - 1])
  }

  lemma {:induction false} SumUpdate(ws: seq<Worker>, w: nat, x: Worker, f: Worker -> nat)
    requires w < |ws|
    ensures Sum(ws[w := x], f) + f(ws[w]) == Sum(ws, f) + f(x)
  {
    var n := |ws| - 1;
    var us := ws[w := x];
    if w == n {
      assert us[..n] == ws[..n];
    } else {
      SumUpdate(ws[..n], w, x, f);
      assert us[..n] == ws[..n][w := x] && us[n] == ws[n];
    }
  }

  lemma {:induction false} SumBelow(ws: seq<Worker>, f: Worker -> nat, g: Worker -> nat)
    requires forall k :: f(k) <= g(k)
    ensures Sum(ws, f) <= Sum(ws, g)
  {
    if ws != [] {
      SumBelow(ws[..|ws| - 1], f, g);
    }
  }

  lemma {:induction false} SumZero(ws: seq<Worker>, f: Worker -> nat)
    requires forall w :: 0 <= w < |ws| ==> f(ws[w]) == 0
    ensures Sum(ws, f) == 0
  {
    if ws != [] {
      SumZero(ws[..|ws| - 1], f);
    }
  }

  /** Workers that hold node `i`, that are signing it, that have ended. */
  ghost function Holding(i: nat): Worker -> nat {
    (k: Worker) => if k == Signing(i) || k == Writing(i) then 1 else 0
  }

  ghost function SigningNow(i: nat): Worker -> nat {
    (k: Worker) => if k == Signing(i) then 1 else 0
  }

  ghost function HasEnded(): Worker -> nat {
    (k: Worker) => if k.Ended? then 1 else 0
  }

  lemma {:induction false} EndedBound(ws: seq<Worker>)
    ensures Sum(ws, HasEnded()) <= |ws|
    ensures Sum(ws, HasEnded()) == |ws| ==> forall w :: 0 <= w < |ws| ==> ws[w].Ended?
  {
    if ws != [] {
      EndedBound(ws[..|ws| - 1]);
    }
  }

  // ----- the invariant

  /** How often node `i` was sent to a worker once the iterator is at `pos`. */
  ghost predicate SentOk(job: Job, o: nat, pos: nat, i: nat, times: nat)
    requires job.plain <= |job.nodes|
  {
    && times <= 1
    && (pos <= i || i == o ==> times == 0)
    && (i < pos && i < job.plain && i != o ==> (times == 1 <==> Wanted(job, i)))
    && (job.plain <= i < pos <= |job.nodes| && Has(job.nodes[i], NSEC3) && job.mode.UseNsec3? ==> times == 1)
  }

  /** Node `i` is written at most once, and is written, or held by a worker, once the iterator has passed it. */
  ghost predicate Accounted(job: Job, o: nat, st: State, i: nat)
    requires job.plain <= |job.nodes|
  {
    && multiset(st.dumped)[i] + Sum(st.workers, Holding(i)) == (if i < st.pos || i == o then 1 else 0)
    && multiset(st.signed)[i] + Sum(st.workers, SigningNow(i)) == multiset(st.sent)[i]
    && SentOk(job, o, st.pos, i, multiset(st.sent)[i])
  }

  ghost predicate Counters(job: Job, st: State) {
    && st.pos <= |job.nodes|
    && (st.finished <==> st.pos == |job.nodes|)
    && |st.workers| == job.ntasks
    && st.ended == Sum(st.workers, HasEnded())
    && st.shutdowns == (if st.ended == job.ntasks then 1 else 0)
    && (0 < st.ended ==> st.finished)
  }

  ghost predicate CutOk(job: Job, pos: nat, cut: Option<Name>)
    requires job.plain <= |job.nodes|
  {
    job.mode.UseNsec3? && pos <= job.plain ==> CutState(job.origin, job.nodes[..job.plain], pos, cut)
  }

  ghost predicate Inv(job: Job, o: nat, st: State)
    requires job.plain <= |job.nodes|
  {
    && Counters(job, st)
    && CutOk(job, st.pos, st.cut)
    && forall i: nat :: Accounted(job, o, st, i)
  }

  // ----- what one scan does

  /** The test on one node of the ordinary tree is the declarative one, and keeps the remembered cut right. */
  lemma {:induction false} DecideIsWanted(job: Job, o: nat, pos: nat, cut: Option<Name>)
    requires JobOk(job, o) && pos < job.plain && pos != o && CutOk(job, pos, cut)
    ensures Decide(job, job.nodes[pos], cut).0 <==> Wanted(job, pos)
    ensures CutOk(job, pos + 1, Decide(job, job.nodes[pos], cut).1)
  {
    if job.mode.UseNsec3? {
      var zone := job.nodes[..job.plain];
      assert zone[pos] == job.nodes[pos];
      MostRecentCutSuffices(job.origin, zone, pos, cut);
      CutStateStep(job.origin, zone, pos, cut);
      DelegationIsActive(job.origin, zone[pos]);
    }
  }

  lemma DelegationIsActive(origin: Name, n: Node)
    ensures IsDelegation(origin, n) ==> Active(n)
  {
    if IsDelegation(origin, n) {
      assert Data(NS) in n.rrsets && IsContent(Data(NS));
    }
  }

  lemma OriginKeepsCut(job: Job, o: nat, cut: Option<Name>)
    requires JobOk(job, o) && CutOk(job, o, cut)
    ensures CutOk(job, o + 1, cut)
  {
    if job.mode.UseNsec3? {
      CutStateStep(job.origin, job.nodes[..job.plain], o, cut);
    }
  }

  lemma OriginBound(job: Job, o: nat)
    requires JobOk(job, o)
    ensures o < job.plain <= |job.nodes| && 0 < job.ntasks
  {
  }

  lemma OriginAt(job: Job, o: nat, pos: nat)
    requires JobOk(job, o) && pos < |job.nodes|
    ensures job.plain <= |job.nodes| && (job.nodes[pos].name == job.origin <==> pos == o)
  {
    hide ZoneOk;
  }

  /** One step of a scan past a node other than the origin. */
  lemma DecideStep(job: Job, o: nat, pos: nat, cut: Option<Name>)
    requires JobOk(job, o) && pos < |job.nodes| && pos != o && CutOk(job, pos, cut)
    ensures CutOk(job, pos + 1, Decide(job, job.nodes[pos], cut).1)
    ensures SentOk(job, o, pos + 1, pos, if Decide(job, job.nodes[pos], cut).0 then 1 else 0)
  {
    hide ZoneOk, Wanted;
    if pos < job.plain {
      DecideIsWanted(job, o, pos, cut);
    }
  }

  /** What a scan has done with node `i`, from `pos` on. */
  ghost predicate ScanOk(job: Job, o: nat, pos: nat, r: Scan, i: nat)
    requires job.plain <= |job.nodes|
  {
    var hit := if r.found == Some(i) then 1 else 0;
    && CutOk(job, r.pos, r.cut)
    && multiset(r.skipped)[i] + hit == (if pos <= i < r.pos && i != o then 1 else 0)
    && (pos <= i < r.pos ==> SentOk(job, o, r.pos, i, hit))
  }

  /** Every node a scan passes is dumped, found, or the origin; it stops at the first wanted one. */
  lemma {:induction false} ScanAccounts(job: Job, o: nat, pos: nat, cut: Option<Name>, i: nat)
    requires JobOk(job, o) && pos <= |job.nodes| && CutOk(job, pos, cut)
    ensures job.plain <= |job.nodes| && ScanOk(job, o, pos, ScanFrom(job, pos, cut), i)
    decreases |job.nodes| - pos
  {
    hide JobOk, CutOk, Decide, SentOk, ScanOk, After;
    OriginBound(job, o);
    if pos == |job.nodes| {
      ScanNothing(job, o, pos, cut, i);
    } else if pos == o {
      OriginKeepsCut(job, o, cut);
      ScanAccounts(job, o, pos + 1, cut, i);
      ScanPastOrigin(job, o, cut, i);
    } else {
      DecideStep(job, o, pos, cut);
      ScanAccounts(job, o, pos + 1, Decide(job, job.nodes[pos], cut).1, i);
      ScanPastNode(job, o, pos, cut, i);
    }
  }

  lemma ScanPastOrigin(job: Job, o: nat, cut: Option<Name>, i: nat)
    requires JobOk(job, o) && o < job.plain <= |job.nodes|
    requires ScanOk(job, o, o + 1, ScanFrom(job, o + 1, cut), i)
    ensures ScanOk(job, o, o, ScanFrom(job, o, cut), i)
  {
    hide JobOk, SentOk, ScanOk;
    OriginAt(job, o, o);
    ScanOrigin(job, o, ScanFrom(job, o + 1, cut), i);
  }

  lemma ScanPastNode(job: Job, o: nat, pos: nat, cut: Option<Name>, i: nat)
    requires JobOk(job, o) && job.plain <= |job.nodes| && pos < |job.nodes| && pos != o
    requires var d := Decide(job, job.nodes[pos], cut);
             && CutOk(job, pos + 1, d.1) && SentOk(job, o, pos + 1, pos, if d.0 then 1 else 0)
             && ScanOk(job, o, pos + 1, ScanFrom(job, pos + 1, d.1), i)
    ensures ScanOk(job, o, pos, ScanFrom(job, pos, cut), i)
  {
    hide JobOk, CutOk, Decide, SentOk, ScanOk, After;
    OriginAt(job, o, pos);
    var d := Decide(job, job.nodes[pos], cut);
    if d.0 {
      ScanHit(job, o, pos, d.1, i);
    } else {
      ScanSkip(job, o, pos, ScanFrom(job, pos + 1, d.1), i);
    }
  }

  lemma ScanNothing(job: Job, o: nat, pos: nat, cut: Option<Name>, i: nat)
    requires job.plain <= |job.nodes| == pos && CutOk(job, pos, cut)
    ensures ScanOk(job, o, pos, ScanFrom(job, pos, cut), i)
  {
    hide CutOk;
  }

  lemma ScanHit(job: Job, o: nat, pos: nat, cut: Option<Name>, i: nat)
    requires job.plain <= |job.nodes| && CutOk(job, pos + 1, cut) && pos != o && SentOk(job, o, pos + 1, pos, 1)
    ensures ScanOk(job, o, pos, Scan(Some(pos), pos + 1, cut, []), i)
  {
    hide CutOk, SentOk;
  }

  lemma ScanOrigin(job: Job, o: nat, r: Scan, i: nat)
    requires o < job.plain <= |job.nodes| && ScanOk(job, o, o + 1, r, i) && o < r.pos
    ensures ScanOk(job, o, o, r, i)
  {
    hide CutOk, Wanted, Has;
  }

  lemma ScanSkip(job: Job, o: nat, pos: nat, r: Scan, i: nat)
    requires job.plain <= |job.nodes| && ScanOk(job, o, pos + 1, r, i) && pos < r.pos <= |job.nodes|
    requires pos != o && SentOk(job, o, pos + 1, pos, 0)
    ensures ScanOk(job, o, pos, After([pos], r), i)
  {
    hide CutOk, Wanted, Has;
    assert multiset([pos] + r.skipped) == multiset([pos]) + multiset(r.skipped);
  }

  // ----- every event keeps the invariant

  lemma FinishKeeps(job: Job, o: nat, st: State, w: nat)
    requires job.plain <= |job.nodes| && Inv(job, o, st) && w < |st.workers|
    requires st.finished && st.workers[w].Waiting?
    ensures Inv(job, o, Finish(job, st, w))
  {
    hide SentOk, CutOk;
    SumUpdate(st.workers, w, Ended, HasEnded());
    EndedBound(st.workers[w := Ended]);
    forall i: nat ensures Accounted(job, o, Finish(job, st, w), i) {
      assert Accounted(job, o, st, i);
      SumUpdate(st.workers, w, Ended, Holding(i));
      SumUpdate(st.workers, w, Ended, SigningNow(i));
    }
  }

  /** A worker takes up node `n`, just passed by the iterator. */
  lemma SendAccounts(job: Job, o: nat, st: State, w: nat, r: Scan, i: nat)
    requires job.plain <= |job.nodes| && Accounted(job, o, st, i) && ScanOk(job, o, st.pos, r, i)
    requires w < |st.workers| && st.workers[w].Waiting? && st.pos <= r.pos
    ensures r.found.None? ==> Accounted(job, o, Moved(job, st, r), i)
    ensures r.found.Some? ==> Accounted(job, o, Send(Moved(job, st, r), w, r.found.value), i)
  {
    hide Wanted, CutOk, Has;
    if r.found.Some? {
      var n := r.found.value;
      SumUpdate(st.workers, w, Signing(n), Holding(i));
      SumUpdate(st.workers, w, Signing(n), SigningNow(i));
      assert multiset(st.sent + [n]) == multiset(st.sent) + multiset{n};
    }
  }

  /** Assigning work to an idle worker keeps the invariant. */
  lemma AssignKeeps(job: Job, o: nat, st: State, w: nat)
    requires JobOk(job, o) && Inv(job, o, st) && w < |st.workers| && st.workers[w].Waiting?
    ensures Inv(job, o, Assign(job, st, w))
  {
    hide JobOk, CutOk, ScanFrom, Accounted;
    OriginBound(job, o);
    if st.finished {
      FinishKeeps(job, o, st, w);
    } else {
      var r := ScanFrom(job, st.pos, st.cut);
      forall i: nat
        ensures r.found.None? ==> Accounted(job, o, Moved(job, st, r), i)
        ensures r.found.Some? ==> Accounted(job, o, Send(Moved(job, st, r), w, r.found.value), i)
      {
        ScanAccounts(job, o, st.pos, st.cut, i);
        SendAccounts(job, o, st, w, r, i);
      }
      ScanAccounts(job, o, st.pos, st.cut, 0);
      if r.found.None? {
        FinishKeeps(job, o, Moved(job, st, r), w);
      } else {
        SumUpdate(st.workers, w, Signing(r.found.value), HasEnded());
        EndedBound(st.workers);
        EndedBound(st.workers[w := Signing(r.found.value)]);
      }
    }
  }

  lemma SignedKeeps(job: Job, o: nat, st: State, w: nat)
    requires job.plain <= |job.nodes| && Inv(job, o, st) && w < |st.workers| && st.workers[w].Signing?
    ensures Inv(job, o, Signed(st, w))
  {
    hide SentOk, CutOk;
    var n := st.workers[w].node;
    SumUpdate(st.workers, w, Writing(n), HasEnded());
    forall i: nat ensures Accounted(job, o, Signed(st, w), i) {
      assert Accounted(job, o, st, i);
      SumUpdate(st.workers, w, Writing(n), Holding(i));
      SumUpdate(st.workers, w, Writing(n), SigningNow(i));
      assert multiset(st.signed + [n]) == multiset(st.signed) + multiset{n};
    }
  }

  lemma WrittenKeeps(job: Job, o: nat, st: State, w: nat)
    requires job.plain <= |job.nodes| && Inv(job, o, st) && w < |st.workers| && st.workers[w].Writing?
    ensures Inv(job, o, Written(st, w))
  {
    hide SentOk, CutOk;
    var n := st.workers[w].node;
    SumUpdate(st.workers, w, Waiting, HasEnded());
    forall i: nat ensures Accounted(job, o, Written(st, w), i) {
      assert Accounted(job, o, st, i);
      SumUpdate(st.workers, w, Waiting, Holding(i));
      SumUpdate(st.workers, w, Waiting, SigningNow(i));
      assert multiset(st.dumped + [n]) == multiset(st.dumped) + multiset{n};
    }
  }

  lemma InitialInv(job: Job, o: nat)
    requires JobOk(job, o)
    ensures Inv(job, o, Initial(job, o))
  {
    hide ZoneOk;
    var st := Initial(job, o);
    SumZero(st.workers, HasEnded());
    forall i: nat ensures Accounted(job, o, st, i) {
      SumZero(st.workers, Holding(i));
      SumZero(st.workers, SigningNow(i));
    }
  }

  lemma EventKeeps(job: Job, o: nat, st: State, e: Event)
    requires JobOk(job, o) && Inv(job, o, st) && Enabled(st, e)
    ensures Inv(job, o, Next(job, st, e))
  {
    hide JobOk, Inv, Assign;
    OriginBound(job, o);
    match e
    case StartWorker(w) => AssignKeeps(job, o, st, w);
    case SignDone(w) =>
      SignedKeeps(job, o, st, w);
    case WriteDone(w) =>
      WrittenKeeps(job, o, st, w);
      AssignKeeps(job, o, Written(st, w), w);
  }

  // ----- whole runs

  /** `sts` is a run: it starts after `signapex`, and each state comes from the one before by an enabled event. */
  ghost predicate Run(job: Job, o: nat, sts: seq<State>, events: seq<Event>) {
    && |sts| == |events| + 1
    && sts[0] == Initial(job, o)
    && forall t :: 0 <= t < |events| ==>
         Enabled(sts[t], events[t]) && sts[t].pos <= |job.nodes| && sts[t + 1] == Next(job, sts[t], events[t])
  }

  lemma {:induction false} RunKeeps(job: Job, o: nat, sts: seq<State>, events: seq<Event>, t: nat)
    requires JobOk(job, o) && Run(job, o, sts, events) && t < |sts|
    ensures job.plain <= |job.nodes| && Inv(job, o, sts[t])
  {
    hide JobOk, Inv, Next, Enabled;
    OriginBound(job, o);
    if t == 0 {
      InitialInv(job, o);
    } else {
      RunKeeps(job, o, sts, events, t - 1);
      EventKeeps(job, o, sts[t - 1], events[t - 1]);
    }
  }

  /**
    In every state of every interleaving, shutdown has been triggered at most once, no node has been
    written twice, and a node sent to a worker is written only after it was signed.
   */
  lemma RunIsSafe(job: Job, o: nat, sts: seq<State>, events: seq<Event>, t: nat, i: nat)
    requires JobOk(job, o) && Run(job, o, sts, events) && t < |sts|
    ensures sts[t].shutdowns <= 1
    ensures multiset(sts[t].dumped)[i] <= 1
    ensures multiset(sts[t].sent)[i] <= 1
    ensures i in sts[t].dumped && i in sts[t].sent ==> i in sts[t].signed
  {
    hide JobOk, Run, CutOk;
    RunKeeps(job, o, sts, events, t);
    assert Accounted(job, o, sts[t], i);
    SumBelow(sts[t].workers, SigningNow(i), Holding(i));
  }

  /** What holds of node `i` when the application has been told to shut down. */
  ghost predicate Complete(job: Job, o: nat, st: State, i: nat)
    requires job.plain <= |job.nodes|
  {
    && multiset(st.dumped)[i] == (if i < |job.nodes| then 1 else 0)
    && multiset(st.signed)[i] == multiset(st.sent)[i]
    && SentOk(job, o, |job.nodes|, i, multiset(st.sent)[i])
  }

  lemma ShutdownMeansComplete(job: Job, o: nat, st: State, i: nat)
    requires JobOk(job, o) && job.plain <= |job.nodes| && Inv(job, o, st) && st.shutdowns != 0
    ensures Complete(job, o, st, i)
    ensures forall e :: !Enabled(st, e)
  {
    hide JobOk, CutOk, Wanted, Has;
    OriginBound(job, o);
    assert Accounted(job, o, st, i);
    EndedBound(st.workers);
    SumZero(st.workers, Holding(i));
    SumZero(st.workers, SigningNow(i));
  }

  // ----- progress

  ghost function Weight(): Worker -> nat {
    (k: Worker) => match k case Waiting => 1 case Signing(_) => 3 case Writing(_) => 2 case Ended => 0
  }

  /** Every event makes this smaller. */
  ghost function Rest(job: Job, st: State): int { 4 * (|job.nodes| - st.pos) + Sum(st.workers, Weight()) }

  lemma EventProgresses(job: Job, o: nat, st: State, e: Event)
    requires job.plain <= |job.nodes| && Inv(job, o, st) && Enabled(st, e)
    ensures Rest(job, Next(job, st, e)) < Rest(job, st)
  {
    hide Accounted, CutOk;
    var w := e.w;
    match e
    case StartWorker(_) => AssignProgresses(job, st, w);
    case SignDone(_) => SumUpdate(st.workers, w, Writing(st.workers[w].node), Weight());
    case WriteDone(_) =>
      SumUpdate(st.workers, w, Waiting, Weight());
      AssignProgresses(job, Written(st, w), w);
  }

  lemma AssignProgresses(job: Job, st: State, w: nat)
    requires w < |st.workers| && st.pos <= |job.nodes| && st.workers[w].Waiting?
    ensures Rest(job, Assign(job, st, w)) < Rest(job, st)
  {
    SumUpdate(st.workers, w, Ended, Weight());
    if !st.finished {
      var r := ScanFrom(job, st.pos, st.cut);
      hide ScanFrom;
      if r.found.Some? {
        SumUpdate(st.workers, w, Signing(r.found.value), Weight());
      }
    }
  }

  /** Until shutdown some event is always enabled. */
  lemma NoDeadlock(job: Job, o: nat, st: State) returns (e: Event)
    requires job.plain <= |job.nodes| && Inv(job, o, st) && st.shutdowns == 0
    ensures Enabled(st, e)
  {
    hide Accounted, CutOk;
    if w :| 0 <= w < |st.workers| && !st.workers[w].Ended? {
      e := if st.workers[w].Waiting? then StartWorker(w)
           else if st.workers[w].Signing? then SignDone(w) else WriteDone(w);
    } else {
      AllEnded(st.workers);
    }
  }

  lemma {:induction false} AllEnded(ws: seq<Worker>)
    requires forall w :: 0 <= w < |ws| ==> ws[w].Ended?
    ensures Sum(ws, HasEnded()) == |ws|
  {
    if ws != [] {
      AllEnded(ws[..|ws| - 1]);
    }
  }

  lemma {:induction false} RestAlong(job: Job, o: nat, sts: seq<State>, events: seq<Event>, t: nat)
    requires JobOk(job, o) && Run(job, o, sts, events) && t < |sts|
    ensures Rest(job, sts[t]) + t <= Rest(job, sts[0])
  {
    hide JobOk, Inv, Next, Enabled, Rest;
    if 0 < t {
      RestAlong(job, o, sts, events, t - 1);
      RunKeeps(job, o, sts, events, t - 1);
      EventProgresses(job, o, sts[t - 1], events[t - 1]);
    }
  }

  lemma {:induction false} WaitingWeight(ws: seq<Worker>)
    requires forall w :: 0 <= w < |ws| ==> ws[w].Waiting?
    ensures Sum(ws, Weight()) == |ws|
  {
    if ws != [] {
      WaitingWeight(ws[..|ws| - 1]);
    }
  }

  /**
    Every run is finite, and one that cannot go on has triggered shutdown exactly once, with every node
    of the iterator written exactly once and every node sent to a worker signed exactly once.
   */
  lemma EveryRunEnds(job: Job, o: nat, sts: seq<State>, events: seq<Event>)
    requires JobOk(job, o) && Run(job, o, sts, events)
    ensures |events| <= 4 * |job.nodes| + job.ntasks
    ensures var last := sts[|events|];
            (forall e :: !Enabled(last, e)) <==> last.shutdowns == 1
    ensures var last := sts[|events|];
            last.shutdowns == 1 ==> job.plain <= |job.nodes| && forall i: nat :: Complete(job, o, last, i)
  {
    var last := sts[|events|];
    RestAlong(job, o, sts, events, |events|);
    WaitingWeight(sts[0].workers);
    RunKeeps(job, o, sts, events, |events|);
    hide JobOk, Run, Accounted, CutOk, Complete;
    if last.shutdowns == 0 {
      var e := NoDeadlock(job, o, last);
    } else {
      forall i: nat ensures Complete(job, o, last, i) && forall e :: !Enabled(last, e) {
        ShutdownMeansComplete(job, o, last, i);
      }
      ShutdownMeansComplete(job, o, last, 0);
    }
  }
}
