/**
  When a zone transfer is complete (`check_for_more_data`, bin/dig/dighost.c): the state kept across
  messages decides, record by record, whether an AXFR or IXFR reply has ended.
 */
module Transfer {
  import opened Serials

  datatype Record = Soa(serial: Serial) | Other

  datatype Verdict = NeedMore | Complete | Broken

  /** What was asked for: an AXFR, or an IXFR from a serial. */
  datatype Request = Axfr | Ixfr(from: Serial)

  /** The fields of `dig_query_t` that survive from one message to the next. */
  datatype State = State(firstSoa: bool, secondRr: bool, firstRepeat: bool, asAxfr: bool, firstSerial: Serial)

  const START := State(false, false, false, false, 0)

  /** One record. */
  function Step(req: Request, s: State, rr: Record): (r: (State, Verdict)) {
    match rr
    case Other =>
      if !s.firstSoa then (s, Broken)
      else if !s.secondRr then (s.(secondRr := true, asAxfr := true), NeedMore)
      else (s, NeedMore)
    case Soa(serial) =>
      if !s.firstSoa then
        (s.(firstSoa := true, firstSerial := serial),
         if req.Ixfr? && SerialGe(req.from, serial) then Complete else NeedMore)
      else if req.Axfr? || s.asAxfr then (s, Complete)
      else if !s.secondRr then
        if serial == s.firstSerial then (s, Complete) else (s.(secondRr := true), NeedMore)
      else if serial == s.firstSerial then
        if s.firstRepeat then (s, Complete) else (s.(firstRepeat := true), NeedMore)
      else (s, NeedMore)
  }

  /** How far a run got: the state, the verdict and the number of records consumed. */
  datatype Run = Run(state: State, verdict: Verdict, used: nat)

  /** Records one after the other, until one settles the matter. */
  function RunRecords(req: Request, s: State, rrs: seq<Record>): (r: Run)
    ensures r.used <= |rrs| && (r.verdict == NeedMore ==> r.used == |rrs|)
    decreases |rrs|
  {
    if rrs == [] then Run(s, NeedMore, 0)
    else
      var (s1, v) := Step(req, s, rrs[0]);
      if v != NeedMore then Run(s1, v, 1)
      else
        var r := RunRecords(req, s1, rrs[1..]);
        r.(used := r.used + 1)
  }

  class Query {
    const req: Request
    var first_soa_rcvd: bool
    var second_rr_rcvd: bool
    var first_repeat_rcvd: bool
    var ixfr_axfr: bool
    var first_rr_serial: Serial
    var second_rr_serial: Serial
    var rr_count: nat
    var msg_count: nat

    constructor (req: Request)
      ensures this.req == req && Current() == START && rr_count == 0 && msg_count == 0
    {
      this.req := req;
      first_soa_rcvd, second_rr_rcvd, first_repeat_rcvd, ixfr_axfr := false, false, false, false;
      first_rr_serial, second_rr_serial, rr_count, msg_count := 0, 0, 0, 0;
    }

    function Current(): State
      reads this
    {
      State(first_soa_rcvd, second_rr_rcvd, first_repeat_rcvd, ixfr_axfr, first_rr_serial)
    }

    /** The body of the innermost loop, for one record. */
    method OneRecord(rr: Record, axfr: bool) returns (v: Verdict, axfr': bool)
      requires axfr == (req.Axfr? || ixfr_axfr)
      modifies this
      ensures (Current(), v) == Step(req, old(Current()), rr)
      ensures axfr' == (req.Axfr? || ixfr_axfr)
      ensures rr_count == old(rr_count) + 1 && msg_count == old(msg_count)
    {
      axfr' := axfr;
      rr_count := rr_count + 1;
      if !first_soa_rcvd && !rr.Soa? {
        return Broken, axfr';
      }
      if !second_rr_rcvd && !rr.Soa? {
        second_rr_rcvd := true;
        second_rr_serial := 0;
        ixfr_axfr := true;
        axfr' := true;
        return NeedMore, axfr';
      }
      if !rr.Soa? {
        return NeedMore, axfr';
      }
      var serial := rr.serial;
      if !first_soa_rcvd {
        first_soa_rcvd := true;
        first_rr_serial := serial;
        if req.Ixfr? && SerialGe(req.from, serial) {
          return Complete, axfr';
        }
        return NeedMore, axfr';
      }
      if axfr' {
        return Complete, axfr';
      }
      if !second_rr_rcvd {
        if first_rr_serial == serial {
          return Complete, axfr';
        }
        second_rr_rcvd := true;
        second_rr_serial := serial;
        return NeedMore, axfr';
      }
      if first_rr_serial == serial {
        if !first_repeat_rcvd {
          first_repeat_rcvd := true;
          return NeedMore, axfr';
        }
        return Complete, axfr';
      }
      v := NeedMore;
    }

    /** `check_for_more_data` for one message; a message without answer records breaks the transfer. */
    method CheckForMoreData(msg: seq<Record>) returns (v: Verdict)
      modifies this
      ensures msg == [] ==> v == Broken && Current() == old(Current()) && rr_count == old(rr_count)
      ensures msg != [] ==>
                var r := RunRecords(req, old(Current()), msg);
                v == r.verdict && Current() == r.state && rr_count == old(rr_count) + r.used
      ensures msg_count == old(msg_count) + 1
    {
      var axfr := req.Axfr? || ixfr_axfr;
      msg_count := msg_count + 1;
      if msg == [] {
        return Broken;
      }
      v := NeedMore;
      ghost var all := RunRecords(req, Current(), msg);
      var i := 0;
      while i < |msg|
        invariant 0 <= i <= |msg| && msg_count == old(msg_count) + 1
        invariant axfr == (req.Axfr? || ixfr_axfr)
        invariant rr_count == old(rr_count) + i
        invariant var r := RunRecords(req, Current(), msg[i..]); all == r.(used := r.used + i)
      {
        v, axfr := OneRecord(msg[i], axfr);
        if v != NeedMore {
          return;
        }
        assert msg[i..][1..] == msg[i + 1..];
        i := i + 1;
      }
      v := NeedMore;
    }
  }

  // ----- how the stream is cut into messages does not matter

  lemma {:induction false} RunConcat(req: Request, s: State, a: seq<Record>, b: seq<Record>)
    ensures RunRecords(req, s, a + b)
            == (var r := RunRecords(req, s, a);
                if r.verdict != NeedMore then r
                else
                  var q := RunRecords(req, r.state, b);
                  q.(used := q.used + |a|))
    decreases |a|
  {
    if a == [] {
      assert a + b == b;
    } else {
      assert (a + b)[0] == a[0] && (a + b)[1..] == a[1..] + b;
      var (s1, v) := Step(req, s, a[0]);
      if v == NeedMore {
        RunConcat(req, s1, a[1..], b);
      }
    }
  }

  lemma RunOne(req: Request, s: State, rr: Record)
    ensures RunRecords(req, s, [rr]) == Run(Step(req, s, rr).0, Step(req, s, rr).1, 1)
  {
    hide Step;
    assert [rr][1..] == [];
  }

  lemma RunCons(req: Request, s: State, rr: Record, rest: seq<Record>)
    ensures var (s1, v) := Step(req, s, rr);
            RunRecords(req, s, [rr] + rest)
            == if v != NeedMore then Run(s1, v, 1)
               else var r := RunRecords(req, s1, rest); r.(used := r.used + 1)
  {
    hide Step;
    assert ([rr] + rest)[1..] == rest;
  }

  function Flatten(msgs: seq<seq<Record>>): seq<Record> {
    if msgs == [] then [] else msgs[0] + Flatten(msgs[1..])
  }

  lemma FlattenStep(msgs: seq<seq<Record>>, i: nat)
    requires i < |msgs|
    ensures Flatten(msgs[i..]) == msgs[i] + Flatten(msgs[i + 1..])
  {
    assert msgs[i..][0] == msgs[i] && msgs[i..][1..] == msgs[i + 1..];
  }

  /** The messages handed to `check_for_more_data` in turn, as `recv_done` does. */
  method ReceiveAll(q: Query, msgs: seq<seq<Record>>) returns (v: Verdict)
    requires forall m :: m in msgs ==> m != []
    modifies q
    ensures var r := RunRecords(q.req, old(q.Current()), Flatten(msgs));
            v == r.verdict && q.Current() == r.state && q.rr_count == old(q.rr_count) + r.used
  {
    v := NeedMore;
    ghost var all := RunRecords(q.req, q.Current(), Flatten(msgs));
    var i := 0;
    assert msgs[0..] == msgs;
    while i < |msgs|
      invariant 0 <= i <= |msgs| && old(q.rr_count) <= q.rr_count
      invariant var r := RunRecords(q.req, q.Current(), Flatten(msgs[i..]));
                all == r.(used := r.used + (q.rr_count - old(q.rr_count)))
    {
      ghost var s := q.Current();
      FlattenStep(msgs, i);
      RunConcat(q.req, s, msgs[i], Flatten(msgs[i + 1..]));
      assert msgs[i] in msgs;
      v := q.CheckForMoreData(msgs[i]);
      if v != NeedMore {
        return;
      }
      i := i + 1;
    }
    v := NeedMore;
  }

  // ----- well-formed replies

  /** The run completes, and exactly on the last record. */
  ghost predicate EndsExactly(req: Request, rrs: seq<Record>) {
    var r := RunRecords(req, START, rrs);
    r.verdict == Complete && r.used == |rrs|
  }

  ghost predicate AllOther(rrs: seq<Record>) {
    forall i :: 0 <= i < |rrs| ==> rrs[i].Other?
  }

  /** Ordinary records never end a transfer once it has started. */
  lemma {:induction false} OthersPass(req: Request, s: State, rrs: seq<Record>)
    requires s.firstSoa && AllOther(rrs)
    ensures RunRecords(req, s, rrs)
            == Run(if rrs != [] && !s.secondRr then s.(secondRr := true, asAxfr := true) else s, NeedMore, |rrs|)
    decreases |rrs|
  {
    if rrs != [] {
      OthersPass(req, Step(req, s, rrs[0]).0, rrs[1..]);
    }
  }

  /** An AXFR reply ends on the closing SOA: section 2.2 of RFC 5936. */
  lemma AxfrEnds(open: Serial, body: seq<Record>, close: Serial)
    requires AllOther(body)
    ensures EndsExactly(Axfr, [Soa(open)] + body + [Soa(close)])
  {
    var s1 := Step(Axfr, START, Soa(open)).0;
    RunConcat(Axfr, START, [Soa(open)], body);
    RunConcat(Axfr, START, [Soa(open)] + body, [Soa(close)]);
    OthersPass(Axfr, s1, body);
  }

  /** The server has nothing newer: one SOA record, and that ends it. */
  lemma UpToDateEnds(from: Serial, new_: Serial)
    ensures EndsExactly(Ixfr(from), [Soa(new_)]) <==> SerialGe(from, new_)
  {
    RunOne(Ixfr(from), START, Soa(new_));
  }

  /** A full zone in answer to an IXFR ends on the closing SOA. */
  lemma AxfrStyleEnds(from: Serial, new_: Serial, body: seq<Record>)
    requires AllOther(body) && !SerialGe(from, new_)
    ensures EndsExactly(Ixfr(from), [Soa(new_)] + body + [Soa(new_)])
  {
    var req := Ixfr(from);
    var s1 := Step(req, START, Soa(new_)).0;
    RunConcat(req, START, [Soa(new_)], body);
    RunConcat(req, START, [Soa(new_)] + body, [Soa(new_)]);
    OthersPass(req, s1, body);
  }

  /** One difference sequence: section 4 of RFC 1995. */
  datatype Difference = Difference(old_: Serial, deleted: seq<Record>, new_: Serial, added: seq<Record>)

  function DifferenceRecords(d: Difference): seq<Record> {
    [Soa(d.old_)] + AfterOld(d)
  }

  function AfterOld(d: Difference): seq<Record> {
    d.deleted + [Soa(d.new_)] + d.added
  }

  function AllDifferences(ds: seq<Difference>): seq<Record> {
    if ds == [] then [] else DifferenceRecords(ds[0]) + AllDifferences(ds[1..])
  }

  /** A condensed history: each difference starts where the one before ended, the last ends at `new_`. */
  ghost predicate WellFormed(ds: seq<Difference>, new_: Serial) {
    && ds != [] && ds[|ds| - 1].new_ == new_
    && (forall i :: 0 <= i < |ds| ==> AllOther(ds[i].deleted) && AllOther(ds[i].added))
    && forall i :: 0 <= i < |ds| - 1 ==> ds[i].new_ == ds[i + 1].old_
  }

  function IncrementalReply(ds: seq<Difference>, new_: Serial): seq<Record> {
    [Soa(new_)] + AllDifferences(ds) + [Soa(new_)]
  }

  /** Inside an incremental reply, having seen the new serial once, or once more. */
  function Inside(new_: Serial, repeated: bool): State { State(true, true, repeated, false, new_) }

  lemma RunAfterOld(req: Request, d: Difference, new_: Serial)
    requires req.Ixfr? && AllOther(d.deleted) && AllOther(d.added)
    ensures RunRecords(req, Inside(new_, false), AfterOld(d))
            == Run(Inside(new_, d.new_ == new_), NeedMore, |AfterOld(d)|)
  {
    var s := Inside(new_, false);
    var s' := Inside(new_, d.new_ == new_);
    OthersPass(req, s, d.deleted);
    RunConcat(req, s, d.deleted, [Soa(d.new_)]);
    RunConcat(req, s, d.deleted + [Soa(d.new_)], d.added);
    OthersPass(req, s', d.added);
  }

  /** The reply from just after the first old serial. */
  function TailOf(ds: seq<Difference>, new_: Serial): seq<Record>
    requires ds != []
  {
    AfterOld(ds[0]) + (AllDifferences(ds[1..]) + [Soa(new_)])
  }

  /** From just after the first old serial to the end: exact unless an intermediate serial equals the new one. */
  lemma {:induction false} TailEnds(req: Request, ds: seq<Difference>, new_: Serial)
    requires req.Ixfr? && WellFormed(ds, new_)
    ensures var r := RunRecords(req, Inside(new_, false), TailOf(ds, new_));
            && r.verdict == Complete
            && (r.used == |TailOf(ds, new_)| <==> forall i :: 0 < i < |ds| ==> ds[i].old_ != new_)
  {
    var d, rest := ds[0], ds[1..];
    var s, s' := Inside(new_, false), Inside(new_, d.new_ == new_);
    var more := AllDifferences(rest) + [Soa(new_)];
    RunAfterOld(req, d, new_);
    RunConcat(req, s, AfterOld(d), more);
    if rest == [] {
      assert more == [Soa(new_)];
      RunOne(req, s', Soa(new_));
    } else {
      assert more == [Soa(rest[0].old_)] + TailOf(rest, new_) by { TailShape(rest, new_); }
      RunCons(req, s', Soa(rest[0].old_), TailOf(rest, new_));
      TailNotEmpty(rest, new_);
      assert d.new_ == rest[0].old_ == ds[1].old_;
      if d.new_ != new_ {
        WellFormedTail(ds, new_);
        TailEnds(req, rest, new_);
      }
    }
  }

  lemma TailShape(ds: seq<Difference>, new_: Serial)
    requires ds != []
    ensures AllDifferences(ds) + [Soa(new_)] == [Soa(ds[0].old_)] + TailOf(ds, new_)
  {
    hide AfterOld;
    assert AllDifferences(ds) == [Soa(ds[0].old_)] + AfterOld(ds[0]) + AllDifferences(ds[1..]);
  }

  lemma WellFormedTail(ds: seq<Difference>, new_: Serial)
    requires WellFormed(ds, new_) && 1 < |ds|
    ensures WellFormed(ds[1..], new_)
    ensures (forall i :: 0 < i < |ds| ==> ds[i].old_ != new_)
            <==> ds[1].old_ != new_ && forall i :: 0 < i < |ds[1..]| ==> ds[1..][i].old_ != new_
  {
    var rest := ds[1..];
    assert forall i :: 0 <= i < |rest| ==> rest[i] == ds[i + 1];
    assert forall i :: 1 <= i < |ds| ==> ds[i] == rest[i - 1];
  }

  /**
    An incremental reply is recognised as complete exactly on its final record if and only if no
    intermediate serial equals the new one; otherwise the transfer is cut short.
   */
  lemma IncrementalEnds(from: Serial, ds: seq<Difference>, new_: Serial)
    requires WellFormed(ds, new_) && !SerialGe(from, new_)
    ensures EndsExactly(Ixfr(from), IncrementalReply(ds, new_)) <==> forall i :: 0 <= i < |ds| ==> ds[i].old_ != new_
  {
    var req, d := Ixfr(from), ds[0];
    var tail := TailOf(ds, new_);
    var s1 := State(true, false, false, false, new_);
    ReplyShape(ds, new_);
    RunCons(req, START, Soa(new_), [Soa(d.old_)] + tail);
    RunCons(req, s1, Soa(d.old_), tail);
    TailEnds(req, ds, new_);
    assert Step(req, START, Soa(new_)) == (s1, NeedMore);
    assert Step(req, s1, Soa(d.old_)) == if d.old_ == new_ then (s1, Complete) else (Inside(new_, false), NeedMore);
    hide Step, SerialGe, TailOf, IncrementalReply;
    assert |IncrementalReply(ds, new_)| == |tail| + 2;
    assert 1 <= |tail| by { TailNotEmpty(ds, new_); }
  }

  lemma TailNotEmpty(ds: seq<Difference>, new_: Serial)
    requires ds != []
    ensures TailOf(ds, new_) != []
  {
  }

  lemma ReplyShape(ds: seq<Difference>, new_: Serial)
    requires ds != []
    ensures IncrementalReply(ds, new_) == [Soa(new_)] + ([Soa(ds[0].old_)] + TailOf(ds, new_))
  {
    hide AfterOld;
    assert AllDifferences(ds) == [Soa(ds[0].old_)] + AfterOld(ds[0]) + AllDifferences(ds[1..]);
  }

  /**
    Why the condition is there: serial 3 comes round again after three legal increases, and the
    transfer of the history from 1 is cut short at its first occurrence.
   */
  lemma ShortCut()
    ensures var ds := [Difference(1, [], 3, []), Difference(3, [], 0x8000_0002, []),
                       Difference(0x8000_0002, [], 0xFFFF_FFFF, []), Difference(0xFFFF_FFFF, [], 3, [])];
            && WellFormed(ds, 3) && !SerialGe(1, 3) && (forall i :: 0 <= i < |ds| ==> SerialGt(ds[i].new_, ds[i].old_))
            && !EndsExactly(Ixfr(1), IncrementalReply(ds, 3))
  {
    var ds := [Difference(1, [], 3, []), Difference(3, [], 0x8000_0002, []),
               Difference(0x8000_0002, [], 0xFFFF_FFFF, []), Difference(0xFFFF_FFFF, [], 3, [])];
    assert ds[1].old_ == 3;
    IncrementalEnds(1, ds, 3);
  }

  /** A reply that opens with anything but an SOA breaks the transfer at once, however it goes on. */
  lemma MustOpenWithSoa(req: Request, rrs: seq<Record>)
    requires rrs != [] && rrs[0].Other?
    ensures RunRecords(req, START, rrs).verdict == Broken
  {
    assert rrs == [rrs[0]] + rrs[1..];
    RunCons(req, START, rrs[0], rrs[1..]);
  }
}
