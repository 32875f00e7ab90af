/**
  One call of `signset` while other workers load keys into the shared key list (bin/dnssec/dnssec-signzone.c):
  the size of its flag arrays is fixed when the call starts, the list may grow until it ends.
 */
module SharedKeys {
  import opened Names
  import opened SignSet

  /** The call looks up a signature's key, another worker appends one, the call's last loop takes the next key. */
  datatype Step = Lookup | OtherLoads(key: Key) | Visit

  /** The list, the signatures looked at, the keys visited, the indices used so far, and who has appended keys. */
  datatype State = State(keys: seq<Key>, looked: nat, visited: nat, used: seq<nat>, own: nat, others: nat)

  function Begin(keys: seq<Key>): State { State(keys, 0, 0, [], 0, 0) }

  predicate Enabled(sigs: seq<Sig>, st: State, s: Step) {
    match s
    case Lookup => st.looked < |sigs|
    case OtherLoads(_) => true
    case Visit => st.looked == |sigs| && st.visited < |st.keys|
  }

  /** `keythatsigned` holds the list's lock, so a lookup is one step. */
  function Next(env: Env, sigs: seq<Sig>, st: State, s: Step): State
    requires Enabled(sigs, st, s)
  {
    match s
    case Lookup =>
      var tag := sigs[st.looked].tag;
      var keys := Load(env, st.keys, tag);
      var at := FindKey(keys, tag);
      st.(keys := keys, looked := st.looked + 1, own := st.own + (|keys| - |st.keys|),
          used := if at.Some? then st.used + [at.value] else st.used)
    case OtherLoads(key) => st.(keys := st.keys + [key], others := st.others + 1)
    case Visit => st.(visited := st.visited + 1, used := st.used + [st.visited])
  }

  predicate Finished(sigs: seq<Sig>, st: State) { st.looked == |sigs| && st.visited == |st.keys| }

  ghost predicate Run(env: Env, sigs: seq<Sig>, keys: seq<Key>, sts: seq<State>, steps: seq<Step>) {
    && |sts| == |steps| + 1 && sts[0] == Begin(keys)
    && forall t :: 0 <= t < |steps| ==>
         Enabled(sigs, sts[t], steps[t]) && sts[t + 1] == Next(env, sigs, sts[t], steps[t])
  }

  /** What holds all along: every index used is in the list, every key visited was used, every new key is counted. */
  ghost predicate Inv(sigs: seq<Sig>, keys: seq<Key>, st: State) {
    && st.looked <= |sigs| && st.visited <= |st.keys|
    && |st.keys| == |keys| + st.own + st.others && st.own <= st.looked
    && (forall u :: u in st.used ==> u < |st.keys|)
    && (forall p: nat :: p < st.visited ==> p in st.used)
  }

  lemma StepKeeps(env: Env, sigs: seq<Sig>, keys: seq<Key>, st: State, s: Step)
    requires Inv(sigs, keys, st) && Enabled(sigs, st, s)
    ensures Inv(sigs, keys, Next(env, sigs, st, s))
  {
    hide Load, FindKey;
  }

  lemma {:induction false} RunKeeps(env: Env, sigs: seq<Sig>, keys: seq<Key>, sts: seq<State>, steps: seq<Step>, t: nat)
    requires Run(env, sigs, keys, sts, steps) && t < |sts|
    ensures Inv(sigs, keys, sts[t])
  {
    hide Inv, Next, Enabled;
    if t == 0 {
      BeginInv(sigs, keys);
    } else {
      RunKeeps(env, sigs, keys, sts, steps, t - 1);
      StepKeeps(env, sigs, keys, sts[t - 1], steps[t - 1]);
    }
  }

  lemma BeginInv(sigs: seq<Sig>, keys: seq<Key>)
    ensures Inv(sigs, keys, Begin(keys))
  {
  }

  /**
    In every interleaving, the call stays inside arrays of one flag per key at its start and one per
    signature if and only if other workers load no more keys during the call than it leaves unloaded.
   */
  lemma BoundsIff(env: Env, sigs: seq<Sig>, keys: seq<Key>, sts: seq<State>, steps: seq<Step>)
    requires Run(env, sigs, keys, sts, steps) && Finished(sigs, sts[|steps|])
    ensures var last := sts[|steps|];
            && last.own <= |sigs|
            && ((forall u :: u in last.used ==> u < |keys| + |sigs|) <==> last.others <= |sigs| - last.own)
  {
    hide Run;
    RunShape(env, sigs, keys, sts, steps);
    RunKeeps(env, sigs, keys, sts, steps, |steps|);
    var last, size := sts[|steps|], |keys| + |sigs|;
    if size < |last.keys| {
      assert size in last.used;
    }
  }

  lemma RunShape(env: Env, sigs: seq<Sig>, keys: seq<Key>, sts: seq<State>, steps: seq<Step>)
    requires Run(env, sigs, keys, sts, steps)
    ensures |sts| == |steps| + 1
  {
  }

  /** A call by itself always stays inside. */
  lemma AloneIsInside(env: Env, sigs: seq<Sig>, keys: seq<Key>, sts: seq<State>, steps: seq<Step>)
    requires Run(env, sigs, keys, sts, steps) && Finished(sigs, sts[|steps|]) && sts[|steps|].others == 0
    ensures forall u :: u in sts[|steps|].used ==> u < |keys| + |sigs|
  {
    BoundsIff(env, sigs, keys, sts, steps);
  }

  /** One key, no signature, one key loaded elsewhere: the last loop uses index 1 of arrays of one flag. */
  lemma OneLoadTooMany(env: Env, a: Key, b: Key)
    ensures var s0 := Begin([a]);
            var s1 := Next(env, [], s0, OtherLoads(b));
            var s2 := Next(env, [], s1, Visit);
            var s3 := Next(env, [], s2, Visit);
            && Run(env, [], [a], [s0, s1, s2, s3], [OtherLoads(b), Visit, Visit])
            && Finished([], s3) && s3.used == [0, 1]
  {
  }
}
