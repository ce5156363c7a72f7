/** When a nil result of the parallel copy of cmds/cp/cp.go can be trusted. */
module CpTrust {
  import opened Common
  import opened Cp
  import opened CpSound

  // ---------------------------------------------------------------------------------------------
  // What a stale worker can do: the exact condition under which a copy can be trusted.
  // ---------------------------------------------------------------------------------------------

  lemma {:induction false} RunExtend(nwork: nat, s: State, acts: seq<Action>, t: State, a: Action)
    requires Run(nwork, s, acts, t) && Step(nwork, t, a).Some?
    ensures Run(nwork, s, acts + [a], Step(nwork, t, a).value)
    decreases |acts|
  {
    if acts != [] {
      assert (acts + [a])[1..] == acts[1..] + [a];
      RunExtend(nwork, Step(nwork, s, acts[0]).value, acts[1..], t, a);
    }
  }

  /** Extends a run from `s` by one action. */
  lemma Do(nwork: nat, s: State, acts: seq<Action>, t: State, a: Action) returns (acts': seq<Action>, t': State)
    requires Run(nwork, s, acts, t) && Step(nwork, t, a).Some?
    ensures t' == Step(nwork, t, a).value && Run(nwork, s, acts', t')
  {
    acts', t' := acts + [a], Step(nwork, t, a).value;
    RunExtend(nwork, s, acts, t, a);
  }

  predicate Fresh(w: Worker) {
    w.pc.Fetch? && w.l == BUFF_SIZE && w.at == 0
  }

  /** The latest copy is of `src`; it has `n` workers, of which the first `k` have been collected. */
  predicate Idle(t: State, src: bytes, n: nat, k: nat) {
    && t.jobs != []
    && var job := t.jobs[|t.jobs| - 1];
       && job.src == src && job.result.None? && job.fail == [] && job.collected == k <= n == |job.workers|
       && forall i :: k <= i < n ==> Fresh(job.workers[i])
  }

  /** An older worker that waits for an offset. */
  predicate Stale(t: State, h: nat, i: nat) {
    h < |t.jobs| - 1 && i < |t.jobs[h].workers| && t.jobs[h].workers[i].pc.Fetch?
  }

  lemma SpawnOne(nwork: nat, t: State, src: bytes, n: nat)
    requires Idle(t, src, n, 0) && n < nwork
    ensures var g := |t.jobs| - 1;
            var next := Step(nwork, t, Act(g, Spawn));
            && next.Some? && Idle(next.value, src, n + 1, 0) && next.value.off == t.off
            && next.value.jobs[..g] == t.jobs[..g] && next.value.jobs[g].dst == t.jobs[g].dst
            && |next.value.jobs| == |t.jobs|
  {
  }

  lemma SpawnAll(nwork: nat, s: State, acts0: seq<Action>, t0: State, src: bytes)
    returns (acts: seq<Action>, t: State)
    requires Run(nwork, s, acts0, t0) && Started(t0, src)
    ensures Run(nwork, s, acts, t) && Idle(t, src, nwork, 0)
    ensures t.off == 0 && |t.jobs| == |t0.jobs| && t.jobs[|t0.jobs| - 1].dst == []
    ensures forall h :: 0 <= h < |t0.jobs| - 1 ==> t.jobs[h] == t0.jobs[h]
  {
    var g := |t0.jobs| - 1;
    acts, t := acts0, t0;
    for n := 0 to nwork
      invariant Run(nwork, s, acts, t) && Idle(t, src, n, 0)
      invariant t.off == 0 && |t.jobs| == |t0.jobs| && t.jobs[g].dst == [] && t.jobs[..g] == t0.jobs[..g]
    {
      SpawnOne(nwork, t, src, n);
      acts, t := Do(nwork, s, acts, t, Act(g, Spawn));
    }
    forall h | 0 <= h < g ensures t.jobs[h] == t0.jobs[h] {
      assert t.jobs[..g][h] == t0.jobs[..g][h];
    }
  }

  /** Worker 0 copies one whole block. */
  lemma CopyBlock(nwork: nat, s: State, acts0: seq<Action>, t0: State, src: bytes, h: nat, i: nat)
    returns (acts: seq<Action>, t: State)
    requires nwork >= 1 && Run(nwork, s, acts0, t0) && Idle(t0, src, nwork, 0) && Stale(t0, h, i)
    requires |t0.jobs[|t0.jobs| - 1].dst| <= t0.off && t0.off + BUFF_SIZE <= |src|
    ensures Run(nwork, s, acts, t) && Idle(t, src, nwork, 0) && Stale(t, h, i)
    ensures t.off == t0.off + BUFF_SIZE && |t.jobs| == |t0.jobs| && |t.jobs[|t0.jobs| - 1].dst| <= t.off
  {
    var g := |t0.jobs| - 1;
    acts, t := Do(nwork, s, acts0, t0, Act(g, Draw(0)));
    acts, t := Do(nwork, s, acts, t, Act(g, ReadOk(0)));
    assert t.jobs[g].workers[0].pc == WriteAt(BUFF_SIZE);
    acts, t := Do(nwork, s, acts, t, Act(g, WriteOk(0)));
  }

  /** Like `Idle`, but worker k is about to report nil. */
  predicate Reporting(t: State, src: bytes, n: nat, k: nat) {
    && t.jobs != [] && k < n
    && var job := t.jobs[|t.jobs| - 1];
       && job.src == src && job.result.None? && job.fail == [] && job.collected == k && |job.workers| == n
       && job.workers[k].pc == Report(true) && forall i :: k < i < n ==> Fresh(job.workers[i])
  }

  lemma SendNil(nwork: nat, t: State, src: bytes, k: nat)
    requires Reporting(t, src, nwork, k)
    ensures var g := |t.jobs| - 1;
            var next := Step(nwork, t, Act(g, Send(k)));
            && next.Some? && |next.value.jobs| == |t.jobs| && next.value.off == t.off
            && next.value.jobs == t.jobs[g := Sent(t.jobs[g], k)]
  {
  }

  lemma CollectNil(nwork: nat, t: State, src: bytes, k: nat, u: State)
    requires Reporting(t, src, nwork, k)
    requires u.off == t.off && u.jobs == t.jobs[|t.jobs| - 1 := Sent(t.jobs[|t.jobs| - 1], k)]
    ensures var g := |t.jobs| - 1;
            var next := Step(nwork, u, Act(g, Collect));
            && next.Some? && Idle(next.value, src, nwork, k + 1) && next.value.off == t.off
            && |next.value.jobs| == |t.jobs| && next.value.jobs[g].dst == t.jobs[g].dst
            && next.value.jobs[..g] == t.jobs[..g]
  {
  }

  /** A worker that draws past the end reports nil and is collected. */
  lemma RetireWorker(nwork: nat, s: State, acts0: seq<Action>, t0: State, src: bytes, k: nat)
    returns (acts: seq<Action>, t: State)
    requires k < nwork && Run(nwork, s, acts0, t0) && Idle(t0, src, nwork, k) && |src| <= t0.off
    ensures Run(nwork, s, acts, t) && Idle(t, src, nwork, k + 1) && |src| <= t.off
    ensures |t.jobs| == |t0.jobs| && t.jobs[|t0.jobs| - 1].dst == t0.jobs[|t0.jobs| - 1].dst
    ensures t.jobs[..|t0.jobs| - 1] == t0.jobs[..|t0.jobs| - 1]
  {
    var g := |t0.jobs| - 1;
    var t1: State;
    acts, t1 := ReachEnd(nwork, s, acts0, t0, src, k);
    assert Reporting(t1, src, nwork, k);
    SendNil(nwork, t1, src, k);
    acts, t := Do(nwork, s, acts, t1, Act(g, Send(k)));
    CollectNil(nwork, t1, src, k, t);
    acts, t := Do(nwork, s, acts, t, Act(g, Collect));
  }

  /** All workers draw past the end, and the copy returns nil with what has been written so far. */
  lemma RetireAll(nwork: nat, s: State, acts0: seq<Action>, t0: State, src: bytes)
    returns (acts: seq<Action>, t: State)
    requires Run(nwork, s, acts0, t0) && Idle(t0, src, nwork, 0) && |src| <= t0.off
    ensures Run(nwork, s, acts, t) && |t.jobs| == |t0.jobs| && t.jobs[..|t0.jobs| - 1] == t0.jobs[..|t0.jobs| - 1]
    ensures var g := |t0.jobs| - 1; t.jobs[g].result == Some(true) && t.jobs[g].dst == t0.jobs[g].dst
  {
    var g := |t0.jobs| - 1;
    acts, t := acts0, t0;
    for k := 0 to nwork
      invariant Run(nwork, s, acts, t) && Idle(t, src, nwork, k) && |src| <= t.off
      invariant |t.jobs| == |t0.jobs| && t.jobs[..g] == t0.jobs[..g] && t.jobs[g].dst == t0.jobs[g].dst
    {
      acts, t := RetireWorker(nwork, s, acts, t, src, k);
    }
    acts, t := FinishCopy(nwork, s, acts, t, src);
  }

  lemma FinishCopy(nwork: nat, s: State, acts0: seq<Action>, t0: State, src: bytes)
    returns (acts: seq<Action>, t: State)
    requires Run(nwork, s, acts0, t0) && Idle(t0, src, nwork, nwork)
    ensures Run(nwork, s, acts, t) && |t.jobs| == |t0.jobs| && t.jobs[..|t0.jobs| - 1] == t0.jobs[..|t0.jobs| - 1]
    ensures var g := |t0.jobs| - 1; t.jobs[g].result == Some(true) && t.jobs[g].dst == t0.jobs[g].dst
  {
    acts, t := Do(nwork, s, acts0, t0, Act(|t0.jobs| - 1, Finish));
  }

  /** The next worker draws an offset behind the end of the file and is about to report success. */
  lemma ReachEnd(nwork: nat, s: State, acts0: seq<Action>, t0: State, src: bytes, k: nat)
    returns (acts: seq<Action>, t: State)
    requires k < nwork && Run(nwork, s, acts0, t0) && Idle(t0, src, nwork, k) && |src| <= t0.off
    ensures Run(nwork, s, acts, t) && |src| <= t.off && |t.jobs| == |t0.jobs|
    ensures var job0, job := t0.jobs[|t0.jobs| - 1], t.jobs[|t0.jobs| - 1];
            && k < |job0.workers| && job == SetWorker(job0, k, job0.workers[k].(pc := Report(true), o := t0.off))
    ensures t.jobs[..|t0.jobs| - 1] == t0.jobs[..|t0.jobs| - 1]
  {
    var g := |t0.jobs| - 1;
    assert Fresh(t0.jobs[g].workers[k]);
    acts, t := Do(nwork, s, acts0, t0, Act(g, Draw(k)));
    acts, t := Do(nwork, s, acts, t, Act(g, ReadOk(k)));
  }

  /** Worker 0 copies all blocks but the last. */
  lemma CopyAllButLast(nwork: nat, s: State, src: bytes, h: nat, i: nat) returns (acts: seq<Action>, t: State)
    requires nwork >= 1 && Started(s, src) && Stale(s, h, i) && src != []
    ensures Run(nwork, s, acts, t) && Idle(t, src, nwork, 0) && Stale(t, h, i) && |t.jobs| == |s.jobs|
    ensures |t.jobs[|s.jobs| - 1].dst| <= t.off < |src| <= t.off + BUFF_SIZE
  {
    acts, t := SpawnAll(nwork, s, [], s, src);
    while t.off + BUFF_SIZE < |src|
      invariant Run(nwork, s, acts, t) && Idle(t, src, nwork, 0) && Stale(t, h, i)
      invariant |t.jobs| == |s.jobs| && |t.jobs[|s.jobs| - 1].dst| <= t.off < |src|
      decreases |src| - t.off
    {
      acts, t := CopyBlock(nwork, s, acts, t, src, h, i);
    }
  }

  /** An older worker takes a block. */
  lemma StaleDraw(nwork: nat, s: State, acts0: seq<Action>, t0: State, src: bytes, h: nat, i: nat)
    returns (acts: seq<Action>, t: State)
    requires Run(nwork, s, acts0, t0) && Idle(t0, src, nwork, 0) && Stale(t0, h, i)
    ensures Run(nwork, s, acts, t) && Idle(t, src, nwork, 0) && t.off == t0.off + BUFF_SIZE
    ensures |t.jobs| == |t0.jobs| && t.jobs[|t0.jobs| - 1] == t0.jobs[|t0.jobs| - 1]
  {
    acts, t := Do(nwork, s, acts0, t0, Act(h, Draw(i)));
  }

  lemma StaleTakesLast(nwork: nat, s: State, src: bytes, h: nat, i: nat) returns (acts: seq<Action>, t: State)
    requires nwork >= 1 && Started(s, src) && Stale(s, h, i) && src != []
    ensures Run(nwork, s, acts, t) && Idle(t, src, nwork, 0) && |t.jobs| == |s.jobs|
    ensures |t.jobs[|s.jobs| - 1].dst| < |src| <= t.off
  {
    var t1: State;
    acts, t1 := CopyAllButLast(nwork, s, src, h, i);
    acts, t := StaleDraw(nwork, s, acts, t1, src, h, i);
  }

  /** If an older worker takes the last block, the copy still returns nil and the file is cut short. */
  lemma StaleWorkerLosesBlock(nwork: nat, s: State, src: bytes, h: nat, i: nat)
    returns (acts: seq<Action>, t: State)
    requires nwork >= 1 && Started(s, src) && Stale(s, h, i) && src != []
    ensures Run(nwork, s, acts, t) && |t.jobs| == |s.jobs|
    ensures t.jobs[|s.jobs| - 1].result == Some(true) && |t.jobs[|s.jobs| - 1].dst| < |src|
  {
    var t1: State;
    acts, t1 := StaleTakesLast(nwork, s, src, h, i);
    acts, t := RetireAll(nwork, s, acts, t1, src);
  }

  lemma {:induction false} EmptySourceIsRight(nwork: nat, s: State)
    requires Base(nwork, s) && Started(s, [])
    ensures AlwaysRight(nwork, s, [])
  {
    forall acts, t | Run(nwork, s, acts, t) ensures |s.jobs| <= |t.jobs| && t.jobs[|s.jobs| - 1].dst == [] {
      RunKeepsBase(nwork, s, acts, t);
      assert SizeOk(t.jobs[|s.jobs| - 1]);
    }
  }

  /** A nil result of the copy just started can be trusted exactly when the source is empty, or there is
      a worker at all and no worker of an earlier copy still waits for an offset. */
  lemma TrustExactly(nwork: nat, before: seq<Action>, s: State, src: bytes)
    requires Run(nwork, Init, before, s) && Started(s, src)
    ensures AlwaysRight(nwork, s, src) <==> src == [] || (nwork >= 1 && NoStaleFetcher(s))
  {
    RunKeepsBase(nwork, Init, before, s);
    if src == [] {
      EmptySourceIsRight(nwork, s);
    } else if nwork == 0 {
      NoWorkersWrong(s, src);
    } else if NoStaleFetcher(s) {
      CleanStartIsRight(nwork, s, src);
    } else {
      StaleWrong(nwork, s, src);
    }
  }

  lemma NoWorkersWrong(s: State, src: bytes)
    requires Started(s, src) && src != []
    ensures !AlwaysRight(0, s, src)
  {
    var g := |s.jobs| - 1;
    var acts, t := Do(0, s, [], s, Act(g, Finish));
    assert Run(0, s, acts, t) && t.jobs[g].dst == [];
  }

  lemma StaleWrong(nwork: nat, s: State, src: bytes)
    requires nwork >= 1 && Started(s, src) && src != [] && !NoStaleFetcher(s)
    ensures !AlwaysRight(nwork, s, src)
  {
    var g := |s.jobs| - 1;
    var h :| 0 <= h < g && !NoFetch(s.jobs[h]);
    var i :| 0 <= i < |s.jobs[h].workers| && s.jobs[h].workers[i].pc.Fetch?;
    var acts, t := StaleWorkerLosesBlock(nwork, s, src, h, i);
    assert Run(nwork, s, acts, t) && t.jobs[g].dst != src;
  }

  /** A copy returns on a read error while its second worker has not yet drawn. */
  lemma FailWorker(nwork: nat, s: State, acts0: seq<Action>, t0: State, src: bytes)
    returns (acts: seq<Action>, t: State)
    requires nwork >= 1 && Run(nwork, s, acts0, t0) && Idle(t0, src, nwork, 0)
    ensures Run(nwork, s, acts, t) && |t.jobs| == |t0.jobs|
    ensures var g := |t0.jobs| - 1;
            && t.jobs[..g] == t0.jobs[..g] && t.jobs[g].result == Some(false)
            && |t.jobs[g].workers| == nwork && (nwork >= 2 ==> t.jobs[g].workers[1].pc.Fetch?)
  {
    var g := |t0.jobs| - 1;
    acts, t := ReachError(nwork, s, acts0, t0, src);
    acts, t := Do(nwork, s, acts, t, Act(g, Send(0)));
    acts, t := Do(nwork, s, acts, t, Act(g, Collect));
  }

  /** The first worker meets a read error. */
  lemma ReachError(nwork: nat, s: State, acts0: seq<Action>, t0: State, src: bytes)
    returns (acts: seq<Action>, t: State)
    requires nwork >= 1 && Run(nwork, s, acts0, t0) && Idle(t0, src, nwork, 0)
    ensures Run(nwork, s, acts, t) && |t.jobs| == |t0.jobs|
    ensures var job0, job := t0.jobs[|t0.jobs| - 1], t.jobs[|t0.jobs| - 1];
            job == SetWorker(job0, 0, job0.workers[0].(pc := Report(false), o := t0.off))
    ensures t.jobs[..|t0.jobs| - 1] == t0.jobs[..|t0.jobs| - 1]
  {
    var g := |t0.jobs| - 1;
    assert Fresh(t0.jobs[g].workers[0]);
    acts, t := Do(nwork, s, acts0, t0, Act(g, Draw(0)));
    acts, t := Do(nwork, s, acts, t, Act(g, ReadErr(0)));
  }

  lemma FailedCopyLeavesWorker(nwork: nat, src: bytes) returns (acts: seq<Action>, t: State)
    requires nwork >= 2
    ensures Run(nwork, Init, acts, t) && |t.jobs| == 1 && t.jobs[0].result == Some(false)
    ensures |t.jobs[0].workers| == nwork && t.jobs[0].workers[1].pc.Fetch?
  {
    acts, t := Do(nwork, Init, [], Init, Begin(src));
    acts, t := SpawnAll(nwork, Init, acts, t, src);
    acts, t := FailWorker(nwork, Init, acts, t, src);
  }

  /** With two workers or more every non-empty file can be cut short this way although the copy
      returns nil: a first copy fails, and one of its workers takes the last block of the second. */
  lemma WrongCopyReachable(nwork: nat, src: bytes) returns (acts: seq<Action>, t: State)
    requires nwork >= 2 && src != []
    ensures Run(nwork, Init, acts, t) && |t.jobs| == 2
    ensures t.jobs[1].src == src && t.jobs[1].result == Some(true) && |t.jobs[1].dst| < |src|
  {
    acts, t := FailedCopyLeavesWorker(nwork, src);
    var u: State;
    acts, u := Do(nwork, Init, acts, t, Begin(src));
    RunKeepsBase(nwork, Init, acts, u);
    var more, v := StaleWorkerLosesBlock(nwork, u, src, 0, 1);
    RunKeepsBase(nwork, u, more, v);
    acts := RunConcat(nwork, Init, acts, u, more, v);
    t := v;
  }

  lemma {:induction false} RunConcat(nwork: nat, s: State, a: seq<Action>, t: State, b: seq<Action>, u: State)
    returns (acts: seq<Action>)
    requires Run(nwork, s, a, t) && Run(nwork, t, b, u)
    ensures Run(nwork, s, acts, u)
    decreases |b|
  {
    if b == [] {
      acts := a;
    } else {
      var a', t' := Do(nwork, s, a, t, b[0]);
      acts := RunConcat(nwork, s, a', t', b[1..], u);
    }
  }

  // ---------------------------------------------------------------------------------------------
  // The condition in terms of the results that the caller saw.
  // ---------------------------------------------------------------------------------------------

  predicate AllTrue(rs: seq<bool>) {
    forall k :: 0 <= k < |rs| ==> rs[k]
  }

  /** The copies before the latest one returned these results; true is nil. */
  predicate HasResults(s: State, rs: seq<bool>) {
    |s.jobs| == |rs| + 1 && forall k :: 0 <= k < |rs| ==> s.jobs[k].result == Some(rs[k])
  }

  /** A copy that starts after these results can be trusted in every run. */
  ghost predicate Trusted(nwork: nat, rs: seq<bool>, src: bytes) {
    forall before, s | Run(nwork, Init, before, s) && Started(s, src) && HasResults(s, rs) :: AlwaysRight(nwork, s, src)
  }

  /** A failed copy has collected a verdict. */
  predicate FailureCollected(s: State) {
    forall j :: 0 <= j < |s.jobs| && s.jobs[j].result == Some(false) ==> s.jobs[j].collected > 0
  }

  lemma EventKeepsCollected(nwork: nat, open: bool, off: nat, job: Job, e: Event)
    requires JobStep(nwork, open, off, job, e).Some? && (job.result == Some(false) ==> job.collected > 0)
    ensures var job' := JobStep(nwork, open, off, job, e).value; job'.result == Some(false) ==> job'.collected > 0
  {
  }

  lemma {:induction false} RunKeepsCollected(nwork: nat, s: State, acts: seq<Action>, t: State)
    requires FailureCollected(s) && Run(nwork, s, acts, t)
    ensures FailureCollected(t)
    decreases |acts|
  {
    if acts != [] {
      if acts[0].Act? {
        EventKeepsCollected(nwork, acts[0].j == |s.jobs| - 1, s.off, s.jobs[acts[0].j], acts[0].e);
      }
      RunKeepsCollected(nwork, Step(nwork, s, acts[0]).value, acts[1..], t);
    }
  }

  /** A copy with no worker left to wait: it succeeded, or its only worker is done. */
  lemma NobodyWaits(nwork: nat, job: Job)
    requires ChannelOk(nwork, job)
    requires job.result == Some(true) || (nwork == 1 && job.collected > 0)
    ensures NoFetch(job)
  {
    CountIfBound(job.workers, IsOut);
  }

  lemma CleanByResults(nwork: nat, before: seq<Action>, s: State, src: bytes, rs: seq<bool>)
    requires Run(nwork, Init, before, s) && Started(s, src) && HasResults(s, rs) && (nwork == 1 || AllTrue(rs))
    ensures NoStaleFetcher(s)
  {
    RunKeepsBase(nwork, Init, before, s);
    RunKeepsCollected(nwork, Init, before, s);
    forall h | 0 <= h < |s.jobs| - 1 ensures NoFetch(s.jobs[h]) {
      assert s.jobs[h].result == Some(rs[h]);
      assert rs[h] || s.jobs[h].collected > 0;
      NobodyWaits(nwork, s.jobs[h]);
    }
  }

  /** The latest copy is over. */
  predicate AllOver(t: State) {
    t.jobs == [] || t.jobs[|t.jobs| - 1].result.Some?
  }

  predicate Waits(job: Job) {
    1 < |job.workers| && job.workers[1].pc.Fetch?
  }

  /** The jobs are `js` and one more. */
  predicate OneMore(js: seq<Job>, t: State) {
    |t.jobs| == |js| + 1 && t.jobs[..|js|] == js
  }

  lemma StartCopy(nwork: nat, acts0: seq<Action>, t0: State) returns (acts: seq<Action>, t: State)
    requires Run(nwork, Init, acts0, t0) && AllOver(t0)
    ensures Run(nwork, Init, acts, t) && Idle(t, [], nwork, 0) && OneMore(t0.jobs, t)
  {
    var g := |t0.jobs|;
    var t1: State;
    acts, t1 := Do(nwork, Init, acts0, t0, Begin([]));
    acts, t := SpawnAll(nwork, Init, acts, t1, []);
    forall h | 0 <= h < g ensures t.jobs[..g][h] == t0.jobs[h] {
      assert t.jobs[h] == t1.jobs[h];
    }
  }

  /** One more copy with a given result; a failure can leave a worker waiting. */
  lemma OneMoreCopy(nwork: nat, acts0: seq<Action>, t0: State, ok: bool) returns (acts: seq<Action>, t: State)
    requires Run(nwork, Init, acts0, t0) && AllOver(t0) && (ok || nwork >= 1)
    ensures Run(nwork, Init, acts, t) && OneMore(t0.jobs, t) && t.jobs[|t0.jobs|].result == Some(ok)
    ensures !ok && nwork >= 2 ==> Waits(t.jobs[|t0.jobs|])
  {
    acts, t := StartCopy(nwork, acts0, t0);
    if ok {
      acts, t := RetireAll(nwork, Init, acts, t, []);
    } else {
      acts, t := FailWorker(nwork, Init, acts, t, []);
    }
  }

  predicate Ended(nwork: nat, job: Job, ok: bool) {
    job.result == Some(ok) && (!ok && nwork >= 2 ==> Waits(job))
  }

  /** Every list of results is that of some run; each failure can have left a worker waiting. */
  lemma {:induction false} RunWithResults(nwork: nat, rs: seq<bool>) returns (acts: seq<Action>, t: State)
    requires nwork >= 1 || AllTrue(rs)
    ensures Run(nwork, Init, acts, t) && |t.jobs| == |rs| && AllOver(t)
    ensures forall k :: 0 <= k < |rs| ==> Ended(nwork, t.jobs[k], rs[k])
    decreases |rs|
  {
    if rs == [] {
      acts, t := [], Init;
    } else {
      var n := |rs| - 1;
      var acts0, t0 := RunWithResults(nwork, rs[..n]);
      acts, t := OneMoreCopy(nwork, acts0, t0, rs[n]);
      forall k | 0 <= k < n ensures Ended(nwork, t.jobs[k], rs[k]) {
        assert t.jobs[..n][k] == t0.jobs[k] && Ended(nwork, t0.jobs[k], rs[..n][k]);
      }
    }
  }

  /** After these results a copy of `src` starts. */
  lemma StartWithResults(nwork: nat, rs: seq<bool>, src: bytes) returns (acts: seq<Action>, s: State)
    requires nwork >= 1 || AllTrue(rs)
    ensures Run(nwork, Init, acts, s) && Started(s, src) && HasResults(s, rs)
    ensures forall k :: 0 <= k < |rs| && !rs[k] && nwork >= 2 ==> Stale(s, k, 1)
  {
    var acts0, t := RunWithResults(nwork, rs);
    acts, s := Do(nwork, Init, acts0, t, Begin(src));
    forall k | 0 <= k < |rs| ensures s.jobs[k].result == Some(rs[k]) && (!rs[k] && nwork >= 2 ==> Stale(s, k, 1)) {
      assert Ended(nwork, t.jobs[k], rs[k]);
    }
  }

  /** A nil result can be trusted after the results seen so far exactly when the source is empty, there is one worker,
      or there are workers and no earlier copy failed.  Without workers no copy fails. */
  lemma TrustByResults(nwork: nat, rs: seq<bool>, src: bytes)
    requires nwork >= 1 || AllTrue(rs)
    ensures Trusted(nwork, rs, src) <==> src == [] || nwork == 1 || (nwork >= 1 && AllTrue(rs))
  {
    if src == [] || nwork == 1 || (nwork >= 1 && AllTrue(rs)) {
      forall before, s | Run(nwork, Init, before, s) && Started(s, src) && HasResults(s, rs)
        ensures AlwaysRight(nwork, s, src)
      {
        TrustExactly(nwork, before, s, src);
        if src != [] {
          CleanByResults(nwork, before, s, src, rs);
        }
      }
    } else {
      var acts, s := StartWithResults(nwork, rs, src);
      TrustExactly(nwork, acts, s, src);
      if nwork >= 2 {
        var k :| 0 <= k < |rs| && !rs[k];
        assert Stale(s, k, 1);
      }
    }
  }

  /** Without workers no copy fails. */
  lemma {:induction false} NoWorkersNoFailure(s: State, acts: seq<Action>, t: State, j: nat)
    requires Run(0, s, acts, t) && j < |t.jobs| && forall k :: 0 <= k < |s.jobs| ==> s.jobs[k].result != Some(false)
    ensures t.jobs[j].result != Some(false)
    decreases |acts|
  {
    if acts != [] {
      NoWorkersNoFailure(Step(0, s, acts[0]).value, acts[1..], t, j);
    }
  }
}
