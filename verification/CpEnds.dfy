/** Every copy of cmds/cp/cp.go ends, within a number of steps that the size of the file, the number of workers and the
    workers left over from earlier copies decide. */
module CpEnds {
  import opened Common
  import opened Cp
  import opened CpErrors
  import opened CpSound

  /** The full blocks of a file of n bytes. */
  function Blocks(n: nat): nat {
    n / BUFF_SIZE
  }

  // ---------------------------------------------------------------------------------------------
  // Sums.
  // ---------------------------------------------------------------------------------------------

  function Sum<T>(xs: seq<T>, f: T -> nat): nat {
    if xs == [] then 0 else Sum(xs[..|xs| - 1], f) + f(xs[|xs| - 1])
  }

  lemma {:induction false} SumUpdate<T>(xs: seq<T>, i: nat, x: T, f: T -> nat)
    requires i < |xs|
    ensures Sum(xs[i := x], f) == Sum(xs, f) - f(xs[i]) + f(x)
    decreases |xs|
  {
    var k := |xs| - 1;
    if i == k {
      assert xs[i := x][..k] == xs[..k];
    } else {
      assert xs[i := x][..k] == xs[..k][i := x];
      SumUpdate(xs[..k], i, x, f);
    }
  }

  lemma SumSnoc<T>(xs: seq<T>, x: T, f: T -> nat)
    ensures Sum(xs + [x], f) == Sum(xs, f) + f(x)
  {
    assert (xs + [x])[..|xs|] == xs;
  }

  lemma {:induction false} SumBound<T>(xs: seq<T>, f: T -> nat, g: T -> nat, c: nat)
    requires forall i :: 0 <= i < |xs| ==> f(xs[i]) <= c * g(xs[i])
    ensures Sum(xs, f) <= c * Sum(xs, g)
    decreases |xs|
  {
    if xs != [] {
      var k := |xs| - 1;
      SumBound(xs[..k], f, g, c);
      Distribute(c, Sum(xs[..k], g), g(xs[k]));
    }
  }

  lemma Distribute(c: nat, a: nat, b: nat)
    ensures c * (a + b) == c * a + c * b
  {
  }

  lemma {:induction false} SumZero<T>(xs: seq<T>, f: T -> nat)
    requires forall i :: 0 <= i < |xs| ==> f(xs[i]) == 0
    ensures Sum(xs, f) == 0
    decreases |xs|
  {
    if xs != [] {
      SumZero(xs[..|xs| - 1], f);
    }
  }

  // ---------------------------------------------------------------------------------------------
  // The steps that are left.
  // ---------------------------------------------------------------------------------------------

  /** How many steps a worker of the latest copy can still make before it must draw again. */
  function Weight(w: Worker): nat {
    match w.pc
    case Exited(_) => 0
    case Report(_) => 2
    case Fetch => 4
    case WriteAt(_) => 5
    case ReadAt => if w.l == BUFF_SIZE then 6 else 3
  }

  /** How many steps a worker of an earlier copy can still make: it draws, fails and reports. */
  function OldWeight(w: Worker): nat {
    match w.pc
    case Exited(_) => 0
    case Report(_) => 1
    case Fetch => 3
    case _ => 2
  }

  function IsWaiting(w: Worker): nat {
    if w.pc.Fetch? then 1 else 0
  }

  function IsLeft(w: Worker): nat {
    if w.pc.Exited? then 0 else 1
  }

  function OldWeights(job: Job): nat {
    Sum(job.workers, OldWeight)
  }

  function WaitingIn(job: Job): nat {
    Sum(job.workers, IsWaiting)
  }

  function LeftIn(job: Job): nat {
    Sum(job.workers, IsLeft)
  }

  function Old(s: State): seq<Job>
    requires s.jobs != []
  {
    s.jobs[..|s.jobs| - 1]
  }

  function Last(s: State): Job
    requires s.jobs != []
  {
    s.jobs[|s.jobs| - 1]
  }

  /** The workers of earlier copies that wait for an offset. */
  function Waiting(s: State): nat
    requires s.jobs != []
  {
    Sum(Old(s), WaitingIn)
  }

  /** The workers of earlier copies that have not exited. */
  function Lingering(s: State): nat
    requires s.jobs != []
  {
    Sum(Old(s), LeftIn)
  }

  /** The steps that are left to a copy that can still draw `draws` offsets. */
  function JobRank(nwork: nat, job: Job, draws: int): int {
    5 * (nwork - |job.workers|) + 3 * draws + Sum(job.workers, Weight) + |job.fail| + if job.result.None? then 1 else 0
  }

  /** The offsets that the workers of the latest copy can still draw.  Of those drawn so far, earlier workers took as
      many as have stopped waiting; `k` waited at first. */
  function Draws(nwork: nat, s: State, k: nat): int
    requires s.jobs != []
  {
    Blocks(|Last(s).src|) + nwork - |s.drawn| + (k - Waiting(s))
  }

  function Rank(nwork: nat, s: State, k: nat): int
    requires s.jobs != []
  {
    JobRank(nwork, Last(s), Draws(nwork, s, k)) + Sum(Old(s), OldWeights)
  }

  // ---------------------------------------------------------------------------------------------
  // What the workers of a copy keep, whoever else draws offsets.
  // ---------------------------------------------------------------------------------------------

  ghost predicate Local(job: Job, off: nat) {
    off % BUFF_SIZE == 0 && forall i :: 0 <= i < |job.workers| ==> WorkerOk(job.workers[i], job.src, off)
  }

  lemma LocalGrows(job: Job, off: nat)
    requires Local(job, off)
    ensures Local(job, off + BUFF_SIZE)
  {
    forall i | 0 <= i < |job.workers| ensures WorkerOk(job.workers[i], job.src, off + BUFF_SIZE) {
      assert WorkerOk(job.workers[i], job.src, off);
    }
  }

  lemma ReadStaysOk(src: bytes, w: Worker, off: nat)
    requires WorkerOk(w, src, off) && w.pc.ReadAt?
    ensures WorkerOk(AfterRead(src, w), src, off) && Weight(AfterRead(src, w)) < Weight(w)
  {
  }

  lemma NextBlock(o: nat, off: nat)
    requires o % BUFF_SIZE == 0 && off % BUFF_SIZE == 0 && o < off
    ensures o + BUFF_SIZE <= off
  {
  }

  lemma WriteStaysOk(src: bytes, w: Worker, off: nat)
    requires WorkerOk(w, src, off) && w.pc.WriteAt? && off % BUFF_SIZE == 0
    ensures WorkerOk(AfterWrite(w), src, off) && Weight(AfterWrite(w)) < Weight(w)
  {
    NextBlock(w.o, off);
  }

  /** A worker's own step keeps the workers right. */
  lemma SetLocal(job: Job, off: nat, i: nat, w: Worker)
    requires Local(job, off) && i < |job.workers| && WorkerOk(w, job.src, off)
    ensures Local(SetWorker(job, i, w), off)
  {
  }

  lemma RankSet(nwork: nat, job: Job, i: nat, w: Worker, draws: int)
    requires i < |job.workers|
    ensures JobRank(nwork, SetWorker(job, i, w), draws)
         == JobRank(nwork, job, draws) - Weight(job.workers[i]) + Weight(w)
  {
    SumUpdate(job.workers, i, w, Weight);
  }

  lemma SpawnLowers(nwork: nat, job: Job, off: nat, draws: int)
    requires Local(job, off)
    ensures var job' := job.(workers := job.workers + [NewWorker()]);
            Local(job', off) && JobRank(nwork, job', draws) < JobRank(nwork, job, draws)
  {
    SumSnoc(job.workers, NewWorker(), Weight);
    assert WorkerOk(NewWorker(), job.src, off);
  }

  lemma DrawLowers(nwork: nat, job: Job, off: nat, i: nat, draws: int)
    requires Local(job, off) && i < |job.workers| && job.workers[i].pc.Fetch?
    ensures var job' := SetWorker(job, i, job.workers[i].(pc := ReadAt, o := off));
            Local(job', off + BUFF_SIZE) && JobRank(nwork, job', draws - 1) < JobRank(nwork, job, draws)
  {
    var w := job.workers[i].(pc := ReadAt, o := off);
    assert WorkerOk(job.workers[i], job.src, off);
    LocalGrows(job, off);
    SetLocal(job, off + BUFF_SIZE, i, w);
    RankSet(nwork, job, i, w, draws - 1);
  }

  lemma ReadLowers(nwork: nat, job: Job, off: nat, i: nat, draws: int)
    requires Local(job, off) && i < |job.workers| && job.workers[i].pc.ReadAt?
    ensures var job' := SetWorker(job, i, AfterRead(job.src, job.workers[i]));
            Local(job', off) && JobRank(nwork, job', draws) < JobRank(nwork, job, draws)
  {
    ReadStaysOk(job.src, job.workers[i], off);
    SetLocal(job, off, i, AfterRead(job.src, job.workers[i]));
    RankSet(nwork, job, i, AfterRead(job.src, job.workers[i]), draws);
  }

  lemma FailLowers(nwork: nat, job: Job, off: nat, i: nat, draws: int)
    requires Local(job, off) && i < |job.workers| && (job.workers[i].pc.ReadAt? || job.workers[i].pc.WriteAt?)
    ensures var job' := SetWorker(job, i, job.workers[i].(pc := Report(false)));
            Local(job', off) && JobRank(nwork, job', draws) < JobRank(nwork, job, draws)
  {
    var w := job.workers[i].(pc := Report(false));
    assert WorkerOk(job.workers[i], job.src, off);
    SetLocal(job, off, i, w);
    RankSet(nwork, job, i, w, draws);
  }

  lemma WriteLowers(nwork: nat, job: Job, off: nat, i: nat, draws: int)
    requires Local(job, off) && i < |job.workers| && job.workers[i].pc.WriteAt?
    ensures Local(Wrote(job, i), off) && JobRank(nwork, Wrote(job, i), draws) < JobRank(nwork, job, draws)
  {
    WriteStaysOk(job.src, job.workers[i], off);
    SetLocal(job, off, i, AfterWrite(job.workers[i]));
    RankSet(nwork, job, i, AfterWrite(job.workers[i]), draws);
  }

  lemma SendLowers(nwork: nat, job: Job, off: nat, i: nat, draws: int)
    requires Local(job, off) && i < |job.workers| && job.workers[i].pc.Report?
    ensures Local(Sent(job, i), off) && JobRank(nwork, Sent(job, i), draws) < JobRank(nwork, job, draws)
  {
    var w := job.workers[i].(pc := Exited(job.workers[i].pc.ok));
    assert WorkerOk(job.workers[i], job.src, off);
    SetLocal(job, off, i, w);
    RankSet(nwork, job, i, w, draws);
  }

  /** Every event of the latest copy uses up a step. */
  lemma EventLowers(nwork: nat, off: nat, job: Job, e: Event, draws: int)
    requires Local(job, off) && JobStep(nwork, true, off, job, e).Some?
    ensures var job' := JobStep(nwork, true, off, job, e).value;
            && Local(job', if e.Draw? then off + BUFF_SIZE else off)
            && JobRank(nwork, job', if e.Draw? then draws - 1 else draws) < JobRank(nwork, job, draws)
  {
    match e
    case Spawn => SpawnLowers(nwork, job, off, draws);
    case Draw(i) => DrawLowers(nwork, job, off, i, draws);
    case ReadOk(i) => ReadLowers(nwork, job, off, i, draws);
    case ReadErr(i) => FailLowers(nwork, job, off, i, draws);
    case WriteOk(i) => WriteLowers(nwork, job, off, i, draws);
    case WriteErr(i, k) => FailLowers(nwork, job, off, i, draws);
    case Send(i) => SendLowers(nwork, job, off, i, draws);
    case Collect =>
    case Finish =>
  }

  /** With `spare` offsets taken by others, no worker has drawn more than one that is not that of a full block. */
  predicate DrawsIn(job: Job, off: nat, spare: int) {
    off <= |job.src| + BUFF_SIZE * (LastDraws(job) + spare)
  }

  lemma EventKeepsDrawsIn(nwork: nat, off: nat, job: Job, e: Event, spare: int)
    requires spare >= 0 && Local(job, off) && DrawsIn(job, off, spare) && JobStep(nwork, true, off, job, e).Some?
    ensures DrawsIn(JobStep(nwork, true, off, job, e).value, if e.Draw? then off + BUFF_SIZE else off, spare)
  {
    EventLastDraws(nwork, off, job, e);
  }

  // ---------------------------------------------------------------------------------------------
  // Earlier copies.
  // ---------------------------------------------------------------------------------------------

  /** Every event of an earlier copy uses up one of its own steps; a draw ends the waiting of its worker. */
  lemma OldEventLowers(nwork: nat, off: nat, job: Job, e: Event)
    requires JobStep(nwork, false, off, job, e).Some?
    ensures var job' := JobStep(nwork, false, off, job, e).value;
            OldWeights(job') < OldWeights(job) && WaitingIn(job') + (if e.Draw? then 1 else 0) == WaitingIn(job)
  {
    var job' := JobStep(nwork, false, off, job, e).value;
    SumUpdate(job.workers, e.i, job'.workers[e.i], OldWeight);
    SumUpdate(job.workers, e.i, job'.workers[e.i], IsWaiting);
  }

  lemma OldSums(s: State, j: nat, job: Job, js: seq<Job>)
    requires s.jobs != [] && j < |s.jobs| - 1 && js == s.jobs[j := job]
    ensures js[|js| - 1] == Last(s)
    ensures Sum(js[..|js| - 1], OldWeights) == Sum(Old(s), OldWeights) - OldWeights(s.jobs[j]) + OldWeights(job)
    ensures Sum(js[..|js| - 1], WaitingIn) == Sum(Old(s), WaitingIn) - WaitingIn(s.jobs[j]) + WaitingIn(job)
  {
    assert js[..|js| - 1] == Old(s)[j := job];
    SumUpdate(Old(s), j, job, OldWeights);
    SumUpdate(Old(s), j, job, WaitingIn);
  }

  lemma OldStep(nwork: nat, s: State, j: nat, e: Event)
    requires s.jobs != [] && j < |s.jobs| - 1 && Step(nwork, s, Act(j, e)).Some?
    ensures var t := Step(nwork, s, Act(j, e)).value;
            && |t.jobs| == |s.jobs| && Last(t) == Last(s)
            && Sum(Old(t), OldWeights) < Sum(Old(s), OldWeights)
            && Waiting(t) + (if e.Draw? then 1 else 0) == Waiting(s)
  {
    OldEventLowers(nwork, s.off, s.jobs[j], e);
    OldSums(s, j, JobStep(nwork, false, s.off, s.jobs[j], e).value, Step(nwork, s, Act(j, e)).value.jobs);
  }

  // ---------------------------------------------------------------------------------------------
  // Whole runs.
  // ---------------------------------------------------------------------------------------------

  /** A copy under way that began when `k` earlier workers waited. */
  ghost predicate Within(nwork: nat, s: State, k: nat) {
    && Base(nwork, s) && s.jobs != [] && Waiting(s) <= k
    && Local(Last(s), s.off) && DrawsIn(Last(s), s.off, k - Waiting(s))
  }

  lemma RankNatural(nwork: nat, s: State, k: nat)
    requires Within(nwork, s, k)
    ensures Rank(nwork, s, k) >= 0
  {
    var job := Last(s);
    assert ChannelOk(nwork, job);
    CountIfBound(job.workers, DrewLast(|job.src|));
    DrawsNatural(|s.drawn|, |job.src|, LastDraws(job) + (k - Waiting(s)));
  }

  lemma DrawsNatural(drawn: nat, size: nat, n: nat)
    requires BUFF_SIZE * drawn <= size + BUFF_SIZE * n
    ensures drawn <= Blocks(size) + n
  {
  }

  lemma DrawsInGrows(job: Job, off: nat, spare: int)
    requires DrawsIn(job, off, spare)
    ensures DrawsIn(job, off + BUFF_SIZE, spare + 1)
  {
  }

  lemma OldDraws(nwork: nat, s: State, j: nat, e: Event)
    requires j < |s.jobs| - 1 && Step(nwork, s, Act(j, e)).Some?
    ensures var t := Step(nwork, s, Act(j, e)).value;
            && t.off == (if e.Draw? then s.off + BUFF_SIZE else s.off)
            && |t.drawn| == (if e.Draw? then |s.drawn| + 1 else |s.drawn|)
  {
  }

  lemma OldStepWithin(nwork: nat, s: State, j: nat, e: Event, k: nat)
    requires Within(nwork, s, k) && j < |s.jobs| - 1 && Step(nwork, s, Act(j, e)).Some?
    ensures Within(nwork, Step(nwork, s, Act(j, e)).value, k)
  {
    StepKeepsBase(nwork, s, Act(j, e));
    OldStep(nwork, s, j, e);
    OldDraws(nwork, s, j, e);
    LocalGrows(Last(s), s.off);
    DrawsInGrows(Last(s), s.off, k - Waiting(s));
  }

  lemma OldStepLowers(nwork: nat, s: State, j: nat, e: Event, k: nat)
    requires Within(nwork, s, k) && j < |s.jobs| - 1 && Step(nwork, s, Act(j, e)).Some?
    ensures var t := Step(nwork, s, Act(j, e)).value; Within(nwork, t, k) && Rank(nwork, t, k) < Rank(nwork, s, k)
  {
    OldStepWithin(nwork, s, j, e, k);
    OldStep(nwork, s, j, e);
    OldDraws(nwork, s, j, e);
  }

  lemma LastStep(nwork: nat, s: State, e: Event)
    requires s.jobs != [] && Step(nwork, s, Act(|s.jobs| - 1, e)).Some?
    ensures var t := Step(nwork, s, Act(|s.jobs| - 1, e)).value;
            && t.jobs != [] && Old(t) == Old(s) && JobStep(nwork, true, s.off, Last(s), e) == Some(Last(t))
            && t.off == (if e.Draw? then s.off + BUFF_SIZE else s.off)
            && |t.drawn| == (if e.Draw? then |s.drawn| + 1 else |s.drawn|) && Last(t).src == Last(s).src
  {
    EventKeepsFile(nwork, true, s.off, Last(s), e);
  }

  lemma LastStepLowers(nwork: nat, s: State, e: Event, k: nat)
    requires Within(nwork, s, k) && Step(nwork, s, Act(|s.jobs| - 1, e)).Some?
    ensures var t := Step(nwork, s, Act(|s.jobs| - 1, e)).value;
            Within(nwork, t, k) && Rank(nwork, t, k) < Rank(nwork, s, k)
  {
    StepKeepsBase(nwork, s, Act(|s.jobs| - 1, e));
    LastStep(nwork, s, e);
    EventLowers(nwork, s.off, Last(s), e, Draws(nwork, s, k));
    EventKeepsDrawsIn(nwork, s.off, Last(s), e, k - Waiting(s));
  }

  lemma StepLowers(nwork: nat, s: State, a: Action, k: nat)
    requires Within(nwork, s, k) && a.Act? && Step(nwork, s, a).Some?
    ensures Within(nwork, Step(nwork, s, a).value, k) && Rank(nwork, Step(nwork, s, a).value, k) < Rank(nwork, s, k)
  {
    if a.j < |s.jobs| - 1 {
      OldStepLowers(nwork, s, a.j, a.e, k);
    } else {
      LastStepLowers(nwork, s, a.e, k);
    }
  }

  /** A run that starts no copy starts with a step of one. */
  lemma FirstIsAct(nwork: nat, s: State, acts: seq<Action>, t: State)
    requires Base(nwork, s) && Run(nwork, s, acts, t) && |t.jobs| == |s.jobs| && acts != []
    ensures acts[0].Act? && |Step(nwork, s, acts[0]).value.jobs| == |s.jobs|
  {
    StepKeepsBase(nwork, s, acts[0]);
    RunKeepsBase(nwork, Step(nwork, s, acts[0]).value, acts[1..], t);
  }

  /** A run within one copy is no longer than its rank. */
  lemma {:induction false} RunLowers(nwork: nat, s: State, acts: seq<Action>, t: State, k: nat)
    requires Within(nwork, s, k) && Run(nwork, s, acts, t) && |t.jobs| == |s.jobs|
    ensures |acts| <= Rank(nwork, s, k)
    decreases |acts|
  {
    if acts == [] {
      RankNatural(nwork, s, k);
    } else {
      FirstIsAct(nwork, s, acts, t);
      StepLowers(nwork, s, acts[0], k);
      RunLowers(nwork, Step(nwork, s, acts[0]).value, acts[1..], t, k);
    }
  }

  lemma {:induction false} RunKeepsWithin(nwork: nat, s: State, acts: seq<Action>, t: State, k: nat)
    requires Within(nwork, s, k) && Run(nwork, s, acts, t) && |t.jobs| == |s.jobs|
    ensures Within(nwork, t, k)
    decreases |acts|
  {
    if acts != [] {
      FirstIsAct(nwork, s, acts, t);
      StepLowers(nwork, s, acts[0], k);
      RunKeepsWithin(nwork, Step(nwork, s, acts[0]).value, acts[1..], t, k);
    }
  }

  lemma OldWeightsBound(s: State)
    requires s.jobs != []
    ensures Sum(Old(s), OldWeights) <= 3 * Lingering(s)
  {
    forall j | 0 <= j < |Old(s)| ensures OldWeights(Old(s)[j]) <= 3 * LeftIn(Old(s)[j]) {
      SumBound(Old(s)[j].workers, OldWeight, IsLeft, 3);
    }
    SumBound(Old(s), OldWeights, LeftIn, 3);
  }

  /** Copies that returned nil leave no worker. */
  lemma NobodyLingers(nwork: nat, s: State)
    requires s.jobs != [] && Base(nwork, s) && forall h :: 0 <= h < |s.jobs| - 1 ==> s.jobs[h].result == Some(true)
    ensures Lingering(s) == 0
  {
    forall j | 0 <= j < |Old(s)| ensures LeftIn(Old(s)[j]) == 0 {
      CountIfBound(s.jobs[j].workers, IsOut);
      assert ChannelOk(nwork, s.jobs[j]);
      assert forall i :: 0 <= i < |s.jobs[j].workers| ==> IsOut(s.jobs[j].workers[i]);
      SumZero(Old(s)[j].workers, IsLeft);
    }
    SumZero(Old(s), LeftIn);
  }

  /** The run `before` ends where a copy of `src` starts. */
  ghost predicate StartsCopy(nwork: nat, before: seq<Action>, s: State, src: bytes) {
    Run(nwork, Init, before, s) && Started(s, src)
  }

  /** No read or write fails in any of the actions. */
  predicate ErrorFree(acts: seq<Action>) {
    forall k :: 0 <= k < |acts| ==> acts[k].Act? && !IsError(acts[k].e)
  }

  /** A copy under way can be brought to its end without another error. */
  lemma {:induction false} RunsToEnd(nwork: nat, s: State, k: nat) returns (acts: seq<Action>, t: State)
    requires Within(nwork, s, k)
    ensures Run(nwork, s, acts, t) && |t.jobs| == |s.jobs| && Last(t).result.Some? && ErrorFree(acts)
    decreases Rank(nwork, s, k)
  {
    RankNatural(nwork, s, k);
    if Last(s).result.Some? {
      acts, t := [], s;
    } else {
      var e := NeverStuck(nwork, s);
      var a := Act(|s.jobs| - 1, e);
      StepLowers(nwork, s, a, k);
      var rest;
      rest, t := RunsToEnd(nwork, Step(nwork, s, a).value, k);
      acts := [a] + rest;
      assert acts[1..] == rest;
    }
  }

  lemma StartWithin(nwork: nat, before: seq<Action>, s: State, src: bytes)
    requires StartsCopy(nwork, before, s, src)
    ensures Base(nwork, s) && Within(nwork, s, Waiting(s))
  {
    RunKeepsBase(nwork, Init, before, s);
  }

  lemma CopyBound(nwork: nat, before: seq<Action>, s: State, src: bytes, acts: seq<Action>, t: State)
    requires StartsCopy(nwork, before, s, src) && Run(nwork, s, acts, t) && |t.jobs| == |s.jobs|
    ensures |acts| <= 3 * Blocks(|src|) + 8 * nwork + 1 + 3 * Lingering(s) && Within(nwork, t, Waiting(s))
  {
    StartWithin(nwork, before, s, src);
    RunLowers(nwork, s, acts, t, Waiting(s));
    RunKeepsWithin(nwork, s, acts, t, Waiting(s));
    OldWeightsBound(s);
  }

  lemma NilOrError(r: Option<bool>)
    ensures r == None || r == Some(true) || r == Some(false)
  {
    match r {
      case None =>
      case Some(b) => assert b == true || b == false;
    }
  }

  /** What a run of a copy says about its result. */
  lemma CopyFails(nwork: nat, before: seq<Action>, s: State, src: bytes, acts: seq<Action>, t: State)
    requires StartsCopy(nwork, before, s, src) && Run(nwork, s, acts, t) && |t.jobs| == |s.jobs|
    ensures Last(t).result == Some(false) ==> Erred(acts, |s.jobs| - 1)
    ensures Last(t).result == Some(true) ==> !Erred(acts, |s.jobs| - 1)
  {
    StartWithin(nwork, before, s, src);
    FailsExactly(nwork, s, acts, t, |s.jobs| - 1);
  }

  /** A run without an error of a copy that has none behind it does not report one. */
  lemma ErrorFreeIsNil(nwork: nat, s: State, acts: seq<Action>, t: State)
    requires s.jobs != [] && VerdictsOk(Last(s)) && !Tainted(Last(s))
    requires Run(nwork, s, acts, t) && |t.jobs| == |s.jobs| && ErrorFree(acts)
    ensures Last(t).result != Some(false)
  {
    RunTaints(nwork, s, acts, t, |s.jobs| - 1);
  }

  lemma StartUntainted(nwork: nat, s: State, src: bytes, acts: seq<Action>, t: State)
    requires Started(s, src) && Run(nwork, s, acts, t) && |t.jobs| == |s.jobs| && !Erred(acts, |s.jobs| - 1)
    ensures VerdictsOk(Last(t)) && !Tainted(Last(t))
  {
    RunTaints(nwork, s, acts, t, |s.jobs| - 1);
  }

  /** From every state that a copy reaches without an error of its own it can go on without one and return nil. */
  lemma ErrorFreeSucceeds(nwork: nat, before: seq<Action>, s: State, src: bytes, acts: seq<Action>, t: State)
      returns (rest: seq<Action>, u: State)
    requires StartsCopy(nwork, before, s, src) && Run(nwork, s, acts, t) && |t.jobs| == |s.jobs|
    requires !Erred(acts, |s.jobs| - 1)
    ensures Run(nwork, t, rest, u) && ErrorFree(rest) && |u.jobs| == |s.jobs| && Last(u).result == Some(true)
  {
    CopyBound(nwork, before, s, src, acts, t);
    rest, u := RunsToEnd(nwork, t, Waiting(s));
    StartUntainted(nwork, s, src, acts, t);
    ErrorFreeIsNil(nwork, t, rest, u);
    NilOrError(Last(u).result);
  }

  /** After any history, a copy and the workers left over from earlier ones make at most 3 floor(N / 8192) + 8 nwork + 1
      steps, and three for each of these workers, errors or not.  As long as the copy has not returned it can
      make another step that is not an error.  When it has, it reports an error exactly when one of its own reads or
      writes failed.  Copies that all returned nil leave no workers. */
  lemma CopyEnds(nwork: nat, before: seq<Action>, s: State, src: bytes, acts: seq<Action>, t: State)
    requires StartsCopy(nwork, before, s, src) && Run(nwork, s, acts, t) && |t.jobs| == |s.jobs|
    ensures |acts| <= 3 * (|src| / 8192) + 8 * nwork + 1 + 3 * Lingering(s)
    ensures (forall h :: 0 <= h < |s.jobs| - 1 ==> s.jobs[h].result == Some(true)) ==> Lingering(s) == 0
    ensures t.jobs[|t.jobs| - 1].result.None? ==>
              exists e: Event :: !IsError(e) && Step(nwork, t, Act(|t.jobs| - 1, e)).Some?
    ensures Last(t).result.Some? ==> (Last(t).result == Some(false) <==> Erred(acts, |s.jobs| - 1))
  {
    CopyBound(nwork, before, s, src, acts, t);
    CopyFails(nwork, before, s, src, acts, t);
    if forall h :: 0 <= h < |s.jobs| - 1 ==> s.jobs[h].result == Some(true) {
      StartWithin(nwork, before, s, src);
      NobodyLingers(nwork, s);
    }
    NilOrError(Last(t).result);
    if Last(t).result.None? {
      var e := NeverStuck(nwork, t);
      assert !IsError(e) && Step(nwork, t, Act(|t.jobs| - 1, e)).Some?;
    }
  }
}
