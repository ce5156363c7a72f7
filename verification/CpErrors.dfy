/** When a copy of cmds/cp/cp.go fails: exactly when one of its reads or writes did. */
module CpErrors {
  import opened Common
  import opened Cp

  predicate IsError(e: Event) {
    e.ReadErr? || e.WriteErr?
  }

  /** The action is a read or a write of copy `j` that fails. */
  predicate Errs(a: Action, j: nat) {
    a.Act? && a.j == j && IsError(a.e)
  }

  predicate Erred(acts: seq<Action>, j: nat) {
    exists k :: 0 <= k < |acts| && Errs(acts[k], j)
  }

  /** The worker has given up. */
  predicate IsBad(w: Worker) {
    w.pc == Report(false) || w.pc == Exited(false)
  }

  predicate Tainted(job: Job) {
    exists i :: 0 <= i < |job.workers| && IsBad(job.workers[i])
  }

  /** A failure that has been reported comes from a worker that gave up. */
  predicate VerdictsOk(job: Job) {
    false in job.fail || job.result == Some(false) ==> Tainted(job)
  }

  lemma SetTaints(job: Job, i: nat, w: Worker)
    requires i < |job.workers| && (IsBad(job.workers[i]) ==> IsBad(w))
    ensures Tainted(SetWorker(job, i, w)) <==> Tainted(job) || IsBad(w)
  {
    var job' := SetWorker(job, i, w);
    if Tainted(job) {
      var k :| 0 <= k < |job.workers| && IsBad(job.workers[k]);
      assert IsBad(job'.workers[k]);
    }
    if IsBad(w) {
      assert IsBad(job'.workers[i]);
    }
    if Tainted(job') {
      var k :| 0 <= k < |job'.workers| && IsBad(job'.workers[k]);
      assert k != i ==> IsBad(job.workers[k]);
    }
  }

  lemma SpawnTaints(job: Job, job': Job)
    requires job' == job.(workers := job.workers + [NewWorker()])
    ensures Tainted(job') <==> Tainted(job)
  {
    if Tainted(job) {
      var k :| 0 <= k < |job.workers| && IsBad(job.workers[k]);
      assert IsBad(job'.workers[k]);
    }
  }

  lemma SameTaint(job: Job, job': Job)
    requires job'.workers == job.workers
    ensures Tainted(job') <==> Tainted(job)
  {
  }

  /** A worker gives up in a failing read or write, and in no other event. */
  lemma EventTaints(nwork: nat, open: bool, off: nat, job: Job, e: Event)
    requires JobStep(nwork, open, off, job, e).Some?
    ensures Tainted(JobStep(nwork, open, off, job, e).value) <==> Tainted(job) || IsError(e)
  {
    var job' := JobStep(nwork, open, off, job, e).value;
    match e
    case Spawn => SpawnTaints(job, job');
    case Collect => SameTaint(job, job');
    case Finish => SameTaint(job, job');
    case Send(i) =>
      SetTaints(job, i, job'.workers[i]);
      SameTaint(SetWorker(job, i, job'.workers[i]), job');
      assert IsBad(job'.workers[i]) <==> IsBad(job.workers[i]);
    case _ =>
      SetTaints(job, e.i, job'.workers[e.i]);
      SameTaint(SetWorker(job, e.i, job'.workers[e.i]), job');
  }

  lemma EventKeepsVerdicts(nwork: nat, open: bool, off: nat, job: Job, e: Event)
    requires VerdictsOk(job) && JobStep(nwork, open, off, job, e).Some?
    ensures VerdictsOk(JobStep(nwork, open, off, job, e).value)
  {
    EventTaints(nwork, open, off, job, e);
    if e.Send? && !job.workers[e.i].pc.ok {
      assert IsBad(job.workers[e.i]);
    }
  }

  lemma StepTaints(nwork: nat, s: State, a: Action, j: nat)
    requires j < |s.jobs| && VerdictsOk(s.jobs[j]) && Step(nwork, s, a).Some?
    ensures var t := Step(nwork, s, a).value;
            && |s.jobs| <= |t.jobs| && VerdictsOk(t.jobs[j])
            && (Tainted(t.jobs[j]) <==> Tainted(s.jobs[j]) || Errs(a, j))
  {
    if a.Act? && a.j == j {
      EventTaints(nwork, j == |s.jobs| - 1, s.off, s.jobs[j], a.e);
      EventKeepsVerdicts(nwork, j == |s.jobs| - 1, s.off, s.jobs[j], a.e);
    }
  }

  lemma {:induction false} RunTaints(nwork: nat, s: State, acts: seq<Action>, t: State, j: nat)
    requires j < |s.jobs| && VerdictsOk(s.jobs[j]) && Run(nwork, s, acts, t)
    ensures j < |t.jobs| && VerdictsOk(t.jobs[j])
    ensures Tainted(t.jobs[j]) <==> Tainted(s.jobs[j]) || Erred(acts, j)
    decreases |acts|
  {
    if acts != [] {
      StepTaints(nwork, s, acts[0], j);
      RunTaints(nwork, Step(nwork, s, acts[0]).value, acts[1..], t, j);
      ErredCons(acts, j);
    }
  }

  lemma ErredCons(acts: seq<Action>, j: nat)
    requires acts != []
    ensures Erred(acts, j) <==> Errs(acts[0], j) || Erred(acts[1..], j)
  {
    if Erred(acts[1..], j) {
      var k :| 0 <= k < |acts[1..]| && Errs(acts[1..][k], j);
      assert Errs(acts[k + 1], j);
    }
    if Erred(acts, j) {
      var k :| 0 <= k < |acts| && Errs(acts[k], j);
      assert k > 0 ==> Errs(acts[1..][k - 1], j);
    }
  }

  /** A copy that has returned nil has no worker that gave up. */
  lemma NilIsUntainted(nwork: nat, job: Job)
    requires ChannelOk(nwork, job) && job.result == Some(true)
    ensures !Tainted(job)
  {
    CountIfBound(job.workers, IsOut);
    CountIfBound(job.workers, IsFailed);
    assert job.fail == [];
    forall i | 0 <= i < |job.workers| ensures !IsBad(job.workers[i]) {
      assert IsOut(job.workers[i]) && !IsFailed(job.workers[i]);
    }
  }

  /** A copy that returns reports an error exactly when one of its reads or writes failed, whatever the
      size of the file and whatever other copies did. */
  lemma FailsExactly(nwork: nat, s: State, acts: seq<Action>, t: State, j: nat)
    requires Base(nwork, s) && Run(nwork, s, acts, t)
    requires j < |s.jobs| && s.jobs[j] == NewJob(s.jobs[j].src)
    ensures j < |t.jobs|
    ensures t.jobs[j].result == Some(false) ==> Erred(acts, j)
    ensures t.jobs[j].result == Some(true) ==> !Erred(acts, j)
  {
    RunKeepsBase(nwork, s, acts, t);
    RunTaints(nwork, s, acts, t, j);
    if t.jobs[j].result == Some(true) {
      NilIsUntainted(nwork, t.jobs[j]);
    }
  }
}
