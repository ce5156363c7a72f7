/** What the copies of cmds/cp/cp.go do to their files in every run, also in copies that fail and after them. */
module CpFiles {
  import opened Common
  import opened Cp
  import opened CpErrors
  import opened CpSound
  import opened CpEnds

  /** Every byte of the destination is that of the source, or lies in a gap that has not been written. */
  predicate SourceOrGap(job: Job) {
    |job.dst| <= |job.src| && forall i :: 0 <= i < |job.dst| ==> job.dst[i] == job.src[i] || job.dst[i] == 0
  }

  lemma SpliceKeeps(job: Job, o: nat, b: bytes, job': Job)
    requires SourceOrGap(job) && o + |b| <= |job.src| && b == job.src[o..o + |b|]
    requires job'.src == job.src && job'.dst == Splice(job.dst, o, b)
    ensures SourceOrGap(job')
  {
  }

  lemma PayloadIsRight(job: Job, off: nat, i: nat, k: nat)
    requires Local(job, off) && i < |job.workers| && job.workers[i].pc.WriteAt? && k <= job.workers[i].pc.n
    ensures var w := job.workers[i];
            w.o + w.pc.n <= |job.src| && Payload(w, k) == job.src[w.o..w.o + k]
  {
    var w := job.workers[i];
    assert WorkerOk(w, job.src, off);
    SameHead(w.buf, job.src, w.o, w.pc.n, k);
  }

  lemma EventKeepsGaps(nwork: nat, off: nat, job: Job, e: Event)
    requires Local(job, off) && SourceOrGap(job) && JobStep(nwork, true, off, job, e).Some?
    ensures SourceOrGap(JobStep(nwork, true, off, job, e).value)
  {
    match e
    case WriteOk(i) =>
      var w := job.workers[i];
      PayloadIsRight(job, off, i, w.pc.n);
      SpliceKeeps(job, w.o, Payload(w, w.pc.n), Wrote(job, i));
    case WriteErr(i, k) =>
      var w := job.workers[i];
      PayloadIsRight(job, off, i, k);
      SpliceKeeps(job, w.o, Payload(w, k), WroteBadly(job, i, k));
    case _ => EventKeepsFile(nwork, true, off, job, e);
  }

  /** Nothing that a worker does once a later copy has begun changes its files. */
  lemma ClosedFileStays(nwork: nat, off: nat, job: Job, e: Event)
    requires JobStep(nwork, false, off, job, e).Some?
    ensures var job' := JobStep(nwork, false, off, job, e).value;
            job'.dst == job.dst && job'.src == job.src && job'.result == job.result
  {
  }

  ghost predicate FilesOk(s: State) {
    && (s.jobs != [] ==> Local(Last(s), s.off))
    && forall j :: 0 <= j < |s.jobs| ==> SourceOrGap(s.jobs[j])
  }

  lemma LastKeepsFiles(nwork: nat, s: State, e: Event)
    requires FilesOk(s) && s.jobs != [] && Step(nwork, s, Act(|s.jobs| - 1, e)).Some?
    ensures FilesOk(Step(nwork, s, Act(|s.jobs| - 1, e)).value)
  {
    EventLowers(nwork, s.off, Last(s), e, 0);
    EventKeepsGaps(nwork, s.off, Last(s), e);
  }

  lemma OldKeepsFiles(nwork: nat, s: State, j: nat, e: Event)
    requires FilesOk(s) && j < |s.jobs| - 1 && Step(nwork, s, Act(j, e)).Some?
    ensures FilesOk(Step(nwork, s, Act(j, e)).value)
  {
    ClosedFileStays(nwork, s.off, s.jobs[j], e);
    LocalGrows(Last(s), s.off);
  }

  lemma StepKeepsFilesOk(nwork: nat, s: State, a: Action)
    requires FilesOk(s) && Step(nwork, s, a).Some?
    ensures FilesOk(Step(nwork, s, a).value)
  {
    if a.Act? {
      if a.j < |s.jobs| - 1 {
        OldKeepsFiles(nwork, s, a.j, a.e);
      } else {
        LastKeepsFiles(nwork, s, a.e);
      }
    }
  }

  lemma {:induction false} RunKeepsFilesOk(nwork: nat, s: State, acts: seq<Action>, t: State)
    requires FilesOk(s) && Run(nwork, s, acts, t)
    ensures FilesOk(t)
    decreases |acts|
  {
    if acts != [] {
      StepKeepsFilesOk(nwork, s, acts[0]);
      RunKeepsFilesOk(nwork, Step(nwork, s, acts[0]).value, acts[1..], t);
    }
  }

  /** In every run, whatever fails and whoever draws, no destination ever holds a byte that is neither that of its
      source at the same place nor in a gap. */
  lemma NoWrongByte(nwork: nat, acts: seq<Action>, t: State, j: nat)
    requires Run(nwork, Init, acts, t) && j < |t.jobs|
    ensures SourceOrGap(t.jobs[j])
  {
    RunKeepsFilesOk(nwork, Init, acts, t);
  }

  /** The copy has begun and its files are closed: they stay as they are to the end of every run, and so does its
      result. */
  lemma {:induction false} ClosedFilesStay(nwork: nat, s: State, acts: seq<Action>, t: State, j: nat)
    requires j < |s.jobs| - 1 && Run(nwork, s, acts, t)
    ensures j < |t.jobs| - 1 && t.jobs[j].dst == s.jobs[j].dst && t.jobs[j].result == s.jobs[j].result
    decreases |acts|
  {
    if acts != [] {
      var n := Step(nwork, s, acts[0]).value;
      if acts[0].Act? && acts[0].j == j {
        ClosedFileStays(nwork, s.off, s.jobs[j], acts[0].e);
      }
      ClosedFilesStay(nwork, n, acts[1..], t, j);
    }
  }

  /** A worker of an earlier copy that has not exited can always make a step of its own. */
  lemma LingeringMoves(nwork: nat, s: State, j: nat, i: nat) returns (e: Event)
    requires Base(nwork, s) && j < |s.jobs| - 1 && i < |s.jobs[j].workers| && !s.jobs[j].workers[i].pc.Exited?
    ensures e in [Draw(i), ReadErr(i), WriteErr(i, 0), Send(i)] && Step(nwork, s, Act(j, e)).Some?
  {
    match s.jobs[j].workers[i].pc
    case Fetch => e := Draw(i);
    case ReadAt => e := ReadErr(i);
    case WriteAt(_) => e := WriteErr(i, 0);
    case Report(_) =>
      VerdictNeverBlocks(nwork, s, j, i);
      e := Send(i);
    case Exited(_) => e := Send(i);
  }
}
