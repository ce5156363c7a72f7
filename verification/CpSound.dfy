/** What the workers of the parallel copy of cmds/cp/cp.go keep while no older worker is in the way. */
module CpSound {
  import opened Common
  import opened Cp
  import opened CpErrors

  // ---------------------------------------------------------------------------------------------
  // A copy that begins while no older worker waits for an offset.
  // ---------------------------------------------------------------------------------------------

  /** The worker answers for the block at its offset: drawn, and not known to be copied. */
  predicate Holds(w: Worker) {
    w.l == BUFF_SIZE && (w.pc.ReadAt? || w.pc.WriteAt? || w.pc == Report(false) || w.pc == Exited(false))
  }

  predicate HoldsByte(w: Worker, p: nat) {
    Holds(w) && w.o <= p < w.o + BUFF_SIZE
  }

  predicate WorkerOk(w: Worker, src: bytes, off: nat) {
    && (Holds(w) ==> w.o % BUFF_SIZE == 0 && w.o < off)
    && match w.pc
       case Fetch => w.l == BUFF_SIZE && w.at == 0
       case ReadAt => if w.l == BUFF_SIZE then w.at == 0
                      else w.at < BUFF_SIZE && w.o == |src| && |src| <= off
       case WriteAt(n) => w.l == BUFF_SIZE && w.at == 0 && 0 < n == Min(BUFF_SIZE, |src| - w.o)
                          && w.buf[..n] == src[w.o..w.o + n]
       case Report(ok) => ok ==> |src| <= off
       case Exited(ok) => ok ==> |src| <= off
  }

  ghost predicate Covered(src: bytes, dst: bytes, ws: seq<Worker>, p: nat)
    requires p < |src|
  {
    || (p < |dst| && dst[p] == src[p])
    || exists i :: 0 <= i < |ws| && HoldsByte(ws[i], p)
  }

  /** Every block handed out is copied or answered for by exactly one worker. */
  ghost predicate Sound(job: Job, off: nat) {
    && off % BUFF_SIZE == 0
    && (forall i :: 0 <= i < |job.workers| ==> WorkerOk(job.workers[i], job.src, off))
    && (forall i, k :: 0 <= i < k < |job.workers| && Holds(job.workers[i]) && Holds(job.workers[k]) ==>
         job.workers[i].o != job.workers[k].o)
    && (forall p :: 0 <= p < |job.src| && p < off ==> Covered(job.src, job.dst, job.workers, p))
  }

  lemma SpawnSound(job: Job, off: nat)
    requires Sound(job, off)
    ensures Sound(job.(workers := job.workers + [NewWorker()]), off)
  {
    var job' := job.(workers := job.workers + [NewWorker()]);
    forall p | 0 <= p < |job.src| && p < off ensures Covered(job'.src, job'.dst, job'.workers, p) {
      assert Covered(job.src, job.dst, job.workers, p);
      if !(p < |job.dst| && job.dst[p] == job.src[p]) {
        var i :| 0 <= i < |job.workers| && HoldsByte(job.workers[i], p);
        assert HoldsByte(job'.workers[i], p);
      }
    }
  }

  /** A change of worker `i` and of the destination that loses no byte. */
  lemma CoverageKept(job: Job, i: nat, w: Worker, dst: bytes, off: nat)
    requires Sound(job, off) && i < |job.workers|
    requires forall p :: 0 <= p < |job.src| && p < off && p < |job.dst| && job.dst[p] == job.src[p] ==>
               p < |dst| && dst[p] == job.src[p]
    requires forall p :: 0 <= p < |job.src| && p < off && HoldsByte(job.workers[i], p) ==>
               HoldsByte(w, p) || (p < |dst| && dst[p] == job.src[p])
    ensures var ws := job.workers[i := w];
            forall p :: 0 <= p < |job.src| && p < off ==> Covered(job.src, dst, ws, p)
  {
    var ws := job.workers[i := w];
    forall p | 0 <= p < |job.src| && p < off ensures Covered(job.src, dst, ws, p) {
      assert Covered(job.src, job.dst, job.workers, p);
      if !(p < |job.dst| && job.dst[p] == job.src[p]) {
        var k :| 0 <= k < |job.workers| && HoldsByte(job.workers[k], p);
        assert k != i ==> HoldsByte(ws[k], p);
        assert k == i && HoldsByte(w, p) ==> HoldsByte(ws[i], p);
      }
    }
  }

  lemma DrawSound(job: Job, off: nat, i: nat)
    requires Sound(job, off) && i < |job.workers| && job.workers[i].pc.Fetch?
    ensures Sound(SetWorker(job, i, job.workers[i].(pc := ReadAt, o := off)), off + BUFF_SIZE)
  {
    var w := job.workers[i].(pc := ReadAt, o := off);
    var job' := SetWorker(job, i, w);
    CoverageKept(job, i, w, job.dst, off);
    forall p | 0 <= p < |job.src| && p < off + BUFF_SIZE ensures Covered(job'.src, job'.dst, job'.workers, p) {
      if off <= p {
        assert HoldsByte(job'.workers[i], p);
      }
    }
  }

  lemma ReadSound(job: Job, off: nat, i: nat)
    requires Sound(job, off) && i < |job.workers| && job.workers[i].pc.ReadAt?
    ensures Sound(SetWorker(job, i, AfterRead(job.src, job.workers[i])), off)
  {
    CoverageKept(job, i, AfterRead(job.src, job.workers[i]), job.dst, off);
  }

  lemma ReadErrSound(job: Job, off: nat, i: nat)
    requires Sound(job, off) && i < |job.workers| && job.workers[i].pc.ReadAt?
    ensures Sound(SetWorker(job, i, job.workers[i].(pc := Report(false))), off)
  {
    CoverageKept(job, i, job.workers[i].(pc := Report(false)), job.dst, off);
  }

  /** Writing a part of the source at its own offset spoils nothing and completes that part. */
  lemma SpliceSource(src: bytes, dst: bytes, o: nat, n: nat)
    requires o + n <= |src|
    ensures var d := Splice(dst, o, src[o..o + n]);
            forall p :: 0 <= p < |src| && ((p < |dst| && dst[p] == src[p]) || o <= p < o + n) ==>
              p < |d| && d[p] == src[p]
  {
  }

  /** A worker that is about to write holds the source at its own offset. */
  lemma PayloadIsSource(job: Job, off: nat, i: nat, k: nat)
    requires Sound(job, off) && i < |job.workers| && job.workers[i].pc.WriteAt? && k <= job.workers[i].pc.n
    ensures var w := job.workers[i];
            w.o + w.pc.n <= |job.src| && Payload(w, k) == job.src[w.o..w.o + k]
  {
    var w := job.workers[i];
    assert WorkerOk(w, job.src, off);
    SameHead(w.buf, job.src, w.o, w.pc.n, k);
  }

  lemma SameHead(buf: bytes, src: bytes, o: nat, n: nat, k: nat)
    requires k <= n <= |buf| && o + n <= |src| && buf[..n] == src[o..o + n]
    ensures buf[0..k] == src[o..o + k]
  {
    assert buf[0..k] == buf[..n][..k] && src[o..o + k] == src[o..o + n][..k];
  }

  /** The write completes the block that the worker held. */
  lemma WriteCovers(job: Job, off: nat, i: nat)
    requires Sound(job, off) && i < |job.workers| && job.workers[i].pc.WriteAt?
    ensures var ws := job.workers[i := AfterWrite(job.workers[i])];
            forall p :: 0 <= p < |job.src| && p < off ==> Covered(job.src, Wrote(job, i).dst, ws, p)
  {
    var w := job.workers[i];
    PayloadIsSource(job, off, i, w.pc.n);
    SpliceSource(job.src, job.dst, w.o, w.pc.n);
    CoverageKept(job, i, AfterWrite(w), Splice(job.dst, w.o, Payload(w, w.pc.n)), off);
  }

  /** A worker's step that keeps its block, or lets it go, and keeps the coverage. */
  lemma StepSound(job: Job, off: nat, i: nat, w: Worker, job': Job)
    requires Sound(job, off) && i < |job.workers| && job'.src == job.src && job'.workers == job.workers[i := w]
    requires WorkerOk(w, job.src, off) && (Holds(w) ==> Holds(job.workers[i]) && w.o == job.workers[i].o)
    requires forall p :: 0 <= p < |job.src| && p < off ==> Covered(job.src, job'.dst, job'.workers, p)
    ensures Sound(job', off)
  {
  }

  lemma WriteSound(job: Job, off: nat, i: nat)
    requires Sound(job, off) && i < |job.workers| && job.workers[i].pc.WriteAt?
    ensures Sound(Wrote(job, i), off)
  {
    WriteCovers(job, off, i);
    assert WorkerOk(job.workers[i], job.src, off);
    StepSound(job, off, i, AfterWrite(job.workers[i]), Wrote(job, i));
  }

  /** A failed write spoils nothing, and the worker keeps the block. */
  lemma WriteErrCovers(job: Job, off: nat, i: nat, k: nat)
    requires Sound(job, off) && i < |job.workers| && job.workers[i].pc.WriteAt? && k <= job.workers[i].pc.n
    ensures var ws := job.workers[i := job.workers[i].(pc := Report(false))];
            forall p :: 0 <= p < |job.src| && p < off ==> Covered(job.src, WroteBadly(job, i, k).dst, ws, p)
  {
    var w := job.workers[i];
    PayloadIsSource(job, off, i, k);
    SpliceSource(job.src, job.dst, w.o, k);
    CoverageKept(job, i, w.(pc := Report(false)), Splice(job.dst, w.o, Payload(w, k)), off);
  }

  lemma WriteErrSound(job: Job, off: nat, i: nat, k: nat)
    requires Sound(job, off) && i < |job.workers| && job.workers[i].pc.WriteAt? && k <= job.workers[i].pc.n
    ensures Sound(WroteBadly(job, i, k), off)
  {
    WriteErrCovers(job, off, i, k);
    assert WorkerOk(job.workers[i], job.src, off);
    StepSound(job, off, i, job.workers[i].(pc := Report(false)), WroteBadly(job, i, k));
  }

  lemma SendSound(job: Job, off: nat, i: nat)
    requires Sound(job, off) && i < |job.workers| && job.workers[i].pc.Report?
    ensures Sound(Sent(job, i), off)
  {
    CoverageKept(job, i, job.workers[i].(pc := Exited(job.workers[i].pc.ok)), job.dst, off);
  }

  lemma EventKeepsSound(nwork: nat, off: nat, job: Job, e: Event)
    requires Sound(job, off) && JobStep(nwork, true, off, job, e).Some?
    ensures Sound(JobStep(nwork, true, off, job, e).value, if e.Draw? then off + BUFF_SIZE else off)
  {
    match e
    case Spawn => SpawnSound(job, off);
    case Draw(i) => DrawSound(job, off, i);
    case ReadOk(i) => ReadSound(job, off, i);
    case ReadErr(i) => ReadErrSound(job, off, i);
    case WriteOk(i) => WriteSound(job, off, i);
    case WriteErr(i, k) => WriteErrSound(job, off, i, k);
    case Send(i) => SendSound(job, off, i);
    case Collect =>
    case Finish =>
  }


  /** The worker may still write the block at its offset. */
  predicate Active(w: Worker) {
    w.l == BUFF_SIZE && (w.pc.ReadAt? || w.pc.WriteAt?)
  }

  /** No two writes of the log touch the same block, and no worker is about to repeat one. */
  predicate LogOk(job: Job, off: nat) {
    && (forall k :: 0 <= k < |job.writes| ==>
         job.writes[k].o % BUFF_SIZE == 0 && job.writes[k].n <= BUFF_SIZE && job.writes[k].o < off)
    && (forall k, m :: 0 <= k < m < |job.writes| ==> job.writes[k].o != job.writes[m].o)
    && (forall i, k :: 0 <= i < |job.workers| && Active(job.workers[i]) && 0 <= k < |job.writes| ==>
         job.workers[i].o != job.writes[k].o)
  }

  lemma LogSetWorker(job: Job, i: nat, w: Worker, off: nat, off': nat)
    requires LogOk(job, off) && i < |job.workers| && off <= off'
    requires Active(w) ==> (Active(job.workers[i]) && w.o == job.workers[i].o) || w.o == off
    ensures LogOk(SetWorker(job, i, w), off')
  {
  }

  lemma LogWrite(job: Job, i: nat, w: Worker, n: nat, off: nat)
    requires Sound(job, off) && LogOk(job, off) && i < |job.workers|
    requires Active(job.workers[i]) && !Active(w) && n <= BUFF_SIZE
    ensures LogOk(SetWorker(job, i, w).(writes := job.writes + [Write(job.workers[i].o, n)]), off)
  {
    var job' := SetWorker(job, i, w).(writes := job.writes + [Write(job.workers[i].o, n)]);
    assert forall k :: 0 <= k < |job'.workers| && Active(job'.workers[k]) ==> Holds(job.workers[k]);
  }

  lemma LogWrote(job: Job, i: nat, off: nat)
    requires Sound(job, off) && LogOk(job, off) && i < |job.workers| && job.workers[i].pc.WriteAt?
    ensures LogOk(Wrote(job, i), off)
  {
    assert WorkerOk(job.workers[i], job.src, off);
    LogWrite(job, i, AfterWrite(job.workers[i]), job.workers[i].pc.n, off);
  }

  lemma LogWroteBadly(job: Job, i: nat, k: nat, off: nat)
    requires Sound(job, off) && LogOk(job, off) && i < |job.workers| && job.workers[i].pc.WriteAt?
    requires k <= job.workers[i].pc.n
    ensures LogOk(WroteBadly(job, i, k), off)
  {
    assert WorkerOk(job.workers[i], job.src, off);
    LogWrite(job, i, job.workers[i].(pc := Report(false)), k, off);
  }

  lemma LogSent(job: Job, i: nat, off: nat)
    requires LogOk(job, off) && i < |job.workers| && job.workers[i].pc.Report?
    ensures LogOk(Sent(job, i), off)
  {
    LogSetWorker(job, i, job.workers[i].(pc := Exited(job.workers[i].pc.ok)), off, off);
  }

  lemma LogSpawned(job: Job, off: nat)
    requires LogOk(job, off)
    ensures LogOk(job.(workers := job.workers + [NewWorker()]), off)
  {
    assert !Active(NewWorker());
  }

  lemma EventKeepsLog(nwork: nat, off: nat, job: Job, e: Event)
    requires Sound(job, off) && LogOk(job, off) && JobStep(nwork, true, off, job, e).Some?
    ensures LogOk(JobStep(nwork, true, off, job, e).value, if e.Draw? then off + BUFF_SIZE else off)
  {
    match e
    case Spawn => LogSpawned(job, off);
    case Draw(i) => LogSetWorker(job, i, job.workers[i].(pc := ReadAt, o := off), off, off + BUFF_SIZE);
    case ReadOk(i) => LogSetWorker(job, i, AfterRead(job.src, job.workers[i]), off, off);
    case ReadErr(i) => LogSetWorker(job, i, job.workers[i].(pc := Report(false)), off, off);
    case WriteOk(i) => LogWrote(job, i, off);
    case WriteErr(i, k) => LogWroteBadly(job, i, k, off);
    case Send(i) => LogSent(job, i, off);
    case Collect =>
    case Finish =>
  }

  /** The worker draws no more: its block is not a full one, or it has ended. */
  function DrewLast(size: nat): Worker -> bool {
    (w: Worker) => (w.pc.ReadAt? && (w.l != BUFF_SIZE || size < w.o + BUFF_SIZE))
                   || (w.pc.WriteAt? && w.pc.n < BUFF_SIZE) || w.pc.Report? || w.pc.Exited?
  }

  function LastDraws(job: Job): nat {
    CountIf(job.workers, DrewLast(|job.src|))
  }

  predicate DrawsOk(job: Job, off: nat) {
    off <= |job.src| + BUFF_SIZE * LastDraws(job)
  }

  /** As long as no read or write has failed, full blocks are drawn first, and then one offset for each worker that
      draws no more. */
  predicate DrawsExact(job: Job, off: nat) {
    || Tainted(job)
    || (off <= |job.src| && LastDraws(job) == 0)
    || off == BUFF_SIZE * (|job.src| / BUFF_SIZE + LastDraws(job))
  }

  lemma LastDrawsSet(job: Job, i: nat, w: Worker, job': Job)
    requires i < |job.workers| && job'.src == job.src && job'.workers == job.workers[i := w]
    ensures var f := DrewLast(|job.src|);
            LastDraws(job') == LastDraws(job) - (if f(job.workers[i]) then 1 else 0) + if f(w) then 1 else 0
  {
    CountIfUpdate(job.workers, i, w, DrewLast(|job.src|));
  }

  lemma ReadDrew(w: Worker, src: bytes, off: nat)
    requires WorkerOk(w, src, off) && w.pc.ReadAt?
    ensures DrewLast(|src|)(AfterRead(src, w)) <==> DrewLast(|src|)(w)
  {
  }

  lemma WriteDrew(w: Worker, src: bytes, off: nat)
    requires WorkerOk(w, src, off) && w.pc.WriteAt?
    ensures DrewLast(|src|)(AfterWrite(w)) <==> DrewLast(|src|)(w)
  {
  }

  /** An event adds to the workers that draw no more one that draws an offset which is not that of a full block; an
      error may add one, too. */
  lemma EventLastDraws(nwork: nat, off: nat, job: Job, e: Event)
    requires forall i :: 0 <= i < |job.workers| ==> WorkerOk(job.workers[i], job.src, off)
    requires JobStep(nwork, true, off, job, e).Some?
    ensures var job' := JobStep(nwork, true, off, job, e).value;
            var n := LastDraws(job) + if e.Draw? && |job.src| < off + BUFF_SIZE then 1 else 0;
            job'.src == job.src && LastDraws(job') >= n && (!IsError(e) ==> LastDraws(job') == n)
  {
    var job' := JobStep(nwork, true, off, job, e).value;
    match e
    case Spawn => assert job'.workers[..|job.workers|] == job.workers;
    case Collect =>
    case Finish =>
    case Draw(i) =>
      assert WorkerOk(job.workers[i], job.src, off);
      LastDrawsSet(job, i, job'.workers[i], job');
    case ReadOk(i) =>
      ReadDrew(job.workers[i], job.src, off);
      LastDrawsSet(job, i, job'.workers[i], job');
    case WriteOk(i) =>
      WriteDrew(job.workers[i], job.src, off);
      LastDrawsSet(job, i, job'.workers[i], job');
    case _ => LastDrawsSet(job, e.i, job'.workers[e.i], job');
  }

  lemma EventKeepsDraws(nwork: nat, off: nat, job: Job, e: Event)
    requires Sound(job, off) && DrawsOk(job, off) && JobStep(nwork, true, off, job, e).Some?
    ensures DrawsOk(JobStep(nwork, true, off, job, e).value, if e.Draw? then off + BUFF_SIZE else off)
  {
    EventLastDraws(nwork, off, job, e);
  }

  /** One more offset, after full blocks or after the last of them. */
  lemma DrawCounts(size: nat, off: nat, n: nat)
    requires off % BUFF_SIZE == 0
    requires (off <= size && n == 0) || off == BUFF_SIZE * (size / BUFF_SIZE + n)
    ensures size < off + BUFF_SIZE ==> off + BUFF_SIZE == BUFF_SIZE * (size / BUFF_SIZE + (n + 1))
    ensures off + BUFF_SIZE <= size ==> n == 0
  {
  }

  lemma EventKeepsCount(nwork: nat, off: nat, job: Job, e: Event)
    requires Sound(job, off) && DrawsExact(job, off) && JobStep(nwork, true, off, job, e).Some?
    ensures DrawsExact(JobStep(nwork, true, off, job, e).value, if e.Draw? then off + BUFF_SIZE else off)
  {
    EventTaints(nwork, true, off, job, e);
    if !Tainted(job) && !IsError(e) {
      EventLastDraws(nwork, off, job, e);
      DrawCounts(|job.src|, off, LastDraws(job));
    }
  }

  // ---------------------------------------------------------------------------------------------
  // Whole runs.
  // ---------------------------------------------------------------------------------------------

  ghost predicate AllInv(job: Job, off: nat) {
    Sound(job, off) && LogOk(job, off) && DrawsOk(job, off) && DrawsExact(job, off)
  }

  predicate NoFetch(job: Job) {
    forall i :: 0 <= i < |job.workers| ==> !job.workers[i].pc.Fetch?
  }

  predicate AllNil(job: Job) {
    forall i :: 0 <= i < |job.workers| ==> job.workers[i].pc == Exited(true)
  }

  /** Job `g` began while no older worker was waiting for an offset. */
  ghost predicate Good(nwork: nat, s: State, g: nat) {
    Base(nwork, s) && Clean(s, g)
  }

  ghost predicate Clean(s: State, g: nat) {
    && g < |s.jobs|
    && (forall h :: 0 <= h < g ==> NoFetch(s.jobs[h]))
    && (if g == |s.jobs| - 1 then AllInv(s.jobs[g], s.off)
        else s.jobs[g].result == Some(true) ==> AllNil(s.jobs[g]) && s.jobs[g].dst == s.jobs[g].src)
  }

  /** `nwork` nil verdicts were collected, so the destination is the source. */
  lemma NilVerdictsMeanExact(nwork: nat, job: Job, off: nat)
    requires nwork >= 1 && ChannelOk(nwork, job) && SizeOk(job) && Sound(job, off)
    requires job.result == Some(true)
    ensures AllNil(job) && job.dst == job.src
  {
    CountIfBound(job.workers, IsOut);
    CountIfBound(job.workers, IsFailed);
    assert job.fail == [];
    forall i | 0 <= i < |job.workers| ensures job.workers[i].pc == Exited(true) {
      assert IsOut(job.workers[i]) && !IsFailed(job.workers[i]);
    }
    assert WorkerOk(job.workers[0], job.src, off);
    forall p | 0 <= p < |job.src| ensures p < |job.dst| && job.dst[p] == job.src[p] {
      ByteExact(job, off, p);
    }
    if job.src != [] {
      ByteExact(job, off, |job.src| - 1);
    }
  }

  lemma ByteExact(job: Job, off: nat, p: nat)
    requires Sound(job, off) && AllNil(job) && p < |job.src| <= off
    ensures p < |job.dst| && job.dst[p] == job.src[p]
  {
    assert Covered(job.src, job.dst, job.workers, p);
  }

  /** Once a later copy has begun, a job with no worker before its draw never draws again,
      and its verdict and files no longer change. */
  lemma ClosedEvent(nwork: nat, off: nat, job: Job, e: Event)
    requires JobStep(nwork, false, off, job, e).Some?
    ensures !AllNil(job) && JobStep(nwork, false, off, job, e).value.result == job.result
    ensures NoFetch(job) ==> !e.Draw? && NoFetch(JobStep(nwork, false, off, job, e).value)
  {
  }

  /** An event of an older copy. */
  lemma OldActKeepsClean(nwork: nat, s: State, j: nat, e: Event, g: nat)
    requires Clean(s, g) && j < |s.jobs| - 1 && Step(nwork, s, Act(j, e)).Some?
    ensures Clean(Step(nwork, s, Act(j, e)).value, g)
  {
    ClosedEvent(nwork, s.off, s.jobs[j], e);
  }

  lemma EventKeepsAllInv(nwork: nat, off: nat, job: Job, e: Event)
    requires AllInv(job, off) && JobStep(nwork, true, off, job, e).Some?
    ensures AllInv(JobStep(nwork, true, off, job, e).value, if e.Draw? then off + BUFF_SIZE else off)
  {
    EventKeepsSound(nwork, off, job, e);
    EventKeepsLog(nwork, off, job, e);
    EventKeepsDraws(nwork, off, job, e);
    EventKeepsCount(nwork, off, job, e);
  }

  lemma ActKeepsClean(nwork: nat, s: State, j: nat, e: Event, g: nat)
    requires Clean(s, g) && Step(nwork, s, Act(j, e)).Some?
    ensures Clean(Step(nwork, s, Act(j, e)).value, g)
  {
    if j < |s.jobs| - 1 {
      OldActKeepsClean(nwork, s, j, e, g);
    } else if g == j {
      EventKeepsAllInv(nwork, s.off, s.jobs[g], e);
    }
  }

  lemma StepKeepsGood(nwork: nat, s: State, a: Action, g: nat)
    requires nwork >= 1 && Good(nwork, s, g) && Step(nwork, s, a).Some?
    ensures Good(nwork, Step(nwork, s, a).value, g)
  {
    StepKeepsBase(nwork, s, a);
    if a.Act? {
      ActKeepsClean(nwork, s, a.j, a.e, g);
    } else if g == |s.jobs| - 1 && s.jobs[g].result == Some(true) {
      NilVerdictsMeanExact(nwork, s.jobs[g], s.off);
    }
  }

  lemma {:induction false} RunKeepsGood(nwork: nat, s: State, acts: seq<Action>, t: State, g: nat)
    requires nwork >= 1 && Good(nwork, s, g) && Run(nwork, s, acts, t)
    ensures Good(nwork, t, g)
    decreases |acts|
  {
    if acts != [] {
      StepKeepsGood(nwork, s, acts[0], g);
      RunKeepsGood(nwork, Step(nwork, s, acts[0]).value, acts[1..], t, g);
    }
  }

  /** `copyOneFile` has just reset the dispenser for `src`. */
  predicate Started(s: State, src: bytes) {
    s.jobs != [] && s.jobs[|s.jobs| - 1] == NewJob(src) && s.off == 0 && s.drawn == []
  }

  /** No worker of an earlier copy is waiting on `offchan`. */
  predicate NoStaleFetcher(s: State) {
    forall h :: 0 <= h < |s.jobs| - 1 ==> NoFetch(s.jobs[h])
  }

  /** Every run in which the copy just started returns nil leaves its destination equal to its source. */
  ghost predicate AlwaysRight(nwork: nat, s: State, src: bytes)
    requires s.jobs != []
  {
    forall acts, t | Run(nwork, s, acts, t) && |s.jobs| <= |t.jobs| ::
      t.jobs[|s.jobs| - 1].result == Some(true) ==> t.jobs[|s.jobs| - 1].dst == src
  }

  lemma CleanStartIsRight(nwork: nat, s: State, src: bytes)
    requires nwork >= 1 && Base(nwork, s) && Started(s, src) && NoStaleFetcher(s)
    ensures AlwaysRight(nwork, s, src)
  {
    var g := |s.jobs| - 1;
    assert Good(nwork, s, g);
    forall acts, t | Run(nwork, s, acts, t) && |s.jobs| <= |t.jobs| && t.jobs[g].result == Some(true)
      ensures t.jobs[g].dst == src
    {
      RunKeepsGood(nwork, s, acts, t, g);
      RunKeepsBase(nwork, s, acts, t);
      if g == |t.jobs| - 1 {
        NilVerdictsMeanExact(nwork, t.jobs[g], t.off);
      }
    }
  }

  /** A run of any number of copies from the start of the program: up to the first failure every copy
      that returned nil is exact, and a copy in progress has only sound blocks outstanding. */
  lemma CopiesRightUntilFailure(nwork: nat, acts: seq<Action>, t: State, g: nat)
    requires nwork >= 1 && Run(nwork, Init, acts, t) && g < |t.jobs|
    requires forall h :: 0 <= h < g ==> t.jobs[h].result == Some(true)
    ensures t.jobs[g].result == Some(true) ==> t.jobs[g].dst == t.jobs[g].src
    ensures g == |t.jobs| - 1 ==> AllInv(t.jobs[g], t.off)
  {
    RunKeepsGoodPrefix(nwork, Init, acts, t);
    assert Good(nwork, t, g);
    if t.jobs[g].result == Some(true) && g == |t.jobs| - 1 {
      NilVerdictsMeanExact(nwork, t.jobs[g], t.off);
    }
  }

  /** Every job before which all copies succeeded began cleanly. */
  ghost predicate GoodPrefix(nwork: nat, s: State) {
    && Base(nwork, s)
    && forall g :: 0 <= g < |s.jobs| && (forall h :: 0 <= h < g ==> s.jobs[h].result == Some(true)) ==>
         Good(nwork, s, g)
  }

  lemma BeginKeepsGoodPrefix(nwork: nat, s: State, src: bytes)
    requires nwork >= 1 && GoodPrefix(nwork, s) && Step(nwork, s, Begin(src)).Some?
    ensures GoodPrefix(nwork, Step(nwork, s, Begin(src)).value)
  {
    var s' := Step(nwork, s, Begin(src)).value;
    StepKeepsBase(nwork, s, Begin(src));
    forall g | 0 <= g < |s'.jobs| && (forall h :: 0 <= h < g ==> s'.jobs[h].result == Some(true))
      ensures Good(nwork, s', g)
    {
      assert forall h :: 0 <= h < g ==> s'.jobs[h] == s.jobs[h];
      if g < |s.jobs| {
        StepKeepsGood(nwork, s, Begin(src), g);
      } else {
        forall h | 0 <= h < g ensures NoFetch(s'.jobs[h]) {
          assert Good(nwork, s, h);
          StepKeepsGood(nwork, s, Begin(src), h);
        }
      }
    }
  }

  lemma ActKeepsGoodPrefix(nwork: nat, s: State, j: nat, e: Event)
    requires nwork >= 1 && GoodPrefix(nwork, s) && Step(nwork, s, Act(j, e)).Some?
    ensures GoodPrefix(nwork, Step(nwork, s, Act(j, e)).value)
  {
    var s' := Step(nwork, s, Act(j, e)).value;
    StepKeepsBase(nwork, s, Act(j, e));
    forall g | 0 <= g < |s'.jobs| && (forall h :: 0 <= h < g ==> s'.jobs[h].result == Some(true))
      ensures Good(nwork, s', g)
    {
      forall h | 0 <= h < g ensures s.jobs[h].result == Some(true) {
        assert s'.jobs[h].result == s.jobs[h].result;
      }
      StepKeepsGood(nwork, s, Act(j, e), g);
    }
  }

  lemma {:induction false} RunKeepsGoodPrefix(nwork: nat, s: State, acts: seq<Action>, t: State)
    requires nwork >= 1 && GoodPrefix(nwork, s) && Run(nwork, s, acts, t)
    ensures GoodPrefix(nwork, t)
    decreases |acts|
  {
    if acts != [] {
      match acts[0] {
        case Begin(src) => BeginKeepsGoodPrefix(nwork, s, src);
        case Act(j, e) => ActKeepsGoodPrefix(nwork, s, j, e);
      }
      RunKeepsGoodPrefix(nwork, Step(nwork, s, acts[0]).value, acts[1..], t);
    }
  }

  /** What a copy in progress has cost and touched, after earlier copies that all succeeded: every offset held was drawn
      and no two workers hold the same one, at most floor(N / 8192) + nwork are drawn, and exactly so many by a copy
      that returned nil, and the ranges written do not overlap. */
  lemma CopyAccounting(nwork: nat, acts: seq<Action>, t: State)
    requires nwork >= 1 && Run(nwork, Init, acts, t) && t.jobs != []
    requires forall h :: 0 <= h < |t.jobs| - 1 ==> t.jobs[h].result == Some(true)
    ensures forall k :: 0 <= k < |t.drawn| ==> t.drawn[k] == 8192 * k
    ensures var job := t.jobs[|t.jobs| - 1];
            && (forall i :: 0 <= i < |job.workers| && Holds(job.workers[i]) ==> job.workers[i].o in t.drawn)
            && (forall i, k :: 0 <= i < k < |job.workers| && Holds(job.workers[i]) && Holds(job.workers[k]) ==>
                 job.workers[i].o != job.workers[k].o)
            && |t.drawn| <= |job.src| / 8192 + nwork
            && (job.result == Some(true) ==> |t.drawn| == |job.src| / 8192 + nwork)
            && (forall k, m :: 0 <= k < m < |job.writes| ==>
                 job.writes[k].o + job.writes[k].n <= job.writes[m].o
                 || job.writes[m].o + job.writes[m].n <= job.writes[k].o)
  {
    var g := |t.jobs| - 1;
    var job := t.jobs[g];
    CopiesRightUntilFailure(nwork, acts, t, g);
    RunKeepsBase(nwork, Init, acts, t);
    HeldOffsetsDrawn(t, job);
    DrawBound(nwork, t, job);
    if job.result == Some(true) {
      NilDraws(nwork, t, job);
    }
    WritesDisjoint(job, t.off);
  }

  lemma HeldOffsetsDrawn(t: State, job: Job)
    requires DispenserOk(t) && Sound(job, t.off)
    ensures forall i :: 0 <= i < |job.workers| && Holds(job.workers[i]) ==> job.workers[i].o in t.drawn
  {
    forall i | 0 <= i < |job.workers| && Holds(job.workers[i]) ensures job.workers[i].o in t.drawn {
      assert WorkerOk(job.workers[i], job.src, t.off);
      assert t.drawn[job.workers[i].o / BUFF_SIZE] == job.workers[i].o;
    }
  }

  lemma DrawBound(nwork: nat, t: State, job: Job)
    requires DispenserOk(t) && ChannelOk(nwork, job) && DrawsOk(job, t.off)
    ensures |t.drawn| <= |job.src| / BUFF_SIZE + nwork
  {
    CountIfBound(job.workers, DrewLast(|job.src|));
  }

  lemma NilDraws(nwork: nat, t: State, job: Job)
    requires nwork >= 1 && DispenserOk(t) && ChannelOk(nwork, job) && SizeOk(job) && Sound(job, t.off)
    requires job.result == Some(true) && DrawsExact(job, t.off)
    ensures |t.drawn| == |job.src| / BUFF_SIZE + nwork
  {
    NilVerdictsMeanExact(nwork, job, t.off);
    NilIsUntainted(nwork, job);
    CountIfBound(job.workers, DrewLast(|job.src|));
  }

  lemma WritesDisjoint(job: Job, off: nat)
    requires LogOk(job, off)
    ensures forall k, m :: 0 <= k < m < |job.writes| ==>
              job.writes[k].o + job.writes[k].n <= job.writes[m].o
              || job.writes[m].o + job.writes[m].n <= job.writes[k].o
  {
    forall k, m | 0 <= k < m < |job.writes|
      ensures job.writes[k].o + job.writes[k].n <= job.writes[m].o
              || job.writes[m].o + job.writes[m].n <= job.writes[k].o
    {
      var x, y := job.writes[k].o, job.writes[m].o;
      assert x % BUFF_SIZE == 0 && y % BUFF_SIZE == 0 && x != y;
      assert x + BUFF_SIZE <= y || y + BUFF_SIZE <= x;
    }
  }
}
