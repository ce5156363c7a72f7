/**
 The parallel copy of cmds/cp/cp.go as a transition system.

 `nextOff` is the dispenser `off`; it answers a reset on `zerochan` and hands the next block offset
 to whichever worker receives from `offchan`.  `copyOneFile` is one `Job`: it resets the dispenser,
 starts `nwork` workers and collects their verdicts from a channel of capacity `nwork`.  A job stays
 in the state after it has returned, because a copy that returns on the first error leaves its other
 workers running.  By the time the next job begins its files have been closed, so from then on a read
 or a write of an old worker can only fail.
 */
module Cp {
  import opened Common

  /** `buffSize`: the length of a worker's buffer and the distance between two offsets. */
  const BUFF_SIZE: nat := 8192

  /** Where a worker stands; the two file operations and the two channel operations are atomic. */
  datatype Pc =
    | Fetch              // about to receive from offchan
    | ReadAt             // about to read into buf[at..] at offset o
    | WriteAt(n: nat)    // about to write buf[at..at + n] at offset o
    | Report(ok: bool)   // about to send its verdict on the fail channel
    | Exited(ok: bool)

  /** The slice `bp` of the source is `buf[at..]`. */
  datatype WorkerData = Worker(pc: Pc, o: nat, l: int, at: nat, buf: bytes)

  /** The slices stay inside the fixed array `buf`. */
  type Worker = w: WorkerData |
      |w.buf| == BUFF_SIZE && w.at <= BUFF_SIZE && (w.pc.WriteAt? ==> w.at + w.pc.n <= BUFF_SIZE)
    witness Worker(Fetch, 0, BUFF_SIZE, 0, seq(BUFF_SIZE, _ => 0))

  /** One logged write: the range `o .. o + n` of the destination. */
  datatype Write = Write(o: nat, n: nat)

  datatype Job = Job(src: bytes, dst: bytes, workers: seq<Worker>, fail: seq<bool>,
                     collected: nat, result: Option<bool>, writes: seq<Write>)

  /** `drawn` lists the offsets handed out since the last reset. */
  datatype State = State(off: nat, drawn: seq<nat>, jobs: seq<Job>)

  /** What can happen to one job. */
  datatype Event =
    | Spawn                       // start one more worker
    | Draw(i: nat)                // worker i receives an offset
    | ReadOk(i: nat)
    | ReadErr(i: nat)
    | WriteOk(i: nat)
    | WriteErr(i: nat, k: nat)    // k bytes reach the file before the error
    | Send(i: nat)                // a verdict goes into the fail channel
    | Collect                     // copyOneFile receives one verdict
    | Finish                      // copyOneFile has received nwork nil verdicts

  datatype Action =
    | Begin(src: bytes)           // open the next pair of files, reset the dispenser
    | Act(j: nat, e: Event)

  const Init := State(0, [], [])

  function NewJob(src: bytes): Job {
    Job(src, [], [], [], 0, None, [])
  }

  function NewWorker(): Worker {
    Worker(Fetch, 0, BUFF_SIZE, 0, seq(BUFF_SIZE, _ => 0))
  }

  /** The file after `b` was written at `o`; a gap before `o` reads as zeros. */
  function Splice(d: bytes, o: nat, b: bytes): bytes {
    if b == [] then d
    else seq(Max(|d|, o + |b|), i requires 0 <= i =>
             if o <= i < o + |b| then b[i - o] else if i < |d| then d[i] else 0)
  }

  /** The number of bytes `ReadAt` delivers: short only at the end of the file. */
  function ReadLen(src: bytes, w: Worker): nat {
    Min(BUFF_SIZE - w.at, Max(|src| - w.o, 0))
  }

  function AfterRead(src: bytes, w: Worker): Worker {
    var n := ReadLen(src, w);
    if n == 0 then w.(pc := Report(true))
    else w.(pc := WriteAt(n), buf := w.buf[..w.at] + src[w.o..w.o + n] + w.buf[w.at + n..])
  }

  /** Note that the source advances `bp` to `buf[n:]`, counted from the start of the buffer. */
  function AfterWrite(w: Worker): Worker
    requires w.pc.WriteAt?
  {
    var n := w.pc.n;
    if w.l - n == 0 then w.(pc := Fetch, o := w.o + n, l := BUFF_SIZE, at := 0)
    else w.(pc := ReadAt, o := w.o + n, l := w.l - n, at := n)
  }

  /** The first `k` of the bytes the worker is about to write. */
  function Payload(w: Worker, k: nat): bytes
    requires w.pc.WriteAt? && k <= w.pc.n
  {
    w.buf[w.at..w.at + k]
  }

  function SetWorker(job: Job, i: nat, w: Worker): Job
    requires i < |job.workers|
  {
    job.(workers := job.workers[i := w])
  }

  /** The effect of an event on its job, or `None` when it cannot happen.  `open` says that the job is
      the latest one, so that its files are still open; `off` is the offset a draw would hand out. */
  function JobStep(nwork: nat, open: bool, off: nat, job: Job, e: Event): Option<Job> {
    match e
    case Spawn =>
      if open && job.result.None? && |job.workers| < nwork
      then Some(job.(workers := job.workers + [NewWorker()])) else None
    case Draw(i) =>
      if i < |job.workers| && job.workers[i].pc.Fetch?
      then Some(SetWorker(job, i, job.workers[i].(pc := ReadAt, o := off))) else None
    case ReadOk(i) =>
      if open && i < |job.workers| && job.workers[i].pc.ReadAt?
      then Some(SetWorker(job, i, AfterRead(job.src, job.workers[i]))) else None
    case ReadErr(i) =>
      if i < |job.workers| && job.workers[i].pc.ReadAt?
      then Some(SetWorker(job, i, job.workers[i].(pc := Report(false)))) else None
    case WriteOk(i) =>
      if open && i < |job.workers| && job.workers[i].pc.WriteAt?
      then Some(Wrote(job, i)) else None
    case WriteErr(i, k) =>
      if i < |job.workers| && job.workers[i].pc.WriteAt? && k <= job.workers[i].pc.n && (k == 0 || open)
      then Some(WroteBadly(job, i, k)) else None
    case Send(i) =>
      if i < |job.workers| && job.workers[i].pc.Report? && |job.fail| < nwork
      then Some(Sent(job, i)) else None
    case Collect =>
      if open && job.result.None? && |job.workers| == nwork && job.collected < nwork && job.fail != []
      then Some(Collected(job)) else None
    case Finish =>
      if open && job.result.None? && |job.workers| == nwork && job.collected == nwork
      then Some(job.(result := Some(true))) else None
  }

  function Wrote(job: Job, i: nat): Job
    requires i < |job.workers| && job.workers[i].pc.WriteAt?
  {
    var w := job.workers[i];
    SetWorker(job, i, AfterWrite(w)).(dst := Splice(job.dst, w.o, Payload(w, w.pc.n)),
                                              writes := job.writes + [Write(w.o, w.pc.n)])
  }

  function WroteBadly(job: Job, i: nat, k: nat): Job
    requires i < |job.workers| && job.workers[i].pc.WriteAt? && k <= job.workers[i].pc.n
  {
    var w := job.workers[i];
    SetWorker(job, i, w.(pc := Report(false))).(dst := Splice(job.dst, w.o, Payload(w, k)),
                                                writes := job.writes + [Write(w.o, k)])
  }

  function Sent(job: Job, i: nat): Job
    requires i < |job.workers| && job.workers[i].pc.Report?
  {
    SetWorker(job, i, job.workers[i].(pc := Exited(job.workers[i].pc.ok)))
    .(fail := job.fail + [job.workers[i].pc.ok])
  }

  function Collected(job: Job): Job
    requires job.fail != []
  {
    job.(fail := job.fail[1..], collected := job.collected + 1,
         result := if job.fail[0] then None else Some(false))
  }

  /** One step of the system, or `None` when the action is not enabled. */
  function Step(nwork: nat, s: State, a: Action): Option<State> {
    match a
    case Begin(src) =>
      if s.jobs == [] || s.jobs[|s.jobs| - 1].result.Some?
      then Some(State(0, [], s.jobs + [NewJob(src)])) else None
    case Act(j, e) =>
      if j >= |s.jobs| then None
      else
        match JobStep(nwork, j == |s.jobs| - 1, s.off, s.jobs[j], e)
        case None => None
        case Some(job) =>
          var s' := s.(jobs := s.jobs[j := job]);
          Some(if e.Draw? then s'.(off := s.off + BUFF_SIZE, drawn := s.drawn + [s.off]) else s')
  }

  /** The actions lead from `s` to `t`. */
  ghost predicate Run(nwork: nat, s: State, acts: seq<Action>, t: State)
    decreases |acts|
  {
    if acts == [] then s == t
    else var n := Step(nwork, s, acts[0]);
         n.Some? && Run(nwork, n.value, acts[1..], t)
  }

  // ---------------------------------------------------------------------------------------------
  // What holds in every run: the offsets, the verdict channel, the size of the destination.
  // ---------------------------------------------------------------------------------------------

  function CountIf(ws: seq<Worker>, f: Worker -> bool): nat {
    if ws == [] then 0 else CountIf(ws[..|ws| - 1], f) + (if f(ws[|ws| - 1]) then 1 else 0)
  }

  predicate IsOut(w: Worker) {
    w.pc.Exited?
  }

  predicate IsFailed(w: Worker) {
    w.pc == Exited(false)
  }

  function CountFalse(q: seq<bool>): nat {
    if q == [] then 0 else (if q[0] then 0 else 1) + CountFalse(q[1..])
  }

  lemma {:induction false} CountIfUpdate(ws: seq<Worker>, i: nat, w: Worker, f: Worker -> bool)
    requires i < |ws|
    ensures CountIf(ws[i := w], f)
         == CountIf(ws, f) - (if f(ws[i]) then 1 else 0) + (if f(w) then 1 else 0)
  {
    var k := |ws| - 1;
    if i == k {
      assert ws[i := w][..k] == ws[..k];
    } else {
      assert ws[i := w][..k] == ws[..k][i := w];
      CountIfUpdate(ws[..k], i, w, f);
    }
  }

  lemma {:induction false} CountIfBound(ws: seq<Worker>, f: Worker -> bool)
    ensures CountIf(ws, f) <= |ws|
    ensures CountIf(ws, f) == |ws| <==> forall i :: 0 <= i < |ws| ==> f(ws[i])
    ensures CountIf(ws, f) == 0 <==> forall i :: 0 <= i < |ws| ==> !f(ws[i])
  {
    if ws != [] {
      var k := |ws| - 1;
      CountIfBound(ws[..k], f);
      assert forall i :: 0 <= i < k ==> ws[i] == ws[..k][i];
    }
  }

  lemma {:induction false} CountFalseAppend(q: seq<bool>, b: bool)
    ensures CountFalse(q + [b]) == CountFalse(q) + (if b then 0 else 1)
  {
    if q != [] {
      assert (q + [b])[1..] == q[1..] + [b];
      CountFalseAppend(q[1..], b);
    }
  }

  /** The verdict channel of one job accounts for every worker that has exited. */
  predicate ChannelOk(nwork: nat, job: Job) {
    && |job.workers| <= nwork
    && job.collected + |job.fail| == CountIf(job.workers, IsOut)
    && (job.result != Some(false) ==> CountFalse(job.fail) == CountIf(job.workers, IsFailed))
    && (job.result == Some(true) ==> job.collected == |job.workers| == nwork)
  }

  /** A destination never outgrows its source. */
  predicate SizeOk(job: Job) {
    && |job.dst| <= |job.src|
    && (forall i :: 0 <= i < |job.workers| && job.workers[i].pc.WriteAt? ==>
         job.workers[i].o + job.workers[i].pc.n <= |job.src|)
  }

  predicate DispenserOk(s: State) {
    && s.off == BUFF_SIZE * |s.drawn|
    && forall k :: 0 <= k < |s.drawn| ==> s.drawn[k] == BUFF_SIZE * k
  }

  predicate Base(nwork: nat, s: State) {
    && DispenserOk(s)
    && (forall j :: 0 <= j < |s.jobs| ==> ChannelOk(nwork, s.jobs[j]) && SizeOk(s.jobs[j]))
    && (forall j :: 0 <= j < |s.jobs| - 1 ==> s.jobs[j].result.Some?)
  }

  lemma SetWorkerBase(nwork: nat, job: Job, i: nat, w: Worker)
    requires ChannelOk(nwork, job) && SizeOk(job) && i < |job.workers|
    requires !job.workers[i].pc.Exited? && !w.pc.Exited?
    requires w.pc.WriteAt? ==> w.o + w.pc.n <= |job.src|
    ensures ChannelOk(nwork, SetWorker(job, i, w)) && SizeOk(SetWorker(job, i, w))
  {
    CountIfUpdate(job.workers, i, w, IsOut);
    CountIfUpdate(job.workers, i, w, IsFailed);
  }

  lemma SentBase(nwork: nat, job: Job, i: nat)
    requires ChannelOk(nwork, job) && SizeOk(job) && i < |job.workers| && job.workers[i].pc.Report?
    ensures ChannelOk(nwork, Sent(job, i)) && SizeOk(Sent(job, i))
  {
    var ok := job.workers[i].pc.ok;
    var w := job.workers[i].(pc := Exited(ok));
    CountIfUpdate(job.workers, i, w, IsOut);
    CountIfUpdate(job.workers, i, w, IsFailed);
    CountFalseAppend(job.fail, ok);
  }

  lemma SpawnBase(nwork: nat, job: Job)
    requires ChannelOk(nwork, job) && SizeOk(job) && job.result.None? && |job.workers| < nwork
    ensures var job' := job.(workers := job.workers + [NewWorker()]);
            ChannelOk(nwork, job') && SizeOk(job')
  {
    var ws := job.workers;
    assert (ws + [NewWorker()])[..|ws|] == ws;
  }

  lemma WroteBase(nwork: nat, job: Job, i: nat)
    requires ChannelOk(nwork, job) && SizeOk(job) && i < |job.workers| && job.workers[i].pc.WriteAt?
    ensures ChannelOk(nwork, Wrote(job, i)) && SizeOk(Wrote(job, i))
  {
    SetWorkerBase(nwork, job, i, AfterWrite(job.workers[i]));
  }

  lemma WroteBadlyBase(nwork: nat, job: Job, i: nat, k: nat)
    requires ChannelOk(nwork, job) && SizeOk(job) && i < |job.workers| && job.workers[i].pc.WriteAt?
    requires k <= job.workers[i].pc.n
    ensures ChannelOk(nwork, WroteBadly(job, i, k)) && SizeOk(WroteBadly(job, i, k))
  {
    SetWorkerBase(nwork, job, i, job.workers[i].(pc := Report(false)));
  }

  lemma EventKeepsBase(nwork: nat, open: bool, off: nat, job: Job, e: Event)
    requires ChannelOk(nwork, job) && SizeOk(job)
    requires JobStep(nwork, open, off, job, e).Some?
    ensures var job' := JobStep(nwork, open, off, job, e).value;
            ChannelOk(nwork, job') && SizeOk(job')
  {
    match e
    case Spawn => SpawnBase(nwork, job);
    case Draw(i) => SetWorkerBase(nwork, job, i, job.workers[i].(pc := ReadAt, o := off));
    case ReadOk(i) => SetWorkerBase(nwork, job, i, AfterRead(job.src, job.workers[i]));
    case ReadErr(i) => SetWorkerBase(nwork, job, i, job.workers[i].(pc := Report(false)));
    case WriteOk(i) => WroteBase(nwork, job, i);
    case WriteErr(i, k) => WroteBadlyBase(nwork, job, i, k);
    case Send(i) => SentBase(nwork, job, i);
    case Collect =>
    case Finish =>
  }

  lemma StepKeepsBase(nwork: nat, s: State, a: Action)
    requires Base(nwork, s) && Step(nwork, s, a).Some?
    ensures Base(nwork, Step(nwork, s, a).value)
  {
    if a.Act? {
      EventKeepsBase(nwork, a.j == |s.jobs| - 1, s.off, s.jobs[a.j], a.e);
    }
  }

  /** However the steps interleave, a worker with a verdict never waits for room in the channel. */
  lemma VerdictNeverBlocks(nwork: nat, s: State, j: nat, i: nat)
    requires Base(nwork, s) && j < |s.jobs| && i < |s.jobs[j].workers|
    requires s.jobs[j].workers[i].pc.Report?
    ensures Step(nwork, s, Act(j, Send(i))).Some?
  {
    CountIfBound(s.jobs[j].workers, IsOut);
  }

  /** A copy that has not returned can always take a step that no file error is needed for. */
  lemma NeverStuck(nwork: nat, s: State) returns (e: Event)
    requires Base(nwork, s) && s.jobs != [] && s.jobs[|s.jobs| - 1].result.None?
    ensures !e.ReadErr? && !e.WriteErr? && Step(nwork, s, Act(|s.jobs| - 1, e)).Some?
  {
    var job := s.jobs[|s.jobs| - 1];
    var ws := job.workers;
    if |ws| < nwork {
      e := Spawn;
    } else if job.fail != [] && job.collected < nwork {
      e := Collect;
    } else if CountIf(ws, IsOut) == |ws| {
      e := Finish;
    } else {
      CountIfBound(ws, IsOut);
      var i :| 0 <= i < |ws| && !IsOut(ws[i]);
      e := match ws[i].pc
           case Fetch => Draw(i)
           case ReadAt => ReadOk(i)
           case WriteAt(_) => WriteOk(i)
           case Report(_) => Send(i)
           case Exited(_) => Spawn;
    }
  }

  /** The files of the copies under way stay the same. */
  predicate SameFiles(s: State, t: State) {
    |s.jobs| <= |t.jobs| && forall j :: 0 <= j < |s.jobs| ==> t.jobs[j].src == s.jobs[j].src
  }

  lemma EventKeepsFile(nwork: nat, open: bool, off: nat, job: Job, e: Event)
    requires JobStep(nwork, open, off, job, e).Some?
    ensures JobStep(nwork, open, off, job, e).value.src == job.src
  {
  }

  lemma StepKeepsFiles(nwork: nat, s: State, a: Action)
    requires Step(nwork, s, a).Some?
    ensures SameFiles(s, Step(nwork, s, a).value)
  {
    if a.Act? {
      EventKeepsFile(nwork, a.j == |s.jobs| - 1, s.off, s.jobs[a.j], a.e);
    }
  }

  lemma {:induction false} RunKeepsBase(nwork: nat, s: State, acts: seq<Action>, t: State)
    requires Base(nwork, s) && Run(nwork, s, acts, t)
    ensures Base(nwork, t) && SameFiles(s, t)
    decreases |acts|
  {
    if acts != [] {
      StepKeepsBase(nwork, s, acts[0]);
      StepKeepsFiles(nwork, s, acts[0]);
      RunKeepsBase(nwork, Step(nwork, s, acts[0]).value, acts[1..], t);
    }
  }
}
