/** What every run of the dd pipeline promises about its output, its result and its progress. */
module DdCopy {
  import opened Common
  import opened DdPipeline

  lemma InitInv(c: Config)
    requires ValidConfig(c)
    ensures Inv(c, Init)
  {
    assert Chunks(c.script[..0]) == [];
  }

  // ---------------------------------------------------------------------------------------------
  // Prefixes.
  // ---------------------------------------------------------------------------------------------

  lemma {:induction false} ConvertedPrefix(tr: bytes -> bytes, obs: nat, cs: seq<bytes>, k: nat)
    requires obs > 0 && k <= |cs|
    ensures IsPrefix(Converted(tr, obs, cs[..k]), Converted(tr, obs, cs))
    decreases |cs|
  {
    if k == |cs| {
      assert cs[..k] == cs;
    } else {
      assert cs[..|cs| - 1][..k] == cs[..k];
      ConvertedPrefix(tr, obs, cs[..|cs| - 1], k);
    }
  }

  /** Reading on only adds chunks, and nothing at all after the read that ended the input. */
  lemma {:induction false} ChunksPrefix(rs: seq<Read>, n: nat)
    requires n <= |rs|
    ensures |Chunks(rs[..n])| <= |Chunks(rs)| && Chunks(rs)[..|Chunks(rs[..n])|] == Chunks(rs[..n])
    ensures (exists k :: 0 <= k < n && Terminal(rs[k])) ==> Chunks(rs[..n]) == Chunks(rs)
    decreases |rs|
  {
    if n > 0 {
      assert rs[..n][1..] == rs[1..][..n - 1];
      ChunksPrefix(rs[1..], n - 1);
      if !Terminal(rs[0]) && exists k :: 0 <= k < n && Terminal(rs[k]) {
        var k :| 0 <= k < n && Terminal(rs[k]);
        assert rs[1..][k - 1] == rs[k];
      }
    }
  }

  lemma PrefixTrans(a: bytes, b: bytes, d: bytes)
    requires IsPrefix(a, b) && IsPrefix(b, d)
    ensures IsPrefix(a, d)
  {
    assert d[..|a|] == d[..|b|][..|a|];
  }

  lemma ReachedPrefix(c: Config, pos: nat, k: nat)
    requires c.obs > 0 && pos <= |c.script| && k <= |Chunks(c.script[..pos])|
    ensures IsPrefix(Converted(c.tr, c.obs, Chunks(c.script[..pos])[..k]), Expected(c))
  {
    var cs := Chunks(c.script[..pos]);
    ChunksPrefix(c.script, pos);
    assert Chunks(c.script)[..k] == cs[..k];
    ConvertedPrefix(c.tr, c.obs, Chunks(c.script), k);
  }

  /** In every reachable state the bytes written are a prefix of what the sequential copy writes, and
      `bytesWritten` never runs ahead of them. */
  lemma OutputIsPrefix(c: Config, acts: seq<Action>, t: State)
    requires ValidConfig(c) && Run(c, Init, acts, t)
    ensures IsPrefix(t.out, Expected(c)) && t.total <= |t.out|
  {
    InitInv(c);
    RunKeepsInv(c, Init, acts, t);
    OutputMeansPrefix(c, t);
  }

  lemma OutputMeansPrefix(c: Config, t: State)
    requires c.obs > 0 && t.pos <= |c.script| && Bounded(t) && Output(c, t, Chunks(c.script[..t.pos]))
    ensures IsPrefix(t.out, Expected(c)) && t.total <= |t.out|
  {
    var cs := Chunks(c.script[..t.pos]);
    if t.writeFailed || t.writer.Writing? {
      ReachedPrefix(c, t.pos, t.done + 1);
      PrefixTrans(t.out, Converted(c.tr, c.obs, cs[..t.done + 1]), Expected(c));
    } else {
      ReachedPrefix(c, t.pos, t.done);
    }
  }

  /** How the input ends: with EOF, with an error, or not at all within the script. */
  function EndOf(rs: seq<Read>): Err {
    if rs == [] then Nil else if Terminal(rs[0]) then Outcome(rs[0]) else EndOf(rs[1..])
  }

  lemma {:induction false} EndOfAt(rs: seq<Read>, n: nat)
    requires n < |rs| && Terminal(rs[n]) && forall k :: 0 <= k < n ==> !Terminal(rs[k])
    ensures EndOf(rs) == Outcome(rs[n])
    decreases n
  {
    if n > 0 {
      assert !Terminal(rs[0]);
      EndOfAt(rs[1..], n - 1);
    }
  }

  /** The action is no write, or one that takes its whole piece without an error. */
  predicate WriteOk(c: Config, s: State, a: Action) {
    a.W? && a.w.WWrite? ==> !a.w.failed && CanWrite(c, s, a.w.got, false) && a.w.got == |NextPiece(c, s)|
  }

  /** Every write of the run takes its whole piece without an error. */
  predicate WritesOk(c: Config, s: State, acts: seq<Action>)
    requires c.ibs > 0
    decreases |acts|
  {
    acts == [] || (WriteOk(c, s, acts[0]) && Step(c, s, acts[0]).Some?
                   && WritesOk(c, Step(c, s, acts[0]).value, acts[1..]))
  }

  lemma StepFailsWrite(c: Config, s: State, a: Action)
    requires c.ibs > 0 && Step(c, s, a).Some?
    ensures Step(c, s, a).value.writeFailed <==> s.writeFailed || !WriteOk(c, s, a)
  {
  }

  /** The copy counts a write as failed exactly when one fails or is short. */
  lemma {:induction false} WriteFailsExactly(c: Config, s: State, acts: seq<Action>, t: State)
    requires c.ibs > 0 && Run(c, s, acts, t)
    ensures t.writeFailed <==> s.writeFailed || !WritesOk(c, s, acts)
    decreases |acts|
  {
    if acts != [] {
      StepFailsWrite(c, s, acts[0]);
      WriteFailsExactly(c, Step(c, s, acts[0]).value, acts[1..], t);
    }
  }

  /** When the copy returns and no write failed or was short, everything that was read has been converted and
      written, also what came before or together with a read error; `bytesWritten` is its length, and the result
      tells how the input ended.  After a bad write the result is an error, and a read error wins over it. */
  lemma ReturnedCopy(c: Config, acts: seq<Action>, t: State)
    requires ValidConfig(c) && Run(c, Init, acts, t) && t.writer.Returned?
    ensures WritesOk(c, Init, acts) ==>
              && t.out == Expected(c) && t.total == |t.out|
              && !EndOf(c.script).Nil?
              && t.writer.result == (if EndOf(c.script).Fail? then ReadError else Ok)
    ensures !WritesOk(c, Init, acts) ==> !t.writer.result.Ok?
    ensures t.writer.result.Ok? ==> t.out == Expected(c) && EndOf(c.script).Eof?
    ensures t.writer.result.ReadError? <==>
              EndOf(c.script).Fail? && exists k :: 0 <= k < t.pos <= |c.script| && Terminal(c.script[k])
    ensures t.writer.result.WriteError? ==> !WritesOk(c, Init, acts)
  {
    InitInv(c);
    RunKeepsInv(c, Init, acts, t);
    WriteFailsExactly(c, Init, acts, t);
    ReturnedVerdict(c, t);
    EndSeen(c, t);
    if !t.writeFailed {
      ReturnedOutput(c, t);
    }
  }

  /** The reader has seen the end of the input exactly when one of its reads was the last. */
  lemma EndSeen(c: Config, t: State)
    requires ReaderControl(c, t) && t.writer.Returned? && WriterControl(c, t)
    ensures InputEnded(c, t) <==> exists k :: 0 <= k < t.pos <= |c.script| && Terminal(c.script[k])
  {
    if InputEnded(c, t) {
      assert Terminal(c.script[t.pos - 1]);
    }
  }

  lemma ReturnedVerdict(c: Config, t: State)
    requires ReaderControl(c, t) && WriterControl(c, t) && t.writer.Returned?
    ensures t.writer.result == Verdict(t) && (!t.writeFailed ==> InputEnded(c, t))
    ensures InputEnded(c, t) ==> EndOf(c.script) == Outcome(c.script[t.pos - 1]) && !EndOf(c.script).Nil?
    ensures t.readFailed <==> InputEnded(c, t) && EndOf(c.script).Fail?
  {
    if InputEnded(c, t) {
      EndOfAt(c.script, t.pos - 1);
    }
  }

  lemma ReturnedOutput(c: Config, t: State)
    requires c.obs > 0 && ReaderControl(c, t) && WriterControl(c, t) && Flow(c, t, Chunks(c.script[..t.pos]))
    requires t.writer.Returned? && !t.writeFailed
    ensures t.out == Expected(c) && t.total == |t.out|
  {
    var cs := Chunks(c.script[..t.pos]);
    ChunksPrefix(c.script, t.pos);
    assert InFlight(t) == [];
    assert cs[..t.done] == cs;
  }

  /** After the copy has returned, and its channels are destroyed, the reader never touches them again. */
  lemma ReaderDoneBeforeReturn(c: Config, acts: seq<Action>, t: State, a: ReaderAction)
    requires ValidConfig(c) && Run(c, Init, acts, t) && t.writer.Returned?
    ensures ReaderStep(c, t, a).Some? ==> a.RClose?
  {
    ReachedControl(c, acts, t);
    ReaderLeft(c, t);
  }

  lemma ReachedControl(c: Config, acts: seq<Action>, t: State)
    requires ValidConfig(c) && Run(c, Init, acts, t)
    ensures ReaderControl(c, t) && WriterControl(c, t)
  {
    InitInv(c);
    RunKeepsInv(c, Init, acts, t);
  }

  lemma ReaderLeft(c: Config, t: State)
    requires WriterControl(c, t) && t.writer.Returned?
    ensures t.reader.Closing? || t.reader.Gone?
  {
  }

  /** In every reachable state each buffer in use has one owner and at most depth + 2 are in use. */
  lemma BuffersOwnedOnce(c: Config, acts: seq<Action>, t: State)
    requires ValidConfig(c) && Run(c, Init, acts, t)
    ensures NoDup(Live(t)) && |Live(t)| <= Depth(c.ibs) + 2
  {
    InitInv(c);
    RunKeepsInv(c, Init, acts, t);
    OneOwner(c, t);
  }

  // ---------------------------------------------------------------------------------------------
  // Bytewise conversions.
  // ---------------------------------------------------------------------------------------------

  /** The conversion works byte by byte. */
  ghost predicate Bytewise(tr: bytes -> bytes, f: byte -> byte) {
    forall d :: tr(d) == MapBytes(f, d)
  }

  lemma MapJoin(f: byte -> byte, a: bytes, b: bytes)
    ensures MapBytes(f, a + b) == MapBytes(f, a) + MapBytes(f, b)
  {
  }

  /** Cutting the input into chunks and pieces is invisible to a conversion that works byte by byte. */
  lemma BytewiseExpected(c: Config, f: byte -> byte)
    requires c.obs > 0 && Bytewise(c.tr, f)
    ensures Expected(c) == MapBytes(f, Flatten(Chunks(c.script)))
  {
    BytewiseChunks(c.tr, c.obs, f, Chunks(c.script));
  }

  lemma {:induction false} BytewisePieces(tr: bytes -> bytes, obs: nat, f: byte -> byte, d: bytes)
    requires obs > 0 && Bytewise(tr, f)
    ensures Pieces(tr, obs, d) == MapBytes(f, d)
    decreases |d|
  {
    if d != [] {
      var n := Min(obs, |d|);
      BytewisePieces(tr, obs, f, d[n..]);
      MapJoin(f, d[..n], d[n..]);
      assert d == d[..n] + d[n..];
    }
  }

  lemma {:induction false} BytewiseChunks(tr: bytes -> bytes, obs: nat, f: byte -> byte, cs: seq<bytes>)
    requires obs > 0 && Bytewise(tr, f)
    ensures Converted(tr, obs, cs) == MapBytes(f, Flatten(cs))
    decreases |cs|
  {
    if cs != [] {
      var k := |cs| - 1;
      BytewiseChunks(tr, obs, f, cs[..k]);
      BytewisePieces(tr, obs, f, cs[k]);
      FlattenSnoc(cs[..k], cs[k]);
      MapJoin(f, Flatten(cs[..k]), cs[k]);
      assert cs == cs[..k] + [cs[k]];
    }
  }

  // ---------------------------------------------------------------------------------------------
  // Progress, and the one way to hang.
  // ---------------------------------------------------------------------------------------------

  ghost predicate Stuck(c: Config, s: State)
    requires c.ibs > 0
  {
    forall a :: Step(c, s, a).None?
  }

  predicate Finished(s: State) {
    s.writer.Returned? && s.reader.Gone?
  }

  /** The writer waits for the reader, which waits for room in the ready channel. */
  predicate Deadlocked(c: Config, s: State)
    requires c.ibs > 0
  {
    s.writer.Waiting? && s.reader.Sending? && |s.ready| == Depth(c.ibs)
  }

  /** The reader waits for input and the writer for the reader. */
  predicate AwaitsInput(c: Config, s: State) {
    s.reader.Filling? && s.pos == |c.script| && ((s.writer.Receiving? && s.ready == []) || s.writer.Waiting?)
  }

  /** An action of the writer that needs no failing write. */
  function WriterMove(c: Config, s: State): WriterAction
    requires Bounded(s)
  {
    match s.writer
    case Receiving => if s.ready != [] then WRecv else WEnd
    case Writing(b, i) => if i < |s.bufs[b]| then WWrite(|c.tr(NextPiece(c, s))|, false) else WNext
    case Putting(_) => WPut
    case Stopping => WQuit
    case Waiting => WReturn
    case Returned(_) => WReturn
  }

  function ReaderMove(s: State): ReaderAction {
    match s.reader
    case Top => if s.quit then RQuit else RGet
    case Filling(_) => RFill
    case Sending(_, _) => if s.ready == [] && s.writer.Receiving? then RHand else RSend
    case Exiting => RDone
    case Closing => RClose
    case Gone => RClose
  }

  lemma WriterCanMove(c: Config, s: State)
    requires c.ibs > 0 && Bounded(s)
    requires !s.writer.Returned? && (s.writer.Waiting? ==> s.reader.Closing? || s.reader.Gone?)
    requires s.writer.Receiving? ==> s.ready != [] || s.reader.Gone?
    ensures WriterStep(c, s, WriterMove(c, s)).Some?
  {
  }

  lemma ReaderCanMove(c: Config, s: State)
    requires c.ibs > 0 && Bounded(s)
    requires !s.reader.Gone? && (s.reader.Filling? ==> s.pos < |c.script|)
    requires s.reader.Sending? ==> |s.ready| < Depth(c.ibs) || (s.ready == [] && s.writer.Receiving?)
    ensures ReaderStep(c, s, ReaderMove(s)).Some?
  {
  }

  lemma CanMove(c: Config, s: State)
    requires c.ibs > 0 && Bounded(s) && WriterControl(c, s) && s.pos <= |c.script| && |s.ready| <= Depth(c.ibs)
    requires !Finished(s) && !Deadlocked(c, s) && !AwaitsInput(c, s)
    ensures ReaderStep(c, s, ReaderMove(s)).Some? || WriterStep(c, s, WriterMove(c, s)).Some?
  {
    var full := |s.ready| == Depth(c.ibs) && !(s.ready == [] && s.writer.Receiving?);
    if !s.reader.Gone? && !(s.reader.Filling? && s.pos == |c.script|) && !(s.reader.Sending? && full) {
      ReaderCanMove(c, s);
    } else {
      WriterCanMove(c, s);
    }
  }

  lemma CannotMove(c: Config, s: State, a: Action)
    requires c.ibs > 0 && (Finished(s) || Deadlocked(c, s) || AwaitsInput(c, s))
    ensures Step(c, s, a).None?
  {
  }

  /** A reachable state without a next step is a completed copy, one that waits for input, or the one
      deadlock: after a failed write the reader is still blocked on a full ready channel. */
  lemma StuckExactly(c: Config, acts: seq<Action>, t: State)
    requires ValidConfig(c) && Run(c, Init, acts, t)
    ensures Stuck(c, t) <==> Finished(t) || AwaitsInput(c, t) || Deadlocked(c, t)
    ensures Deadlocked(c, t) ==> t.writeFailed
  {
    InitInv(c);
    RunKeepsInv(c, Init, acts, t);
    if Finished(t) || AwaitsInput(c, t) || Deadlocked(c, t) {
      NothingMoves(c, t);
    } else {
      OwnMeans(c, t);
      SomethingMoves(c, t);
    }
  }

  lemma NothingMoves(c: Config, t: State)
    requires c.ibs > 0 && (Finished(t) || Deadlocked(c, t) || AwaitsInput(c, t))
    ensures Stuck(c, t)
  {
    forall a ensures Step(c, t, a).None? {
      CannotMove(c, t, a);
    }
  }

  lemma SomethingMoves(c: Config, s: State)
    requires c.ibs > 0 && Bounded(s) && WriterControl(c, s) && s.pos <= |c.script| && |s.ready| <= Depth(c.ibs)
    requires !Finished(s) && !Deadlocked(c, s) && !AwaitsInput(c, s)
    ensures !Stuck(c, s)
  {
    CanMove(c, s);
    assert Step(c, s, R(ReaderMove(s))).Some? || Step(c, s, W(WriterMove(c, s))).Some?;
  }

  lemma {:induction false} RunExtend(c: Config, s: State, acts: seq<Action>, t: State, a: Action)
    requires c.ibs > 0 && Run(c, s, acts, t) && Step(c, t, a).Some?
    ensures Run(c, s, acts + [a], Step(c, t, a).value)
    decreases |acts|
  {
    if acts != [] {
      assert (acts + [a])[1..] == acts[1..] + [a];
      RunExtend(c, Step(c, s, acts[0]).value, acts[1..], t, a);
    }
  }

  lemma Do(c: Config, acts: seq<Action>, t: State, a: Action) returns (acts': seq<Action>, t': State)
    requires c.ibs > 0 && Run(c, Init, acts, t) && Step(c, t, a).Some?
    ensures t' == Step(c, t, a).value && Run(c, Init, acts', t')
  {
    acts', t' := acts + [a], Step(c, t, a).value;
    RunExtend(c, Init, acts, t, a);
  }

  /** The first chunks come from the first reads, and only the last of them can end the input. */
  lemma {:induction false} ManyChunks(rs: seq<Read>, n: nat)
    requires n <= |Chunks(rs)|
    ensures n <= |rs| && forall k :: 0 <= k < n ==> rs[k].b != [] && (k < n - 1 ==> rs[k].err.Nil?)
    decreases |rs|
  {
    if n > 0 {
      if !Terminal(rs[0]) {
        ManyChunks(rs[1..], n - 1);
        assert forall k :: 0 < k < n ==> rs[k] == rs[1..][k - 1];
      }
    }
  }

  /** Read number k has just been handed on; the writer has the first chunk and the others are queued. */
  predicate Crowded(c: Config, t: State, k: nat) {
    && t.reader.Top? && t.writer == Writing(0, 0) && t.bufs != [] && t.bufs[0] != []
    && t.pool == [] && !t.quit && t.pos == k + 1 && |t.ready| == k
  }

  lemma FirstChunk(c: Config) returns (acts: seq<Action>, t: State)
    requires ValidConfig(c) && |c.script| >= 1 && c.script[0].b != [] && c.script[0].err.Nil?
    ensures Run(c, Init, acts, t) && Crowded(c, t, 0)
  {
    acts, t := Do(c, [], Init, R(RGet));
    acts, t := Do(c, acts, t, R(RFill));
    acts, t := Do(c, acts, t, R(RHand));
  }

  lemma QueueChunk(c: Config, acts0: seq<Action>, t0: State, k: nat) returns (acts: seq<Action>, t: State)
    requires ValidConfig(c) && Run(c, Init, acts0, t0) && Crowded(c, t0, k) && k < Depth(c.ibs)
    requires k + 1 < |c.script| && c.script[k + 1].b != [] && c.script[k + 1].err.Nil?
    ensures Run(c, Init, acts, t) && Crowded(c, t, k + 1)
  {
    acts, t := Do(c, acts0, t0, R(RGet));
    acts, t := Do(c, acts, t, R(RFill));
    acts, t := Do(c, acts, t, R(RSend));
  }

  lemma BlockReader(c: Config, acts0: seq<Action>, t0: State) returns (acts: seq<Action>, t: State)
    requires ValidConfig(c) && Run(c, Init, acts0, t0) && Crowded(c, t0, Depth(c.ibs))
    requires Depth(c.ibs) + 1 < |c.script| && c.script[Depth(c.ibs) + 1].b != []
    ensures Run(c, Init, acts, t) && Deadlocked(c, t)
  {
    acts, t := Do(c, acts0, t0, R(RGet));
    acts, t := Do(c, acts, t, R(RFill));
    acts, t := Do(c, acts, t, W(WWrite(0, true)));
    acts, t := Do(c, acts, t, W(WQuit));
  }

  /** The actions are a run from the start that ends in the deadlock. */
  ghost predicate Hangs(c: Config, acts: seq<Action>, t: State)
    requires c.ibs > 0
  {
    Run(c, Init, acts, t) && Deadlocked(c, t)
  }

  lemma DeadlockNeedsChunks(c: Config, acts: seq<Action>, t: State)
    requires ValidConfig(c) && Hangs(c, acts, t)
    ensures |Chunks(c.script)| >= Depth(c.ibs) + 2
  {
    InitInv(c);
    RunKeepsInv(c, Init, acts, t);
    ChunksPrefix(c.script, t.pos);
    assert |InFlight(t)| == Depth(c.ibs) + 1;
  }

  lemma ChunksCauseDeadlock(c: Config) returns (acts: seq<Action>, t: State)
    requires ValidConfig(c) && |Chunks(c.script)| >= Depth(c.ibs) + 2
    ensures Hangs(c, acts, t)
  {
    var d := Depth(c.ibs);
    ManyChunks(c.script, d + 2);
    acts, t := FirstChunk(c);
    for k := 0 to d
      invariant Run(c, Init, acts, t) && Crowded(c, t, k)
    {
      acts, t := QueueChunk(c, acts, t, k);
    }
    acts, t := BlockReader(c, acts, t);
  }

  /** Some failing write can hang the copy exactly when the input delivers at least depth + 2 chunks:
      one in the writer's hands, a full queue, and one the reader cannot send. */
  lemma HangExactly(c: Config)
    requires ValidConfig(c)
    ensures (exists acts, t :: Hangs(c, acts, t)) <==> |Chunks(c.script)| >= Depth(c.ibs) + 2
  {
    if |Chunks(c.script)| >= Depth(c.ibs) + 2 {
      var acts, t := ChunksCauseDeadlock(c);
    } else {
      forall acts, t | Hangs(c, acts, t) ensures false {
        DeadlockNeedsChunks(c, acts, t);
      }
    }
  }
}
