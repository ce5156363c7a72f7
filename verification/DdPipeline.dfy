/**
 The parallel copy of cmds/dd/dd.go as a transition system: a reader goroutine fills buffers taken from
 a recycling pool and sends them through a bounded channel to the writer, which writes them out in
 pieces and puts them back.  Buffers are named by number and live in a heap `bufs` shared by both
 sides, so a buffer refilled while it is queued or being written would show up in the output.
 */
module DdPipeline {
  import opened Common

  datatype Err = Nil | Eof | Fail

  /** One result of the underlying `Read`. */
  datatype Read = Read(b: bytes, err: Err)

  /** `script` is what successive reads will return; `tr` is the conversion. */
  datatype Config = Config(ibs: nat, obs: nat, tr: bytes -> bytes, script: seq<Read>)

  /** Block sizes are positive and a read never returns more than it was given room for. */
  ghost predicate ValidConfig(c: Config) {
    && c.ibs > 0 && c.obs > 0
    && forall k :: 0 <= k < |c.script| ==> |c.script[k].b| <= c.ibs
  }

  /** The capacity of the ready channel and of the pool: one GiB of buffers, at most 8192. */
  function Depth(ibs: nat): nat
    requires ibs > 0
  {
    Min(1024 * 1024 * 1024 / ibs, 8192)
  }

  // ---------------------------------------------------------------------------------------------
  // The sequential reference: read, convert in pieces of obs bytes, write.
  // ---------------------------------------------------------------------------------------------

  /** `ReadFrom` turns an empty read without an error into the end of the input. */
  function Outcome(r: Read): Err {
    if r.b == [] && r.err.Nil? then Eof else r.err
  }

  predicate Terminal(r: Read) {
    !Outcome(r).Nil?
  }

  /** The non-empty chunks read up to and including the first read that ends the input. */
  function Chunks(rs: seq<Read>): seq<bytes> {
    if rs == [] then []
    else (if rs[0].b == [] then [] else [rs[0].b]) + (if Terminal(rs[0]) then [] else Chunks(rs[1..]))
  }

  /** One chunk converted in pieces of `obs` bytes. */
  function Pieces(tr: bytes -> bytes, obs: nat, d: bytes): bytes
    requires obs > 0
  {
    if d == [] then []
    else var n := Min(obs, |d|); tr(d[..n]) + Pieces(tr, obs, d[n..])
  }

  function Converted(tr: bytes -> bytes, obs: nat, cs: seq<bytes>): bytes
    requires obs > 0
  {
    if cs == [] then [] else Converted(tr, obs, cs[..|cs| - 1]) + Pieces(tr, obs, cs[|cs| - 1])
  }

  /** What a sequential dd would write. */
  function Expected(c: Config): bytes
    requires c.obs > 0
  {
    Converted(c.tr, c.obs, Chunks(c.script))
  }

  function MapBytes(f: byte -> byte, d: bytes): bytes {
    seq(|d|, i requires 0 <= i < |d| => f(d[i]))
  }

  // ---------------------------------------------------------------------------------------------
  // The machine.
  // ---------------------------------------------------------------------------------------------

  datatype ReaderPc =
    | Top                          // at the select on quit
    | Filling(b: nat)              // holds b, about to read into it
    | Sending(b: nat, err: Err)    // about to send b on the ready channel
    | Exiting                      // about to call wg.Done
    | Closing                      // about to close the ready channel
    | Gone

  datatype WriterPc =
    | Receiving
    | Writing(b: nat, i: nat)      // i bytes of b have been written
    | Putting(b: nat)              // about to put b back into the pool
    | Stopping                     // about to close quit
    | Waiting                      // in wg.Wait
    | Returned(result: Result)

  datatype Result = Ok | ReadError | WriteError

  /** `bufs[b]` is `data[:length]` of buffer b; `done` counts the buffers written completely. */
  datatype State = State(pos: nat, reader: ReaderPc, writer: WriterPc, pool: seq<nat>, ready: seq<nat>,
                         bufs: seq<bytes>, quit: bool, readFailed: bool, writeFailed: bool,
                         out: bytes, total: nat, done: nat)

  datatype ReaderAction = RQuit | RGet | RFill | RSend | RHand | RDone | RClose

  datatype WriterAction = WRecv | WEnd | WWrite(got: nat, failed: bool) | WNext | WPut | WQuit | WReturn

  datatype Action = R(r: ReaderAction) | W(w: WriterAction)

  const Init := State(0, Top, Receiving, [], [], [], false, false, false, [], 0, 0)

  // The effect of each action; `Step` below says when it can happen.

  /** `pool.Get`: a pooled buffer, or a new one when the pool is empty. */
  function Get(s: State): State {
    if s.pool != [] then s.(reader := Filling(s.pool[0]), pool := s.pool[1..])
    else s.(reader := Filling(|s.bufs|), bufs := s.bufs + [[]])
  }

  /** `buf.ReadFrom`, and the tests on its result; an empty buffer is dropped. */
  function Fill(s: State, r: Read): State
    requires s.reader.Filling? && s.reader.b < |s.bufs|
  {
    var b := s.reader.b;
    if r.b != [] then s.(pos := s.pos + 1, bufs := s.bufs[b := r.b], reader := Sending(b, r.err))
    else s.(pos := s.pos + 1, bufs := s.bufs[b := r.b], reader := Exiting,
            readFailed := s.readFailed || Outcome(r).Fail?)
  }

  /** The reader goes on after its buffer was taken. */
  function Sent(s: State): State
    requires s.reader.Sending?
  {
    s.(reader := if s.reader.err.Nil? then Top else Exiting, readFailed := s.readFailed || s.reader.err.Fail?)
  }

  function Receive(s: State): State
    requires s.ready != []
  {
    s.(writer := Writing(s.ready[0], 0), ready := s.ready[1..])
  }

  /** The next piece that the writer converts, before the conversion. */
  function NextPiece(c: Config, s: State): bytes
    requires s.writer.Writing? && s.writer.b < |s.bufs| && s.writer.i <= |s.bufs[s.writer.b]|
  {
    var d := s.bufs[s.writer.b][s.writer.i..];
    d[..Min(c.obs, |d|)]
  }

  /** `w.Write` took `got` bytes of the converted piece. */
  function Wrote(c: Config, s: State, got: nat, failed: bool): State
    requires s.writer.Writing? && s.writer.b < |s.bufs| && s.writer.i <= |s.bufs[s.writer.b]|
    requires got <= |c.tr(NextPiece(c, s))|
  {
    var p := NextPiece(c, s);
    if failed || got != |p| then s.(out := s.out + c.tr(p)[..got], writeFailed := true, writer := Stopping)
    else s.(out := s.out + c.tr(p)[..got], writer := Writing(s.writer.b, s.writer.i + got))
  }

  /** A writer that takes less than it was given must return an error.  One that breaks this rule is
      caught by the length test, unless it takes exactly the unconverted length of a piece that the
      conversion made longer. */
  predicate CanWrite(c: Config, s: State, got: nat, failed: bool) {
    && s.writer.Writing? && s.writer.b < |s.bufs| && s.writer.i < |s.bufs[s.writer.b]|
    && var p := NextPiece(c, s);
       got <= |c.tr(p)| && (!failed && got == |p| ==> got == |c.tr(p)|)
  }

  /** `pool.Put`: the buffer is dropped when the pool is full. */
  function Put(c: Config, s: State): State
    requires c.ibs > 0 && s.writer.Putting?
  {
    s.(writer := Receiving, pool := if |s.pool| < Depth(c.ibs) then s.pool + [s.writer.b] else s.pool)
  }

  function Verdict(s: State): Result {
    if s.readFailed then ReadError else if s.writeFailed then WriteError else Ok
  }

  /** One step of the reader goroutine, or `None` when it cannot be taken. */
  function ReaderStep(c: Config, s: State, a: ReaderAction): Option<State>
    requires c.ibs > 0
  {
    match a
    case RQuit => if s.reader.Top? && s.quit then Some(s.(reader := Exiting)) else None
    case RGet => if s.reader.Top? && !s.quit then Some(Get(s)) else None
    case RFill =>
      if s.reader.Filling? && s.reader.b < |s.bufs| && s.pos < |c.script|
      then Some(Fill(s, c.script[s.pos])) else None
    case RSend =>
      if s.reader.Sending? && |s.ready| < Depth(c.ibs)
      then Some(Sent(s).(ready := s.ready + [s.reader.b])) else None
    case RHand =>  // the channel passes the buffer straight to a waiting receiver
      if s.reader.Sending? && s.ready == [] && s.writer.Receiving?
      then Some(Sent(s).(writer := Writing(s.reader.b, 0))) else None
    case RDone => if s.reader.Exiting? then Some(s.(reader := Closing)) else None
    case RClose => if s.reader.Closing? then Some(s.(reader := Gone)) else None
  }

  /** One step of the writer, or `None` when it cannot be taken. */
  function WriterStep(c: Config, s: State, a: WriterAction): Option<State>
    requires c.ibs > 0
  {
    match a
    case WRecv => if s.writer.Receiving? && s.ready != [] then Some(Receive(s)) else None
    case WEnd =>
      if s.writer.Receiving? && s.ready == [] && s.reader.Gone? then Some(s.(writer := Stopping)) else None
    case WWrite(got, failed) => if CanWrite(c, s, got, failed) then Some(Wrote(c, s, got, failed)) else None
    case WNext =>
      if s.writer.Writing? && s.writer.b < |s.bufs| && s.writer.i >= |s.bufs[s.writer.b]|
      then Some(s.(writer := Putting(s.writer.b), total := s.total + s.writer.i, done := s.done + 1)) else None
    case WPut => if s.writer.Putting? then Some(Put(c, s)) else None
    case WQuit => if s.writer.Stopping? then Some(s.(writer := Waiting, quit := true)) else None
    case WReturn =>
      if s.writer.Waiting? && (s.reader.Closing? || s.reader.Gone?)
      then Some(s.(writer := Returned(Verdict(s)))) else None
  }

  function Step(c: Config, s: State, a: Action): Option<State>
    requires c.ibs > 0
  {
    match a
    case R(r) => ReaderStep(c, s, r)
    case W(w) => WriterStep(c, s, w)
  }

  ghost predicate Run(c: Config, s: State, acts: seq<Action>, t: State)
    requires c.ibs > 0
    decreases |acts|
  {
    if acts == [] then s == t
    else var n := Step(c, s, acts[0]);
         n.Some? && Run(c, n.value, acts[1..], t)
  }

  // ---------------------------------------------------------------------------------------------
  // Every buffer has one owner.
  // ---------------------------------------------------------------------------------------------

  function Reading(s: State): seq<nat> {
    if s.reader.Filling? || s.reader.Sending? then [s.reader.b] else []
  }

  function InWriter(s: State): seq<nat> {
    if s.writer.Writing? || s.writer.Putting? then [s.writer.b] else []
  }

  /** The owners in turn: pool, ready queue, reader, writer. */
  function Live(s: State): seq<nat> {
    s.pool + s.ready + Reading(s) + InWriter(s)
  }

  predicate NoDup(ids: seq<nat>) {
    forall i, j :: 0 <= i < j < |ids| ==> ids[i] != ids[j]
  }

  predicate Apart(a: seq<nat>, b: seq<nat>) {
    forall i, j :: 0 <= i < |a| && 0 <= j < |b| ==> a[i] != b[j]
  }

  predicate Below(a: seq<nat>, n: nat) {
    forall i :: 0 <= i < |a| ==> a[i] < n
  }

  /** The four owners hold distinct existing buffers, within the capacities. */
  predicate Own(c: Config, s: State)
    requires c.ibs > 0
  {
    && NoDup(s.pool) && NoDup(s.ready) && Apart(s.pool, s.ready)
    && Apart(s.pool, Reading(s)) && Apart(s.pool, InWriter(s))
    && Apart(s.ready, Reading(s)) && Apart(s.ready, InWriter(s)) && Apart(Reading(s), InWriter(s))
    && Below(s.pool, |s.bufs|) && Below(s.ready, |s.bufs|)
    && Below(Reading(s), |s.bufs|) && Below(InWriter(s), |s.bufs|)
    && |s.pool| <= Depth(c.ibs) && |s.ready| <= Depth(c.ibs)
    && |s.pool| + |s.ready| + |Reading(s)| + |InWriter(s)| <= Depth(c.ibs) + 2
  }

  lemma GetKeepsOwn(c: Config, s: State)
    requires c.ibs > 0 && Own(c, s) && s.reader.Top?
    ensures Own(c, Get(s))
  {
    if s.pool != [] {
      assert Get(s).reader.b == s.pool[0];
    }
  }

  lemma SendKeepsOwn(c: Config, s: State)
    requires c.ibs > 0 && Own(c, s) && s.reader.Sending? && |s.ready| < Depth(c.ibs)
    ensures Own(c, Sent(s).(ready := s.ready + [s.reader.b]))
  {
    assert Reading(s)[0] == s.reader.b;
  }

  lemma HandKeepsOwn(c: Config, s: State)
    requires c.ibs > 0 && Own(c, s) && s.reader.Sending? && s.writer.Receiving?
    ensures Own(c, Sent(s).(writer := Writing(s.reader.b, 0)))
  {
    assert Reading(s)[0] == s.reader.b;
  }

  lemma ReceiveKeepsOwn(c: Config, s: State)
    requires c.ibs > 0 && Own(c, s) && s.writer.Receiving? && s.ready != []
    ensures Own(c, Receive(s))
  {
    assert Receive(s).writer.b == s.ready[0];
  }

  lemma PutKeepsOwn(c: Config, s: State)
    requires c.ibs > 0 && Own(c, s) && s.writer.Putting?
    ensures Own(c, Put(c, s))
  {
    assert InWriter(s)[0] == s.writer.b;
  }

  /** Steps that move no buffer, or only let one go. */
  lemma ReleaseKeepsOwn(c: Config, s: State, s': State)
    requires c.ibs > 0 && Own(c, s) && s'.pool == s.pool && s'.ready == s.ready && |s'.bufs| == |s.bufs|
    requires Reading(s') == Reading(s) || Reading(s') == []
    requires InWriter(s') == InWriter(s) || InWriter(s') == []
    ensures Own(c, s')
  {
  }

  lemma ReaderKeepsOwn(c: Config, s: State, a: ReaderAction)
    requires c.ibs > 0 && Own(c, s) && ReaderStep(c, s, a).Some?
    ensures Own(c, ReaderStep(c, s, a).value)
  {
    match a
    case RGet => GetKeepsOwn(c, s);
    case RSend => SendKeepsOwn(c, s);
    case RHand => HandKeepsOwn(c, s);
    case _ => ReleaseKeepsOwn(c, s, ReaderStep(c, s, a).value);
  }

  lemma WriterKeepsOwn(c: Config, s: State, a: WriterAction)
    requires c.ibs > 0 && Own(c, s) && WriterStep(c, s, a).Some?
    ensures Own(c, WriterStep(c, s, a).value)
  {
    match a
    case WRecv => ReceiveKeepsOwn(c, s);
    case WPut => PutKeepsOwn(c, s);
    case _ => ReleaseKeepsOwn(c, s, WriterStep(c, s, a).value);
  }

  /** No buffer has two owners, and at most depth + 2 are in use. */
  lemma OneOwner(c: Config, s: State)
    requires c.ibs > 0 && Own(c, s)
    ensures NoDup(Live(s)) && |Live(s)| <= Depth(c.ibs) + 2
  {
  }

  // ---------------------------------------------------------------------------------------------
  // Where each goroutine can be.
  // ---------------------------------------------------------------------------------------------

  predicate ReaderStopped(s: State) {
    s.reader.Exiting? || s.reader.Closing? || s.reader.Gone?
  }

  predicate WriterStopped(s: State) {
    s.writer.Stopping? || s.writer.Waiting? || s.writer.Returned?
  }

  /** The last read so far ended the input. */
  predicate InputEnded(c: Config, s: State) {
    0 < s.pos <= |c.script| && Terminal(c.script[s.pos - 1])
  }

  /** What the reader's position says about the reads made so far. */
  predicate ReaderControl(c: Config, s: State) {
    && s.pos <= |c.script|
    && (forall k :: 0 <= k < s.pos - 1 ==> !Terminal(c.script[k]))
    && (s.reader.Top? || s.reader.Filling? ==> !InputEnded(c, s))
    && (s.reader.Sending? ==>
         && 0 < s.pos && s.reader.b < |s.bufs| && s.bufs[s.reader.b] != []
         && c.script[s.pos - 1] == Read(s.bufs[s.reader.b], s.reader.err))
    && (s.readFailed <==> ReaderStopped(s) && 0 < s.pos && Outcome(c.script[s.pos - 1]).Fail?)
  }

  /** How the two sides stop each other. */
  predicate WriterControl(c: Config, s: State) {
    && (ReaderStopped(s) ==> InputEnded(c, s) || (s.quit && s.writeFailed))
    && (s.writeFailed ==> WriterStopped(s))
    && (WriterStopped(s) ==> s.writeFailed || (s.reader.Gone? && s.ready == []))
    && (s.quit <==> s.writer.Waiting? || s.writer.Returned?)
    && (s.writer.Returned? ==> s.writer.result == Verdict(s) && (s.reader.Closing? || s.reader.Gone?))
  }

  lemma ReaderKeepsReaderControl(c: Config, s: State, a: ReaderAction)
    requires c.ibs > 0 && ReaderControl(c, s) && ReaderStep(c, s, a).Some?
    ensures ReaderControl(c, ReaderStep(c, s, a).value)
  {
  }

  lemma ReaderKeepsWriterControl(c: Config, s: State, a: ReaderAction)
    requires c.ibs > 0 && ReaderControl(c, s) && WriterControl(c, s) && ReaderStep(c, s, a).Some?
    ensures WriterControl(c, ReaderStep(c, s, a).value)
  {
  }

  lemma WriterKeepsControl(c: Config, s: State, a: WriterAction)
    requires c.ibs > 0 && WriterControl(c, s) && WriterStep(c, s, a).Some?
    ensures WriterControl(c, WriterStep(c, s, a).value)
    ensures ReaderControl(c, s) ==> ReaderControl(c, WriterStep(c, s, a).value)
  {
  }

  // ---------------------------------------------------------------------------------------------
  // The chunks in flight and the bytes written.
  // ---------------------------------------------------------------------------------------------

  function Contents(bufs: seq<bytes>, ids: seq<nat>): seq<bytes>
    requires Below(ids, |bufs|)
  {
    seq(|ids|, i requires 0 <= i < |ids| => bufs[ids[i]])
  }

  function BeingWritten(s: State): seq<nat> {
    if s.writer.Writing? then [s.writer.b] else []
  }

  function BeingSent(s: State): seq<nat> {
    if s.reader.Sending? then [s.reader.b] else []
  }

  /** The buffers in hand exist. */
  predicate Bounded(s: State) {
    && Below(s.ready, |s.bufs|)
    && (s.reader.Filling? || s.reader.Sending? ==> s.reader.b < |s.bufs|)
    && (s.writer.Writing? || s.writer.Putting? ==> s.writer.b < |s.bufs|)
  }

  lemma OwnMeans(c: Config, s: State)
    requires c.ibs > 0 && Own(c, s)
    ensures Bounded(s)
    ensures s.reader.Filling? ==> Apart(s.ready, [s.reader.b]) && (s.writer.Writing? ==> s.writer.b != s.reader.b)
  {
    assert Reading(s) != [] ==> Reading(s)[0] == s.reader.b;
    assert InWriter(s) != [] ==> InWriter(s)[0] == s.writer.b;
  }

  /** The chunks read but not written, oldest first, as the shared heap holds them now. */
  function InFlight(s: State): seq<bytes>
    requires Bounded(s)
  {
    Contents(s.bufs, BeingWritten(s)) + Contents(s.bufs, s.ready) + Contents(s.bufs, BeingSent(s))
  }

  predicate IsPrefix(a: bytes, b: bytes) {
    |a| <= |b| && b[..|a|] == a
  }

  /** `cs` are the chunks read so far: those not written yet are in flight, in order.
      The chunk on which a write failed is lost. */
  predicate Queued(s: State, cs: seq<bytes>)
    requires Bounded(s)
  {
    if s.writeFailed then s.done < |cs| && cs[s.done + 1..] == InFlight(s)
    else s.done <= |cs| && cs[s.done..] == InFlight(s)
  }

  /** The output is the conversion of the chunks done plus the written part of the current one. */
  predicate Output(c: Config, s: State, cs: seq<bytes>)
    requires c.obs > 0 && Bounded(s)
  {
    if s.writeFailed then
      s.done < |cs| && s.total <= |s.out| && IsPrefix(s.out, Converted(c.tr, c.obs, cs[..s.done + 1]))
    else if s.writer.Writing? then
      && s.done < |cs| && s.writer.i <= |s.bufs[s.writer.b]| && |s.out| == s.total + s.writer.i
      && s.out + Pieces(c.tr, c.obs, s.bufs[s.writer.b][s.writer.i..]) == Converted(c.tr, c.obs, cs[..s.done + 1])
    else s.done <= |cs| && s.out == Converted(c.tr, c.obs, cs[..s.done]) && |s.out| == s.total
  }

  predicate Flow(c: Config, s: State, cs: seq<bytes>)
    requires c.obs > 0
  {
    Bounded(s) && Queued(s, cs) && Output(c, s, cs)
  }

  lemma ConvertedSnoc(tr: bytes -> bytes, obs: nat, cs: seq<bytes>, k: nat)
    requires obs > 0 && k < |cs|
    ensures Converted(tr, obs, cs[..k + 1]) == Converted(tr, obs, cs[..k]) + Pieces(tr, obs, cs[k])
  {
    assert cs[..k + 1][..k] == cs[..k];
  }

  lemma {:induction false} ChunksSnoc(rs: seq<Read>, r: Read)
    requires forall k :: 0 <= k < |rs| ==> !Terminal(rs[k])
    ensures Chunks(rs + [r]) == Chunks(rs) + (if r.b == [] then [] else [r.b])
  {
    if rs == [] {
      assert [r][1..] == [];
    } else {
      assert (rs + [r])[1..] == rs[1..] + [r];
      ChunksSnoc(rs[1..], r);
    }
  }

  lemma GetKeepsQueued(s: State, cs: seq<bytes>)
    requires Bounded(s) && Queued(s, cs) && s.reader.Top? && Below(s.pool, |s.bufs|)
    ensures Bounded(Get(s)) && Queued(Get(s), cs)
  {
    ContentsGrow(s.bufs, s.ready);
    ContentsGrow(s.bufs, BeingWritten(s));
    assert InFlight(Get(s)) == InFlight(s);
  }

  lemma GetKeepsOutput(c: Config, s: State, cs: seq<bytes>)
    requires c.obs > 0 && Bounded(s) && Output(c, s, cs) && Bounded(Get(s))
    ensures Output(c, Get(s), cs)
  {
  }

  lemma GetKeepsFlow(c: Config, s: State, cs: seq<bytes>)
    requires c.obs > 0 && Flow(c, s, cs) && s.reader.Top? && Below(s.pool, |s.bufs|)
    ensures Flow(c, Get(s), cs)
  {
    GetKeepsQueued(s, cs);
    GetKeepsOutput(c, s, cs);
  }

  lemma ContentsGrow(bufs: seq<bytes>, ids: seq<nat>)
    requires Below(ids, |bufs|)
    ensures Contents(bufs + [[]], ids) == Contents(bufs, ids)
  {
  }

  lemma ContentsFrame(bufs: seq<bytes>, ids: seq<nat>, b: nat, x: bytes)
    requires Below(ids, |bufs|) && b < |bufs| && Apart(ids, [b])
    ensures Contents(bufs[b := x], ids) == Contents(bufs, ids)
  {
    forall i | 0 <= i < |ids| ensures ids[i] != b {
      assert ids[i] != [b][0];
    }
  }

  /** The buffer being filled is in nobody else's hands, so the chunks in flight stay as they are. */
  lemma FillKeepsQueued(s: State, cs: seq<bytes>, r: Read)
    requires Bounded(s) && Queued(s, cs) && s.reader.Filling?
    requires Apart(s.ready, [s.reader.b]) && (s.writer.Writing? ==> s.writer.b != s.reader.b)
    ensures Bounded(Fill(s, r)) && Queued(Fill(s, r), cs + if r.b == [] then [] else [r.b])
  {
    var s' := Fill(s, r);
    var added := if r.b == [] then [] else [r.b];
    ContentsFrame(s.bufs, s.ready, s.reader.b, r.b);
    ContentsFrame(s.bufs, BeingWritten(s), s.reader.b, r.b);
    assert Contents(s'.bufs, BeingSent(s')) == added;
    assert InFlight(s') == InFlight(s) + added;
    TailSnoc(cs, added, if s.writeFailed then s.done + 1 else s.done);
  }

  lemma TailSnoc(cs: seq<bytes>, added: seq<bytes>, k: nat)
    requires k <= |cs|
    ensures (cs + added)[k..] == cs[k..] + added
  {
  }

  lemma FillKeepsOutput(c: Config, s: State, cs: seq<bytes>, r: Read)
    requires c.obs > 0 && Bounded(s) && Output(c, s, cs) && s.reader.Filling?
    requires s.writer.Writing? ==> s.writer.b != s.reader.b
    ensures Bounded(Fill(s, r)) && Output(c, Fill(s, r), cs + if r.b == [] then [] else [r.b])
  {
    var cs' := cs + if r.b == [] then [] else [r.b];
    var k := if s.writeFailed || s.writer.Writing? then s.done + 1 else s.done;
    assert cs'[..k] == cs[..k];
  }

  lemma SendKeepsFlow(c: Config, s: State, cs: seq<bytes>)
    requires c.obs > 0 && Flow(c, s, cs) && s.reader.Sending?
    ensures Flow(c, Sent(s).(ready := s.ready + [s.reader.b]), cs)
  {
    var s' := Sent(s).(ready := s.ready + [s.reader.b]);
    assert Contents(s.bufs, s'.ready) == Contents(s.bufs, s.ready) + Contents(s.bufs, BeingSent(s));
    assert InFlight(s') == InFlight(s);
  }

  /** The writer starts on the oldest chunk in flight. */
  lemma StartKeepsFlow(c: Config, s: State, s': State, cs: seq<bytes>)
    requires c.obs > 0 && Flow(c, s, cs) && !s.writeFailed && !s.writer.Writing?
    requires Bounded(s') && InFlight(s') == InFlight(s) && s'.writer.Writing? && s'.writer.i == 0
    requires !s'.writeFailed && s'.out == s.out && s'.done == s.done && s'.total == s.total
    ensures Flow(c, s', cs)
  {
    var d := s'.bufs[s'.writer.b];
    assert InFlight(s')[0] == d;
    assert cs[s.done] == cs[s.done..][0] == d;
    ConvertedSnoc(c.tr, c.obs, cs, s.done);
    assert d[0..] == d;
  }

  lemma HandKeepsFlow(c: Config, s: State, cs: seq<bytes>)
    requires c.obs > 0 && Flow(c, s, cs) && !s.writeFailed
    requires s.reader.Sending? && s.ready == [] && s.writer.Receiving?
    ensures Flow(c, Sent(s).(writer := Writing(s.reader.b, 0)), cs)
  {
    var s' := Sent(s).(writer := Writing(s.reader.b, 0));
    assert InFlight(s) == [s.bufs[s.reader.b]] == InFlight(s');
    StartKeepsFlow(c, s, s', cs);
  }

  lemma ReceiveKeepsFlow(c: Config, s: State, cs: seq<bytes>)
    requires c.obs > 0 && Flow(c, s, cs) && !s.writeFailed
    requires s.writer.Receiving? && s.ready != []
    ensures Flow(c, Receive(s), cs)
  {
    var s' := Receive(s);
    assert Contents(s.bufs, s.ready) == Contents(s.bufs, [s.ready[0]]) + Contents(s.bufs, s.ready[1..]);
    assert InFlight(s') == InFlight(s);
    StartKeepsFlow(c, s, s', cs);
  }

  /** The chunk the writer holds leaves the flight. */
  lemma Landed(s: State, s': State, cs: seq<bytes>)
    requires Bounded(s) && Bounded(s') && Queued(s, cs) && !s.writeFailed
    requires s.writer.Writing? && !s'.writer.Writing?
    requires s'.bufs == s.bufs && s'.ready == s.ready && s'.reader == s.reader
    requires if s'.writeFailed then s'.done == s.done else s'.done == s.done + 1
    ensures Queued(s', cs)
  {
    assert InFlight(s) == [s.bufs[s.writer.b]] + InFlight(s');
    assert cs[s.done + 1..] == cs[s.done..][1..];
  }

  lemma Regroup(out: bytes, p: bytes, got: nat, rest: bytes)
    requires got <= |p|
    ensures IsPrefix(out + p[..got], out + (p + rest))
    ensures got == |p| ==> (out + p[..got]) + rest == out + (p + rest)
  {
    assert got == |p| ==> p[..got] == p;
  }

  /** One piece on its way: what was taken of it extends the output, and all of it completes the step. */
  lemma PieceStep(tr: bytes -> bytes, obs: nat, d: bytes, out: bytes, got: nat)
    requires obs > 0 && d != [] && got <= |tr(d[..Min(obs, |d|)])|
    ensures var n := Min(obs, |d|);
            var all := out + Pieces(tr, obs, d);
            var now := out + tr(d[..n])[..got];
            IsPrefix(now, all) && (got == |tr(d[..n])| ==> now + Pieces(tr, obs, d[n..]) == all)
  {
    var n := Min(obs, |d|);
    Regroup(out, tr(d[..n]), got, Pieces(tr, obs, d[n..]));
  }

  lemma WriteKeepsOutput(c: Config, s: State, cs: seq<bytes>, got: nat, failed: bool)
    requires c.obs > 0 && Bounded(s) && Output(c, s, cs) && !s.writeFailed
    requires CanWrite(c, s, got, failed)
    ensures Output(c, Wrote(c, s, got, failed), cs)
  {
    var d := s.bufs[s.writer.b][s.writer.i..];
    PieceStep(c.tr, c.obs, d, s.out, got);
    if !Wrote(c, s, got, failed).writeFailed {
      assert d[got..] == s.bufs[s.writer.b][s.writer.i + got..];
    }
  }

  lemma WriteKeepsFlow(c: Config, s: State, cs: seq<bytes>, got: nat, failed: bool)
    requires c.obs > 0 && Flow(c, s, cs) && !s.writeFailed && CanWrite(c, s, got, failed)
    ensures Flow(c, Wrote(c, s, got, failed), cs)
  {
    var s' := Wrote(c, s, got, failed);
    WriteKeepsOutput(c, s, cs, got, failed);
    if s'.writeFailed {
      Landed(s, s', cs);
    } else {
      assert InFlight(s') == InFlight(s);
    }
  }

  lemma NextKeepsFlow(c: Config, s: State, cs: seq<bytes>)
    requires c.obs > 0 && Flow(c, s, cs) && !s.writeFailed
    requires s.writer.Writing? && s.writer.i >= |s.bufs[s.writer.b]|
    ensures Flow(c, s.(writer := Putting(s.writer.b), total := s.total + s.writer.i, done := s.done + 1), cs)
  {
    Landed(s, s.(writer := Putting(s.writer.b), total := s.total + s.writer.i, done := s.done + 1), cs);
  }

  /** Steps that change neither the chunks in flight nor the output. */
  lemma IdleKeepsFlow(c: Config, s: State, s': State, cs: seq<bytes>)
    requires c.obs > 0 && Flow(c, s, cs) && Bounded(s')
    requires s'.bufs == s.bufs && s'.ready == s.ready && BeingSent(s') == BeingSent(s)
    requires (!s.writer.Writing? && !s'.writer.Writing?) || s'.writer == s.writer
    requires s'.writeFailed == s.writeFailed && s'.out == s.out && s'.done == s.done && s'.total == s.total
    ensures Flow(c, s', cs)
  {
    assert InFlight(s') == InFlight(s);
  }

  // ---------------------------------------------------------------------------------------------
  // Whole runs.
  // ---------------------------------------------------------------------------------------------

  ghost predicate Inv(c: Config, s: State)
    requires c.ibs > 0 && c.obs > 0
  {
    Own(c, s) && ReaderControl(c, s) && WriterControl(c, s) && Flow(c, s, Chunks(c.script[..s.pos]))
  }

  lemma ChunksOfNext(rs: seq<Read>, n: nat)
    requires n < |rs| && forall k :: 0 <= k < n ==> !Terminal(rs[k])
    ensures Chunks(rs[..n + 1]) == Chunks(rs[..n]) + if rs[n].b == [] then [] else [rs[n].b]
  {
    assert rs[..n + 1] == rs[..n] + [rs[n]];
    ChunksSnoc(rs[..n], rs[n]);
  }

  lemma ReadsSoFarOpen(c: Config, s: State)
    requires ReaderControl(c, s) && s.reader.Filling?
    ensures forall k :: 0 <= k < s.pos ==> !Terminal(c.script[k])
  {
  }

  lemma FillKeepsFlow(c: Config, s: State, s': State)
    requires c.ibs > 0 && c.obs > 0 && ReaderControl(c, s) && s.reader.Filling? && s.pos < |c.script|
    requires Apart(s.ready, [s.reader.b]) && (s.writer.Writing? ==> s.writer.b != s.reader.b)
    requires Flow(c, s, Chunks(c.script[..s.pos])) && s' == Fill(s, c.script[s.pos])
    ensures s'.pos == s.pos + 1 <= |c.script| && Flow(c, s', Chunks(c.script[..s'.pos]))
  {
    ReadsSoFarOpen(c, s);
    ChunksOfNext(c.script, s.pos);
    FillKeepsQueued(s, Chunks(c.script[..s.pos]), c.script[s.pos]);
    FillKeepsOutput(c, s, Chunks(c.script[..s.pos]), c.script[s.pos]);
  }

  lemma ReaderKeepsFlow(c: Config, s: State, a: ReaderAction, cs: seq<bytes>)
    requires c.ibs > 0 && c.obs > 0 && Flow(c, s, cs) && Below(s.pool, |s.bufs|) && WriterControl(c, s)
    requires ReaderStep(c, s, a).Some? && !a.RFill?
    ensures ReaderStep(c, s, a).value.pos == s.pos && Flow(c, ReaderStep(c, s, a).value, cs)
  {
    match a
    case RGet => GetKeepsFlow(c, s, cs);
    case RSend => SendKeepsFlow(c, s, cs);
    case RHand => HandKeepsFlow(c, s, cs);
    case RFill =>
    case _ => IdleKeepsFlow(c, s, ReaderStep(c, s, a).value, cs);
  }

  lemma WriterKeepsFlow(c: Config, s: State, a: WriterAction, cs: seq<bytes>)
    requires c.ibs > 0 && c.obs > 0 && Flow(c, s, cs) && WriterControl(c, s) && WriterStep(c, s, a).Some?
    ensures WriterStep(c, s, a).value.pos == s.pos && Flow(c, WriterStep(c, s, a).value, cs)
  {
    match a
    case WRecv => ReceiveKeepsFlow(c, s, cs);
    case WWrite(got, failed) => WriteKeepsFlow(c, s, cs, got, failed);
    case WNext => NextKeepsFlow(c, s, cs);
    case _ => IdleKeepsFlow(c, s, WriterStep(c, s, a).value, cs);
  }

  lemma ReaderKeepsInv(c: Config, s: State, r: ReaderAction, s': State)
    requires c.ibs > 0 && c.obs > 0 && Inv(c, s) && ReaderStep(c, s, r) == Some(s')
    ensures Inv(c, s')
  {
    ReaderKeepsOwn(c, s, r);
    ReaderKeepsReaderControl(c, s, r);
    ReaderKeepsWriterControl(c, s, r);
    if r.RFill? {
      OwnMeans(c, s);
      FillKeepsFlow(c, s, s');
    } else {
      ReaderKeepsFlow(c, s, r, Chunks(c.script[..s.pos]));
    }
  }

  lemma StepKeepsInv(c: Config, s: State, a: Action, s': State)
    requires c.ibs > 0 && c.obs > 0 && Inv(c, s) && Step(c, s, a) == Some(s')
    ensures Inv(c, s')
  {
    match a
    case R(r) => ReaderKeepsInv(c, s, r, s');
    case W(w) =>
      WriterKeepsOwn(c, s, w);
      WriterKeepsControl(c, s, w);
      WriterKeepsFlow(c, s, w, Chunks(c.script[..s.pos]));
  }

  lemma {:induction false} RunKeepsInv(c: Config, s: State, acts: seq<Action>, t: State)
    requires c.ibs > 0 && c.obs > 0 && Inv(c, s) && Run(c, s, acts, t)
    ensures Inv(c, t)
    decreases |acts|
  {
    if acts != [] {
      StepKeepsInv(c, s, acts[0], Step(c, s, acts[0]).value);
      RunKeepsInv(c, Step(c, s, acts[0]).value, acts[1..], t);
    }
  }
}
