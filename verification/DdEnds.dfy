/** Every run of the dd pipeline is finite, and most inputs make it return. */
module DdEnds {
  import opened Common
  import opened DdPipeline
  import opened DdCopy

  /** The number of pieces in which d is written. */
  function PieceCount(obs: nat, d: bytes): nat
    requires obs > 0
  {
    if d == [] then 0 else 1 + PieceCount(obs, d[Min(obs, |d|)..])
  }

  /** The steps of the writer for one buffer: receive it, write it, count it, put it back. */
  function BufferCost(obs: nat, d: bytes): nat
    requires obs > 0
  {
    PieceCount(obs, d) + 3
  }

  /** The steps that the reads of a script can cause. */
  function ScriptCost(obs: nat, rs: seq<Read>): nat
    requires obs > 0
  {
    if rs == [] then 0 else 6 + PieceCount(obs, rs[0].b) + ScriptCost(obs, rs[1..])
  }

  function QueueCost(obs: nat, bufs: seq<bytes>, q: seq<nat>): nat
    requires obs > 0 && Below(q, |bufs|)
  {
    if q == [] then 0 else BufferCost(obs, bufs[q[0]]) + QueueCost(obs, bufs, q[1..])
  }

  lemma {:induction false} QueueCostSnoc(obs: nat, bufs: seq<bytes>, q: seq<nat>, b: nat)
    requires obs > 0 && Below(q, |bufs|) && b < |bufs|
    ensures Below(q + [b], |bufs|)
    ensures QueueCost(obs, bufs, q + [b]) == QueueCost(obs, bufs, q) + BufferCost(obs, bufs[b])
    decreases |q|
  {
    if q == [] {
      assert ([] + [b])[1..] == [];
    } else {
      assert (q + [b])[1..] == q[1..] + [b];
      QueueCostSnoc(obs, bufs, q[1..], b);
    }
  }

  /** The cost of a queue depends on its own buffers only. */
  lemma {:induction false} QueueCostFrame(obs: nat, bufs: seq<bytes>, bufs': seq<bytes>, q: seq<nat>)
    requires obs > 0 && Below(q, |bufs|) && Below(q, |bufs'|)
    requires forall k :: 0 <= k < |q| ==> bufs[q[k]] == bufs'[q[k]]
    ensures QueueCost(obs, bufs, q) == QueueCost(obs, bufs', q)
    decreases |q|
  {
    if q != [] {
      QueueCostFrame(obs, bufs, bufs', q[1..]);
    }
  }

  function ReaderRank(obs: nat, s: State): nat
    requires obs > 0
  {
    match s.reader
    case Gone => 0
    case Closing => 1
    case Exiting => 2
    case Filling(_) => 3
    case Top => 4
    case Sending(b, _) => if b < |s.bufs| then 5 + BufferCost(obs, s.bufs[b]) else 0
  }

  function WriterRank(obs: nat, s: State): nat
    requires obs > 0
  {
    match s.writer
    case Returned(_) => 0
    case Waiting => 1
    case Stopping => 2
    case Receiving => 3
    case Putting(_) => 4
    case Writing(b, i) => if b < |s.bufs| && i <= |s.bufs[b]| then 5 + PieceCount(obs, s.bufs[b][i..]) else 5
  }

  predicate Ranked(c: Config, s: State) {
    s.pos <= |c.script| && Below(s.ready, |s.bufs|)
  }

  /** The steps that are left. */
  function Rank(c: Config, s: State): nat
    requires c.obs > 0 && Ranked(c, s)
  {
    ScriptCost(c.obs, c.script[s.pos..]) + ReaderRank(c.obs, s)
    + QueueCost(c.obs, s.bufs, s.ready) + WriterRank(c.obs, s)
  }

  /** The buffer that the reader holds is neither queued nor with the writer. */
  lemma ReaderApart(c: Config, s: State, b: nat)
    requires c.ibs > 0 && Own(c, s) && Reading(s) == [b]
    ensures b < |s.bufs| && (forall k :: 0 <= k < |s.ready| ==> s.ready[k] != b)
    ensures s.writer.Writing? ==> s.writer.b != b
  {
    assert Reading(s)[0] == b;
    assert s.writer.Writing? ==> InWriter(s)[0] == s.writer.b;
  }

  lemma WriterRankFrame(obs: nat, s: State, t: State)
    requires obs > 0 && s.writer == t.writer
    requires s.writer.Writing? && s.writer.b < |s.bufs| ==>
               s.writer.b < |t.bufs| && t.bufs[s.writer.b] == s.bufs[s.writer.b]
    requires s.writer.Writing? ==> s.writer.b < |s.bufs|
    ensures WriterRank(obs, s) == WriterRank(obs, t)
  {
  }

  lemma WriterInside(c: Config, s: State)
    requires c.ibs > 0 && Own(c, s)
    ensures s.writer.Writing? ==> s.writer.b < |s.bufs|
  {
    assert s.writer.Writing? ==> InWriter(s)[0] == s.writer.b;
  }

  // One lemma per action that touches buffers.

  lemma GetLowers(c: Config, s: State)
    requires c.obs > 0 && Ranked(c, s) && s.reader.Top? && (s.writer.Writing? ==> s.writer.b < |s.bufs|)
    ensures Ranked(c, Get(s)) && Rank(c, Get(s)) < Rank(c, s)
  {
    var t := Get(s);
    WriterRankFrame(c.obs, s, t);
    QueueCostFrame(c.obs, s.bufs, t.bufs, s.ready);
  }

  lemma FillLowers(c: Config, s: State)
    requires c.obs > 0 && Ranked(c, s) && s.pos < |c.script| && s.reader.Filling? && s.reader.b < |s.bufs|
    requires forall k :: 0 <= k < |s.ready| ==> s.ready[k] != s.reader.b
    requires s.writer.Writing? ==> s.writer.b < |s.bufs| && s.writer.b != s.reader.b
    ensures Ranked(c, Fill(s, c.script[s.pos])) && Rank(c, Fill(s, c.script[s.pos])) < Rank(c, s)
  {
    var t := Fill(s, c.script[s.pos]);
    WriterRankFrame(c.obs, s, t);
    QueueCostFrame(c.obs, s.bufs, t.bufs, s.ready);
    ScriptStep(c.obs, c.script, s.pos);
    FilledRank(c.obs, s, c.script[s.pos]);
  }

  lemma FilledRank(obs: nat, s: State, r: Read)
    requires obs > 0 && s.reader.Filling? && s.reader.b < |s.bufs|
    ensures ReaderRank(obs, Fill(s, r)) < 6 + PieceCount(obs, r.b) + ReaderRank(obs, s)
  {
  }

  lemma ScriptStep(obs: nat, rs: seq<Read>, n: nat)
    requires obs > 0 && n < |rs|
    ensures ScriptCost(obs, rs[n..]) == 6 + PieceCount(obs, rs[n].b) + ScriptCost(obs, rs[n + 1..])
  {
    assert rs[n..][0] == rs[n] && rs[n..][1..] == rs[n + 1..];
  }

  lemma SendLowers(c: Config, s: State)
    requires c.obs > 0 && Ranked(c, s) && s.reader.Sending? && s.reader.b < |s.bufs|
    ensures var t := Sent(s).(ready := s.ready + [s.reader.b]); Ranked(c, t) && Rank(c, t) < Rank(c, s)
  {
    QueueCostSnoc(c.obs, s.bufs, s.ready, s.reader.b);
  }

  lemma HandLowers(c: Config, s: State)
    requires c.obs > 0 && Ranked(c, s) && s.reader.Sending? && s.reader.b < |s.bufs| && s.writer.Receiving?
    ensures var t := Sent(s).(writer := Writing(s.reader.b, 0)); Ranked(c, t) && Rank(c, t) < Rank(c, s)
  {
    assert s.bufs[s.reader.b][0..] == s.bufs[s.reader.b];
  }

  lemma ReceiveLowers(c: Config, s: State)
    requires c.obs > 0 && Ranked(c, s) && s.writer.Receiving? && s.ready != []
    ensures Ranked(c, Receive(s)) && Rank(c, Receive(s)) < Rank(c, s)
  {
    assert s.bufs[s.ready[0]][0..] == s.bufs[s.ready[0]];
  }

  lemma WriteLowers(c: Config, s: State, got: nat, failed: bool)
    requires c.obs > 0 && Ranked(c, s) && CanWrite(c, s, got, failed)
    ensures Ranked(c, Wrote(c, s, got, failed)) && Rank(c, Wrote(c, s, got, failed)) < Rank(c, s)
  {
    var d := s.bufs[s.writer.b][s.writer.i..];
    if !failed && got == |NextPiece(c, s)| {
      assert s.bufs[s.writer.b][s.writer.i + got..] == d[got..];
      assert PieceCount(c.obs, d) == 1 + PieceCount(c.obs, d[got..]);
    }
  }

  lemma ReaderLowers(c: Config, s: State, a: ReaderAction)
    requires c.ibs > 0 && c.obs > 0 && Own(c, s) && Ranked(c, s) && ReaderStep(c, s, a).Some?
    ensures Ranked(c, ReaderStep(c, s, a).value) && Rank(c, ReaderStep(c, s, a).value) < Rank(c, s)
  {
    WriterInside(c, s);
    if s.reader.Filling? || s.reader.Sending? {
      ReaderApart(c, s, s.reader.b);
    }
    match a
    case RGet => GetLowers(c, s);
    case RFill => FillLowers(c, s);
    case RSend => SendLowers(c, s);
    case RHand => HandLowers(c, s);
    case _ =>
  }

  lemma WriterLowers(c: Config, s: State, a: WriterAction)
    requires c.ibs > 0 && c.obs > 0 && Ranked(c, s) && WriterStep(c, s, a).Some?
    ensures Ranked(c, WriterStep(c, s, a).value) && Rank(c, WriterStep(c, s, a).value) < Rank(c, s)
  {
    match a
    case WRecv => ReceiveLowers(c, s);
    case WWrite(got, failed) => WriteLowers(c, s, got, failed);
    case _ =>
  }

  lemma {:induction false} RunLowers(c: Config, s: State, acts: seq<Action>, t: State)
    requires c.ibs > 0 && c.obs > 0 && Inv(c, s) && Run(c, s, acts, t)
    ensures |acts| <= Rank(c, s)
    decreases |acts|
  {
    if acts != [] {
      var next := Step(c, s, acts[0]).value;
      StepKeepsInv(c, s, acts[0], next);
      match acts[0] {
        case R(a) => ReaderLowers(c, s, a);
        case W(a) => WriterLowers(c, s, a);
      }
      RunLowers(c, next, acts[1..], t);
    }
  }

  /** No run is longer than six steps and the output pieces for each read, and seven more. */
  lemma RunsEnd(c: Config, acts: seq<Action>, t: State)
    requires ValidConfig(c) && Run(c, Init, acts, t)
    ensures |acts| <= ScriptCost(c.obs, c.script) + 7
  {
    InitInv(c);
    RunLowers(c, Init, acts, t);
    assert c.script[0..] == c.script;
  }

  lemma {:induction false} NoEnd(rs: seq<Read>)
    requires forall k :: 0 <= k < |rs| ==> !Terminal(rs[k])
    ensures EndOf(rs).Nil?
    decreases |rs|
  {
    if rs != [] {
      NoEnd(rs[1..]);
    }
  }

  /** With an input that ends and has fewer than depth + 2 chunks, a run that has no step left has returned. */
  lemma CopyReturns(c: Config, acts: seq<Action>, t: State)
    requires ValidConfig(c) && Run(c, Init, acts, t) && Stuck(c, t)
    requires !EndOf(c.script).Nil? && |Chunks(c.script)| < Depth(c.ibs) + 2
    ensures Finished(t)
  {
    StuckExactly(c, acts, t);
    if Deadlocked(c, t) {
      DeadlockNeedsChunks(c, acts, t);
    } else if AwaitsInput(c, t) {
      AwaitsOpenInput(c, acts, t);
    }
  }

  lemma AwaitsOpenInput(c: Config, acts: seq<Action>, t: State)
    requires ValidConfig(c) && Run(c, Init, acts, t) && AwaitsInput(c, t)
    ensures EndOf(c.script).Nil?
  {
    ReachedControl(c, acts, t);
    forall k | 0 <= k < |c.script| ensures !Terminal(c.script[k]) {
      assert k < t.pos - 1 || k == t.pos - 1;
    }
    NoEnd(c.script);
  }
}
