/** What becomes of the buffers of the dd pipeline, and of its reader once the writer has stopped. */
module DdBuffers {
  import opened Common
  import opened DdPipeline
  import opened DdCopy

  /** The queue and the pool hold as many buffers as one GiB has room for, and 8192 at most. */
  lemma DepthExactly(ibs: nat)
    requires ibs > 0
    ensures Depth(ibs) * ibs <= 0x4000_0000 && Depth(ibs) <= 8192
    ensures Depth(ibs) == 8192 || (Depth(ibs) + 1) * ibs > 0x4000_0000
  {
    var q := 0x4000_0000 / ibs;
    assert q * ibs <= 0x4000_0000 < (q + 1) * ibs;
    if q > 8192 {
      MulGrows(8192, q, ibs);
    }
  }

  lemma MulGrows(a: nat, b: nat, n: nat)
    requires a <= b
    ensures a * n <= b * n
  {
  }

  /** The buffers that a step lets go for good: one that does not fit into the full pool, one that stayed empty, or one
      whose write failed. */
  function Dropped(c: Config, s: State, a: Action): nat
    requires c.ibs > 0
  {
    match a
    case R(RFill) => if s.pos < |c.script| && c.script[s.pos].b == [] then 1 else 0
    case W(WPut) => if |s.pool| == Depth(c.ibs) then 1 else 0
    case W(WWrite(_, _)) => if WriteOk(c, s, a) then 0 else 1
    case _ => 0
  }

  function Drops(c: Config, s: State, acts: seq<Action>): nat
    requires c.ibs > 0
    decreases |acts|
  {
    if acts == [] || Step(c, s, acts[0]).None? then 0
    else Dropped(c, s, acts[0]) + Drops(c, Step(c, s, acts[0]).value, acts[1..])
  }

  /** The number of buffers in use. */
  function InUse(s: State): nat {
    |s.pool| + |s.ready| + (if s.reader.Filling? || s.reader.Sending? then 1 else 0)
    + if s.writer.Writing? || s.writer.Putting? then 1 else 0
  }

  lemma InUseIsLive(s: State)
    ensures InUse(s) == |Live(s)|
  {
  }

  lemma ReaderAccounts(c: Config, s: State, r: ReaderAction)
    requires c.ibs > 0 && ReaderStep(c, s, r).Some?
    ensures var t := ReaderStep(c, s, r).value; |t.bufs| + InUse(s) == |s.bufs| + InUse(t) + Dropped(c, s, R(r))
  {
  }

  lemma WriterAccounts(c: Config, s: State, w: WriterAction)
    requires c.ibs > 0 && |s.pool| <= Depth(c.ibs) && WriterStep(c, s, w).Some?
    ensures var t := WriterStep(c, s, w).value; |t.bufs| + InUse(s) == |s.bufs| + InUse(t) + Dropped(c, s, W(w))
  {
  }

  lemma StepAccounts(c: Config, s: State, a: Action)
    requires c.ibs > 0 && |s.pool| <= Depth(c.ibs) && Step(c, s, a).Some?
    ensures var t := Step(c, s, a).value; |t.bufs| + InUse(s) == |s.bufs| + InUse(t) + Dropped(c, s, a)
  {
    match a
    case R(r) => ReaderAccounts(c, s, r);
    case W(w) => WriterAccounts(c, s, w);
  }

  lemma {:induction false} RunAccounts(c: Config, s: State, acts: seq<Action>, t: State)
    requires ValidConfig(c) && Inv(c, s) && Run(c, s, acts, t)
    ensures |t.bufs| + InUse(s) == |s.bufs| + InUse(t) + Drops(c, s, acts)
    decreases |acts|
  {
    if acts != [] {
      OwnMeans(c, s);
      StepAccounts(c, s, acts[0]);
      StepKeepsInv(c, s, acts[0], Step(c, s, acts[0]).value);
      RunAccounts(c, Step(c, s, acts[0]).value, acts[1..], t);
    }
  }

  /** No buffer is lost: every one that was ever made is in use, or was let go in one of the three ways. */
  lemma BuffersAccounted(c: Config, acts: seq<Action>, t: State)
    requires ValidConfig(c) && Run(c, Init, acts, t)
    ensures |t.bufs| == |Live(t)| + Drops(c, Init, acts) <= Depth(c.ibs) + 2 + Drops(c, Init, acts)
  {
    InitInv(c);
    RunAccounts(c, Init, acts, t);
    InUseIsLive(t);
    BuffersOwnedOnce(c, acts, t);
  }

  /** Once quit is closed the reader makes at most the one read that it has a buffer for. */
  lemma {:induction false} QuitStopsReader(c: Config, s: State, acts: seq<Action>, t: State)
    requires c.ibs > 0 && s.quit && Run(c, s, acts, t)
    ensures t.quit && |t.bufs| == |s.bufs| && t.pos <= s.pos + if s.reader.Filling? then 1 else 0
    decreases |acts|
  {
    if acts != [] {
      QuitStep(c, s, acts[0]);
      QuitStopsReader(c, Step(c, s, acts[0]).value, acts[1..], t);
    }
  }

  lemma QuitStep(c: Config, s: State, a: Action)
    requires c.ibs > 0 && s.quit && Step(c, s, a).Some?
    ensures var t := Step(c, s, a).value;
            && t.quit && |t.bufs| == |s.bufs|
            && t.pos + (if t.reader.Filling? then 1 else 0) <= s.pos + if s.reader.Filling? then 1 else 0
  {
  }
}
