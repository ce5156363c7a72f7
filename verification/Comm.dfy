/** comm (cmds/comm/comm.go): the lines of two sorted files merged into three columns. */
module Comm {
  import opened Common

  // ---------------------------------------------------------------------------------------------
  // The order of strings: byte by byte, a prefix first.
  // ---------------------------------------------------------------------------------------------

  predicate Less(a: bytes, b: bytes) {
    b != [] && (a == [] || a[0] < b[0] || (a[0] == b[0] && Less(a[1..], b[1..])))
  }

  lemma {:induction false} LessTotal(a: bytes, b: bytes)
    ensures Less(a, b) || Less(b, a) || a == b
    ensures !(Less(a, b) && Less(b, a)) && !Less(a, a)
    decreases |a|
  {
    if a != [] && b != [] {
      LessTotal(a[1..], b[1..]);
      LessTotal(a[1..], a[1..]);
      assert a == [a[0]] + a[1..] && b == [b[0]] + b[1..];
    } else if a != [] {
      LessTotal(a[1..], a[1..]);
    }
  }

  lemma {:induction false} LessTransitive(a: bytes, b: bytes, c: bytes)
    requires Less(a, b) && !Less(c, b)
    ensures Less(a, c)
    decreases |a|
  {
    if a != [] && b[0] == c[0] && a[0] == b[0] {
      LessTransitive(a[1..], b[1..], c[1..]);
    }
  }

  // ---------------------------------------------------------------------------------------------
  // The merge.
  // ---------------------------------------------------------------------------------------------

  /** A line with the column it belongs to. */
  datatype Entry = Only1(line: bytes) | Only2(line: bytes) | Both(line: bytes)

  /** What travels to the printer: three strings, of which at most one is not empty. */
  datatype Out = Out(s1: bytes, s2: bytes, s3: bytes)

  function AsOut(e: Entry): Out {
    match e
    case Only1(s) => Out(s, [], [])
    case Only2(s) => Out([], s, [])
    case Both(s) => Out([], [], s)
  }

  function AsOuts(es: seq<Entry>): seq<Out> {
    seq(|es|, i requires 0 <= i < |es| => AsOut(es[i]))
  }

  function Merge(a: seq<bytes>, b: seq<bytes>): seq<Entry>
    decreases |a| + |b|
  {
    if a != [] && b != [] then
      if Less(a[0], b[0]) then [Only1(a[0])] + Merge(a[1..], b)
      else if Less(b[0], a[0]) then [Only2(b[0])] + Merge(a, b[1..])
      else [Both(b[0])] + Merge(a[1..], b[1..])
    else if a != [] then [Only1(a[0])] + Merge(a[1..], b)
    else if b != [] then [Only2(b[0])] + Merge(a, b[1..])
    else []
  }

  /** The i-th receive from a channel that is closed after its lines. */
  method Receive(c: seq<bytes>, i: nat) returns (s: bytes, ok: bool)
    ensures ok <==> i < |c|
    ensures s == if ok then c[i] else []
  {
    if i < |c| {
      return c[i], true;
    }
    return [], false;
  }

  lemma MergeStep(out: seq<Out>, e: Entry, es: seq<Entry>)
    ensures out + AsOuts([e] + es) == (out + [AsOut(e)]) + AsOuts(es)
  {
  }

  lemma Rest(c: seq<bytes>, i: nat)
    requires i < |c|
    ensures c[i..][0] == c[i] && c[i..][1..] == c[i + 1..]
  {
  }

  method Outer(c1: seq<bytes>, c2: seq<bytes>) returns (out: seq<Out>)
    ensures out == AsOuts(Merge(c1, c2))
  {
    out := [];
    var i, j := 0, 0;
    var s1, ok1 := Receive(c1, i);
    var s2, ok2 := Receive(c2, j);
    assert c1[0..] == c1 && c2[0..] == c2;
    while true
      invariant i <= |c1| && j <= |c2| && ok1 == (i < |c1|) && ok2 == (j < |c2|)
      invariant (ok1 ==> s1 == c1[i]) && (ok2 ==> s2 == c2[j])
      invariant AsOuts(Merge(c1, c2)) == out + AsOuts(Merge(c1[i..], c2[j..]))
      decreases |c1| - i + |c2| - j
    {
      ghost var left := Merge(c1[i..], c2[j..]);
      if ok1 { Rest(c1, i); }
      if ok2 { Rest(c2, j); }
      if left != [] {
        MergeStep(out, left[0], left[1..]);
      }
      if ok1 && ok2 {
        if Less(s1, s2) {
          out := out + [Out(s1, [], [])];
          i := i + 1;
          s1, ok1 := Receive(c1, i);
        } else if Less(s2, s1) {
          out := out + [Out([], s2, [])];
          j := j + 1;
          s2, ok2 := Receive(c2, j);
        } else {
          out := out + [Out([], [], s2)];
          i, j := i + 1, j + 1;
          s1, ok1 := Receive(c1, i);
          s2, ok2 := Receive(c2, j);
        }
      } else if ok1 {
        out := out + [Out(s1, [], [])];
        i := i + 1;
        s1, ok1 := Receive(c1, i);
      } else if ok2 {
        out := out + [Out([], s2, [])];
        j := j + 1;
        s2, ok2 := Receive(c2, j);
      } else {
        break;
      }
    }
  }

  // ---------------------------------------------------------------------------------------------
  // What the columns hold.
  // ---------------------------------------------------------------------------------------------

  /** The lines of columns 1 and 3. */
  function First(es: seq<Entry>): seq<bytes> {
    if es == [] then [] else (if es[0].Only2? then [] else [es[0].line]) + First(es[1..])
  }

  /** The lines of columns 2 and 3. */
  function Second(es: seq<Entry>): seq<bytes> {
    if es == [] then [] else (if es[0].Only1? then [] else [es[0].line]) + Second(es[1..])
  }

  function Shared(es: seq<Entry>): seq<bytes> {
    if es == [] then [] else (if es[0].Both? then [es[0].line] else []) + Shared(es[1..])
  }

  function Lines(es: seq<Entry>): seq<bytes> {
    seq(|es|, i requires 0 <= i < |es| => es[i].line)
  }

  lemma Columns(e: Entry, es: seq<Entry>)
    ensures First([e] + es) == (if e.Only2? then [] else [e.line]) + First(es)
    ensures Second([e] + es) == (if e.Only1? then [] else [e.line]) + Second(es)
    ensures Shared([e] + es) == (if e.Both? then [e.line] else []) + Shared(es)
  {
    assert ([e] + es)[1..] == es;
  }

  /** One step of the merge: the entry it emits and what is left of the streams. */
  function Step(a: seq<bytes>, b: seq<bytes>): (Entry, seq<bytes>, seq<bytes>)
    requires a != [] || b != []
  {
    if b == [] || (a != [] && Less(a[0], b[0])) then (Only1(a[0]), a[1..], b)
    else if a == [] || Less(b[0], a[0]) then (Only2(b[0]), a, b[1..])
    else (Both(b[0]), a[1..], b[1..])
  }

  lemma MergeByStep(a: seq<bytes>, b: seq<bytes>)
    requires a != [] || b != []
    ensures var (e, x, y) := Step(a, b);
            Merge(a, b) == [e] + Merge(x, y) && |x| + |y| < |a| + |b|
            && (e.Both? ==> a != [] && b != [] && a[0] == b[0])
  {
    if a != [] && b != [] {
      LessTotal(a[0], b[0]);
    }
  }

  lemma SpellStep(a: seq<bytes>, b: seq<bytes>, e: Entry, p: seq<bytes>, q: seq<bytes>, es: seq<Entry>)
    requires (a != [] || b != []) && (e, p, q) == Step(a, b) && First(es) == p && Second(es) == q
    requires e.Both? ==> a != [] && b != [] && a[0] == b[0]
    ensures First([e] + es) == a && Second([e] + es) == b
  {
    Columns(e, es);
  }

  /** Columns 1 and 3 spell the first stream and columns 2 and 3 the second, sorted or not. */
  lemma {:induction false} ColumnsSpellStreams(a: seq<bytes>, b: seq<bytes>)
    ensures First(Merge(a, b)) == a && Second(Merge(a, b)) == b
    decreases |a| + |b|
  {
    if a != [] || b != [] {
      MergeByStep(a, b);
      var (e, p, q) := Step(a, b);
      ColumnsSpellStreams(p, q);
      SpellStep(a, b, e, p, q, Merge(p, q));
    }
  }

  ghost predicate AtMost(s: bytes, t: bytes) {
    !Less(t, s)
  }

  ghost predicate Bound(s: bytes, c: seq<bytes>) {
    forall i :: 0 <= i < |c| ==> AtMost(s, c[i])
  }

  ghost predicate Sorted(c: seq<bytes>) {
    c == [] || (Bound(c[0], c[1..]) && Sorted(c[1..]))
  }

  function Occurrences(x: bytes, c: seq<bytes>): nat {
    if c == [] then 0 else (if c[0] == x then 1 else 0) + Occurrences(x, c[1..])
  }

  lemma {:induction false} AboveHasNone(x: bytes, c: seq<bytes>)
    requires Sorted(c) && (c != [] ==> Less(x, c[0]))
    ensures Occurrences(x, c) == 0
    decreases |c|
  {
    if c != [] {
      LessTotal(x, x);
      if |c| > 1 {
        assert AtMost(c[0], c[1..][0]);
        LessTransitive(x, c[0], c[1]);
      }
      AboveHasNone(x, c[1..]);
    }
  }

  /** How often one entry puts `x` into column 3. */
  function Hit(e: Entry, x: bytes): nat {
    if e == Both(x) then 1 else 0
  }

  lemma SharedStep(e: Entry, es: seq<Entry>, x: bytes)
    ensures Occurrences(x, Shared([e] + es)) == Hit(e, x) + Occurrences(x, Shared(es))
  {
    Columns(e, es);
    if e.Both? {
      assert ([e.line] + Shared(es))[1..] == Shared(es);
    } else {
      assert [] + Shared(es) == Shared(es);
    }
  }

  /** How many occurrences of `x` the streams can pair off. */
  function Pairs(x: bytes, a: seq<bytes>, b: seq<bytes>): nat {
    Min(Occurrences(x, a), Occurrences(x, b))
  }

  /** A line taken from `c` alone is not in the other stream, so the smaller count does not change. */
  lemma TakenAlone(c: seq<bytes>, other: seq<bytes>, x: bytes)
    requires c != [] && Sorted(other) && (other != [] ==> Less(c[0], other[0]))
    ensures Pairs(x, c, other) == Pairs(x, c[1..], other) && Pairs(x, other, c) == Pairs(x, other, c[1..])
  {
    if x == c[0] {
      AboveHasNone(x, other);
    }
  }

  lemma TakenTogether(a: seq<bytes>, b: seq<bytes>, x: bytes)
    requires a != [] && b != [] && a[0] == b[0]
    ensures Pairs(x, a, b) == Hit(Both(b[0]), x) + Pairs(x, a[1..], b[1..])
  {
  }

  lemma StepCounts(a: seq<bytes>, b: seq<bytes>, x: bytes, e: Entry, p: seq<bytes>, q: seq<bytes>)
    requires (a != [] || b != []) && Sorted(a) && Sorted(b) && (e, p, q) == Step(a, b)
    ensures Pairs(x, a, b) == Hit(e, x) + Pairs(x, p, q)
  {
    match e
    case Only1(_) => TakenAlone(a, b, x);
    case Only2(_) => TakenAlone(b, a, x);
    case Both(_) =>
      LessTotal(a[0], b[0]);
      TakenTogether(a, b, x);
  }

  /** For sorted streams column 3 holds every line as often as both streams do. */
  lemma {:induction false} CommonExactly(a: seq<bytes>, b: seq<bytes>, x: bytes)
    requires Sorted(a) && Sorted(b)
    ensures Occurrences(x, Shared(Merge(a, b))) == Pairs(x, a, b)
    decreases |a| + |b|
  {
    if a != [] || b != [] {
      MergeByStep(a, b);
      var (e, p, q) := Step(a, b);
      SharedStep(e, Merge(p, q), x);
      StepCounts(a, b, x, e, p, q);
      CommonExactly(p, q, x);
    }
  }

  lemma StepIsLeast(a: seq<bytes>, b: seq<bytes>)
    requires (a != [] || b != []) && Sorted(a) && Sorted(b)
    ensures Bound(Step(a, b).0.line, a) && Bound(Step(a, b).0.line, b)
  {
    var m := Step(a, b).0.line;
    LessTotal(m, m);
    if a != [] && b != [] {
      LessTotal(a[0], b[0]);
    }
    LeastOf(m, a, if a == [] then m else a[0]);
    LeastOf(m, b, if b == [] then m else b[0]);
  }

  lemma LeastOf(m: bytes, c: seq<bytes>, h: bytes)
    requires Sorted(c) && (c != [] ==> h == c[0]) && AtMost(m, h)
    ensures Bound(m, c)
  {
    forall i | 0 <= i < |c| ensures AtMost(m, c[i]) {
      if i > 0 {
        assert AtMost(h, c[1..][i - 1]);
        if Less(c[i], m) {
          LessTotal(h, m);
          LessTransitive(c[i], m, h);
        }
      }
    }
  }

  lemma {:induction false} LinesBound(s: bytes, a: seq<bytes>, b: seq<bytes>)
    requires Bound(s, a) && Bound(s, b)
    ensures Bound(s, Lines(Merge(a, b)))
    decreases |a| + |b|
  {
    if a != [] || b != [] {
      MergeByStep(a, b);
      var (e, p, q) := Step(a, b);
      assert AtMost(s, e.line);
      LinesBound(s, p, q);
      assert Lines([e] + Merge(p, q)) == [e.line] + Lines(Merge(p, q));
    }
  }

  /** For sorted streams the lines come out sorted. */
  lemma {:induction false} MergedSorted(a: seq<bytes>, b: seq<bytes>)
    requires Sorted(a) && Sorted(b)
    ensures Sorted(Lines(Merge(a, b)))
    decreases |a| + |b|
  {
    if a != [] || b != [] {
      MergeByStep(a, b);
      StepIsLeast(a, b);
      var (e, p, q) := Step(a, b);
      MergedSorted(p, q);
      LinesBound(e.line, p, q);
      var rest := Lines(Merge(p, q));
      assert Lines([e] + Merge(p, q)) == [e.line] + rest;
      assert ([e.line] + rest)[1..] == rest;
    }
  }

  // ---------------------------------------------------------------------------------------------
  // Empty lines: the reader ends every newline-terminated file with one, and the printer shows none.
  // ---------------------------------------------------------------------------------------------

  function NonEmpty(c: seq<bytes>): seq<bytes> {
    if c == [] then [] else (if c[0] == [] then [] else [c[0]]) + NonEmpty(c[1..])
  }

  function Visible(es: seq<Entry>): seq<Entry> {
    if es == [] then [] else (if es[0].line == [] then [] else [es[0]]) + Visible(es[1..])
  }

  lemma VisibleStep(e: Entry, es: seq<Entry>)
    ensures Visible([e] + es) == if e.line == [] then Visible(es) else [e] + Visible(es)
  {
    assert ([e] + es)[1..] == es && [] + Visible(es) == Visible(es);
  }

  /** Dropping empty lines first does not change a step that emits a line. */
  lemma StepNonEmpty(a: seq<bytes>, b: seq<bytes>, e: Entry, p: seq<bytes>, q: seq<bytes>)
    requires (a != [] || b != []) && (e, p, q) == Step(a, b)
    ensures e.line == [] ==> NonEmpty(a) == NonEmpty(p) && NonEmpty(b) == NonEmpty(q)
    ensures e.line != [] ==> NonEmpty(a) != [] || NonEmpty(b) != []
    ensures e.line != [] ==> Step(NonEmpty(a), NonEmpty(b)) == (e, NonEmpty(p), NonEmpty(q))
  {
    NonEmptyHead(a);
    NonEmptyHead(b);
    if a != [] && b != [] {
      LessTotal(a[0], b[0]);
    }
  }

  lemma NonEmptyHead(c: seq<bytes>)
    ensures c != [] && c[0] == [] ==> NonEmpty(c) == NonEmpty(c[1..])
    ensures c != [] && c[0] != [] ==>
              NonEmpty(c) != [] && NonEmpty(c)[0] == c[0] && NonEmpty(c)[1..] == NonEmpty(c[1..])
  {
  }

  /** The lines that show are the merge of the lines that are not empty, for all streams. */
  lemma {:induction false} EmptyLinesVanish(a: seq<bytes>, b: seq<bytes>)
    ensures Visible(Merge(a, b)) == Merge(NonEmpty(a), NonEmpty(b))
    decreases |a| + |b|
  {
    if a != [] || b != [] {
      MergeByStep(a, b);
      var (e, p, q) := Step(a, b);
      VisibleStep(e, Merge(p, q));
      StepNonEmpty(a, b, e, p, q);
      EmptyLinesVanish(p, q);
      if e.line != [] {
        MergeByStep(NonEmpty(a), NonEmpty(b));
      }
    }
  }
}
