/** The text buffer of the editor, cmds/ed/text.go: bytes plus a cached index of line starts. */
module Ed {
  import opened Common

  const NL: byte := 10

  predicate EndsLine(d: bytes) {
    d != [] && d[|d| - 1] == NL
  }

  // ---------------------------------------------------------------------------------------------
  // Lines and line starts.
  // ---------------------------------------------------------------------------------------------

  /** The lines of a text, each with its newline; the last one may lack it. */
  function Lines(d: bytes): (ls: seq<bytes>)
    ensures ls == [] <==> d == []
  {
    if d == [] then []
    else
      var k := |d| - 1;
      var ls := Lines(d[..k]);
      if k == 0 || d[k - 1] == NL then ls + [[d[k]]]
      else ls[..|ls| - 1] + [ls[|ls| - 1] + [d[k]]]
  }

  /** The offsets at which lines start. */
  function Starts(d: bytes): seq<nat> {
    if d == [] then []
    else
      var k := |d| - 1;
      Starts(d[..k]) + if k == 0 || d[k - 1] == NL then [k] else []
  }

  /** A newline occurs in a line at its end only. */
  predicate IsLine(l: bytes) {
    l != [] && forall j :: 0 <= j < |l| - 1 ==> l[j] != NL
  }

  /** All lines but the last are terminated. */
  predicate IsText(ls: seq<bytes>) {
    && (forall i :: 0 <= i < |ls| ==> IsLine(ls[i]))
    && (forall i :: 0 <= i < |ls| - 1 ==> EndsLine(ls[i]))
  }

  /** One more byte in the last line. */
  lemma LastGrows(ls: seq<bytes>, x: byte)
    requires ls != []
    ensures Flatten(ls[..|ls| - 1] + [ls[|ls| - 1] + [x]]) == Flatten(ls) + [x]
  {
    var m := |ls| - 1;
    SplitLast(ls);
    FlattenSnoc(ls[..m], ls[m]);
    FlattenSnoc(ls[..m], ls[m] + [x]);
    Assoc(Flatten(ls[..m]), ls[m], [x]);
  }

  lemma {:induction false} LinesFlatten(d: bytes)
    ensures Flatten(Lines(d)) == d
    decreases |d|
  {
    if d != [] {
      var k := |d| - 1;
      LinesFlatten(d[..k]);
      if k == 0 || d[k - 1] == NL {
        FlattenSnoc(Lines(d[..k]), [d[k]]);
      } else {
        LastGrows(Lines(d[..k]), d[k]);
      }
      assert d == d[..k] + [d[k]];
    }
  }

  lemma {:induction false} LinesShape(d: bytes)
    ensures IsText(Lines(d))
    ensures d != [] ==> (EndsLine(Lines(d)[|Lines(d)| - 1]) <==> EndsLine(d))
    decreases |d|
  {
    if d != [] {
      var k := |d| - 1;
      LinesShape(d[..k]);
      assert k > 0 ==> (EndsLine(d[..k]) <==> d[k - 1] == NL);
    }
  }

  lemma LinesAreText(d: bytes)
    ensures IsText(Lines(d)) && Flatten(Lines(d)) == d
    ensures d != [] ==> (EndsLine(Lines(d)[|Lines(d)| - 1]) <==> EndsLine(d))
  {
    LinesFlatten(d);
    LinesShape(d);
  }

  /** No other division of a text into such lines exists. */
  lemma {:induction false} TextIsUnique(ls: seq<bytes>, ls': seq<bytes>)
    requires IsText(ls) && IsText(ls') && Flatten(ls) == Flatten(ls')
    ensures ls == ls'
    decreases |ls|
  {
    assert ls != [] ==> IsLine(ls[0]);
    assert ls' != [] ==> IsLine(ls'[0]);
    if ls != [] && ls' != [] {
      FirstLineLength(ls, ls');
      FirstLineLength(ls', ls);
      var d := Flatten(ls);
      assert ls[0] == d[..|ls[0]|] && ls'[0] == d[..|ls'[0]|];
      assert Flatten(ls[1..]) == d[|ls[0]|..] && Flatten(ls'[1..]) == d[|ls'[0]|..];
      TextIsUnique(ls[1..], ls'[1..]);
    }
  }

  lemma FirstLineLength(ls: seq<bytes>, ls': seq<bytes>)
    requires ls != [] && ls' != [] && IsText(ls) && IsText(ls') && Flatten(ls) == Flatten(ls')
    ensures |ls[0]| <= |ls'[0]|
  {
    var d, n := Flatten(ls), |ls'[0]|;
    assert IsLine(ls[0]) && IsLine(ls'[0]);
    if |ls'| == 1 {
      assert ls'[1..] == [];
    } else {
      assert EndsLine(ls'[0]) && d[n - 1] == NL;
    }
  }

  /** Two texts next to each other keep their lines exactly when the first is empty or terminated, or the
      second is empty. */
  lemma LinesConcatExactly(a: bytes, b: bytes)
    ensures Lines(a + b) == Lines(a) + Lines(b) <==> a == [] || b == [] || EndsLine(a)
  {
    LinesAreText(a);
    LinesAreText(b);
    LinesAreText(a + b);
    FlattenConcat(Lines(a), Lines(b));
    var ls := Lines(a) + Lines(b);
    if a == [] || b == [] || EndsLine(a) {
      forall i | 0 <= i < |ls| - 1 ensures EndsLine(ls[i]) {
        if i == |Lines(a)| - 1 {
          assert ls[i] == Lines(a)[i];
        }
      }
      TextIsUnique(Lines(a + b), ls);
    } else {
      assert ls[|Lines(a)| - 1] == Lines(a)[|Lines(a)| - 1];
      assert !EndsLine(ls[|Lines(a)| - 1]);
    }
  }

  predicate StartsAt(d: bytes, p: nat) {
    p < |d| && (p == 0 || d[p - 1] == NL)
  }

  /** The index holds exactly the offsets where a line starts. */
  lemma {:induction false} StartsExactly(d: bytes)
    ensures forall p: nat :: p in Starts(d) <==> StartsAt(d, p)
    decreases |d|
  {
    if d != [] {
      var k := |d| - 1;
      StartsExactly(d[..k]);
      forall p: nat ensures p in Starts(d) <==> StartsAt(d, p) {
        assert p in Starts(d[..k]) <==> StartsAt(d[..k], p);
      }
    }
  }

  /** The index is strictly increasing. */
  lemma {:induction false} StartsIncrease(d: bytes)
    ensures forall i, j :: 0 <= i < j < |Starts(d)| ==> Starts(d)[i] < Starts(d)[j]
    decreases |d|
  {
    if d != [] {
      var k := |d| - 1;
      var s := Starts(d[..k]);
      StartsIncrease(d[..k]);
      StartsExactly(d[..k]);
      forall i | 0 <= i < |s| ensures s[i] < k {
        assert s[i] in s && StartsAt(d[..k], s[i]);
      }
    }
  }

  /** The two line splitters agree: line k starts where the lines before it end. */
  lemma {:induction false} StartsOfLines(d: bytes)
    ensures |Starts(d)| == |Lines(d)|
    ensures forall k :: 0 <= k < |Starts(d)| ==> Starts(d)[k] == |Flatten(Lines(d)[..k])|
    decreases |d|
  {
    if d != [] {
      var n := |d| - 1;
      var ls, ls' := Lines(d[..n]), Lines(d);
      StartsOfLines(d[..n]);
      LinesAreText(d[..n]);
      forall k | 0 <= k < |Starts(d)| ensures Starts(d)[k] == |Flatten(ls'[..k])| {
        if k < |ls| {
          assert ls'[..k] == ls[..k];
        } else {
          assert ls'[..k] == ls;
        }
      }
    }
  }

  /** The lines after one more byte: it starts a line of its own or goes on with the last one. */
  lemma LinesOfSnoc(d: bytes, x: byte)
    ensures d == [] || EndsLine(d) ==> Lines(d + [x]) == Lines(d) + [[x]]
    ensures d != [] && !EndsLine(d) ==>
              Lines(d + [x]) == Lines(d)[..|Lines(d)| - 1] + [Lines(d)[|Lines(d)| - 1] + [x]]
  {
    assert (d + [x])[..|d|] == d;
  }

  lemma SliceSnoc(n: bytes, pos: nat, i: nat)
    requires pos <= i < |n|
    ensures n[pos..i + 1] == n[pos..i] + [n[i]]
  {
  }

  lemma LinesSnoc(n: bytes, i: nat, data: seq<bytes>, pos: nat)
    requires i < |n| && pos <= i
    requires if pos == i then Lines(n[..i]) == data && (i == 0 || n[i - 1] == NL)
             else Lines(n[..i]) == data + [n[pos..i]] && n[i - 1] != NL
    ensures Lines(n[..i + 1]) == data + [n[pos..i + 1]]
  {
    SliceSnoc(n, 0, i);
    SliceSnoc(n, pos, i);
    LinesOfSnoc(n[..i], n[i]);
    assert n[..i + 1] == n[..i] + [n[i]];
    assert n[i..i] == [] && [] + [n[i]] == [n[i]];
  }

  /** The first loop that splits a text, with its flag for a newline just seen. */
  method MakeLines(n: bytes) returns (data: seq<bytes>)
    ensures data == Lines(n)
  {
    data := [];
    if |n| == 0 {
      return;
    }
    var sawnl, pos := false, 0;
    for i := 0 to |n|
      invariant 0 <= pos <= i
      invariant i == 0 ==> data == [] && !sawnl
      invariant i > 0 ==> pos < i && Lines(n[..i]) == data + [n[pos..i]] && (sawnl <==> n[i - 1] == NL)
    {
      if sawnl {
        sawnl := false;
        data := data + [n[pos..i]];
        pos := i;
      }
      if n[i] == NL {
        sawnl := true;
      }
      LinesSnoc(n, i, data, pos);
    }
    assert n[..|n|] == n;
    data := data + [n[pos..]];
  }

  // ---------------------------------------------------------------------------------------------
  // The buffer.
  // ---------------------------------------------------------------------------------------------

  /** One match of a pattern in a line: the bytes from `from` up to `to`. */
  datatype Span = Span(from: nat, to: nat)

  /** Matches come in order and do not overlap. */
  predicate GoodSpans(line: bytes, spans: seq<Span>) {
    && (forall i :: 0 <= i < |spans| ==> spans[i].from <= spans[i].to <= |line|)
    && (forall i :: 0 <= i < |spans| - 1 ==> spans[i].to <= spans[i + 1].from)
  }

  /** A pattern as `regexp.Compile` sees it, and as a function that lists the matches in a line. */
  datatype Pattern = Empty | Invalid | Find(find: bytes -> seq<Span>)

  ghost predicate GoodPattern(p: Pattern) {
    p.Find? ==> forall line :: GoodSpans(line, p.find(line))
  }

  /** The line from `at` on, with every match passed to the callback; `replaced` is its flag. */
  function SubFrom(line: bytes, spans: seq<Span>, n: bytes, g: bool, at: nat, replaced: bool): bytes
    requires GoodSpans(line, spans) && at <= |line| && (spans != [] ==> at <= spans[0].from)
    decreases |spans|
  {
    if spans == [] then line[at..]
    else
      var s := spans[0];
      line[at..s.from] + (if g || !replaced then n else line[s.from..s.to])
      + SubFrom(line, spans[1..], n, g, s.to, true)
  }

  lemma SubStep(line: bytes, spans: seq<Span>, n: bytes, g: bool, i: nat, at: nat, replaced: bool, out: bytes)
    requires GoodSpans(line, spans) && i < |spans| && at <= spans[i].from
    ensures var s := spans[i];
            out + SubFrom(line, spans[i..], n, g, at, replaced)
            == out + line[at..s.from] + (if g || !replaced then n else line[s.from..s.to])
               + SubFrom(line, spans[i + 1..], n, g, s.to, true)
  {
    assert spans[i..][1..] == spans[i + 1..];
  }

  function SubLine(p: Pattern, n: bytes, g: bool, line: bytes): bytes
    requires p.Find? && GoodSpans(line, p.find(line))
  {
    SubFrom(line, p.find(line), n, g, 0, false)
  }

  /** The line rebuilt from the gaps between the matches and one replacement for each match. */
  function Weave(line: bytes, spans: seq<Span>, subst: seq<bytes>, at: nat): bytes
    requires GoodSpans(line, spans) && |subst| == |spans| && at <= |line| && (spans != [] ==> at <= spans[0].from)
    decreases |spans|
  {
    if spans == [] then line[at..]
    else line[at..spans[0].from] + subst[0] + Weave(line, spans[1..], subst[1..], spans[0].to)
  }

  function Matched(line: bytes, spans: seq<Span>): seq<bytes>
    requires GoodSpans(line, spans)
  {
    seq(|spans|, i requires 0 <= i < |spans| => line[spans[i].from..spans[i].to])
  }

  /** With `g` every match is replaced, without it the first of the line; the gaps stay as they are. */
  lemma SubLineMeans(p: Pattern, n: bytes, g: bool, line: bytes)
    requires p.Find? && GoodSpans(line, p.find(line))
    ensures var spans := p.find(line);
            var all := seq(|spans|, i => n);
            var first := seq(|spans|, i requires 0 <= i < |spans| => if i == 0 then n else Matched(line, spans)[i]);
            SubLine(p, n, g, line) == Weave(line, spans, if g then all else first, 0)
    ensures p.find(line) == [] ==> SubLine(p, n, g, line) == line
  {
    var spans := p.find(line);
    var all := seq(|spans|, i => n);
    var first := seq(|spans|, i requires 0 <= i < |spans| => if i == 0 then n else Matched(line, spans)[i]);
    if g {
      SubAll(line, spans, n, 0, false);
    } else if spans != [] {
      SubRest(line, spans[1..], n, spans[0].to);
      var rest := Matched(line, spans[1..]);
      forall i | 0 <= i < |rest| ensures first[1..][i] == rest[i] {
        assert first[1..][i] == first[i + 1] == Matched(line, spans)[i + 1];
      }
      assert first[1..] == rest;
    }
  }

  lemma {:induction false} SubAll(line: bytes, spans: seq<Span>, n: bytes, at: nat, replaced: bool)
    requires GoodSpans(line, spans) && at <= |line| && (spans != [] ==> at <= spans[0].from)
    ensures SubFrom(line, spans, n, true, at, replaced) == Weave(line, spans, seq(|spans|, i => n), at)
    decreases |spans|
  {
    if spans != [] {
      SubAll(line, spans[1..], n, spans[0].to, true);
      assert seq(|spans|, i => n)[1..] == seq(|spans[1..]|, i => n);
    }
  }

  /** After the first replacement the callback returns every match as it is. */
  lemma {:induction false} SubRest(line: bytes, spans: seq<Span>, n: bytes, at: nat)
    requires GoodSpans(line, spans) && at <= |line| && (spans != [] ==> at <= spans[0].from)
    ensures SubFrom(line, spans, n, false, at, true) == Weave(line, spans, Matched(line, spans), at)
    decreases |spans|
  {
    if spans != [] {
      SubRest(line, spans[1..], n, spans[0].to);
      assert Matched(line, spans)[1..] == Matched(line, spans[1..]);
    }
  }

  function SubLines(p: Pattern, n: bytes, g: bool, ls: seq<bytes>): seq<bytes>
    requires p.Find? && forall i :: 0 <= i < |ls| ==> GoodSpans(ls[i], p.find(ls[i]))
  {
    seq(|ls|, i requires 0 <= i < |ls| => SubLine(p, n, g, ls[i]))
  }

  predicate AnyMatch(p: Pattern, ls: seq<bytes>)
    requires p.Find?
  {
    exists i :: 0 <= i < |ls| && p.find(ls[i]) != []
  }

  /** The number of lines before the slice. */
  function FirstLine(d: bytes, startLine: nat): (k: nat)
    ensures k <= |Lines(d)|
  {
    Min(Max(startLine - 1, 0), |Lines(d)|)
  }

  /** The number of lines up to the end of the slice.  An end line that is the last one means the end of
      the text, although the slice is described as half open. */
  function LastLine(d: bytes, startLine: nat, endLine: int): (k: nat)
    ensures FirstLine(d, startLine) <= k <= |Lines(d)|
  {
    var n := |Lines(d)|;
    if startLine > n then n
    else if endLine <= startLine then FirstLine(d, startLine)
    else if endLine >= n then n else endLine - 1
  }

  /** The text of the lines from the j-th up to but not including the k-th, counted from 0. */
  function Part(d: bytes, j: nat, k: nat): bytes
    requires j <= k <= |Lines(d)|
  {
    Flatten(Lines(d)[j..k])
  }

  /** Cutting a text at line boundaries. */
  lemma Cut(d: bytes, j: nat, k: nat)
    requires j <= k <= |Lines(d)|
    ensures d == Part(d, 0, j) + Part(d, j, k) + Part(d, k, |Lines(d)|)
    ensures Part(d, 0, k) == Part(d, 0, j) + Part(d, j, k)
  {
    var ls := Lines(d);
    LinesFlatten(d);
    assert ls == ls[0..j] + ls[j..k] + ls[k..|ls|] && ls[0..k] == ls[0..j] + ls[j..k];
    FlattenConcat(ls[0..j], ls[j..k]);
    FlattenConcat(ls[0..j] + ls[j..k], ls[k..|ls|]);
  }

  /** Whole lines cut out of a text are the lines of what was cut out. */
  lemma LinesOfPart(d: bytes, j: nat, k: nat)
    requires j <= k <= |Lines(d)|
    ensures Lines(Part(d, j, k)) == Lines(d)[j..k]
  {
    LinesAreText(d);
    LinesAreText(Part(d, j, k));
    TextIsUnique(Lines(Part(d, j, k)), Lines(d)[j..k]);
  }

  lemma PartGrows(d: bytes, j: nat, k: nat)
    requires j <= k < |Lines(d)|
    ensures |Part(d, j, k)| < |Part(d, j, k + 1)|
  {
    var ls := Lines(d);
    LinesAreText(d);
    assert ls[j..k + 1] == ls[j..k] + [ls[k]];
    FlattenSnoc(ls[j..k], ls[k]);
  }

  /** The documented reading, that the lines from `startLine` up to but not including `endLine` are cut out, holds
      except when the end line is the last line of the text and lies behind the start line: then that line is
      cut out as well. */
  lemma HalfOpenExactly(d: bytes, startLine: nat, endLine: nat)
    requires 1 <= startLine <= endLine <= |Lines(d)| + 1
    ensures Part(d, FirstLine(d, startLine), LastLine(d, startLine, endLine)) == Part(d, startLine - 1, endLine - 1)
            <==> !(startLine < endLine == |Lines(d)|)
  {
    if startLine < endLine == |Lines(d)| {
      PartGrows(d, startLine - 1, endLine - 1);
    }
  }

  lemma TwoLines()
    ensures |Lines([97, 10, 98, 10])| == 2
  {
    var d: bytes := [97, 10, 98, 10];
    assert d[..3] == [97, 10, 98] && d[..3][..2] == [97, 10] && d[..3][..2][..1] == [97];
    StartsOfLines(d);
    assert Starts([97, 10]) == [0] by {
      assert [97, 10][..1] == [97 as byte];
    }
  }

  lemma WholePart(d: bytes)
    ensures Part(d, 0, |Lines(d)|) == d
  {
    LinesAreText(d);
    assert Lines(d)[0..|Lines(d)|] == Lines(d);
  }

  /** In a text of two lines the range from 1 up to 2 is the whole text. */
  lemma HalfOpenFails()
    ensures var d: bytes := [97, 10, 98, 10];
            |Lines(d)| == 2 && Part(d, FirstLine(d, 1), LastLine(d, 1, 2)) == d != Part(d, 0, 1)
  {
    var d: bytes := [97, 10, 98, 10];
    TwoLines();
    WholePart(d);
    PartGrows(d, 0, 1);
  }

  /** The text after a splice has the old lines around the new ones exactly when neither the text before
      nor the new text runs into what follows. */
  lemma SpliceLinesExactly(d: bytes, n: bytes, i: nat, j: nat)
    requires i <= j <= |Lines(d)|
    ensures var ls := Lines(d);
            Lines(Part(d, 0, i) + n + Part(d, j, |ls|)) == ls[..i] + Lines(n) + ls[j..]
            <==> (i < |ls| || d == [] || EndsLine(d) || n == []) && (n == [] || EndsLine(n) || j == |ls|)
  {
    var ls := Lines(d);
    var text := Part(d, 0, i) + n + Part(d, j, |ls|);
    var rhs := ls[..i] + Lines(n) + ls[j..];
    assert ls[..i] == ls[0..i] && ls[j..] == ls[j..|ls|];
    LinesAreText(n);
    FlattenConcat(ls[..i], Lines(n));
    FlattenConcat(ls[..i] + Lines(n), ls[j..]);
    LinesAreText(text);
    if IsText(rhs) {
      TextIsUnique(Lines(text), rhs);
    }
    SplicedIsText(d, n, i, j);
  }

  /** Text put behind an unterminated line continues that line. */
  lemma SpliceFails()
    ensures var d, n: bytes := [97], [98];
            |Lines(d)| == 1 && Lines(Part(d, 0, 1) + n + Part(d, 1, 1)) != Lines(d)[..1] + Lines(n) + Lines(d)[1..]
  {
    var d, n: bytes := [97], [98];
    assert d[..0] == [];
    SpliceLinesExactly(d, n, 1, 1);
  }

  lemma TextJoin(a: seq<bytes>, b: seq<bytes>)
    requires IsText(a) && IsText(b)
    ensures IsText(a + b) <==> a == [] || b == [] || EndsLine(a[|a| - 1])
  {
    if IsText(a + b) && a != [] && b != [] {
      assert (a + b)[|a| - 1] == a[|a| - 1];
    }
  }

  lemma TextParts(a: seq<bytes>, b: seq<bytes>)
    requires IsText(a + b)
    ensures IsText(a)
  {
    assert forall i :: 0 <= i < |a| ==> (a + b)[i] == a[i];
  }

  lemma TextSlice(ls: seq<bytes>, i: nat, j: nat)
    requires IsText(ls) && i <= j <= |ls|
    ensures IsText(ls[i..j])
  {
    assert forall k :: 0 <= k < j - i ==> ls[i..j][k] == ls[i + k];
  }

  /** The lines before a splice run into what follows only at the end of an unterminated text. */
  lemma HeadEndsLine(d: bytes, i: nat)
    requires i <= |Lines(d)|
    ensures IsText(Lines(d)[..i])
    ensures i > 0 ==> (EndsLine(Lines(d)[..i][i - 1]) <==> i < |Lines(d)| || EndsLine(d))
  {
    LinesAreText(d);
    TextSlice(Lines(d), 0, i);
    assert Lines(d)[0..i] == Lines(d)[..i];
  }

  /** Three texts in a row; the middle one is not empty. */
  lemma TextJoin3(a: seq<bytes>, m: seq<bytes>, b: seq<bytes>)
    requires IsText(a) && IsText(m) && IsText(b) && m != []
    ensures IsText(a + m + b) <==> (a == [] || EndsLine(a[|a| - 1])) && (b == [] || EndsLine(m[|m| - 1]))
  {
    TextJoin(a, m);
    if IsText(a + m) {
      TextJoin(a + m, b);
      assert (a + m)[|a + m| - 1] == m[|m| - 1];
    } else if IsText(a + m + b) {
      TextParts(a + m, b);
    }
  }

  lemma TailIsText(d: bytes, j: nat)
    requires j <= |Lines(d)|
    ensures IsText(Lines(d)[j..])
  {
    LinesAreText(d);
    TextSlice(Lines(d), j, |Lines(d)|);
    assert Lines(d)[j..|Lines(d)|] == Lines(d)[j..];
  }

  /** Taking lines out leaves a text. */
  lemma CutIsText(d: bytes, i: nat, j: nat)
    requires i <= j <= |Lines(d)|
    ensures IsText(Lines(d)[..i] + Lines(d)[j..])
  {
    HeadEndsLine(d, i);
    TailIsText(d, j);
    TextJoin(Lines(d)[..i], Lines(d)[j..]);
  }

  /** Nothing stands before line i, or it ends in a newline. */
  predicate EndsBefore(ls: seq<bytes>) {
    ls == [] || EndsLine(ls[|ls| - 1])
  }

  lemma HeadFits(d: bytes, i: nat)
    requires i <= |Lines(d)|
    ensures EndsBefore(Lines(d)[..i]) <==> i < |Lines(d)| || d == [] || EndsLine(d)
  {
    HeadEndsLine(d, i);
  }

  lemma AllFits(n: bytes)
    requires n != []
    ensures EndsBefore(Lines(n)) <==> EndsLine(n)
  {
    LinesAreText(n);
  }

  lemma InsertedIsText(a: seq<bytes>, m: seq<bytes>, b: seq<bytes>)
    requires IsText(a) && IsText(m) && IsText(b) && m != []
    ensures IsText(a + m + b) <==> EndsBefore(a) && (b == [] || EndsBefore(m))
  {
    TextJoin3(a, m, b);
  }

  lemma SplicedIsText(d: bytes, n: bytes, i: nat, j: nat)
    requires i <= j <= |Lines(d)|
    ensures var ls := Lines(d);
            IsText(ls[..i] + Lines(n) + ls[j..])
            <==> (i < |ls| || d == [] || EndsLine(d) || n == []) && (n == [] || EndsLine(n) || j == |ls|)
  {
    if n == [] {
      RemovedIsText(d, i, j);
    } else {
      ReplacedIsText(d, n, i, j);
    }
  }

  lemma RemovedIsText(d: bytes, i: nat, j: nat)
    requires i <= j <= |Lines(d)|
    ensures IsText(Lines(d)[..i] + Lines([]) + Lines(d)[j..])
  {
    CutIsText(d, i, j);
    assert Lines(d)[..i] + [] + Lines(d)[j..] == Lines(d)[..i] + Lines(d)[j..];
  }

  lemma ReplacedIsText(d: bytes, n: bytes, i: nat, j: nat)
    requires i <= j <= |Lines(d)| && n != []
    ensures IsText(Lines(d)[..i] + Lines(n) + Lines(d)[j..])
            <==> (i < |Lines(d)| || d == [] || EndsLine(d)) && (EndsLine(n) || j == |Lines(d)|)
  {
    HeadEndsLine(d, i);
    TailIsText(d, j);
    LinesAreText(n);
    HeadFits(d, i);
    AllFits(n);
    InsertedIsText(Lines(d)[..i], Lines(n), Lines(d)[j..]);
  }

  /** The current line, brought inside the text; an empty text leaves it alone. */
  function Clamped(dot: int, data: bytes): int {
    if data == [] then dot else Max(1, Min(dot, |Lines(data)|))
  }

  class TextFile {
    var dot: int
    var dirty: bool
    var lines: seq<nat>
    var data: bytes

    /** The cached index is the index of the text. */
    ghost predicate Valid()
      reads this
    {
      lines == Starts(data)
    }

    constructor ()
      ensures Valid() && data == [] && dot == 1 && !dirty
    {
      dot, dirty, lines, data := 1, false, [], [];
    }

    /** The second loop that splits a text. */
    method FixLines()
      modifies `lines, `dot
      ensures Valid() && dot == Clamped(old(dot), data)
    {
      lines := [];
      if |data| == 0 {
        return;
      }
      lines := [0];
      var n := 1;
      var sawnl := false;
      for i := 0 to |data|
        invariant n == |lines| >= 1 && dot == old(dot)
        invariant i == 0 ==> lines == [0] && !sawnl
        invariant i > 0 ==> lines == Starts(data[..i]) && (sawnl <==> data[i - 1] == NL)
      {
        assert data[..i + 1][..i] == data[..i];
        if sawnl {
          n := n + 1;
          lines := lines + [i];
          sawnl := false;
        }
        if data[i] == NL {
          sawnl := true;
        }
      }
      assert data[..|data|] == data;
      StartsOfLines(data);
      if dot < 1 {
        dot := 1;
      }
      if dot > n {
        dot := n;
      }
    }

    /** The slice consists of whole lines, in order and in bounds. */
    method SliceX(startLine: nat, endLine: int) returns (start: nat, end: nat)
      requires Valid()
      ensures start <= end <= |data|
      ensures data[..start] == Part(data, 0, FirstLine(data, startLine))
      ensures data[start..end] == Part(data, FirstLine(data, startLine), LastLine(data, startLine, endLine))
      ensures data[end..] == Part(data, LastLine(data, startLine, endLine), |Lines(data)|)
    {
      start, end := SliceOffsets(startLine, endLine);
      Cut(data, FirstLine(data, startLine), LastLine(data, startLine, endLine));
    }

    method SliceOffsets(startLine: nat, endLine: int) returns (start: nat, end: nat)
      requires Valid()
      ensures start == |Part(data, 0, FirstLine(data, startLine))|
      ensures end == |Part(data, 0, LastLine(data, startLine, endLine))|
    {
      ghost var ls := Lines(data);
      StartsOfLines(data);
      LinesFlatten(data);
      assert ls[0..|ls|] == ls && forall k :: 0 <= k <= |ls| ==> ls[0..k] == ls[..k];
      if startLine > |lines| {
        return |data|, |data|;
      }
      start := 0;
      if startLine > 0 {
        start := lines[startLine - 1];
      }
      end := start;
      var last := endLine;
      if last < startLine {
        last := startLine;
      }
      if last != startLine {
        if last >= |lines| {
          return start, |data|;
        }
        end := lines[last - 1];
      }
    }

    /** Splices `n` in place of the slice; everything outside it stays. */
    method Replace(n: bytes, startLine: nat, endLine: int) returns (count: nat)
      requires Valid()
      modifies this
      ensures Valid() && count == |n| && dirty == old(dirty) && dot == Clamped(old(dot), data)
      ensures data == Part(old(data), 0, FirstLine(old(data), startLine)) + n
                      + Part(old(data), LastLine(old(data), startLine, endLine), |Lines(old(data))|)
    {
      var start, end := SliceX(startLine, endLine);
      data := data[..start] + n + data[end..];
      FixLines();
      count := |n|;
    }

    /** Text is read in at the point after `startLine`.  It takes the place of the lines from there up to
        `endLine`, if there are any. */
    method Read(d: bytes, startLine: nat, endLine: int) returns (count: nat)
      requires Valid()
      modifies this
      ensures Valid() && count == |d| && dirty == old(dirty) && dot == Clamped(old(dot), data)
      ensures data == Part(old(data), 0, FirstLine(old(data), startLine + 1)) + d
                      + Part(old(data), LastLine(old(data), startLine + 1, endLine), |Lines(old(data))|)
      ensures endLine <= startLine + 1 || startLine >= |Lines(old(data))| ==>
                var k := Min(startLine, |Lines(old(data))|);
                data == Part(old(data), 0, k) + d + Part(old(data), k, |Lines(old(data))|)
    {
      count := Replace(d, startLine + 1, endLine);
    }

    method Write(startLine: int, endLine: int) returns (out: Option<bytes>)
      requires Valid()
      ensures out.None? <==> endLine < startLine || startLine < 1 || endLine > |Lines(data)| + 1
      ensures out.Some? ==> out.value == Part(data, FirstLine(data, startLine), LastLine(data, startLine, endLine))
    {
      StartsOfLines(data);
      if endLine < startLine || startLine < 1 || endLine > |lines| + 1 {
        return None;
      }
      var start, end := SliceX(startLine, endLine);
      out := Some(data[start..end]);
    }

    /** `ReplaceAllFunc` with the callback of `Sub` and its flag. */
    method ReplaceMatches(line: bytes, spans: seq<Span>, n: bytes, g: bool) returns (out: bytes)
      requires GoodSpans(line, spans)
      modifies `dirty
      ensures out == SubFrom(line, spans, n, g, 0, false)
      ensures dirty == (old(dirty) || spans != [])
    {
      out := [];
      var replaced := false;
      var at: nat := 0;
      for i := 0 to |spans|
        invariant at <= |line| && (i < |spans| ==> at <= spans[i].from) && (replaced <==> i > 0)
        invariant SubFrom(line, spans, n, g, 0, false) == out + SubFrom(line, spans[i..], n, g, at, replaced)
        invariant dirty == (old(dirty) || i > 0)
      {
        SubStep(line, spans, n, g, i, at, replaced, out);
        var o := line[spans[i].from..spans[i].to];
        out := out + line[at..spans[i].from];
        if g || !replaced {
          dirty := true;
          replaced := true;
          out := out + n;
        } else {
          out := out + o;
        }
        at := spans[i].to;
      }
      out := out + line[at..];
    }

    /** The loop of `Sub` over the lines of the slice. */
    method ReplaceLines(re: Pattern, n: bytes, g: bool, b: seq<bytes>) returns (subs: seq<bytes>)
      requires re.Find? && GoodPattern(re)
      modifies `dirty
      ensures subs == SubLines(re, n, g, b)
      ensures dirty == (old(dirty) || AnyMatch(re, b))
    {
      subs := [];
      for i := 0 to |b|
        invariant subs == SubLines(re, n, g, b[..i])
        invariant dirty == (old(dirty) || AnyMatch(re, b[..i]))
      {
        var line := ReplaceMatches(b[i], re.find(b[i]), n, g);
        subs := subs + [line];
        MatchSnoc(re, b, i);
      }
      assert b[..|b|] == b;
    }

    /** Substitution line by line in the slice: every match with `g`, else the first of each line. */
    method Sub(re: Pattern, n: bytes, g: bool, startLine: nat, endLine: int) returns (ok: bool)
      requires Valid() && GoodPattern(re)
      modifies this
      ensures Valid() && (ok <==> re.Find?)
      ensures !ok ==> data == old(data) && dirty == old(dirty) && dot == old(dot)
      ensures ok ==>
                var i, j := FirstLine(old(data), startLine), LastLine(old(data), startLine, endLine);
                var ls := Lines(old(data));
                && data == Part(old(data), 0, i) + Flatten(SubLines(re, n, g, ls[i..j])) + Part(old(data), j, |ls|)
                && dirty == (old(dirty) || AnyMatch(re, ls[i..j]))
                && dot == (if i == j then old(dot) else Clamped(old(dot), data))
    {
      if !re.Find? {
        return false;
      }
      var start, end := SliceX(startLine, endLine);
      LinesOfPart(data, FirstLine(data, startLine), LastLine(data, startLine, endLine));
      var b := MakeLines(data[start..end]);
      ok := true;
      if |b| == 0 {
        Cut(data, FirstLine(data, startLine), LastLine(data, startLine, endLine));
        return;
      }
      var subs := ReplaceLines(re, n, g, b);
      var repl := Paste(data[..start], subs);
      data := repl + data[end..];
      FixLines();
    }
  }

  /** The loop of `Sub` that puts the lines back together. */
  method Paste(pre: bytes, subs: seq<bytes>) returns (repl: bytes)
    ensures repl == pre + Flatten(subs)
  {
    repl := pre;
    for i := 0 to |subs|
      invariant repl == pre + Flatten(subs[..i])
    {
      FlattenSnoc(subs[..i], subs[i]);
      assert subs[..i + 1] == subs[..i] + [subs[i]];
      repl := repl + subs[i];
    }
    assert subs[..|subs|] == subs;
  }

  /** A substitution that finds nothing changes nothing. */
  lemma NoMatchNoChange(re: Pattern, n: bytes, g: bool, d: bytes, i: nat, j: nat)
    requires re.Find? && GoodPattern(re) && i <= j <= |Lines(d)| && !AnyMatch(re, Lines(d)[i..j])
    ensures Part(d, 0, i) + Flatten(SubLines(re, n, g, Lines(d)[i..j])) + Part(d, j, |Lines(d)|) == d
  {
    var ls := Lines(d)[i..j];
    forall k | 0 <= k < |ls| ensures SubLines(re, n, g, ls)[k] == ls[k] {
      SubLineMeans(re, n, g, ls[k]);
    }
    assert SubLines(re, n, g, ls) == ls;
    Cut(d, i, j);
  }

  lemma MatchSnoc(re: Pattern, b: seq<bytes>, i: nat)
    requires re.Find? && GoodPattern(re) && i < |b|
    ensures AnyMatch(re, b[..i + 1]) <==> AnyMatch(re, b[..i]) || re.find(b[i]) != []
    ensures b[..i + 1] == b[..i] + [b[i]]
  {
    if AnyMatch(re, b[..i]) {
      var k :| 0 <= k < i && re.find(b[..i][k]) != [];
      assert re.find(b[..i + 1][k]) != [];
    }
    if re.find(b[i]) != [] {
      assert re.find(b[..i + 1][i]) != [];
    }
  }
}
