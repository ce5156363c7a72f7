/** comm (cmds/comm/comm.go) from file to file: the lines it reads and the rows it prints. */
module CommFiles {
  import opened Common
  import opened Comm

  const NEWLINE: byte := 10
  const RETURN: byte := 13
  const TAB: byte := 9

  // ---------------------------------------------------------------------------------------------
  // Reading a file.
  // ---------------------------------------------------------------------------------------------

  /** Without the carriage returns and newlines at the end. */
  function Trim(s: bytes): bytes {
    if s != [] && (s[|s| - 1] == NEWLINE || s[|s| - 1] == RETURN) then Trim(s[..|s| - 1]) else s
  }

  function FirstNewline(p: bytes): (k: nat)
    ensures k <= |p|
  {
    if p == [] || p[0] == NEWLINE then 0 else 1 + FirstNewline(p[1..])
  }

  lemma {:induction false} NewlineAt(line: bytes, rest: bytes)
    requires NEWLINE !in line && (rest == [] || rest[0] == NEWLINE)
    ensures FirstNewline(line + rest) == |line|
    decreases |line|
  {
    if line == [] {
      assert line + rest == rest;
    } else {
      assert (line + rest)[1..] == line[1..] + rest;
      NewlineAt(line[1..], rest);
    }
  }

  function LinesOf(data: bytes): seq<bytes>
    decreases |data|
  {
    var k := FirstNewline(data);
    if k == |data| then [Trim(data)] else [Trim(data[..k + 1])] + LinesOf(data[k + 1..])
  }

  method Reader(data: bytes) returns (c: seq<bytes>)
    ensures c == LinesOf(data)
  {
    c := [];
    var rest := data;
    while true
      invariant c + LinesOf(rest) == LinesOf(data)
      decreases |rest|
    {
      var k := FirstNewline(rest);
      if k == |rest| {
        c := c + [Trim(rest)];
        break;
      }
      c := c + [Trim(rest[..k + 1])];
      rest := rest[k + 1..];
    }
  }

  /** The text of a file with these lines, each ended by a newline. */
  function Text(ls: seq<bytes>): bytes {
    if ls == [] then [] else ls[0] + ([NEWLINE] + Text(ls[1..]))
  }

  /** Lines of a file; the reader takes the carriage returns at their ends off. */
  predicate AllLines(ls: seq<bytes>) {
    forall i :: 0 <= i < |ls| ==> NEWLINE !in ls[i]
  }

  function Trims(ls: seq<bytes>): seq<bytes> {
    seq(|ls|, i requires 0 <= i < |ls| => Trim(ls[i]))
  }

  lemma {:induction false} NoNewlineUntil(p: bytes)
    requires NEWLINE !in p
    ensures FirstNewline(p) == |p|
    decreases |p|
  {
    if p != [] {
      NoNewlineUntil(p[1..]);
    }
  }

  lemma TrimNewline(line: bytes)
    ensures Trim(line + [NEWLINE]) == Trim(line)
  {
    assert (line + [NEWLINE])[..|line|] == line;
  }

  lemma LinesOfFirst(line: bytes, rest: bytes)
    requires NEWLINE !in line
    ensures LinesOf(line + ([NEWLINE] + rest)) == [Trim(line)] + LinesOf(rest)
  {
    var data := line + ([NEWLINE] + rest);
    NewlineAt(line, [NEWLINE] + rest);
    assert data[..|line| + 1] == line + [NEWLINE] && data[|line| + 1..] == rest;
    TrimNewline(line);
  }

  lemma TextFirst(ls: seq<bytes>, last: bytes)
    requires ls != []
    ensures Text(ls) + last == ls[0] + ([NEWLINE] + (Text(ls[1..]) + last))
  {
  }

  lemma TrimsFirst(ls: seq<bytes>, x: bytes)
    requires ls != []
    ensures Trims(ls) + [x] == [Trim(ls[0])] + (Trims(ls[1..]) + [x])
  {
  }

  /** Every file is read as its lines, trimmed, and then what follows the last newline, which may be nothing. */
  lemma {:induction false} ReadsLines(ls: seq<bytes>, last: bytes)
    requires AllLines(ls) && NEWLINE !in last
    ensures LinesOf(Text(ls) + last) == Trims(ls) + [Trim(last)]
    decreases |ls|
  {
    if ls == [] {
      assert [] + last == last;
      NoNewlineUntil(last);
    } else {
      ReadsLines(ls[1..], last);
      LinesOfFirst(ls[0], Text(ls[1..]) + last);
      TextFirst(ls, last);
      TrimsFirst(ls, Trim(last));
    }
  }

  lemma NewlineSplit(data: bytes)
    ensures var k := FirstNewline(data);
            NEWLINE !in data[..k] && (k < |data| ==> data[k] == NEWLINE)
  {
    if data != [] && data[0] != NEWLINE {
      NewlineSplit(data[1..]);
      var k := FirstNewline(data);
      assert data[..k] == [data[0]] + data[1..][..k - 1];
    }
  }

  /** Every file has such a division into lines. */
  lemma {:induction false} FileHasLines(data: bytes) returns (ls: seq<bytes>, last: bytes)
    ensures AllLines(ls) && NEWLINE !in last && data == Text(ls) + last
    decreases |data|
  {
    var k := FirstNewline(data);
    NewlineSplit(data);
    if k == |data| {
      ls, last := [], data;
    } else {
      ls, last := FileHasLines(data[k + 1..]);
      assert data == data[..k] + ([NEWLINE] + data[k + 1..]);
      ls := [data[..k]] + ls;
      TextFirst(ls, last);
    }
  }

  // ---------------------------------------------------------------------------------------------
  // Printing.
  // ---------------------------------------------------------------------------------------------

  datatype Hide = Hide(one: bool, two: bool, three: bool)

  function TrimTabs(s: bytes): bytes {
    if s != [] && s[|s| - 1] == TAB then TrimTabs(s[..|s| - 1]) else s
  }

  function Raw(o: Out, h: Hide): bytes {
    (if h.one then [] else o.s1) + [TAB] + (if h.two then [] else o.s2) + [TAB] + (if h.three then [] else o.s3)
  }

  function Rows(os: seq<Out>, h: Hide): seq<bytes> {
    if os == [] then []
    else (if Raw(os[0], h) == [TAB, TAB] then [] else [TrimTabs(Raw(os[0], h))]) + Rows(os[1..], h)
  }

  lemma RowsAt(rows: seq<bytes>, os: seq<Out>, i: nat, h: Hide)
    requires i < |os|
    ensures var here := if Raw(os[i], h) == [TAB, TAB] then [] else [TrimTabs(Raw(os[i], h))];
            rows + Rows(os[i..], h) == (rows + here) + Rows(os[i + 1..], h)
  {
    assert os[i..][0] == os[i] && os[i..][1..] == os[i + 1..];
  }

  method Line(out: Out, h: Hide) returns (line: bytes)
    ensures line == Raw(out, h)
  {
    line := [];
    if !h.one {
      line := line + out.s1;
    }
    line := line + [TAB];
    if !h.two {
      line := line + out.s2;
    }
    line := line + [TAB];
    if !h.three {
      line := line + out.s3;
    }
  }

  method Print(os: seq<Out>, h: Hide) returns (rows: seq<bytes>)
    ensures rows == Rows(os, h)
  {
    rows := [];
    assert os[0..] == os;
    for i := 0 to |os|
      invariant rows + Rows(os[i..], h) == Rows(os, h)
    {
      RowsAt(rows, os, i, h);
      var line := Line(os[i], h);
      if line != [TAB, TAB] {
        rows := rows + [TrimTabs(line)];
      } else {
        assert rows + [] == rows;
      }
    }
  }

  predicate Hidden(e: Entry, h: Hide) {
    match e
    case Only1(_) => h.one
    case Only2(_) => h.two
    case Both(_) => h.three
  }

  /** A line behind the tabs of its column. */
  function Mark(e: Entry): bytes {
    match e
    case Only1(s) => s
    case Only2(s) => [TAB] + s
    case Both(s) => [TAB, TAB] + s
  }

  /** The rows of these entries: each line behind its tabs, and no tab at the end. */
  function Marks(es: seq<Entry>): seq<bytes> {
    seq(|es|, i requires 0 <= i < |es| => TrimTabs(Mark(es[i])))
  }

  /** The entry that a row shows. */
  function Unmark(row: bytes): Entry {
    if |row| >= 2 && row[0] == TAB && row[1] == TAB then Both(row[2..])
    else if |row| >= 1 && row[0] == TAB then Only2(row[1..])
    else Only1(row)
  }

  function Unmarked(rows: seq<bytes>): seq<Entry> {
    seq(|rows|, i requires 0 <= i < |rows| => Unmark(rows[i]))
  }

  /** The line does not end in a tab, and it does not start with one unless it is in column 3. */
  predicate Clear(e: Entry) {
    e.line != [] && e.line[|e.line| - 1] != TAB && (e.Both? || e.line[0] != TAB)
  }

  lemma {:induction false} TrimShortens(s: bytes)
    ensures |TrimTabs(s)| <= |s| && (TrimTabs(s) == s <==> s == [] || s[|s| - 1] != TAB)
    decreases |s|
  {
    if s != [] && s[|s| - 1] == TAB {
      TrimShortens(s[..|s| - 1]);
    }
  }

  /** A row can be read back exactly when the line is clear. */
  lemma UnmarkExactly(e: Entry)
    requires e.line != []
    ensures Unmark(TrimTabs(Mark(e))) == e <==> Clear(e)
  {
    TrimShortens(Mark(e));
    var m := Mark(e);
    assert m[|m| - 1] == e.line[|e.line| - 1];
  }

  /** A line that starts with a tab is printed as the row of a line in the next column. */
  lemma TabGarbles()
    ensures Unmark(TrimTabs(Mark(Only1([TAB, 97])))) == Only2([97])
  {
  }

  lemma TabTrimmed(s: bytes)
    ensures TrimTabs(s + [TAB]) == TrimTabs(s)
  {
    assert (s + [TAB])[..|s|] == s;
  }

  lemma RawOf(e: Entry, h: Hide)
    requires e.line != [] && !Hidden(e, h)
    ensures Raw(AsOut(e), h) != [TAB, TAB] && TrimTabs(Raw(AsOut(e), h)) == TrimTabs(Mark(e))
  {
    var raw, s := Raw(AsOut(e), h), e.line;
    match e
    case Only1(_) =>
      assert raw == s + [TAB] + [TAB];
      TabTrimmed(s + [TAB]);
      TabTrimmed(s);
    case Only2(_) =>
      assert raw == ([TAB] + s) + [TAB];
      TabTrimmed([TAB] + s);
    case Both(_) =>
      assert raw == [TAB, TAB] + s;
  }

  lemma RawOfNothing(e: Entry, h: Hide)
    requires e.line == [] || Hidden(e, h)
    ensures Raw(AsOut(e), h) == [TAB, TAB]
  {
  }

  /** The entries that show under the flags. */
  function Shown(es: seq<Entry>, h: Hide): seq<Entry> {
    if es == [] then [] else (if Hidden(es[0], h) then [] else [es[0]]) + Shown(es[1..], h)
  }

  lemma RowsStep(e: Entry, es: seq<Entry>, h: Hide)
    ensures Rows(AsOuts([e] + es), h)
         == if e.line == [] || Hidden(e, h) then Rows(AsOuts(es), h) else [TrimTabs(Mark(e))] + Rows(AsOuts(es), h)
  {
    assert AsOuts([e] + es)[0] == AsOut(e) && AsOuts([e] + es)[1..] == AsOuts(es);
    if e.line == [] || Hidden(e, h) {
      RawOfNothing(e, h);
      assert [] + Rows(AsOuts(es), h) == Rows(AsOuts(es), h);
    } else {
      RawOf(e, h);
    }
  }

  lemma ShownStep(e: Entry, es: seq<Entry>, h: Hide)
    ensures Shown([e] + es, h) == if Hidden(e, h) then Shown(es, h) else [e] + Shown(es, h)
  {
    assert ([e] + es)[1..] == es && [] + Shown(es, h) == Shown(es, h);
  }

  lemma MarksCons(e: Entry, es: seq<Entry>)
    ensures Marks([e] + es) == [TrimTabs(Mark(e))] + Marks(es)
  {
  }

  /** The rows are exactly those of the visible entries whose column is not suppressed, tabs or not. */
  lemma {:induction false} RowsExactly(es: seq<Entry>, h: Hide)
    ensures Rows(AsOuts(es), h) == Marks(Shown(Visible(es), h))
    decreases |es|
  {
    if es != [] {
      var e, rest := es[0], es[1..];
      assert es == [e] + rest;
      RowsExactly(rest, h);
      RowsStep(e, rest, h);
      VisibleStep(e, rest);
      if e.line != [] {
        ShownStep(e, Visible(rest), h);
        MarksCons(e, Shown(Visible(rest), h));
      }
    }
  }

  predicate AllVisible(es: seq<Entry>) {
    forall i :: 0 <= i < |es| ==> es[i].line != []
  }

  predicate AllClear(es: seq<Entry>) {
    forall i :: 0 <= i < |es| ==> Clear(es[i])
  }

  /** A list of visible entries can be read back from its rows exactly when all its lines are clear. */
  lemma MarksReadExactly(es: seq<Entry>)
    requires AllVisible(es)
    ensures Unmarked(Marks(es)) == es <==> AllClear(es)
  {
    forall i | 0 <= i < |es| ensures Unmarked(Marks(es))[i] == es[i] <==> Clear(es[i]) {
      UnmarkExactly(es[i]);
    }
    if Unmarked(Marks(es)) == es {
      forall i | 0 <= i < |es| ensures Clear(es[i]) {
        assert Unmarked(Marks(es))[i] == es[i];
      }
    }
  }

  lemma {:induction false} VisibleIsVisible(es: seq<Entry>)
    ensures AllVisible(Visible(es))
    decreases |es|
  {
    if es != [] {
      VisibleIsVisible(es[1..]);
    }
  }

  lemma {:induction false} ShownVisible(es: seq<Entry>, h: Hide)
    requires AllVisible(es)
    ensures AllVisible(Shown(es, h))
    decreases |es|
  {
    if es != [] {
      ShownVisible(es[1..], h);
    }
  }

  lemma {:induction false} ShownAll(es: seq<Entry>)
    ensures Shown(es, Hide(false, false, false)) == es
    decreases |es|
  {
    if es != [] {
      ShownAll(es[1..]);
    }
  }

  /** What comm prints for two streams: the rows of the merge of their lines that are not empty.  The merge can be
      read back from the rows exactly when its lines are clear of tabs at the ends, and without suppression it
      gives back both streams up to empty lines. */
  lemma PrintedExactly(a: seq<bytes>, b: seq<bytes>, h: Hide)
    ensures var es := Shown(Merge(NonEmpty(a), NonEmpty(b)), h);
            && Rows(AsOuts(Merge(a, b)), h) == Marks(es)
            && (Unmarked(Rows(AsOuts(Merge(a, b)), h)) == es <==> AllClear(es))
            && (h == Hide(false, false, false) ==> First(es) == NonEmpty(a) && Second(es) == NonEmpty(b))
  {
    RowsExactly(Merge(a, b), h);
    VisibleIsVisible(Merge(a, b));
    EmptyLinesVanish(a, b);
    ShownVisible(Visible(Merge(a, b)), h);
    MarksReadExactly(Shown(Visible(Merge(a, b)), h));
    ShownAll(Merge(NonEmpty(a), NonEmpty(b)));
    ColumnsSpellStreams(NonEmpty(a), NonEmpty(b));
  }

  // ---------------------------------------------------------------------------------------------
  // Sorted files.
  // ---------------------------------------------------------------------------------------------

  /** No line is above `z`. */
  ghost predicate Below(c: seq<bytes>, z: bytes) {
    forall i :: 0 <= i < |c| ==> AtMost(c[i], z)
  }

  lemma {:induction false} SortedSnoc(c: seq<bytes>, z: bytes)
    ensures Sorted(c + [z]) <==> Sorted(c) && Below(c, z)
    decreases |c|
  {
    if c == [] {
      assert ([z])[1..] == [];
    } else {
      SortedSnoc(c[1..], z);
      assert (c + [z])[1..] == c[1..] + [z];
      BoundSnoc(c[0], c[1..], z);
      BelowCons(c, z);
    }
  }

  lemma BoundSnoc(s: bytes, c: seq<bytes>, z: bytes)
    ensures Bound(s, c + [z]) <==> Bound(s, c) && AtMost(s, z)
  {
    if Bound(s, c + [z]) {
      assert AtMost(s, (c + [z])[|c|]);
      forall i | 0 <= i < |c| ensures AtMost(s, c[i]) {
        assert AtMost(s, (c + [z])[i]);
      }
    }
  }

  lemma BelowCons(c: seq<bytes>, z: bytes)
    requires c != []
    ensures Below(c, z) <==> AtMost(c[0], z) && Below(c[1..], z)
  {
    if Below(c, z) {
      forall i | 0 <= i < |c[1..]| ensures AtMost(c[1..][i], z) {
        assert AtMost(c[i + 1], z);
      }
    }
    if AtMost(c[0], z) && Below(c[1..], z) {
      forall i | 0 <= i < |c| ensures AtMost(c[i], z) {
        assert i > 0 ==> AtMost(c[1..][i - 1], z);
      }
    }
  }

  /** The stream of a file is sorted exactly when its trimmed lines are and none of them is above what follows the
      last newline.  After a final newline that is the empty line, so then all lines must be empty. */
  lemma StreamSortedExactly(ls: seq<bytes>, last: bytes)
    requires AllLines(ls) && NEWLINE !in last
    ensures Sorted(LinesOf(Text(ls) + last)) <==> Sorted(Trims(ls)) && Below(Trims(ls), Trim(last))
    ensures last == [] ==> (Sorted(LinesOf(Text(ls) + last)) <==> AllEmpty(Trims(ls)))
  {
    ReadsLines(ls, last);
    SortedSnoc(Trims(ls), Trim(last));
    if AllEmpty(Trims(ls)) {
      EmptiesSorted(Trims(ls));
    }
    if last == [] && Below(Trims(ls), []) {
      forall i | 0 <= i < |Trims(ls)| ensures Trims(ls)[i] == [] {
        assert AtMost(Trims(ls)[i], []);
      }
    }
  }

  predicate AllEmpty(c: seq<bytes>) {
    forall i :: 0 <= i < |c| ==> c[i] == []
  }

  lemma {:induction false} EmptiesSorted(c: seq<bytes>)
    requires AllEmpty(c)
    ensures Sorted(c) && Below(c, [])
    decreases |c|
  {
    if c != [] {
      EmptiesSorted(c[1..]);
    }
  }

  /** A sorted file of two lines whose stream is not sorted. */
  lemma SortedFileUnsortedStream()
    ensures var ls: seq<bytes> := [[97], [98]]; AllLines(ls) && Sorted(Trims(ls)) && !Sorted(LinesOf(Text(ls)))
  {
    var ls: seq<bytes> := [[97], [98]];
    assert Trims(ls) == ls && ls[1..] == [[98]] && ls[1..][1..] == [];
    assert Text(ls) + [] == Text(ls);
    assert Trims(ls)[0] != [];
    StreamSortedExactly(ls, []);
  }

  lemma {:induction false} BoundNonEmpty(s: bytes, c: seq<bytes>)
    requires Bound(s, c)
    ensures Bound(s, NonEmpty(c))
    decreases |c|
  {
    if c != [] {
      assert AtMost(s, c[0]);
      forall i | 0 <= i < |c[1..]| ensures AtMost(s, c[1..][i]) {
        assert AtMost(s, c[i + 1]);
      }
      BoundNonEmpty(s, c[1..]);
    }
  }

  lemma {:induction false} NonEmptySorted(c: seq<bytes>)
    requires Sorted(c)
    ensures Sorted(NonEmpty(c))
    decreases |c|
  {
    if c != [] {
      NonEmptySorted(c[1..]);
      BoundNonEmpty(c[0], c[1..]);
      NonEmptyHead(c);
    }
  }

  lemma {:induction false} NonEmptySnoc(c: seq<bytes>, z: bytes)
    ensures NonEmpty(c + [z]) == if z == [] then NonEmpty(c) else NonEmpty(c) + [z]
    decreases |c|
  {
    if c == [] {
      assert [z][1..] == [];
    } else {
      assert (c + [z])[1..] == c[1..] + [z];
      NonEmptySnoc(c[1..], z);
    }
  }

  /** The trimmed lines of a file; the last may lack its newline. */
  function FileLines(ls: seq<bytes>, last: bytes): seq<bytes> {
    if last == [] then Trims(ls) else Trims(ls) + [Trim(last)]
  }

  /** The empty line that the reader appends does not count. */
  lemma StreamLines(ls: seq<bytes>, last: bytes)
    requires AllLines(ls) && NEWLINE !in last
    ensures NonEmpty(LinesOf(Text(ls) + last)) == NonEmpty(FileLines(ls, last))
  {
    ReadsLines(ls, last);
    NonEmptySnoc(Trims(ls), Trim(last));
  }

  /** What comm makes of two streams whose lines that are not empty are sorted. */
  lemma VisibleColumns(a: seq<bytes>, b: seq<bytes>, x: bytes)
    requires Sorted(NonEmpty(a)) && Sorted(NonEmpty(b))
    ensures var es := Visible(Merge(a, b));
            && Sorted(Lines(es)) && Occurrences(x, Shared(es)) == Pairs(x, NonEmpty(a), NonEmpty(b))
            && First(es) == NonEmpty(a) && Second(es) == NonEmpty(b)
  {
    EmptyLinesVanish(a, b);
    MergedSorted(NonEmpty(a), NonEmpty(b));
    CommonExactly(NonEmpty(a), NonEmpty(b), x);
    ColumnsSpellStreams(NonEmpty(a), NonEmpty(b));
  }

  /** For two sorted files the lines that show are sorted, columns 1 and 3 spell the first file and 2 and 3 the
      second, and column 3 holds each line as often as both files do; empty lines apart. */
  lemma SortedFiles(l1: seq<bytes>, last1: bytes, l2: seq<bytes>, last2: bytes, x: bytes)
    requires AllLines(l1) && NEWLINE !in last1 && Sorted(FileLines(l1, last1))
    requires AllLines(l2) && NEWLINE !in last2 && Sorted(FileLines(l2, last2))
    ensures var f1, f2 := NonEmpty(FileLines(l1, last1)), NonEmpty(FileLines(l2, last2));
            var es := Visible(Merge(LinesOf(Text(l1) + last1), LinesOf(Text(l2) + last2)));
            && Sorted(Lines(es)) && Occurrences(x, Shared(es)) == Pairs(x, f1, f2)
            && First(es) == f1 && Second(es) == f2
  {
    StreamLines(l1, last1);
    StreamLines(l2, last2);
    NonEmptySorted(FileLines(l1, last1));
    NonEmptySorted(FileLines(l2, last2));
    VisibleColumns(LinesOf(Text(l1) + last1), LinesOf(Text(l2) + last2), x);
  }

  lemma {:induction false} ShownShared(es: seq<Entry>, h: Hide)
    ensures Shared(Shown(es, h)) == if h.three then [] else Shared(es)
    decreases |es|
  {
    if es != [] {
      ShownShared(es[1..], h);
      ShownStep(es[0], es[1..], h);
      assert es == [es[0]] + es[1..];
      Columns(es[0], Shown(es[1..], h));
    }
  }

  lemma {:induction false} ShownBound(s: bytes, es: seq<Entry>, h: Hide)
    requires Bound(s, Lines(es))
    ensures Bound(s, Lines(Shown(es, h)))
    decreases |es|
  {
    if es != [] {
      LinesRest(es);
      assert AtMost(s, Lines(es)[0]);
      forall i | 0 <= i < |Lines(es[1..])| ensures AtMost(s, Lines(es[1..])[i]) {
        assert AtMost(s, Lines(es)[i + 1]);
      }
      ShownBound(s, es[1..], h);
      ShownCons(es, h);
      if !Hidden(es[0], h) {
        LinesRest(Shown(es, h));
        BoundCons(s, Lines(Shown(es, h)));
      }
    }
  }

  lemma ShownCons(es: seq<Entry>, h: Hide)
    requires es != []
    ensures Hidden(es[0], h) ==> Shown(es, h) == Shown(es[1..], h)
    ensures !Hidden(es[0], h) ==>
              Shown(es, h) != [] && Shown(es, h)[0] == es[0] && Shown(es, h)[1..] == Shown(es[1..], h)
  {
  }

  lemma BoundCons(s: bytes, c: seq<bytes>)
    requires c != [] && AtMost(s, c[0]) && Bound(s, c[1..])
    ensures Bound(s, c)
  {
    forall i | 0 <= i < |c| ensures AtMost(s, c[i]) {
      assert i > 0 ==> AtMost(s, c[1..][i - 1]);
    }
  }

  lemma LinesRest(es: seq<Entry>)
    requires es != []
    ensures Lines(es)[0] == es[0].line && Lines(es)[1..] == Lines(es[1..])
  {
  }

  lemma {:induction false} ShownSorted(es: seq<Entry>, h: Hide)
    requires Sorted(Lines(es))
    ensures Sorted(Lines(Shown(es, h)))
    decreases |es|
  {
    if es != [] {
      LinesRest(es);
      ShownSorted(es[1..], h);
      ShownBound(es[0].line, es[1..], h);
      ShownCons(es, h);
      if !Hidden(es[0], h) {
        LinesRest(Shown(es, h));
      }
    }
  }

  /** The rows that comm prints for two sorted files: those of a sorted list of entries, which holds each common line
      in column 3 as often as both files have it, unless that column is suppressed. */
  lemma PrintedFiles(l1: seq<bytes>, last1: bytes, l2: seq<bytes>, last2: bytes, h: Hide, x: bytes)
    requires AllLines(l1) && NEWLINE !in last1 && Sorted(FileLines(l1, last1))
    requires AllLines(l2) && NEWLINE !in last2 && Sorted(FileLines(l2, last2))
    ensures var f1, f2 := NonEmpty(FileLines(l1, last1)), NonEmpty(FileLines(l2, last2));
            var es := Shown(Merge(f1, f2), h);
            && Rows(AsOuts(Merge(LinesOf(Text(l1) + last1), LinesOf(Text(l2) + last2))), h) == Marks(es)
            && Sorted(Lines(es)) && Occurrences(x, Shared(es)) == if h.three then 0 else Pairs(x, f1, f2)
  {
    var a, b := LinesOf(Text(l1) + last1), LinesOf(Text(l2) + last2);
    StreamLines(l1, last1);
    StreamLines(l2, last2);
    SortedFiles(l1, last1, l2, last2, x);
    EmptyLinesVanish(a, b);
    PrintedExactly(a, b, h);
    ShownSorted(Visible(Merge(a, b)), h);
    ShownShared(Visible(Merge(a, b)), h);
  }
}
