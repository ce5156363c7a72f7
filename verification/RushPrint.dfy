/** Command lines written down and read back by the parser of cmds/rush/parse.go. */
module RushPrint {
  import opened Common
  import opened RushParse

  // ---------------------------------------------------------------------------------------------
  // Arguments.  An argument grows by `string(b)` for each byte b, so a byte from 128 on becomes two.
  // ---------------------------------------------------------------------------------------------

  predicate Ascii(c: char) {
    c < 128 as char
  }

  /** A text that is made of such pieces. */
  predicate Latin(a: string) {
    || a == ""
    || (Ascii(a[0]) && Latin(a[1..]))
    || (|a| >= 2 && 0xC2 as char <= a[0] <= 0xC3 as char && 0x80 as char <= a[1] <= 0xBF as char && Latin(a[2..]))
  }

  /** The byte that gives the first piece, and the length of the piece. */
  function FirstByte(a: string): char
    requires a != "" && Latin(a)
  {
    if Ascii(a[0]) then a[0] else ((a[0] as int - 0xC0) * 64 + (a[1] as int - 0x80)) as char
  }

  function Piece(a: string): (n: nat)
    requires a != "" && Latin(a)
    ensures 0 < n <= |a| && Latin(a[n..])
  {
    if Ascii(a[0]) then 1 else 2
  }

  lemma PieceOfByte(a: string)
    requires a != "" && Latin(a)
    ensures ByteString(FirstByte(a)) + a[Piece(a)..] == a
    ensures if Ascii(a[0]) then FirstByte(a) == a[0] else 128 as char <= FirstByte(a) < 256 as char
  {
    assert a == a[..Piece(a)] + a[Piece(a)..];
    if Ascii(a[0]) {
      assert a[..1] == [a[0]];
    } else {
      assert a[..2] == [a[0], a[1]] == ByteString(FirstByte(a));
    }
  }

  /** Could be a word: nothing in it ends one, and no quote starts it. */
  predicate Wordy(a: string) {
    a != "" && a[0] != '\'' && NoEnd(a)
  }

  /** What an argument can be. */
  predicate ArgOk(a: string) {
    Latin(a) && ('\'' !in a || Wordy(a))
  }

  /** The bytes of the text, with every backslash doubled. */
  function Written(a: string): string
    requires Latin(a)
    decreases |a|
  {
    if a == "" then ""
    else Escaped(FirstByte(a)) + Written(a[Piece(a)..])
  }

  /** In quotes, or as a word when there is a quote in it. */
  function ArgText(a: string): string
    requires ArgOk(a)
  {
    if '\'' in a then Written(a) else "'" + Written(a) + "'"
  }

  /** A byte as the escape rule wants it. */
  function Escaped(c: char): string {
    if c == '\\' then "\\\\" else [c]
  }

  lemma NextEscaped(c: char, w: string, rest: string)
    ensures (Escaped(c) + w) + rest != "" && Next((Escaped(c) + w) + rest) == (c, w + rest)
  {
    var r := (Escaped(c) + w) + rest;
    if c == '\\' {
      assert r[1..] == "\\" + (w + rest) && ("\\" + (w + rest))[1..] == w + rest;
    } else {
      assert r[1..] == w + rest;
    }
  }

  lemma NextWritten(a: string, rest: string)
    requires a != "" && Latin(a)
    ensures Written(a) + rest != "" && Next(Written(a) + rest) == (FirstByte(a), Written(a[Piece(a)..]) + rest)
  {
    NextEscaped(FirstByte(a), Written(a[Piece(a)..]), rest);
  }

  lemma {:induction false} QuotedRoundTrip(a: string, rest: string)
    requires Latin(a) && '\'' !in a
    ensures Quoted(Written(a) + ("'" + rest)) == Done(a, rest)
    decreases |a|
  {
    if a == "" {
      assert ("'" + rest)[1..] == rest && "" + ("'" + rest) == "'" + rest;
    } else {
      NextWritten(a, "'" + rest);
      PieceOfByte(a);
      assert '\'' !in a[Piece(a)..];
      QuotedRoundTrip(a[Piece(a)..], rest);
    }
  }

  /** The text ends, or goes on with a character that ends a word. */
  predicate EndsWord(rest: string) {
    rest == "" || rest[0] in ['<', '>', '|', '&', '$', ' ', '\t', '\n']
  }

  /** No character of the text ends a word. */
  predicate NoEnd(w: string) {
    forall i :: 0 <= i < |w| ==> w[i] !in ['<', '>', '|', '&', '$', ' ', '\t', '\n', '\0']
  }

  lemma WordEnds(rest: string)
    requires EndsWord(rest)
    ensures Word(Next(rest).0, Next(rest).1) == ("", rest)
  {
    if rest != "" {
      assert [rest[0]] + rest[1..] == rest;
    }
  }

  lemma WordByte(a: string)
    requires a != "" && Latin(a) && NoEnd(a)
    ensures FirstByte(a) !in PUNCT && FirstByte(a) != '\0' && (FirstByte(a) == '\'' ==> a[0] == '\'')
    ensures NoEnd(a[Piece(a)..])
  {
    PieceOfByte(a);
  }

  lemma {:induction false} WordRoundTrip(a: string, rest: string)
    requires Latin(a) && NoEnd(a) && EndsWord(rest)
    ensures Word(Next(Written(a) + rest).0, Next(Written(a) + rest).1) == (a, rest)
    decreases |a|
  {
    if a == "" {
      assert "" + rest == rest;
      WordEnds(rest);
    } else {
      NextWritten(a, rest);
      WordByte(a);
      WordRoundTrip(a[Piece(a)..], rest);
      PieceOfByte(a);
    }
  }

  lemma TokWord(a: string, rest: string)
    requires Latin(a) && Wordy(a) && EndsWord(rest)
    ensures Tok(Written(a) + rest) == Done(Arg(a), rest)
  {
    NextWritten(a, rest);
    WordByte(a);
    WordRoundTrip(a, rest);
    TokAsWord(Written(a) + rest);
  }

  lemma TokAsWord(r: string)
    requires var c := Next(r).0; c !in PUNCT && c != '\0' && c != '\''
    ensures var (w, rest) := Word(Next(r).0, Next(r).1); Tok(r) == Done(Arg(w), rest)
  {
  }

  lemma TokArg(a: string, rest: string)
    requires ArgOk(a) && EndsWord(rest)
    ensures Tok(ArgText(a) + rest) == Done(Arg(a), rest)
  {
    if '\'' in a {
      TokWord(a, rest);
    } else {
      QuotedRoundTrip(a, rest);
      TokQuoted(Written(a), a, rest);
    }
  }

  lemma TokQuoted(w: string, a: string, rest: string)
    requires Quoted(w + ("'" + rest)) == Done(a, rest)
    ensures Tok("'" + w + "'" + rest) == Done(Arg(a), rest)
  {
    assert ("'" + w + "'" + rest)[1..] == w + ("'" + rest);
  }

  // ---------------------------------------------------------------------------------------------
  // Commands.
  // ---------------------------------------------------------------------------------------------

  /** A command the parser can produce. */
  predicate GoodCommand(c: Command) {
    ArgsOk(c.args) && FdsOk(c.fdmap) && c.link in ["", "|", "||", "&&"] && (c.bg ==> c.link == "")
  }

  predicate AllGood(cs: seq<Command>) {
    forall i :: 0 <= i < |cs| ==> GoodCommand(cs[i])
  }

  /** A command that another one follows. */
  predicate Continues(c: Command) {
    c.bg || c.link != ""
  }

  /** Every command but the last is linked or in the background. */
  predicate GoodCommands(cs: seq<Command>) {
    AllGood(cs) && forall i :: 0 <= i < |cs| - 1 ==> Continues(cs[i])
  }

  predicate ArgsOk(args: seq<string>) {
    forall i :: 0 <= i < |args| ==> ArgOk(args[i])
  }

  function PrintArgs(args: seq<string>): string
    requires ArgsOk(args)
  {
    if args == [] then "" else " " + ArgText(args[0]) + PrintArgs(args[1..])
  }

  predicate FdsOk(fdmap: map<nat, string>) {
    forall fd :: fd in fdmap ==> fd < 2 && ArgOk(fdmap[fd])
  }

  function PrintRedirect(sign: char, fd: nat, fdmap: map<nat, string>): string
    requires FdsOk(fdmap)
  {
    if fd in fdmap then [' ', sign] + ArgText(fdmap[fd]) else ""
  }

  function Terminator(c: Command): string {
    if c.bg then "&" else c.link
  }

  /** Each command starts with a space, which also keeps its neighbour's link single. */
  function PrintCommand(c: Command): string
    requires GoodCommand(c)
  {
    " " + (PrintArgs(c.args) + (PrintRedirect('<', 0, c.fdmap) + (PrintRedirect('>', 1, c.fdmap) + Terminator(c))))
  }

  function Print(cs: seq<Command>): string
    requires AllGood(cs)
  {
    if cs == [] then "\n" else PrintCommand(cs[0]) + Print(cs[1..])
  }

  lemma TokChar(c: char, rest: string)
    ensures c == ' ' ==> Tok([c] + rest) == Done(White(c), rest)
    ensures c == '\n' ==> Tok([c] + rest) == Done(EndOfLine, rest)
    ensures c == '<' ==> Tok([c] + rest) == Done(Redirect(0), rest)
    ensures c == '>' ==> Tok([c] + rest) == Done(Redirect(1), rest)
  {
    assert ([c] + rest)[1..] == rest;
  }

  lemma SkipSpace(rest: string, c: Command)
    ensures ParseRest(" " + rest, c) == ParseRest(rest, c)
  {
    TokChar(' ', rest);
  }

  lemma ReadArg(a: string, text: string, rest: string, c: Command)
    requires Tok(text + rest) == Done(Arg(a), rest)
    ensures ParseRest(" " + (text + rest), c) == ParseRest(rest, c.(args := c.args + [a]))
  {
    SkipSpace(text + rest, c);
  }

  lemma FirstArg(args: seq<string>, rest: string, c: Command)
    requires ArgsOk(args) && args != [] && EndsWord(PrintArgs(args[1..]) + rest)
    ensures ParseRest(PrintArgs(args) + rest, c)
         == ParseRest(PrintArgs(args[1..]) + rest, c.(args := c.args + [args[0]]))
  {
    var a, text, more := args[0], ArgText(args[0]), PrintArgs(args[1..]);
    TokArg(a, more + rest);
    ReadArg(a, text, more + rest, c);
    Assoc(" " + text, more, rest);
    Assoc(" ", text, more + rest);
  }

  lemma ArgsEndWord(args: seq<string>, rest: string)
    requires ArgsOk(args) && EndsWord(rest)
    ensures EndsWord(PrintArgs(args) + rest)
  {
    if args == [] {
      assert "" + rest == rest;
    }
  }

  lemma OneMore(a: seq<string>, b: seq<string>)
    requires b != []
    ensures a + [b[0]] + b[1..] == a + b
  {
  }

  lemma {:induction false} ReadArgs(args: seq<string>, rest: string, c: Command)
    requires ArgsOk(args) && EndsWord(rest)
    ensures ParseRest(PrintArgs(args) + rest, c) == ParseRest(rest, c.(args := c.args + args))
    decreases |args|
  {
    if args == [] {
      assert "" + rest == rest && c.args + args == c.args;
    } else {
      ArgsEndWord(args[1..], rest);
      FirstArg(args, rest, c);
      ReadArgs(args[1..], rest, c.(args := c.args + [args[0]]));
      OneMore(c.args, args);
    }
  }

  lemma Spaced(sign: char, text: string, rest: string)
    ensures [' ', sign] + text + rest == " " + ([sign] + (text + rest))
  {
  }

  lemma ReadTarget(sign: char, fd: nat, a: string, text: string, rest: string, c: Command)
    requires (sign == '<' && fd == 0) || (sign == '>' && fd == 1)
    requires Tok(text + rest) == Done(Arg(a), rest)
    ensures ParseRest([' ', sign] + text + rest, c) == ParseRest(rest, c.(fdmap := c.fdmap[fd := a]))
  {
    Spaced(sign, text, rest);
    SkipSpace([sign] + (text + rest), c);
    TokChar(sign, text + rest);
  }

  lemma ReadRedirect(sign: char, fd: nat, fdmap: map<nat, string>, rest: string, c: Command)
    requires (sign == '<' && fd == 0) || (sign == '>' && fd == 1)
    requires FdsOk(fdmap) && EndsWord(rest)
    ensures ParseRest(PrintRedirect(sign, fd, fdmap) + rest, c)
         == ParseRest(rest, if fd in fdmap then c.(fdmap := c.fdmap[fd := fdmap[fd]]) else c)
  {
    if fd in fdmap {
      TokArg(fdmap[fd], rest);
      ReadTarget(sign, fd, fdmap[fd], ArgText(fdmap[fd]), rest, c);
    } else {
      assert "" + rest == rest;
    }
  }

  /** The end of a command, before a character that does not double its sign. */
  lemma ReadTerminator(c: Command, next: char, rest: string, d: Command)
    requires GoodCommand(c) && next !in ['|', '&'] && !d.bg && d.link == ""
    ensures var o := ParseRest(Terminator(c) + ([next] + rest), d);
            && (c.bg ==> o == Done((d.(bg := true), StatusBackground), [next] + rest))
            && (c.link != "" ==> o == Done((d.(link := c.link), StatusLink), [next] + rest))
            && (!c.bg && c.link == "" && next == '\n' ==> o == Done((d, StatusEOL), rest))
  {
    var r := [next] + rest;
    if c.bg {
      assert ("&" + r)[1..] == r;
    } else if c.link == "" {
      assert "" + r == r;
      TokChar(next, rest);
    } else if |c.link| == 1 {
      assert ("|" + r)[1..] == r;
    } else {
      assert (c.link + r)[1..] == [c.link[1]] + r && ([c.link[1]] + r)[1..] == r;
    }
  }

  lemma RebuiltMap(fdmap: map<nat, string>)
    requires forall fd :: fd in fdmap ==> fd < 2
    ensures var m0: map<nat, string> := if 0 in fdmap then map[][0 := fdmap[0]] else map[];
            (if 1 in fdmap then m0[1 := fdmap[1]] else m0) == fdmap
  {
  }

  lemma Regroup(a: string, b: string, c: string, d: string, rest: string)
    ensures " " + (a + (b + (c + d))) + rest == " " + (a + (b + (c + (d + rest))))
  {
    Assoc(c, d, rest);
    Assoc(b, c + d, rest);
    Assoc(a, b + (c + d), rest);
    Assoc(" ", a + (b + (c + d)), rest);
  }

  /** A printed command is read up to its terminator. */
  lemma ReadCommand(c: Command, rest: string)
    requires GoodCommand(c) && EndsWord(Terminator(c) + rest)
    ensures ParseRest(PrintCommand(c) + rest, NewCommand)
         == ParseRest(Terminator(c) + rest, c.(link := "", bg := false))
  {
    var t3 := Terminator(c) + rest;
    var t2 := PrintRedirect('>', 1, c.fdmap) + t3;
    var t1 := PrintRedirect('<', 0, c.fdmap) + t2;
    var t0 := PrintArgs(c.args) + t1;
    Regroup(PrintArgs(c.args), PrintRedirect('<', 0, c.fdmap), PrintRedirect('>', 1, c.fdmap), Terminator(c), rest);
    SkipSpace(t0, NewCommand);
    var c1 := NewCommand.(args := c.args);
    ReadArgs(c.args, t1, NewCommand);
    assert [] + c.args == c.args;
    ReadRedirect('<', 0, c.fdmap, t2, c1);
    var c2 := if 0 in c.fdmap then c1.(fdmap := c1.fdmap[0 := c.fdmap[0]]) else c1;
    ReadRedirect('>', 1, c.fdmap, t3, c2);
    RebuiltMap(c.fdmap);
  }

  lemma FirstTokenIsSpace(c: Command, rest: string)
    requires GoodCommand(c)
    ensures Tok(PrintCommand(c) + rest).Done? && Tok(PrintCommand(c) + rest).value.White?
  {
    var more := PrintArgs(c.args) + (PrintRedirect('<', 0, c.fdmap) + (PrintRedirect('>', 1, c.fdmap) + Terminator(c)));
    assert PrintCommand(c) + rest == [' '] + (more + rest);
    TokChar(' ', more + rest);
  }

  lemma ParsePrinted(c: Command, next: char, rest: string)
    requires GoodCommand(c) && next !in ['|', '&'] && (Continues(c) || next == '\n')
    ensures var r := PrintCommand(c) + ([next] + rest);
            && (c.bg ==> ParseString(r) == Done((Some(c), StatusBackground), [next] + rest))
            && (c.link != "" ==> ParseString(r) == Done((Some(c), StatusLink), [next] + rest))
            && (!Continues(c) ==> ParseString(r) == Done((Some(c), StatusEOL), rest))
  {
    var d := c.(link := "", bg := false);
    FirstTokenIsSpace(c, [next] + rest);
    ReadCommand(c, [next] + rest);
    ReadTerminator(c, next, rest, d);
    assert c.bg ==> d.(bg := true) == c;
    assert !c.bg ==> d.(link := c.link) == c;
  }

  /** At the end of the input a command needs no newline. */
  lemma ParsePrintedEnd(c: Command)
    requires GoodCommand(c) && !Continues(c)
    ensures ParseString(PrintCommand(c)) == Done((Some(c), StatusEOF), "")
  {
    assert PrintCommand(c) + "" == PrintCommand(c) && Terminator(c) + "" == "";
    FirstTokenIsSpace(c, "");
    ReadCommand(c, "");
  }

  lemma ParseLast(c: Command, rest: string)
    requires GoodCommand(c) && !c.bg && c.link == ""
    ensures ParseCommands(PrintCommand(c) + ("\n" + rest)) == Done(([c], StatusEOL), rest)
  {
    ParsePrinted(c, '\n', rest);
  }

  lemma ParseLinked(c: Command, next: char, tail: string, cs: seq<Command>, rest: string)
    requires GoodCommand(c) && Continues(c) && next in [' ', '\n']
    requires ParseCommands([next] + tail) == Done((cs, StatusEOL), rest)
    ensures ParseCommands(PrintCommand(c) + ([next] + tail)) == Done(([c] + cs, StatusEOL), rest)
  {
    ParsePrinted(c, next, tail);
    assert |PrintCommand(c) + ([next] + tail)| > |[next] + tail|;
  }

  /** Printing any good list of commands and parsing it gives the list back, with status end of line,
      and leaves exactly what follows the line. */
  lemma {:induction false} PrintParseRoundTrip(cs: seq<Command>, rest: string)
    requires GoodCommands(cs)
    ensures ParseCommands(Print(cs) + rest) == Done((cs, StatusEOL), rest)
    decreases |cs|
  {
    if cs == [] {
      TokChar('\n', rest);
    } else {
      var c, more := cs[0], Print(cs[1..]) + rest;
      NextStarts(cs[1..], rest);
      Assoc(PrintCommand(c), Print(cs[1..]), rest);
      assert [c] + cs[1..] == cs;
      if Continues(c) {
        PrintParseRoundTrip(cs[1..], rest);
        assert [more[0]] + more[1..] == more;
        ParseLinked(c, more[0], more[1..], cs[1..], rest);
      } else {
        assert cs[1..] == [] && cs == [c];
        assert more == "\n" + rest;
        ParseLast(c, rest);
      }
    }
  }

  lemma NextStarts(cs: seq<Command>, rest: string)
    requires AllGood(cs)
    ensures Print(cs) != "" && Print(cs)[0] in [' ', '\n'] && (Print(cs) + rest)[0] == Print(cs)[0]
    ensures |Print(cs) + rest| == |Print(cs)| + |rest| >= 1
    ensures cs == [] ==> Print(cs) + rest == "\n" + rest
  {
  }

  // ---------------------------------------------------------------------------------------------
  // The parser produces nothing else.
  // ---------------------------------------------------------------------------------------------

  predicate IsByte(c: char) {
    c < 256 as char
  }

  predicate IsBytes(r: string) {
    forall i :: 0 <= i < |r| ==> IsByte(r[i])
  }

  lemma NextBytes(r: string)
    requires IsBytes(r)
    ensures IsByte(Next(r).0) && IsBytes(Next(r).1)
  {
  }

  lemma LatinCons(c: char, w: string)
    requires IsByte(c) && Latin(w)
    ensures Latin(ByteString(c) + w)
  {
    var s := ByteString(c) + w;
    assert s[|ByteString(c)|..] == w;
  }

  lemma NoEndCons(c: char, w: string)
    requires IsByte(c) && c !in PUNCT && c != '\0' && NoEnd(w)
    ensures NoEnd(ByteString(c) + w) && (c != '\'' ==> (ByteString(c) + w)[0] != '\'')
  {
    var s, k := ByteString(c) + w, |ByteString(c)|;
    forall i | 0 <= i < |s| ensures s[i] !in PUNCT && s[i] != '\0' {
      if i >= k {
        assert s[i] == w[i - k];
      }
    }
  }

  lemma {:induction false} WordGood(c: char, r: string)
    requires IsByte(c) && IsBytes(r)
    ensures var (w, rest) := Word(c, r); Latin(w) && NoEnd(w) && IsBytes(rest)
    decreases |r|, if c == '\0' then 0 else 1
  {
    if c != '\0' && c !in PUNCT {
      NextBytes(r);
      WordGood(Next(r).0, Next(r).1);
      LatinCons(c, Word(Next(r).0, Next(r).1).0);
      NoEndCons(c, Word(Next(r).0, Next(r).1).0);
    }
  }

  lemma WordIsWordy(c: char, r: string)
    requires IsByte(c) && IsBytes(r) && c != '\0' && c !in PUNCT && c != '\''
    ensures Latin(Word(c, r).0) && Wordy(Word(c, r).0)
  {
    WordGood(c, r);
    NextBytes(r);
    WordGood(Next(r).0, Next(r).1);
    NoEndCons(c, Word(Next(r).0, Next(r).1).0);
  }

  lemma {:induction false} QuotedGood(r: string)
    requires IsBytes(r) && Quoted(r).Done?
    ensures Latin(Quoted(r).value) && '\'' !in Quoted(r).value && IsBytes(Quoted(r).rest)
    decreases |r|
  {
    NextBytes(r);
    var (c, r1) := Next(r);
    if c != '\'' {
      QuotedGood(r1);
      LatinCons(c, Quoted(r1).value);
      assert '\'' !in ByteString(c);
    }
  }

  predicate TokenOk(t: Token) {
    match t
    case Arg(a) => ArgOk(a)
    case Link(s) => s in ["|", "||", "&&"]
    case Redirect(fd) => fd < 2
    case _ => true
  }

  lemma TokGood(r: string)
    requires IsBytes(r) && Tok(r).Done?
    ensures TokenOk(Tok(r).value) && IsBytes(Tok(r).rest)
  {
    NextBytes(r);
    var (c, r1) := Next(r);
    if c == '$' {
      NextBytes(r1);
      WordGood(Next(r1).0, Next(r1).1);
    } else if c == '\'' {
      QuotedGood(r1);
    } else if c != '\0' && c !in PUNCT {
      WordGood(c, r1);
      WordIsWordy(c, r1);
    }
  }

  lemma {:induction false} GetArgGood(r: string)
    requires IsBytes(r) && GetArg(r).Done?
    ensures ArgOk(GetArg(r).value) && IsBytes(GetArg(r).rest)
    decreases |r|
  {
    TokGood(r);
    TokShortens(r);
    if Tok(r).value.White? {
      GetArgGood(Tok(r).rest);
    }
  }

  /** A command under way. */
  predicate Open(c: Command) {
    GoodCommand(c) && !Continues(c)
  }

  lemma {:induction false} RestGood(r: string, c: Command)
    requires IsBytes(r) && Open(c) && ParseRest(r, c).Done?
    ensures var (d, st) := ParseRest(r, c).value;
            GoodCommand(d) && IsBytes(ParseRest(r, c).rest) && (!EndsLine(st) ==> Continues(d))
    decreases |r|
  {
    TokGood(r);
    TokShortens(r);
    match Tok(r) {
      case Done(Arg(s), r1) => RestGood(r1, c.(args := c.args + [s]));
      case Done(White(_), r1) => RestGood(r1, c);
      case Done(Redirect(fd), r1) =>
        GetArgShortens(r1);
        GetArgGood(r1);
        RestGood(GetArg(r1).rest, c.(fdmap := c.fdmap[fd := GetArg(r1).value]));
      case _ =>
    }
  }

  lemma {:induction false} CommandsGood(r: string)
    requires IsBytes(r) && ParseCommands(r).Done?
    ensures GoodCommands(ParseCommands(r).value.0)
    decreases |r|
  {
    if ParseString(r).value.0.Some? {
      RestGood(r, NewCommand);
      var c, r1 := ParseString(r).value.0.value, ParseString(r).rest;
      if !EndsLine(ParseString(r).value.1) {
        CommandsGood(r1);
        var cs := ParseCommands(r1).value.0;
        assert forall i :: 0 < i < |[c] + cs| ==> ([c] + cs)[i] == cs[i - 1];
      }
    }
  }

  /** The line means these commands. */
  predicate Means(r: string, cs: seq<Command>) {
    IsBytes(r) && ParseCommands(r).Done? && ParseCommands(r).value.0 == cs
  }

  lemma {:induction false} WrittenBytes(a: string)
    requires Latin(a)
    ensures IsBytes(Written(a))
    decreases |a|
  {
    if a != "" {
      PieceOfByte(a);
      WrittenBytes(a[Piece(a)..]);
    }
  }

  lemma {:induction false} ArgsBytes(args: seq<string>)
    requires ArgsOk(args)
    ensures IsBytes(PrintArgs(args))
    decreases |args|
  {
    if args != [] {
      ArgBytes(args[0]);
      ArgsBytes(args[1..]);
      JoinBytes(" ", ArgText(args[0]));
      JoinBytes(" " + ArgText(args[0]), PrintArgs(args[1..]));
    }
  }

  lemma ArgBytes(a: string)
    requires ArgOk(a)
    ensures IsBytes(ArgText(a))
  {
    WrittenBytes(a);
  }

  lemma JoinBytes(a: string, b: string)
    requires IsBytes(a) && IsBytes(b)
    ensures IsBytes(a + b)
  {
  }

  lemma RedirectBytes(sign: char, fd: nat, fdmap: map<nat, string>)
    requires FdsOk(fdmap) && IsByte(sign)
    ensures IsBytes(PrintRedirect(sign, fd, fdmap))
  {
    if fd in fdmap {
      ArgBytes(fdmap[fd]);
      JoinBytes([' ', sign], ArgText(fdmap[fd]));
    }
  }

  lemma CommandBytes(c: Command)
    requires GoodCommand(c)
    ensures IsBytes(PrintCommand(c))
  {
    var a, i, o, t := PrintArgs(c.args), PrintRedirect('<', 0, c.fdmap), PrintRedirect('>', 1, c.fdmap), Terminator(c);
    ArgsBytes(c.args);
    RedirectBytes('<', 0, c.fdmap);
    RedirectBytes('>', 1, c.fdmap);
    JoinBytes(o, t);
    JoinBytes(i, o + t);
    JoinBytes(a, i + (o + t));
    JoinBytes(" ", a + (i + (o + t)));
  }

  lemma {:induction false} PrintBytes(cs: seq<Command>)
    requires AllGood(cs)
    ensures IsBytes(Print(cs))
    decreases |cs|
  {
    if cs != [] {
      CommandBytes(cs[0]);
      PrintBytes(cs[1..]);
    }
  }

  /** A list of commands is the meaning of some line exactly when it is a good one. */
  lemma ExpressibleExactly(cs: seq<Command>)
    ensures (exists r :: Means(r, cs)) <==> GoodCommands(cs)
  {
    forall r | Means(r, cs) ensures GoodCommands(cs) {
      CommandsGood(r);
    }
    if GoodCommands(cs) {
      PrintParseRoundTrip(cs, "");
      PrintBytes(cs);
      assert Print(cs) + "" == Print(cs);
      assert Means(Print(cs), cs);
    }
  }
}
