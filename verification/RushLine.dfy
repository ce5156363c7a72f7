/** Blanks in front of a command are invisible to the parser of cmds/rush/parse.go, except where its test on the first
    token sees a difference; command lines written without them are read back. */
module RushLine {
  import opened Common
  import opened RushParse
  import opened RushPrint

  /** The first token makes the parser return no command at all. */
  predicate StartsNothing(r: string) {
    Tok(r).Done? && (Tok(r).value.EndOfInput? || Tok(r).value.EndOfLine? || Tok(r).value == Arg("\n"))
  }

  lemma BlankToken(b: char, r: string)
    requires b == ' ' || b == '\t'
    ensures Tok([b] + r) == Done(White(b), r)
  {
    assert ([b] + r)[1..] == r;
  }

  /** Behind a blank there is always a command, if only an empty one. */
  lemma BlankStarts(b: char, r: string)
    requires b == ' ' || b == '\t'
    ensures ParseString([b] + r) == match ParseRest(r, NewCommand)
                                    case Done((c, st), r1) => Done((Some(c), st), r1)
                                    case Panics => Panics
                                    case Hangs => Hangs
                                    case NeedsEnv => NeedsEnv
  {
    BlankToken(b, r);
  }

  lemma BlankSkipped(b: char, r: string)
    requires (b == ' ' || b == '\t') && !StartsNothing(r)
    ensures ParseString([b] + r) == ParseString(r)
  {
    BlankStarts(b, r);
  }

  lemma CommandsSkipBlank(b: char, r: string)
    requires (b == ' ' || b == '\t') && !StartsNothing(r)
    ensures ParseCommands([b] + r) == ParseCommands(r)
  {
    BlankSkipped(b, r);
    var o := ParseString(r);
    if o.Done? && o.value.0.Some? && !EndsLine(o.value.1) && |o.rest| >= |r| {
      NoProgressRepeats(r);
    }
  }

  lemma BlankGivesCommand(b: char, r: string)
    requires b == ' ' || b == '\t'
    ensures ParseCommands([b] + r).Done? ==> ParseCommands([b] + r).value.0 != []
  {
    BlankStarts(b, r);
  }

  /** A blank in front of a line changes nothing, except when the line starts with its end or with a quoted newline. */
  lemma BlankInvisibleExactly(b: char, r: string)
    requires b == ' ' || b == '\t'
    ensures ParseCommands([b] + r) == ParseCommands(r) <==> !StartsNothing(r)
  {
    if StartsNothing(r) {
      BlankGivesCommand(b, r);
    } else {
      CommandsSkipBlank(b, r);
    }
  }

  // ---------------------------------------------------------------------------------------------
  // Lines without blanks in front of the commands.
  // ---------------------------------------------------------------------------------------------

  /** Each command has a name. */
  predicate AllNamed(cs: seq<Command>) {
    forall i :: 0 <= i < |cs| ==> cs[i].args != []
  }

  /** What follows the name of a command. */
  function Behind(c: Command): string
    requires GoodCommand(c) && c.args != []
  {
    PrintArgs(c.args[1..]) + (PrintRedirect('<', 0, c.fdmap) + (PrintRedirect('>', 1, c.fdmap) + Terminator(c)))
  }

  function Tight(c: Command): string
    requires GoodCommand(c) && c.args != []
  {
    ArgText(c.args[0]) + Behind(c)
  }

  function PrintTight(cs: seq<Command>): string
    requires AllGood(cs) && AllNamed(cs)
  {
    if cs == [] then "\n" else Tight(cs[0]) + PrintTight(cs[1..])
  }

  lemma TightIsPrinted(c: Command, rest: string)
    requires GoodCommand(c) && c.args != []
    ensures PrintCommand(c) + rest == " " + (" " + (Tight(c) + rest))
  {
    var a, more := ArgText(c.args[0]), PrintArgs(c.args[1..]);
    var tail := PrintRedirect('<', 0, c.fdmap) + (PrintRedirect('>', 1, c.fdmap) + Terminator(c));
    Assoc(" " + a, more, tail);
    Assoc(" ", a, more + tail);
    Assoc(" ", " " + (a + (more + tail)), rest);
    Assoc(" ", a + (more + tail), rest);
  }

  lemma BehindEndsWord(c: Command, rest: string)
    requires GoodCommand(c) && c.args != [] && EndsWord(Terminator(c) + rest)
    ensures EndsWord(Behind(c) + rest)
  {
    var o, i := PrintRedirect('>', 1, c.fdmap), PrintRedirect('<', 0, c.fdmap);
    var t := Terminator(c);
    Assoc(o, t, rest);
    Assoc(i, o + t, rest);
    Assoc(PrintArgs(c.args[1..]), i + (o + t), rest);
    RedirectEndsWord('>', 1, c.fdmap, t + rest);
    RedirectEndsWord('<', 0, c.fdmap, (o + t) + rest);
    ArgsEndWord(c.args[1..], (i + (o + t)) + rest);
  }

  lemma RedirectEndsWord(sign: char, fd: nat, fdmap: map<nat, string>, rest: string)
    requires FdsOk(fdmap) && EndsWord(rest)
    ensures EndsWord(PrintRedirect(sign, fd, fdmap) + rest)
  {
    if fd !in fdmap {
      assert "" + rest == rest;
    }
  }

  /** The first token of a command written tightly is its name. */
  lemma TightToken(c: Command, rest: string)
    requires GoodCommand(c) && c.args != [] && EndsWord(Terminator(c) + rest)
    ensures Tok(Tight(c) + rest) == Done(Arg(c.args[0]), Behind(c) + rest)
  {
    BehindEndsWord(c, rest);
    TokArg(c.args[0], Behind(c) + rest);
    Assoc(ArgText(c.args[0]), Behind(c), rest);
  }

  lemma NameStarts(a: string, rest: string)
    requires ArgOk(a)
    ensures ArgText(a) != "" && (ArgText(a) + rest)[0] !in ['|', '&']
  {
    if '\'' in a {
      WordByte(a);
    }
  }

  /** A tight line does not start with a sign that would double the one before it. */
  lemma LineStarts(cs: seq<Command>, rest: string)
    requires AllGood(cs) && AllNamed(cs)
    ensures |PrintTight(cs) + rest| >= 1 && (PrintTight(cs) + rest)[0] !in ['|', '&']
    ensures cs == [] ==> PrintTight(cs) + rest == "\n" + rest
  {
    if cs != [] {
      var a := cs[0].args[0];
      NameStarts(a, Behind(cs[0]) + (PrintTight(cs[1..]) + rest));
      Assoc(Tight(cs[0]), PrintTight(cs[1..]), rest);
      Assoc(ArgText(a), Behind(cs[0]), PrintTight(cs[1..]) + rest);
    }
  }

  lemma ParseTight(c: Command, next: char, rest: string)
    requires GoodCommand(c) && c.args != [] && c.args[0] != "\n"
    requires next !in ['|', '&'] && (Continues(c) || next == '\n')
    ensures ParseString(Tight(c) + ([next] + rest)) == ParseString(PrintCommand(c) + ([next] + rest))
  {
    var r := Tight(c) + ([next] + rest);
    TightIsPrinted(c, [next] + rest);
    TightToken(c, [next] + rest);
    BlankSkipped(' ', r);
    BlankToken(' ', r);
    BlankSkipped(' ', " " + r);
  }

  /** A first command whose name is a newline ends the line there. */
  lemma NewlineEnds(c: Command, rest: string)
    requires GoodCommand(c) && c.args != [] && c.args[0] == "\n" && EndsWord(Terminator(c) + rest)
    ensures ParseCommands(Tight(c) + rest) == Done(([], StatusArg), Behind(c) + rest)
  {
    TightToken(c, rest);
  }

  predicate NoNewlineNames(cs: seq<Command>) {
    forall i :: 0 <= i < |cs| && cs[i].args != [] ==> cs[i].args[0] != "\n"
  }

  lemma TightLinked(c: Command, more: string)
    requires GoodCommand(c) && c.args != [] && c.args[0] != "\n" && Continues(c)
    requires more != "" && more[0] !in ['|', '&']
    ensures ParseString(Tight(c) + more) == Done((Some(c), if c.bg then StatusBackground else StatusLink), more)
  {
    assert [more[0]] + more[1..] == more;
    ParsePrinted(c, more[0], more[1..]);
    ParseTight(c, more[0], more[1..]);
  }

  lemma TightLonger(c: Command, more: string)
    requires GoodCommand(c) && c.args != []
    ensures |Tight(c) + more| > |more|
  {
    NameStarts(c.args[0], "");
  }

  /** One command of a tight line, given what the commands behind it mean. */
  lemma TightStep(c: Command, more: string, o: Outcome<(seq<Command>, Status)>)
    requires GoodCommand(c) && c.args != [] && c.args[0] != "\n" && Continues(c)
    requires more != "" && more[0] !in ['|', '&'] && ParseCommands(more) == o && o.Done?
    ensures ParseCommands(Tight(c) + more) == Done(([c] + o.value.0, o.value.1), o.rest)
  {
    TightLinked(c, more);
    TightLonger(c, more);
  }

  lemma TightLast(c: Command, rest: string)
    requires GoodCommand(c) && c.args != [] && c.args[0] != "\n" && !Continues(c)
    ensures ParseCommands(Tight(c) + ("\n" + rest)) == Done(([c], StatusEOL), rest)
  {
    ParsePrinted(c, '\n', rest);
    ParseTight(c, '\n', rest);
  }

  lemma TightLastEnd(c: Command)
    requires GoodCommand(c) && c.args != [] && c.args[0] != "\n" && !Continues(c)
    ensures ParseCommands(Tight(c)) == Done(([c], StatusEOF), "")
  {
    var r := Tight(c);
    assert PrintCommand(c) + "" == PrintCommand(c) && r + "" == r && Terminator(c) + "" == "";
    TightIsPrinted(c, "");
    TightToken(c, "");
    BlankSkipped(' ', r);
    BlankToken(' ', r);
    BlankSkipped(' ', " " + r);
    ParsePrintedEnd(c);
  }

  lemma TightEndsWord(cs: seq<Command>, rest: string)
    requires GoodCommands(cs) && AllNamed(cs) && cs != []
    ensures EndsWord(Terminator(cs[0]) + (PrintTight(cs[1..]) + rest))
  {
    LineStarts(cs[1..], rest);
  }

  /** A line written without blanks in front of its commands is read back, unless a command's name is a newline; then
      the parser stops in front of that command. */
  lemma {:induction false} TightRoundTrip(cs: seq<Command>, rest: string)
    requires GoodCommands(cs) && AllNamed(cs)
    ensures var o := ParseCommands(PrintTight(cs) + rest);
            o.Done? && (if NoNewlineNames(cs) then o == Done((cs, StatusEOL), rest) else o.value.1 == StatusArg)
    decreases |cs|
  {
    if cs == [] {
      TokChar('\n', rest);
    } else {
      TightFirst(cs, rest);
      if cs[0].args[0] != "\n" && Continues(cs[0]) {
        TightRoundTrip(cs[1..], rest);
        NamesCons(cs);
      } else if cs[0].args[0] != "\n" {
        assert cs == [cs[0]];
      }
    }
  }

  /** The first command of a tight line, and what follows it. */
  lemma TightFirst(cs: seq<Command>, rest: string)
    requires GoodCommands(cs) && AllNamed(cs) && cs != []
    ensures var c, o, more := cs[0], ParseCommands(PrintTight(cs) + rest), ParseCommands(PrintTight(cs[1..]) + rest);
            if c.args[0] == "\n" then o.Done? && o.value.1 == StatusArg
            else if !Continues(c) then o == Done(([c], StatusEOL), rest)
            else more.Done? ==> o == Done(([c] + more.value.0, more.value.1), more.rest)
  {
    var c, tail := cs[0], cs[1..];
    var more := PrintTight(tail) + rest;
    Assoc(Tight(c), PrintTight(tail), rest);
    LineStarts(tail, rest);
    TightEndsWord(cs, rest);
    if c.args[0] == "\n" {
      NewlineEnds(c, more);
    } else if !Continues(c) {
      assert tail == [];
      TightLast(c, rest);
    } else if ParseCommands(more).Done? {
      TightStep(c, more, ParseCommands(more));
    }
  }

  /** The same line without its newline, at the end of the input. */
  function PrintLast(cs: seq<Command>): string
    requires AllGood(cs) && AllNamed(cs)
  {
    if cs == [] then "" else Tight(cs[0]) + PrintLast(cs[1..])
  }

  lemma LastStarts(cs: seq<Command>)
    requires AllGood(cs) && AllNamed(cs) && cs != []
    ensures PrintLast(cs) != "" && PrintLast(cs)[0] !in ['|', '&']
  {
    var a := cs[0].args[0];
    NameStarts(a, Behind(cs[0]) + PrintLast(cs[1..]));
    Assoc(ArgText(a), Behind(cs[0]), PrintLast(cs[1..]));
  }

  /** A line that the end of the input ends is read like one that a newline ends, if its last command ends there. */
  lemma {:induction false} LastLineRoundTrip(cs: seq<Command>)
    requires GoodCommands(cs) && AllNamed(cs) && NoNewlineNames(cs) && (cs != [] ==> !Continues(cs[|cs| - 1]))
    ensures ParseCommands(PrintLast(cs)) == Done((cs, StatusEOF), "")
    decreases |cs|
  {
    if |cs| == 1 {
      assert Tight(cs[0]) + "" == Tight(cs[0]) && cs == [cs[0]];
      TightLastEnd(cs[0]);
    } else if |cs| > 1 {
      NamesCons(cs);
      LastLineRoundTrip(cs[1..]);
      LastStarts(cs[1..]);
      TightStep(cs[0], PrintLast(cs[1..]), ParseCommands(PrintLast(cs[1..])));
    }
  }

  lemma NamesCons(cs: seq<Command>)
    requires cs != [] && cs[0].args != [] && cs[0].args[0] != "\n"
    ensures NoNewlineNames(cs) <==> NoNewlineNames(cs[1..])
    ensures [cs[0]] + cs[1..] == cs
  {
    assert forall i :: 0 < i < |cs| ==> cs[i] == cs[1..][i - 1];
  }

  // ---------------------------------------------------------------------------------------------
  // The escape.
  // ---------------------------------------------------------------------------------------------

  lemma NextSkips(c: char, r: string)
    requires c != '\\'
    ensures Next(['\\', c] + r) == Next([c] + r)
  {
    assert (['\\', c] + r)[1..] == [c] + r;
  }

  /** A backslash protects nothing but another backslash: in front of any other character, a space, a quote or a pipe
      among them, the token is the one without it.  The same holds inside words and inside quotes. */
  lemma EscapeProtectsNothing(c: char, r: string)
    requires c != '\\'
    ensures Tok(['\\', c] + r) == Tok([c] + r) && Quoted(['\\', c] + r) == Quoted([c] + r)
    ensures forall d :: d != '\0' && d !in PUNCT ==> Word(d, ['\\', c] + r) == Word(d, [c] + r)
  {
    NextSkips(c, r);
  }

  lemma NextEscapes(r: string)
    ensures Next("\\\\" + r) == ('\\', r)
  {
    assert ("\\\\" + r)[1..] == "\\" + r && ("\\" + r)[1..] == r;
  }

  /** A doubled one is a backslash in words and quotes. */
  lemma EscapedBackslash(r: string)
    ensures Quoted("\\\\" + r) == match Quoted(r) case Done(w, rest) => Done("\\" + w, rest) case _ => Hangs
    ensures var (w, rest) := Word(Next(r).0, Next(r).1); Tok("\\\\" + r) == Done(Arg("\\" + w), rest)
  {
    NextEscapes(r);
  }
}
