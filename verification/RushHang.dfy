/** The lines on which the parser of cmds/rush/parse.go returns, panics or never returns, and those it cannot decide
    alone. */
module RushHang {
  import opened RushParse

  /** Where a reader of the text stands: before the first token of a command, between its tokens, behind a
      redirection, in a word, or in quotes.  Quotes that open a command and hold just a newline are told apart. */
  datatype Mode = Start | Between | Target | InWord | InQuote | FirstQuote | NewlineQuote

  /** The characters that end a word. */
  predicate Punctuation(c: char) {
    c in ['<', '>', '|', '&', '$', ' ', '\t', '\n']
  }

  /** What becomes of a line: the parser returns, it panics, it never returns, or it reads an environment file, whose
      contents decide. */
  datatype Fate = Ends | Fails | Loops | AsksEnv

  /** The fate of a text, read from left to right with the escape rule.  It loops when it ends inside quotes or in a
      pipe or ampersand that is its last character, and it fails at a redirection without a target.  A line end, a
      zero byte between words and a command that starts with a quoted newline end it before that, and a `$` makes it
      depend on the environment. */
  function FateOf(r: string, m: Mode): Fate
    decreases |r|, 0
  {
    if r == "" then
      if m.InQuote? || m.FirstQuote? || m.NewlineQuote? then Loops else if m.Target? then Fails else Ends
    else
      var (c, more) := Next(r);
      match m
      case InQuote => FateOf(more, if c == '\'' then Between else InQuote)
      case FirstQuote =>
        FateOf(more, if c == '\'' then Between else if c == '\n' then NewlineQuote else InQuote)
      case NewlineQuote => if c == '\'' then Ends else FateOf(more, InQuote)
      case InWord =>
        if c == '\0' then FateOf(more, Between)
        else if Punctuation(c) then Sign(c, more, Between)
        else FateOf(more, InWord)
      case _ =>
        if c == '\0' then (if m.Target? then Fails else Ends)
        else if c == '\'' then FateOf(more, if m.Start? then FirstQuote else InQuote)
        else if Punctuation(c) then Sign(c, more, m)
        else FateOf(more, InWord)
  }

  /** The same behind a punctuation character. */
  function Sign(c: char, more: string, m: Mode): Fate
    decreases |more|, 1
  {
    if c == '\n' then (if m.Target? then Fails else Ends)
    else if c == ' ' || c == '\t' then FateOf(more, if m.Target? then Target else Between)
    else if m.Target? then Fails
    else if c == '$' then AsksEnv
    else if c == '<' || c == '>' then FateOf(more, Target)
    else if more == "" then Loops
    else FateOf(if more[0] == c then more[1..] else more, Start)
  }

  function FateOfOutcome<T>(o: Outcome<T>): Fate {
    match o
    case Hangs => Loops
    case NeedsEnv => AsksEnv
    case Panics => Fails
    case Done(_, _) => Ends
  }

  // ---------------------------------------------------------------------------------------------
  // Token by token.
  // ---------------------------------------------------------------------------------------------

  lemma Pushed(c: char, more: string)
    requires c in PUNCT
    ensures FateOf([c] + more, Between) == Sign(c, more, Between)
  {
    assert ([c] + more)[1..] == more;
  }

  lemma {:induction false} WordScanned(c: char, r: string)
    requires c != '\0' && c !in PUNCT
    ensures FateOf(r, InWord) == FateOf(Word(c, r).1, Between)
    decreases |r|
  {
    var (c1, r1) := Next(r);
    if r == "" {
    } else if c1 == '\0' {
    } else if c1 in PUNCT {
      Pushed(c1, r1);
    } else {
      WordScanned(c1, r1);
    }
  }

  lemma {:induction false} QuoteScanned(r: string)
    ensures FateOf(r, InQuote) == if Quoted(r).Done? then FateOf(Quoted(r).rest, Between) else Loops
    decreases |r|
  {
    if r != "" && Next(r).0 != '\'' {
      QuoteScanned(Next(r).1);
    }
  }

  lemma OnlyNewline(c: char, w: string)
    ensures ByteString(c) + w == "\n" <==> c == '\n' && w == ""
  {
    var s := ByteString(c) + w;
    assert s[0] == ByteString(c)[0] && |s| == |ByteString(c)| + |w|;
    assert s == "\n" ==> w == "";
  }

  lemma EmptyQuote(r: string)
    requires Quoted(r).Done?
    ensures Quoted(r).value == "" <==> Next(r).0 == '\''
  {
  }

  /** Quotes that hold just a newline. */
  lemma FirstQuoteScanned(r: string)
    ensures FateOf(r, FirstQuote)
         == if !Quoted(r).Done? then Loops
            else if Quoted(r).value == "\n" then Ends else FateOf(Quoted(r).rest, Between)
  {
    if r != "" {
      var (c, r1) := Next(r);
      if c != '\'' {
        QuoteScanned(r1);
        if Quoted(r1).Done? {
          OnlyNewline(c, Quoted(r1).value);
          EmptyQuote(r1);
        }
      }
    }
  }

  lemma WordIsNoNewline(c: char, r: string)
    requires c != '\0' && c !in PUNCT
    ensures Word(c, r).0 != "\n"
  {
    OnlyNewline(c, Word(Next(r).0, Next(r).1).0);
  }

  /** What a token contributes, by the mode it is read in. */
  function AfterToken(o: Outcome<Token>, m: Mode): Fate {
    match o
    case Done(Arg(s), rest) => if m.Start? && s == "\n" then Ends else FateOf(rest, Between)
    case Done(White(_), rest) => FateOf(rest, if m.Target? then Target else Between)
    case Done(Redirect(_), rest) => if m.Target? then Fails else FateOf(rest, Target)
    case Done(Link(_), rest) => if m.Target? then Fails else FateOf(rest, Start)
    case Done(Background, rest) => if m.Target? then Fails else FateOf(rest, Start)
    case Done(Env(_), _) => if m.Target? then Fails else AsksEnv
    case Done(_, _) => if m.Target? then Fails else Ends
    case _ => FateOfOutcome(o)
  }

  lemma LoneSign(c: char)
    requires c == '|' || c == '&'
    ensures FateOf([c], Start) == Loops
  {
    assert [c][1..] == "";
  }

  predicate AtToken(m: Mode) {
    m.Start? || m.Between? || m.Target?
  }

  lemma QuoteToken(r: string, m: Mode)
    requires AtToken(m) && r != "" && Next(r).0 == '\''
    ensures FateOf(r, m) == AfterToken(Tok(r), m)
  {
    if m.Start? {
      FirstQuoteScanned(Next(r).1);
    } else {
      QuoteScanned(Next(r).1);
    }
  }

  lemma WordToken(r: string, m: Mode)
    requires AtToken(m) && r != "" && Next(r).0 != '\0' && Next(r).0 != '\'' && Next(r).0 !in PUNCT
    ensures FateOf(r, m) == AfterToken(Tok(r), m)
  {
    WordScanned(Next(r).0, Next(r).1);
    WordIsNoNewline(Next(r).0, Next(r).1);
  }

  lemma LinkRest(c: char, more: string)
    requires c == '|' || c == '&'
    ensures var (t, rest) := LinkOrBackground(c, more);
            && (t.Link? || t.Background?)
            && FateOf(rest, Start) == if more == "" then Loops
                                      else FateOf(if more[0] == c then more[1..] else more, Start)
  {
    LoneSign(c);
  }

  lemma LinkToken(r: string, m: Mode)
    requires AtToken(m) && r != "" && (Next(r).0 == '|' || Next(r).0 == '&')
    ensures FateOf(r, m) == AfterToken(Tok(r), m)
  {
    var (c, more) := Next(r);
    LinkRest(c, more);
    var (t, rest) := LinkOrBackground(c, more);
    assert Tok(r) == Done(t, rest);
    assert FateOf(r, m) == Sign(c, more, m);
  }

  lemma SignToken(r: string, m: Mode)
    requires AtToken(m) && r != "" && Next(r).0 in PUNCT && Next(r).0 != '|' && Next(r).0 != '&'
    ensures FateOf(r, m) == AfterToken(Tok(r), m)
  {
    var (c, more) := Next(r);
    assert FateOf(r, m) == Sign(c, more, m);
  }

  lemma TokenScanned(r: string, m: Mode)
    requires AtToken(m)
    ensures FateOf(r, m) == AfterToken(Tok(r), m)
  {
    if r != "" {
      var c := Next(r).0;
      if c == '\'' {
        QuoteToken(r, m);
      } else if c == '|' || c == '&' {
        LinkToken(r, m);
      } else if c in PUNCT {
        SignToken(r, m);
      } else if c != '\0' {
        WordToken(r, m);
      }
    }
  }

  lemma {:induction false} TargetScanned(r: string)
    ensures FateOf(r, Target) == if GetArg(r).Done? then FateOf(GetArg(r).rest, Between) else FateOfOutcome(GetArg(r))
    decreases |r|
  {
    TokenScanned(r, Target);
    TokShortens(r);
    if Tok(r).Done? && Tok(r).value.White? {
      TargetScanned(Tok(r).rest);
    }
  }

  // ---------------------------------------------------------------------------------------------
  // Command by command.
  // ---------------------------------------------------------------------------------------------

  function LineFate(r: string): Fate {
    FateOfOutcome(ParseCommands(r))
  }

  /** The fate of the rest of a command and of what follows it. */
  function RestFate(o: Outcome<(Command, Status)>): Fate {
    if o.Done? then (if EndsLine(o.value.1) then Ends else LineFate(o.rest)) else FateOfOutcome(o)
  }

  /** The fate of a line is that of its first command, or of what follows it. */
  lemma FirstCommandFate(r: string)
    ensures var o := ParseString(r);
            LineFate(r) == if !o.Done? then FateOfOutcome(o)
                           else if o.value.0.None? || EndsLine(o.value.1) then Ends else LineFate(o.rest)
  {
    if ParseString(r).Done? && ParseString(r).value.0.Some? && !EndsLine(ParseString(r).value.1)
       && |ParseString(r).rest| >= |r| {
      NoProgressRepeats(r);
    }
  }

  lemma {:induction false} RestScanned(r: string, c: Command)
    ensures FateOf(r, Between) == RestFate(ParseRest(r, c))
    decreases |r|, 1
  {
    TokenScanned(r, Between);
    TokShortens(r);
    match Tok(r) {
      case Done(Arg(s), r1) => RestScanned(r1, c.(args := c.args + [s]));
      case Done(White(_), r1) => RestScanned(r1, c);
      case Done(Redirect(fd), r1) =>
        TargetScanned(r1);
        GetArgShortens(r1);
        if GetArg(r1).Done? {
          RestScanned(GetArg(r1).rest, c.(fdmap := c.fdmap[fd := GetArg(r1).value]));
        }
      case Done(Link(s), r1) => SignScanned(r, r1);
      case Done(Background, r1) => SignScanned(r, r1);
      case _ =>
    }
  }

  /** Behind a link the next command starts; a lone sign at the end starts it again and again. */
  lemma {:induction false} SignScanned(r: string, rest: string)
    requires Tok(r).Done? && Tok(r).rest == rest && (Tok(r).value.Link? || Tok(r).value.Background?)
    ensures FateOf(rest, Start) == LineFate(rest)
    decreases |r|, 0
  {
    if |rest| < |r| {
      LineScanned(rest);
    } else {
      var c := r[0];
      assert r == [c] == rest && (c == '|' || c == '&');
      LoneSign(c);
    }
  }

  lemma {:induction false} LineScanned(r: string)
    ensures FateOf(r, Start) == LineFate(r)
    decreases |r|, 2
  {
    FirstCommandFate(r);
    TokenScanned(r, Start);
    TokenScanned(r, Between);
    RestScanned(r, NewCommand);
  }

  /** The parser fails to return from exactly these texts, panics on exactly those, and asks for the environment on
      exactly the others on which it does not return; what it does then is not decided here, since it depends on the
      files it reads. */
  lemma HangsExactly(r: string)
    ensures ParseCommands(r).Hangs? <==> FateOf(r, Start) == Loops
    ensures ParseCommands(r).Panics? <==> FateOf(r, Start) == Fails
    ensures ParseCommands(r).NeedsEnv? <==> FateOf(r, Start) == AsksEnv
    ensures ParseCommands(r).Done? <==> FateOf(r, Start) == Ends
  {
    LineScanned(r);
  }

  /** A pipe or an ampersand at the end of the input. */
  lemma LoneSignHangs()
    ensures ParseCommands("|").Hangs? && ParseCommands("&").Hangs?
  {
    LoneSign('|');
    LoneSign('&');
    HangsExactly("|");
    HangsExactly("&");
  }

  /** A quote that a newline does not close. */
  lemma OpenQuoteHangs()
    ensures ParseCommands("'\n").Hangs?
  {
    assert "'\n"[1..] == "\n" && "\n"[1..] == "";
    assert FateOf("\n", FirstQuote) == Loops;
    HangsExactly("'\n");
  }

  /** Not every line that ends in a pipe hangs: a doubled one ends the line. */
  lemma DoublePipeReturns()
    ensures ParseCommands("||").Done?
  {
    assert "||"[1..] == "|" && "|"[1..] == "";
    assert Tok("||") == Done(Link("||"), "");
    assert ParseCommands("").Done?;
  }

  /** And behind a redirection it is an error. */
  lemma PipeAsTargetPanics()
    ensures ParseCommands(">|").Panics?
  {
    assert ">|"[1..] == "|" && "|"[1..] == "";
    assert Tok(">|") == Done(Redirect(1), "|");
    assert Tok("|").Done? && Tok("|").value.Link?;
    assert GetArg("|").Panics?;
  }
}
