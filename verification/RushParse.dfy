/**
 The tokenizer and parser of the shell, cmds/rush/parse.go.  The functions describe them on the input
 that is still to be read; the class `Scanner` does the same with a position and a one-byte pushback.
 Input characters stand for bytes.
 */
module RushParse {
  import opened Common

  const PUNCT := "<>|&$ \t\n"

  /** `string(b)` for a byte b: bytes from 128 on become two. */
  function ByteString(c: char): string {
    if c < 128 as char then [c] else [(0xC0 + c as int / 64 % 4) as char, (0x80 + c as int % 64) as char]
  }

  datatype Token =
    | EndOfInput
    | EndOfLine
    | White(c: char)
    | Arg(s: string)
    | Env(name: string)
    | Redirect(fd: nat)
    | Link(s: string)
    | Background

  /** What a piece of the parser does on the rest of the input.  It may panic, it may never return, and
      what happens with an environment variable depends on files. */
  datatype Outcome<+T> = Done(value: T, rest: string) | Panics | Hangs | NeedsEnv

  // ---------------------------------------------------------------------------------------------
  // The tokenizer.
  // ---------------------------------------------------------------------------------------------

  /** One byte, or 0 at the end. */
  function One(r: string): (char, string) {
    if r == "" then ('\0', "") else (r[0], r[1..])
  }

  /** One byte, or the byte behind a backslash. */
  function Next(r: string): (char, string) {
    var (c, r1) := One(r);
    if c == '\\' then One(r1) else (c, r1)
  }

  /** The rest of a word whose next byte `c` has been read. */
  function Word(c: char, r: string): (string, string)
    decreases |r|, if c == '\0' then 0 else 1
  {
    if c == '\0' then ("", r)
    else if c in PUNCT then ("", [c] + r)
    else
      var (c1, r1) := Next(r);
      var (w, r2) := Word(c1, r1);
      (ByteString(c) + w, r2)
  }

  /** The text up to the closing quote; without one the loop never ends. */
  function Quoted(r: string): Outcome<string>
    decreases |r|
  {
    if r == "" then Hangs
    else
      var (c, r1) := Next(r);
      if c == '\'' then Done("", r1)
      else
        match Quoted(r1)
        case Done(w, r2) => Done(ByteString(c) + w, r2)
        case _ => Hangs
  }

  /** A pipe or an ampersand: doubled it links, single it is pushed back.  At the end of the input the
      byte that is pushed back is `c` itself. */
  function LinkOrBackground(c: char, r: string): (Token, string) {
    var (c1, r1) := One(r);
    if c1 == c then (Link([c, c]), r1)
    else
      var pushed := if r == "" then [c] else r;
      (if c == '&' then Background else Link([c]), pushed)
  }

  function Tok(r: string): Outcome<Token> {
    var (c, r1) := Next(r);
    if c == '\0' then Done(EndOfInput, r1)
    else if c == '>' then Done(Redirect(1), r1)
    else if c == '<' then Done(Redirect(0), r1)
    else if c == '$' then
      var (c1, r2) := Next(r1);
      var (name, r3) := Word(c1, r2);
      Done(Env(name), r3)
    else if c == '\'' then
      match Quoted(r1)
      case Done(s, r2) => Done(Arg(s), r2)
      case _ => Hangs
    else if c == ' ' || c == '\t' then Done(White(c), r1)
    else if c == '\n' then Done(EndOfLine, r1)
    else if c == '|' || c == '&' then
      var (t, r2) := LinkOrBackground(c, r1);
      Done(t, r2)
    else
      var (w, r2) := Word(c, r1);
      Done(Arg(w), r2)
  }

  lemma {:induction false} WordShortens(c: char, r: string)
    ensures |Word(c, r).1| <= |r| + 1
    ensures c !in PUNCT ==> |Word(c, r).1| <= |r|
    ensures c == '\0' ==> Word(c, r).1 == r
    decreases |r|, if c == '\0' then 0 else 1
  {
    if c != '\0' && c !in PUNCT {
      var (c1, r1) := Next(r);
      WordShortens(c1, r1);
    }
  }

  lemma {:induction false} QuotedShortens(r: string)
    ensures Quoted(r).Done? ==> |Quoted(r).rest| < |r|
    decreases |r|
  {
    if r != "" {
      QuotedShortens(Next(r).1);
    }
  }

  /** A token that is neither the end of the input nor a pipe or ampersand at its very end is consumed. */
  lemma TokShortens(r: string)
    ensures Tok(r).Done? ==> |Tok(r).rest| <= |r|
    ensures Tok(r).Done? && !Tok(r).value.EndOfInput? && !Tok(r).value.Link? && !Tok(r).value.Background? ==>
              |Tok(r).rest| < |r|
  {
    var (c, r1) := Next(r);
    if c == '$' {
      var (c1, r2) := Next(r1);
      WordShortens(c1, r2);
    } else if c == '\'' {
      QuotedShortens(r1);
    } else {
      WordShortens(c, r1);
    }
  }

  // ---------------------------------------------------------------------------------------------
  // The parser.
  // ---------------------------------------------------------------------------------------------

  /** What the parser fills in of a command. */
  datatype Command = Command(args: seq<string>, fdmap: map<nat, string>, link: string, bg: bool)

  const NewCommand := Command([], map[], "", false)

  /** The kind of token that ended a command. */
  datatype Status = StatusLink | StatusBackground | StatusEOF | StatusEOL | StatusArg

  /** The argument of a redirection: white space is skipped and anything else is an error. */
  function GetArg(r: string): Outcome<string>
    decreases |r|
  {
    TokShortens(r);
    match Tok(r)
    case Done(Arg(s), r1) => Done(s, r1)
    case Done(White(_), r1) => GetArg(r1)
    case Done(_, _) => Panics
    case Hangs => Hangs
    case Panics => Panics
    case NeedsEnv => NeedsEnv
  }

  lemma {:induction false} GetArgShortens(r: string)
    ensures GetArg(r).Done? ==> |GetArg(r).rest| < |r|
    decreases |r|
  {
    TokShortens(r);
    if Tok(r).Done? && Tok(r).value.White? {
      GetArgShortens(Tok(r).rest);
    }
  }

  /** The token loop of `parsestring` for the command `c`. */
  function ParseRest(r: string, c: Command): Outcome<(Command, Status)>
    decreases |r|
  {
    TokShortens(r);
    match Tok(r)
    case Done(Arg(s), r1) => ParseRest(r1, c.(args := c.args + [s]))
    case Done(White(_), r1) => ParseRest(r1, c)
    case Done(Redirect(fd), r1) =>
      (GetArgShortens(r1);
       match GetArg(r1)
       case Done(s, r2) => ParseRest(r2, c.(fdmap := c.fdmap[fd := s]))
       case Panics => Panics
       case Hangs => Hangs
       case NeedsEnv => NeedsEnv)
    case Done(Env(_), _) => NeedsEnv
    case Done(Link(s), r1) => Done((c.(link := s), StatusLink), r1)
    case Done(Background, r1) => Done((c.(bg := true), StatusBackground), r1)
    case Done(EndOfInput, r1) => Done((c, StatusEOF), r1)
    case Done(EndOfLine, r1) => Done((c, StatusEOL), r1)
    case Hangs => Hangs
    case Panics => Panics
    case NeedsEnv => NeedsEnv
  }

  /** One command, or none at the end of the line; a first token that is a quoted newline counts as none. */
  function ParseString(r: string): Outcome<(Option<Command>, Status)> {
    match Tok(r)
    case Done(EndOfInput, r1) => Done((None, StatusEOF), r1)
    case Done(EndOfLine, r1) => Done((None, StatusEOL), r1)
    case Done(Arg("\n"), r1) => Done((None, StatusArg), r1)
    case _ =>
      match ParseRest(r, NewCommand)
      case Done((c, st), r1) => Done((Some(c), st), r1)
      case Panics => Panics
      case Hangs => Hangs
      case NeedsEnv => NeedsEnv
  }

  predicate EndsLine(st: Status) {
    st.StatusEOF? || st.StatusEOL?
  }

  /** All commands of a line.  A command that consumed nothing is parsed again and again. */
  function ParseCommands(r: string): Outcome<(seq<Command>, Status)>
    decreases |r|
  {
    match ParseString(r)
    case Done((None, st), r1) => Done(([], st), r1)
    case Done((Some(c), st), r1) =>
      if EndsLine(st) then Done(([c], st), r1)
      else if |r1| >= |r| then Hangs
      else
        (match ParseCommands(r1)
         case Done((cs, st1), r2) => Done(([c] + cs, st1), r2)
         case Panics => Panics
         case Hangs => Hangs
         case NeedsEnv => NeedsEnv)
    case Panics => Panics
    case Hangs => Hangs
    case NeedsEnv => NeedsEnv
  }

  /** The loop that does not end sees the same input again: a lone pipe or ampersand. */
  lemma NoProgressRepeats(r: string)
    requires ParseString(r).Done? && ParseString(r).value.0.Some? && !EndsLine(ParseString(r).value.1)
    requires |ParseString(r).rest| >= |r|
    ensures ParseString(r).rest == r && (r == "|" || r == "&")
  {
    RestShortens(r, NewCommand);
  }

  lemma {:induction false} RestShortens(r: string, c: Command)
    ensures ParseRest(r, c).Done? ==> |ParseRest(r, c).rest| <= |r|
    ensures ParseRest(r, c).Done? && !EndsLine(ParseRest(r, c).value.1) && |ParseRest(r, c).rest| == |r| ==>
              ParseRest(r, c).rest == r && (r == "|" || r == "&")
    decreases |r|
  {
    TokShortens(r);
    match Tok(r) {
      case Done(Arg(s), r1) => RestShortens(r1, c.(args := c.args + [s]));
      case Done(White(_), r1) => RestShortens(r1, c);
      case Done(Redirect(fd), r1) =>
        GetArgShortens(r1);
        if GetArg(r1).Done? {
          RestShortens(GetArg(r1).rest, c.(fdmap := c.fdmap[fd := GetArg(r1).value]));
        }
      case _ =>
    }
  }
}
