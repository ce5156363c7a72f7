/** The parser of cmds/rush/parse.go on a reader with a position and one byte of pushback. */
module RushScan {
  import opened Common
  import opened RushParse

  /** How a call ended. */
  datatype Signal = Fine | Panicked | Hung | EnvNeeded

  function SignalOf<T>(o: Outcome<T>): Signal {
    match o
    case Done(_, _) => Fine
    case Panics => Panicked
    case Hangs => Hung
    case NeedsEnv => EnvNeeded
  }

  /** Text read earlier in front of a result. */
  function Before<T>(w: seq<T>, o: Outcome<seq<T>>): Outcome<seq<T>> {
    if o.Done? then Done(w + o.value, o.rest) else o
  }

  lemma BeforeNothing<T>(o: Outcome<seq<T>>)
    ensures Before([], o) == o
  {
    assert o.Done? ==> [] + o.value == o.value;
  }

  lemma BeforeTwice<T>(v: seq<T>, w: seq<T>, o: Outcome<seq<T>>)
    ensures Before(v, Before(w, o)) == Before(v + w, o)
  {
    assert o.Done? ==> v + (w + o.value) == (v + w) + o.value;
  }

  function WordOutcome(c: char, r: string): Outcome<string> {
    Done(Word(c, r).0, Word(c, r).1)
  }

  /** The commands and their status, seen as a result whose value is the list of commands. */
  function Listed(o: Outcome<(seq<Command>, Status)>): Outcome<seq<Command>> {
    match o
    case Done((cs, _), r) => Done(cs, r)
    case Panics => Panics
    case Hangs => Hangs
    case NeedsEnv => NeedsEnv
  }

  /** What the token loop does with a token already in hand. */
  function After(t: Token, r: string, c: Command): Outcome<(Command, Status)> {
    match t
    case Arg(s) => ParseRest(r, c.(args := c.args + [s]))
    case White(_) => ParseRest(r, c)
    case Redirect(fd) =>
      (match GetArg(r)
       case Done(s, r1) => ParseRest(r1, c.(fdmap := c.fdmap[fd := s]))
       case Panics => Panics
       case Hangs => Hangs
       case NeedsEnv => NeedsEnv)
    case Env(_) => NeedsEnv
    case Link(s) => Done((c.(link := s), StatusLink), r)
    case Background => Done((c.(bg := true), StatusBackground), r)
    case EndOfInput => Done((c, StatusEOF), r)
    case EndOfLine => Done((c, StatusEOL), r)
  }

  lemma AfterToken(r: string, c: Command)
    ensures ParseRest(r, c) == match Tok(r)
                               case Done(t, r1) => After(t, r1, c)
                               case Panics => Panics
                               case Hangs => Hangs
                               case NeedsEnv => NeedsEnv
  {
  }

  class Scanner {
    const input: string
    var pos: nat

    constructor (input: string)
      ensures Valid() && this.input == input && Rest() == input
    {
      this.input, pos := input, 0;
    }

    ghost predicate Valid()
      reads this
    {
      pos <= |input|
    }

    ghost function Rest(): string
      requires Valid()
      reads this
    {
      input[pos..]
    }

    method ReadOne() returns (c: char)
      requires Valid()
      modifies this
      ensures Valid() && (c, Rest()) == One(old(Rest()))
      ensures pos == if old(Rest()) == "" then old(pos) else old(pos) + 1
      ensures old(Rest()) != "" ==> input[pos - 1] == c
    {
      if pos == |input| {
        return '\0';
      }
      c := input[pos];
      pos := pos + 1;
    }

    /** Unreads the byte read last. */
    method Pushback()
      requires Valid() && pos > 0
      modifies this
      ensures Valid() && pos == old(pos) - 1 && Rest() == [input[pos]] + old(Rest())
    {
      pos := pos - 1;
    }

    method ReadNext() returns (c: char)
      requires Valid()
      modifies this
      ensures Valid() && (c, Rest()) == Next(old(Rest()))
      ensures c != '\0' ==> pos > 0 && input[pos - 1] == c
    {
      c := ReadOne();
      if c == '\\' {
        c := ReadOne();
      }
    }

    /** The word loop, entered with the byte `first` in hand. */
    method ReadWord(first: char) returns (w: string)
      requires Valid() && (first != '\0' ==> pos > 0 && input[pos - 1] == first)
      modifies this
      ensures Valid() && (w, Rest()) == Word(first, old(Rest()))
    {
      w := "";
      var c := first;
      BeforeNothing(WordOutcome(first, Rest()));
      while c != '\0' && c !in PUNCT
        invariant Valid() && (c != '\0' ==> pos > 0 && input[pos - 1] == c)
        invariant WordOutcome(first, old(Rest())) == Before(w, WordOutcome(c, Rest()))
        decreases |Rest()|, if c == '\0' then 0 else 1
      {
        var next := ReadNext();
        BeforeTwice(w, ByteString(c), WordOutcome(next, Rest()));
        w := w + ByteString(c);
        c := next;
      }
      assert w + "" == w;
      if c != '\0' {
        Pushback();
      }
    }

    /** The quote loop; at the end of the input it would go on for ever. */
    method ReadQuoted() returns (sig: Signal, w: string)
      requires Valid()
      modifies this
      ensures Valid() && sig == SignalOf(Quoted(old(Rest())))
      ensures sig.Fine? ==> Quoted(old(Rest())) == Done(w, Rest())
    {
      w := "";
      BeforeNothing(Quoted(Rest()));
      while pos < |input|
        invariant Valid() && Quoted(old(Rest())) == Before(w, Quoted(Rest()))
        decreases |input| - pos
      {
        var c := ReadNext();
        if c == '\'' {
          assert w + "" == w;
          return Fine, w;
        }
        BeforeTwice(w, ByteString(c), Quoted(Rest()));
        w := w + ByteString(c);
      }
      sig := Hung;
    }

    method ReadToken() returns (sig: Signal, t: Token)
      requires Valid()
      modifies this
      ensures Valid() && sig == SignalOf(Tok(old(Rest())))
      ensures sig.Fine? ==> Tok(old(Rest())) == Done(t, Rest())
    {
      sig := Fine;
      var c := ReadNext();
      if c == '\0' {
        t := EndOfInput;
      } else if c == '>' {
        t := Redirect(1);
      } else if c == '<' {
        t := Redirect(0);
      } else if c == '$' {
        var c1 := ReadNext();
        var name := ReadWord(c1);
        t := Env(name);
      } else if c == '\'' {
        var s;
        sig, s := ReadQuoted();
        t := Arg(s);
      } else if c == ' ' || c == '\t' {
        t := White(c);
      } else if c == '\n' {
        t := EndOfLine;
      } else if c == '|' || c == '&' {
        t := ReadLink(c);
      } else {
        var w := ReadWord(c);
        t := Arg(w);
      }
    }

    method ReadLink(c: char) returns (t: Token)
      requires Valid() && pos > 0 && input[pos - 1] == c && (c == '|' || c == '&')
      modifies this
      ensures Valid() && (t, Rest()) == LinkOrBackground(c, old(Rest()))
    {
      var c1 := ReadOne();
      if c1 == c {
        return Link([c, c]);
      }
      Pushback();
      assert Rest() == if old(Rest()) == "" then [c] else old(Rest());
      t := if c == '&' then Background else Link([c]);
    }

    method ReadArg() returns (sig: Signal, s: string)
      requires Valid()
      modifies this
      ensures Valid() && sig == SignalOf(GetArg(old(Rest())))
      ensures sig.Fine? ==> GetArg(old(Rest())) == Done(s, Rest())
    {
      var t := White(' ');
      sig, s := Fine, "";
      while t.White?
        invariant Valid() && sig.Fine?
        invariant t.White? ==> GetArg(old(Rest())) == GetArg(Rest())
        invariant t.White? || (t.Arg? && GetArg(old(Rest())) == Done(t.s, Rest()))
        decreases |Rest()|, t.White?
      {
        TokShortens(Rest());
        sig, t := ReadToken();
        if !sig.Fine? {
          return;
        }
        if !t.White? && !t.Arg? {
          return Panicked, s;
        }
      }
      s := t.s;
    }

    /** The token loop for one command, entered with its first token in hand. */
    method ReadRest(first: Token) returns (sig: Signal, c: Command, st: Status)
      requires Valid()
      modifies this
      ensures Valid() && sig == SignalOf(After(first, old(Rest()), NewCommand))
      ensures sig.Fine? ==> After(first, old(Rest()), NewCommand) == Done((c, st), Rest())
    {
      c, st := NewCommand, StatusArg;
      var t := first;
      while true
        invariant Valid() && After(first, old(Rest()), NewCommand) == After(t, Rest(), c)
        decreases |Rest()|, if t.Arg? || t.White? || t.Redirect? then 1 else 0
      {
        match t {
          case Arg(s) => c := c.(args := c.args + [s]);
          case White(_) =>
          case Redirect(fd) =>
            GetArgShortens(Rest());
            var s;
            sig, s := ReadArg();
            if !sig.Fine? {
              return;
            }
            c := c.(fdmap := c.fdmap[fd := s]);
          case Env(_) => return EnvNeeded, c, st;
          case Link(s) => return Fine, c.(link := s), StatusLink;
          case Background => return Fine, c.(bg := true), StatusBackground;
          case EndOfInput => return Fine, c, StatusEOF;
          case EndOfLine => return Fine, c, StatusEOL;
        }
        TokShortens(Rest());
        AfterToken(Rest(), c);
        sig, t := ReadToken();
        if !sig.Fine? {
          return;
        }
      }
    }

    method ReadString() returns (sig: Signal, oc: Option<Command>, st: Status)
      requires Valid()
      modifies this
      ensures Valid() && sig == SignalOf(ParseString(old(Rest())))
      ensures sig.Fine? ==> ParseString(old(Rest())) == Done((oc, st), Rest())
    {
      oc, st := None, StatusArg;
      AfterToken(Rest(), NewCommand);
      var t;
      sig, t := ReadToken();
      if !sig.Fine? {
        return;
      }
      if t == EndOfInput {
        return Fine, None, StatusEOF;
      }
      if t == EndOfLine {
        return Fine, None, StatusEOL;
      }
      if t == Arg("\n") {
        return Fine, None, StatusArg;
      }
      var c;
      sig, c, st := ReadRest(t);
      oc := Some(c);
    }

    method ReadCommands() returns (sig: Signal, cs: seq<Command>, st: Status)
      requires Valid()
      modifies this
      ensures Valid() && sig == SignalOf(ParseCommands(old(Rest())))
      ensures sig.Fine? ==> ParseCommands(old(Rest())) == Done((cs, st), Rest())
    {
      cs, st := [], StatusArg;
      BeforeNothing(Listed(ParseCommands(Rest())));
      while true
        invariant Valid() && Listed(ParseCommands(old(Rest()))) == Before(cs, Listed(ParseCommands(Rest())))
        invariant ParseCommands(Rest()).Done? ==>
                    ParseCommands(old(Rest())).Done?
                    && ParseCommands(old(Rest())).value.1 == ParseCommands(Rest()).value.1
        decreases |Rest()|
      {
        var start := pos;
        var oc;
        sig, oc, st := ReadString();
        if !sig.Fine? {
          return;
        }
        if oc.None? {
          assert cs + [] == cs;
          return;
        }
        if pos > start {
          BeforeTwice(cs, [oc.value], Listed(ParseCommands(Rest())));
        }
        cs := cs + [oc.value];
        if EndsLine(st) {
          return;
        }
        if pos <= start {
          return Hung, cs, st;
        }
      }
    }
  }
}
