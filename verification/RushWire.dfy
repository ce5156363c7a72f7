/** The rules a command list must pass, cmds/rush/parse.go, and how it is then connected, cmds/rush/rush.go. */
module RushWire {
  import opened Common
  import opened RushParse
  import opened RushScan

  datatype Rule = EmptyCommand | PipeAndRedirect | PipeToNowhere | PipeIntoRedirect

  /** `c.fdmap[fd]`; a missing entry reads as the empty string. */
  function Fd(c: Command, fd: nat): string {
    if fd in c.fdmap then c.fdmap[fd] else ""
  }

  /** The command line redirects this stream of the command. */
  predicate Redirects(c: Command, fd: nat) {
    fd in c.fdmap && c.fdmap[fd] != ""
  }

  /** The rule that command i breaks, if any; the rules are tried in this order. */
  function Broken(cs: seq<Command>, i: nat): Option<Rule>
    requires i < |cs|
  {
    if |cs[i].args| == 0 then Some(EmptyCommand)
    else if cs[i].link == "|" && Fd(cs[i], 1) != "" then Some(PipeAndRedirect)
    else if cs[i].link == "|" && i == |cs| - 1 then Some(PipeToNowhere)
    else if i < |cs| - 1 && cs[i].link == "|" && Fd(cs[i + 1], 0) != "" then Some(PipeIntoRedirect)
    else None
  }

  /** A pipe leads to a next command, and neither of its ends is redirected. */
  predicate PipesFit(cs: seq<Command>, i: nat)
    requires i < |cs|
  {
    cs[i].link == "|" ==> i + 1 < |cs| && Fd(cs[i], 1) == "" && Fd(cs[i + 1], 0) == ""
  }

  predicate Accepted(cs: seq<Command>) {
    forall i :: 0 <= i < |cs| ==> cs[i].args != [] && PipesFit(cs, i)
  }

  datatype Got =
    | Commands(cs: seq<Command>, st: Status)
    | Refused(rule: Rule)
    | SyntaxError
    | NeverReturns
    | ReadsEnv

  /** The first command that breaks a rule breaks this one. */
  ghost predicate FirstBroken(cs: seq<Command>, rule: Rule) {
    exists i :: 0 <= i < |cs| && Broken(cs, i) == Some(rule) && forall k :: 0 <= k < i ==> Broken(cs, k) == None
  }

  /** What it means for command i to break the rule. */
  predicate Offends(cs: seq<Command>, i: nat, rule: Rule)
    requires i < |cs|
  {
    match rule
    case EmptyCommand => cs[i].args == []
    case PipeAndRedirect => cs[i].link == "|" && Redirects(cs[i], 1)
    case PipeToNowhere => cs[i].link == "|" && i + 1 == |cs|
    case PipeIntoRedirect => cs[i].link == "|" && i + 1 < |cs| && Redirects(cs[i + 1], 0)
  }

  /** Command i breaks this rule and none of those that come before it. */
  predicate OffendsFirst(cs: seq<Command>, i: nat, rule: Rule)
    requires i < |cs|
  {
    && Offends(cs, i, rule)
    && (rule.EmptyCommand? || !Offends(cs, i, EmptyCommand))
    && (rule.PipeToNowhere? || rule.PipeIntoRedirect? ==> !Offends(cs, i, PipeAndRedirect))
  }

  /** The rule is broken by a command behind commands that break none. */
  ghost predicate Blames(cs: seq<Command>, rule: Rule) {
    exists i :: 0 <= i < |cs| && OffendsFirst(cs, i, rule)
                && forall k :: 0 <= k < i ==> cs[k].args != [] && PipesFit(cs, k)
  }

  method Check(cs: seq<Command>) returns (rule: Option<Rule>)
    ensures rule.None? <==> Accepted(cs)
    ensures rule.Some? ==> FirstBroken(cs, rule.value) && Blames(cs, rule.value)
  {
    for i := 0 to |cs|
      invariant forall k :: 0 <= k < i ==> Broken(cs, k) == None
      invariant forall k :: 0 <= k < i ==> cs[k].args != [] && PipesFit(cs, k)
    {
      assert Broken(cs, i).Some? ==> OffendsFirst(cs, i, Broken(cs, i).value);
      if |cs[i].args| == 0 {
        assert Broken(cs, i) == Some(EmptyCommand);
        return Some(EmptyCommand);
      }
      if cs[i].link == "|" && Fd(cs[i], 1) != "" {
        assert Broken(cs, i) == Some(PipeAndRedirect) && !PipesFit(cs, i);
        return Some(PipeAndRedirect);
      }
      if cs[i].link == "|" && i == |cs| - 1 {
        assert Broken(cs, i) == Some(PipeToNowhere) && !PipesFit(cs, i);
        return Some(PipeToNowhere);
      }
      if i < |cs| - 1 && cs[i].link == "|" && Fd(cs[i + 1], 0) != "" {
        assert Broken(cs, i) == Some(PipeIntoRedirect) && !PipesFit(cs, i);
        return Some(PipeIntoRedirect);
      }
    }
    return None;
  }

  /** One line of input.  The list comes back exactly when it parses and is accepted; otherwise the first
      broken rule is reported, or the parser's panic. */
  method GetCommand(sc: Scanner) returns (g: Got)
    requires sc.Valid()
    modifies sc
    ensures sc.Valid()
    ensures ParseCommands(old(sc.Rest())).Panics? <==> g.SyntaxError?
    ensures ParseCommands(old(sc.Rest())).Hangs? <==> g.NeverReturns?
    ensures ParseCommands(old(sc.Rest())).NeedsEnv? <==> g.ReadsEnv?
    ensures g.Commands? ==> ParseCommands(old(sc.Rest())) == Done((g.cs, g.st), sc.Rest()) && Accepted(g.cs)
    ensures g.Refused? ==>
              && ParseCommands(old(sc.Rest())).Done?
              && var cs := ParseCommands(old(sc.Rest())).value.0;
                 !Accepted(cs) && FirstBroken(cs, g.rule) && Blames(cs, g.rule)
  {
    var sig, cs, st := sc.ReadCommands();
    match sig {
      case Panicked => return SyntaxError;
      case Hung => return NeverReturns;
      case EnvNeeded => return ReadsEnv;
      case Fine =>
    }
    var rule := Check(cs);
    g := if rule.Some? then Refused(rule.value) else Commands(cs, st);
  }

  // ---------------------------------------------------------------------------------------------
  // Wiring.
  // ---------------------------------------------------------------------------------------------

  /** Where a standard stream of a process leads; pipe k goes from command k to command k + 1. */
  datatype Endpoint = Unset | Inherited(fd: nat) | Opened(name: string) | Pipe(k: nat)

  predicate PipedIn(cs: seq<Command>, i: nat)
    requires i < |cs|
  {
    i > 0 && cs[i - 1].link == "|"
  }

  function Redirected(c: Command, fd: nat): Endpoint {
    if Fd(c, fd) != "" then Opened(Fd(c, fd)) else Inherited(fd)
  }

  function StdinOf(cs: seq<Command>, i: nat): Endpoint
    requires i < |cs|
  {
    if PipedIn(cs, i) then Pipe(i - 1) else Redirected(cs[i], 0)
  }

  function StdoutOf(cs: seq<Command>, i: nat): Endpoint
    requires i < |cs|
  {
    if cs[i].link == "|" then Pipe(i) else Redirected(cs[i], 1)
  }

  /** The stream `fd` of the command leads to the file that it is redirected to, or else to the shell's own. */
  predicate LeadsRight(e: Endpoint, c: Command, fd: nat) {
    if Redirects(c, fd) then e == Opened(c.fdmap[fd]) else e == Inherited(fd)
  }

  /** All files that command i is redirected to can be opened. */
  predicate CanConnect(cs: seq<Command>, i: nat, canOpen: string -> bool, canCreate: string -> bool)
    requires i < |cs|
  {
    && (Fd(cs[i], 0) != "" ==> canOpen(Fd(cs[i], 0)))
    && (Fd(cs[i], 1) != "" ==> canCreate(Fd(cs[i], 1)))
    && (Fd(cs[i], 2) != "" ==> canCreate(Fd(cs[i], 2)))
  }

  datatype WireResult = Wired | OpenFailed | PipeTaken

  class Wiring {
    const cs: seq<Command>
    const canOpen: string -> bool
    const canCreate: string -> bool
    var stdin: seq<Endpoint>
    var stdout: seq<Endpoint>
    var stderr: seq<Endpoint>

    constructor (cs: seq<Command>, canOpen: string -> bool, canCreate: string -> bool)
      ensures Valid() && this.cs == cs && this.canOpen == canOpen && this.canCreate == canCreate
      ensures forall i :: 0 <= i < |cs| ==> stdin[i] == stdout[i] == stderr[i] == Unset
    {
      this.cs, this.canOpen, this.canCreate := cs, canOpen, canCreate;
      stdin, stdout, stderr := seq(|cs|, _ => Unset), seq(|cs|, _ => Unset), seq(|cs|, _ => Unset);
    }

    ghost predicate Valid()
      reads this
    {
      |stdin| == |stdout| == |stderr| == |cs|
    }

    /** `openRead` and `openWrite`. */
    method OpenStream(c: Command, fd: nat, can: string -> bool) returns (e: Endpoint, ok: bool)
      ensures e == Redirected(c, fd) && LeadsRight(e, c, fd)
      ensures ok <==> (Redirects(c, fd) ==> can(c.fdmap[fd]))
    {
      if Fd(c, fd) != "" {
        return Opened(Fd(c, fd)), can(Fd(c, fd));
      }
      return Inherited(fd), true;
    }

    /** Command k talks to its neighbours through the pipes next to it; a stream without a pipe leads to a file or to
        the shell's own stream of the same number; no redirection is lost. */
    ghost predicate InPlace(k: nat)
      requires Valid() && k < |cs|
      reads this
    {
      && (if k > 0 && cs[k - 1].link == "|" then stdin[k] == Pipe(k - 1) && !Redirects(cs[k], 0)
          else LeadsRight(stdin[k], cs[k], 0))
      && (if cs[k].link == "|" then stdout[k] == Pipe(k) && !Redirects(cs[k], 1)
          else LeadsRight(stdout[k], cs[k], 1))
      && LeadsRight(stderr[k], cs[k], 2)
    }

    ghost predicate Connected(k: nat)
      requires Valid() && k < |cs|
      reads this
    {
      stdin[k] == StdinOf(cs, k) && stdout[k] == StdoutOf(cs, k) && stderr[k] == Redirected(cs[k], 2)
    }

    /** Command k is not connected yet, except perhaps to the pipe from its predecessor. */
    ghost predicate Pending(k: nat, piped: bool)
      requires Valid() && k < |cs|
      reads this
    {
      stdout[k] == stderr[k] == Unset && stdin[k] == if piped && k > 0 then Pipe(k - 1) else Unset
    }

    ghost predicate ConnectedUpTo(i: nat)
      requires Valid() && i <= |cs|
      reads this
    {
      && (forall k :: 0 <= k < i ==> Connected(k))
      && (i < |cs| ==> Pending(i, PipedIn(cs, i)))
      && (forall k :: i < k < |cs| ==> Pending(k, false))
    }

    /** Connects an accepted list.  No pipe end is ever taken and no index runs past the end; the only way
        to fail is a file that cannot be opened.  Every stream gets exactly one endpoint. */
    method Wire() returns (r: WireResult)
      requires Valid() && Accepted(cs)
      requires forall i :: 0 <= i < |cs| ==> stdin[i] == stdout[i] == stderr[i] == Unset
      modifies this
      ensures Valid() && !r.PipeTaken?
      ensures r.Wired? <==> forall i :: 0 <= i < |cs| ==> CanConnect(cs, i, canOpen, canCreate)
      ensures r.Wired? ==> forall i :: 0 <= i < |cs| ==> Connected(i) && InPlace(i)
    {
      for i := 0 to |cs|
        invariant Valid() && ConnectedUpTo(i)
        invariant forall k :: 0 <= k < i ==> CanConnect(cs, k, canOpen, canCreate)
      {
        r := Connect(i);
        if !r.Wired? {
          return;
        }
      }
      forall i | 0 <= i < |cs| ensures Connected(i) && InPlace(i) {
        assert Connected(i) && PipesFit(cs, i) && (i > 0 ==> PipesFit(cs, i - 1));
      }
      r := Wired;
    }

    /** Opens what command i does not get from a pipe. */
    method OpenAll(i: nat) returns (ok: bool)
      requires Valid() && i < |cs|
      modifies this
      ensures Valid()
      ensures ok <==>
                && (old(stdin[i]) == Unset && Fd(cs[i], 0) != "" ==> canOpen(Fd(cs[i], 0)))
                && (cs[i].link != "|" && Fd(cs[i], 1) != "" ==> canCreate(Fd(cs[i], 1)))
                && (Fd(cs[i], 2) != "" ==> canCreate(Fd(cs[i], 2)))
      ensures ok ==> stdin == old(stdin)[i := if old(stdin[i]) == Unset then Redirected(cs[i], 0) else old(stdin[i])]
      ensures ok ==> stdout == old(stdout)[i := if cs[i].link != "|" then Redirected(cs[i], 1) else old(stdout[i])]
      ensures ok ==> stderr == old(stderr)[i := Redirected(cs[i], 2)]
    {
      var c := cs[i];
      var e;
      if stdin[i] == Unset {
        e, ok := OpenStream(c, 0, canOpen);
        stdin := stdin[i := e];
        if !ok {
          return;
        }
      }
      if c.link != "|" {
        e, ok := OpenStream(c, 1, canCreate);
        stdout := stdout[i := e];
        if !ok {
          return;
        }
      }
      e, ok := OpenStream(c, 2, canCreate);
      stderr := stderr[i := e];
    }

    /** One turn of the loop. */
    method Connect(i: nat) returns (r: WireResult)
      requires Valid() && Accepted(cs) && i < |cs| && ConnectedUpTo(i)
      modifies this
      ensures Valid() && !r.PipeTaken?
      ensures r.Wired? <==> CanConnect(cs, i, canOpen, canCreate)
      ensures r.Wired? ==> ConnectedUpTo(i + 1)
    {
      assert PipesFit(cs, i) && (PipedIn(cs, i) ==> PipesFit(cs, i - 1));
      var ok := OpenAll(i);
      if !ok {
        return OpenFailed;
      }
      assert i + 1 < |cs| ==> old(Pending(i + 1, false));
      if cs[i].link == "|" {
        if stdin[i + 1] != Unset {
          return PipeTaken;
        }
        stdin := stdin[i + 1 := Pipe(i)];
        if stdout[i] != Unset {
          return PipeTaken;
        }
        stdout := stdout[i := Pipe(i)];
      }
      forall k | 0 <= k < i ensures Connected(k) {
        assert old(Connected(k));
      }
      forall k | i + 1 < k < |cs| ensures Pending(k, false) {
        assert old(Pending(k, false));
      }
      r := Wired;
    }
  }

  /** Every redirection of command i is in effect, and the pipe it writes to has a reader. */
  predicate Honoured(cs: seq<Command>, i: nat)
    requires i < |cs|
  {
    && (Fd(cs[i], 0) != "" ==> StdinOf(cs, i) == Opened(Fd(cs[i], 0)))
    && (Fd(cs[i], 1) != "" ==> StdoutOf(cs, i) == Opened(Fd(cs[i], 1)))
    && (StdoutOf(cs, i).Pipe? ==> i + 1 < |cs|)
  }

  /** The rules on pipes refuse exactly the lists whose wiring would lose a redirection or leave a pipe without
      a reader. */
  lemma {:induction false} RulesExactly(cs: seq<Command>)
    ensures (forall i :: 0 <= i < |cs| ==> PipesFit(cs, i)) <==> (forall i :: 0 <= i < |cs| ==> Honoured(cs, i))
  {
    if forall i :: 0 <= i < |cs| ==> PipesFit(cs, i) {
      forall i | 0 <= i < |cs| ensures Honoured(cs, i) {
        assert PipesFit(cs, i) && (i > 0 ==> PipesFit(cs, i - 1));
      }
    }
    if forall i :: 0 <= i < |cs| ==> Honoured(cs, i) {
      forall i | 0 <= i < |cs| ensures PipesFit(cs, i) {
        assert Honoured(cs, i) && (i + 1 < |cs| ==> Honoured(cs, i + 1));
      }
    }
  }

  /** In a wired list every pipe has one writer and one reader, which are neighbours. */
  lemma {:induction false} PipesJoin(cs: seq<Command>, i: nat, j: nat)
    requires Accepted(cs) && i < |cs| && j < |cs|
    ensures StdoutOf(cs, i).Pipe? && StdoutOf(cs, i) == StdinOf(cs, j) <==> i + 1 == j && cs[i].link == "|"
    ensures StdoutOf(cs, i).Pipe? ==> i + 1 < |cs| && StdinOf(cs, i + 1) == StdoutOf(cs, i)
    ensures StdinOf(cs, j).Pipe? ==> j > 0 && StdoutOf(cs, j - 1) == StdinOf(cs, j)
  {
    assert PipesFit(cs, i) && PipesFit(cs, j);
  }
}
