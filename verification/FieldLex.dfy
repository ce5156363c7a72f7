/**
 The lexer of cmds/field/field.go, over runes.  The decimal digits beyond ASCII (Unicode category Nd) are a
 parameter; a fatal error ends the program and is `None` here.
 */
module FieldLex {
  import opened Common
  import Wc

  // ---------------------------------------------------------------------------------------------
  // Tokens.
  // ---------------------------------------------------------------------------------------------

  datatype Kind = Comma | Pipe | Dash | Num | Space | NF | End

  datatype Token = Token(text: string, kind: Kind)

  predicate IsAscii(c: char) {
    '0' <= c <= '9'
  }

  predicate IsDigit(nd: set<char>, c: char) {
    IsAscii(c) || c in nd
  }

  predicate IsSpace(c: char) {
    Wc.Space(c as nat)
  }

  function Digits(nd: set<char>, s: string): (k: nat)
    ensures k <= |s|
  {
    if s == "" || !IsDigit(nd, s[0]) then 0 else 1 + Digits(nd, s[1..])
  }

  function Spaces(s: string): (k: nat)
    ensures k <= |s|
  {
    if s == "" || !IsSpace(s[0]) then 0 else 1 + Spaces(s[1..])
  }

  /** The kind and the length of the token at the start of `s`. */
  function Shape(nd: set<char>, s: string): (r: Option<(Kind, nat)>)
    requires s != ""
    ensures r.Some? ==> r.value.0 != End && 0 < r.value.1 <= |s|
  {
    if s[0] == ',' then Some((Comma, 1))
    else if s[0] == '|' then Some((Pipe, 1))
    else if s[0] == '-' then Some((Dash, 1))
    else if s[0] == 'N' then Some((NF, if |s| > 1 && s[1] == 'F' then 2 else 1))
    else if IsDigit(nd, s[0]) then Some((Num, Digits(nd, s)))
    else if IsSpace(s[0]) then Some((Space, Spaces(s)))
    else None
  }

  function Scan(nd: set<char>, s: string): Option<Token> {
    if s == "" then Some(Token("", End))
    else
      match Shape(nd, s)
      case None => None
      case Some((kind, n)) => Some(Token(s[..n], kind))
  }

  /** The scanner advances unless it is at the end, and takes its text from the input. */
  lemma ScanAdvances(nd: set<char>, s: string)
    ensures var t := Scan(nd, s);
            t.Some? ==> t.value.text <= s && (t.value.kind == End <==> s == "") && (s != "" ==> t.value.text != "")
  {
  }

  /** All tokens up to the end. */
  function Lex(nd: set<char>, s: string): Option<seq<Token>>
    decreases |s|
  {
    if s == "" then Some([])
    else
      ScanAdvances(nd, s);
      match Scan(nd, s)
      case None => None
      case Some(t) =>
        match Lex(nd, s[|t.text|..])
        case None => None
        case Some(ts) => Some([t] + ts)
  }

  function Texts(ts: seq<Token>): string {
    if ts == [] then "" else ts[0].text + Texts(ts[1..])
  }

  /** No character is lost. */
  lemma {:induction false} LexLossless(nd: set<char>, s: string)
    ensures Lex(nd, s).Some? ==> Texts(Lex(nd, s).value) == s
    decreases |s|
  {
    if s != "" && Scan(nd, s).Some? {
      ScanAdvances(nd, s);
      var t := Scan(nd, s).value;
      LexLossless(nd, s[|t.text|..]);
      assert s == t.text + s[|t.text|..];
    }
  }

  // ---------------------------------------------------------------------------------------------
  // The token lists that lexing can give.
  // ---------------------------------------------------------------------------------------------

  /** The digits beyond ASCII are beyond ASCII and are not white space. */
  predicate Beyond(nd: set<char>) {
    forall c :: c in nd ==> c >= 128 as char && !IsSpace(c)
  }

  /** A text of the kind. */
  predicate Proper(nd: set<char>, t: Token) {
    match t.kind
    case Comma => t.text == ","
    case Pipe => t.text == "|"
    case Dash => t.text == "-"
    case NF => t.text == "N" || t.text == "NF"
    case Num => t.text != "" && Digits(nd, t.text) == |t.text|
    case Space => t.text != "" && Spaces(t.text) == |t.text|
    case End => false
  }

  /** Two numbers or two spaces in a row would be one token. */
  predicate Apart(t: Token, us: seq<Token>) {
    us != [] && (t.kind == Num || t.kind == Space) ==> us[0].kind != t.kind
  }

  predicate WellFormed(nd: set<char>, ts: seq<Token>) {
    ts == [] || (Proper(nd, ts[0]) && Apart(ts[0], ts[1..]) && WellFormed(nd, ts[1..]))
  }

  lemma {:induction false} DigitsEnd(nd: set<char>, d: string, rest: string)
    requires Digits(nd, d) == |d| && (rest == "" || !IsDigit(nd, rest[0]))
    ensures Digits(nd, d + rest) == |d|
    decreases |d|
  {
    if d == "" {
      assert d + rest == rest;
    } else {
      assert (d + rest)[1..] == d[1..] + rest;
      DigitsEnd(nd, d[1..], rest);
    }
  }

  lemma {:induction false} SpacesEnd(d: string, rest: string)
    requires Spaces(d) == |d| && (rest == "" || !IsSpace(rest[0]))
    ensures Spaces(d + rest) == |d|
    decreases |d|
  {
    if d == "" {
      assert d + rest == rest;
    } else {
      assert (d + rest)[1..] == d[1..] + rest;
      SpacesEnd(d[1..], rest);
    }
  }

  lemma FirstChar(nd: set<char>, us: seq<Token>)
    requires WellFormed(nd, us) && us != [] && Beyond(nd)
    ensures Texts(us) != "" && Texts(us)[0] == us[0].text[0] && Texts(us)[0] != 'F'
    ensures IsDigit(nd, Texts(us)[0]) <==> us[0].kind == Num
    ensures IsSpace(Texts(us)[0]) <==> us[0].kind == Space
  {
  }

  lemma FirstShape(nd: set<char>, t: Token, us: seq<Token>)
    requires Beyond(nd) && Proper(nd, t) && Apart(t, us) && WellFormed(nd, us)
    ensures var s := t.text + Texts(us); s != "" && Shape(nd, s) == Some((t.kind, |t.text|))
  {
    if us != [] {
      FirstChar(nd, us);
    }
    if t.kind == Num {
      DigitsEnd(nd, t.text, Texts(us));
    } else if t.kind == Space {
      SpacesEnd(t.text, Texts(us));
    }
  }

  lemma {:induction false} LexTexts(nd: set<char>, ts: seq<Token>)
    requires Beyond(nd) && WellFormed(nd, ts)
    ensures Lex(nd, Texts(ts)) == Some(ts)
    decreases |ts|
  {
    if ts != [] {
      FirstShape(nd, ts[0], ts[1..]);
      LexTexts(nd, ts[1..]);
      var s := Texts(ts);
      assert s[..|ts[0].text|] == ts[0].text && s[|ts[0].text|..] == Texts(ts[1..]);
      assert Scan(nd, s) == Some(ts[0]);
      assert ts == [ts[0]] + ts[1..];
    }
  }

  /** A run stops where it stops. */
  lemma {:induction false} RunsEnd(nd: set<char>, s: string)
    ensures var k := Digits(nd, s); Digits(nd, s[..k]) == k && (k < |s| ==> !IsDigit(nd, s[k]))
    ensures var k := Spaces(s); Spaces(s[..k]) == k && (k < |s| ==> !IsSpace(s[k]))
    decreases |s|
  {
    if s != "" {
      RunsEnd(nd, s[1..]);
      if IsDigit(nd, s[0]) {
        assert s[..Digits(nd, s)][1..] == s[1..][..Digits(nd, s[1..])];
      }
      if IsSpace(s[0]) {
        assert s[..Spaces(s)][1..] == s[1..][..Spaces(s[1..])];
      }
    }
  }

  lemma ScanProper(nd: set<char>, s: string, t: Token)
    requires Beyond(nd) && s != "" && Scan(nd, s) == Some(t)
    ensures Proper(nd, t) && t.text <= s
    ensures var rest := s[|t.text|..];
            rest != "" && (t.kind == Num || t.kind == Space) ==>
              Scan(nd, rest).None? || Scan(nd, rest).value.kind != t.kind
  {
    RunsEnd(nd, s);
  }

  lemma {:induction false} LexWellFormed(nd: set<char>, s: string)
    requires Beyond(nd) && Lex(nd, s).Some?
    ensures WellFormed(nd, Lex(nd, s).value)
    decreases |s|
  {
    if s != "" {
      ScanAdvances(nd, s);
      var t := Scan(nd, s).value;
      ScanProper(nd, s, t);
      LexWellFormed(nd, s[|t.text|..]);
      assert Lex(nd, s).value[1..] == Lex(nd, s[|t.text|..]).value;
    }
  }

  /** Lexing inverts writing the texts of tokens down: a string lexes to a list exactly when the list is well
      formed and its texts make up the string. */
  lemma LexExactly(nd: set<char>, s: string, ts: seq<Token>)
    requires Beyond(nd)
    ensures Lex(nd, s) == Some(ts) <==> WellFormed(nd, ts) && Texts(ts) == s
  {
    if Lex(nd, s) == Some(ts) {
      LexWellFormed(nd, s);
      LexLossless(nd, s);
    }
    if WellFormed(nd, ts) {
      LexTexts(nd, ts);
    }
  }

  class Lexer {
    const input: string
    const nd: set<char>
    var tok: string
    var typ: Kind
    var start: nat
    var pos: nat
    var width: nat

    constructor (input: string, nd: set<char>)
      ensures Valid() && this.input == input && this.nd == nd && pos == 0
    {
      this.input, this.nd := input, nd;
      tok, typ, start, pos, width := "", End, 0, 0, 0;
    }

    ghost predicate Valid()
      reads this
    {
      start == pos <= |input| && width == 0
    }

    method NextRune() returns (r: Option<char>)
      requires pos <= |input|
      modifies this`width
      ensures pos + width <= |input|
      ensures pos < |input| ==> r == Some(input[pos]) && width == 1
      ensures pos == |input| ==> r == None && width == 0
    {
      if pos >= |input| {
        width := 0;
        return None;
      }
      width := 1;
      return Some(input[pos]);
    }

    method Consume()
      requires pos + width <= |input|
      modifies this`pos, this`width
      ensures pos == old(pos + width) && width == 0
    {
      pos := pos + width;
      width := 0;
    }

    method TakeToken() returns (t: string)
      requires start <= pos && pos + width <= |input|
      modifies this`pos, this`width, this`start
      ensures Valid() && pos == old(pos + width) && t == input[old(start)..pos]
    {
      Consume();
      t := input[start..pos];
      start := pos;
    }

    method SkipDigits()
      requires pos <= |input| && width <= 1
      modifies this`pos, this`width
      ensures pos == old(pos + Digits(nd, input[pos..])) && pos <= |input|
    {
      var r := NextRune();
      while r.Some? && IsDigit(nd, r.value)
        invariant pos <= |input| && pos + width <= |input| && old(pos) <= pos
        invariant r == (if pos < |input| then Some(input[pos]) else None) && (pos < |input| ==> width == 1)
        invariant pos + Digits(nd, input[pos..]) == old(pos + Digits(nd, input[pos..]))
        decreases |input| - pos
      {
        assert input[pos..][1..] == input[pos + 1..];
        Consume();
        r := NextRune();
      }
    }

    method SkipSpaces()
      requires pos <= |input| && width <= 1
      modifies this`pos, this`width
      ensures pos == old(pos + Spaces(input[pos..])) && pos <= |input|
    {
      var r := NextRune();
      while r.Some? && IsSpace(r.value)
        invariant pos <= |input| && pos + width <= |input| && old(pos) <= pos
        invariant r == (if pos < |input| then Some(input[pos]) else None) && (pos < |input| ==> width == 1)
        invariant pos + Spaces(input[pos..]) == old(pos + Spaces(input[pos..]))
        decreases |input| - pos
      {
        assert input[pos..][1..] == input[pos + 1..];
        Consume();
        r := NextRune();
      }
    }

    /** Moves over the rest of a token that starts with `c`. */
    method Pass(c: char) returns (kind: Option<Kind>)
      requires start == pos < |input| && width == 1 && c == input[pos]
      modifies this`pos, this`width
      ensures pos + width <= |input| && start <= pos
      ensures var sh := Shape(nd, old(input[pos..]));
              && (kind.None? <==> sh.None?)
              && (sh.Some? ==> kind == Some(sh.value.0) && pos + width == old(pos) + sh.value.1)
    {
      if c == ',' {
        return Some(Comma);
      } else if c == '|' {
        return Some(Pipe);
      } else if c == '-' {
        return Some(Dash);
      } else if c == 'N' {
        Consume();
        var f := NextRune();
        if f == Some('F') {
          Consume();
        }
        width := 0;
        return Some(NF);
      } else if IsDigit(nd, c) {
        SkipDigits();
        width := 0;
        return Some(Num);
      } else if IsSpace(c) {
        SkipSpaces();
        width := 0;
        return Some(Space);
      }
      return None;
    }

    /** Scans the next token; None is a lexical error. */
    method ScanToken() returns (t: Option<Token>)
      requires Valid()
      modifies this`pos, this`width, this`start
      ensures t == Scan(nd, old(input[pos..]))
      ensures t.Some? ==> Valid() && pos == old(pos) + |t.value.text|
    {
      ghost var s := input[pos..];
      var r := NextRune();
      if r.None? {
        return Some(Token("", End));
      }
      var kind := Pass(r.value);
      if kind.None? {
        return None;
      }
      var text := TakeToken();
      assert text == s[..|text|];
      return Some(Token(text, kind.value));
    }

    /** The tokens from the current one on, if there is no lexical error ahead. */
    ghost function Rest(): Option<seq<Token>>
      reads this
    {
      if typ == End then Some([]) else if pos > |input| then None else Prepend(Token(tok, typ), Lex(nd, input[pos..]))
    }

    /** At the end of the tokens the input is used up. */
    ghost predicate Ready()
      reads this
    {
      Valid() && (typ == End ==> pos == |input|)
    }

    /** What is left to scan, counting the current token. */
    ghost function Left(): int
      reads this
    {
      |input| - pos + if typ == End then 0 else 1
    }

    /** The first token. */
    method Start() returns (ok: bool)
      requires Valid()
      modifies this
      ensures ok ==> Ready() && Rest() == Lex(nd, old(input[pos..])) && Left() <= old(|input| - pos)
      ensures !ok ==> Lex(nd, old(input[pos..])).None?
    {
      ghost var s := input[pos..];
      ScanAdvances(nd, s);
      var t := ScanToken();
      if t.None? {
        return false;
      }
      tok, typ := t.value.text, t.value.kind;
      assert input[pos..] == s[|tok|..];
      return true;
    }

    /** Gives the current token and moves to the next one; it fails only at a lexical error. */
    method Next() returns (ok: bool, t: Token)
      requires Ready()
      modifies this
      ensures t == old(Token(tok, typ)) && Heads(t, old(Rest()))
      ensures ok ==> Ready() && Rest() == Tail(old(Rest())) && Left() <= old(Left())
      ensures ok && t.kind != End ==> Left() < old(Left())
      ensures !ok ==> old(Rest()).None?
    {
      t := Token(tok, typ);
      ghost var was := Rest();
      ok := Start();
    }
  }

  function Prepend(t: Token, ts: Option<seq<Token>>): Option<seq<Token>> {
    match ts
    case None => None
    case Some(ts) => Some([t] + ts)
  }

  /** The token is the first of the list, or both are at the end. */
  ghost predicate Heads(t: Token, ts: Option<seq<Token>>) {
    ts.Some? ==> if ts.value == [] then t.kind == End else t == ts.value[0]
  }

  function Tail(ts: Option<seq<Token>>): Option<seq<Token>> {
    match ts
    case None => None
    case Some(ts) => Some(if ts == [] then [] else ts[1..])
  }
}
