/** The field list of cmds/field/field.go: ranges of fields, parsed from tokens. */
module Field {
  import opened Common
  import opened FieldLex

  const LAST_FIELD: int := 0x7FFF_FFFF
  const MAX_INT: int := 0x7FFF_FFFF_FFFF_FFFF
  const MAX_UINT: int := 0xFFFF_FFFF_FFFF_FFFF

  // ---------------------------------------------------------------------------------------------
  // Numbers.
  // ---------------------------------------------------------------------------------------------

  datatype Unsigned = Value(n: int) | Syntax | Range

  /** An unsigned 64-bit number read from left to right, up to the first bad digit or overflow. */
  function ParseUint(s: string): Unsigned {
    if s == "" then Value(0)
    else
      var k := |s| - 1;
      match ParseUint(s[..k])
      case Value(n) =>
        if !IsAscii(s[k]) then Syntax
        else
          var m := n * 10 + (s[k] as int - '0' as int);
          if m > MAX_UINT then Range else Value(m)
      case bad => bad
  }

  /** `strconv.Atoi` without its error: 0 for what is no number, the largest number for what is too large. */
  function Atoi(s: string): int {
    match ParseUint(s)
    case Value(n) => Min(n, MAX_INT)
    case Syntax => 0
    case Range => MAX_INT
  }

  lemma {:induction false} UintIsNat(s: string)
    ensures ParseUint(s).Value? ==> 0 <= ParseUint(s).n
    decreases |s|
  {
    if s != "" {
      UintIsNat(s[..|s| - 1]);
    }
  }

  function Decimal(n: nat): (s: string)
    ensures s != ""
  {
    if n < 10 then ['0' + n as char] else Decimal(n / 10) + ['0' + (n % 10) as char]
  }

  predicate AllAscii(s: string) {
    forall i :: 0 <= i < |s| ==> IsAscii(s[i])
  }

  lemma {:induction false} DecimalRoundTrip(n: nat)
    ensures AllAscii(Decimal(n)) && (n <= MAX_UINT ==> ParseUint(Decimal(n)) == Value(n))
    decreases n
  {
    if n < 10 {
      assert Decimal(n)[..0] == "";
    } else {
      DecimalRoundTrip(n / 10);
      assert Decimal(n)[..|Decimal(n)| - 1] == Decimal(n / 10);
    }
  }

  // ---------------------------------------------------------------------------------------------
  // The grammar: what each parser makes of the tokens, and the tokens it leaves.
  // ---------------------------------------------------------------------------------------------

  datatype Frange = Frange(begin: int, end: int)

  predicate IsDelim(k: Kind) {
    k == Comma || k == Pipe || k == Space
  }

  /** The kind of the first token. */
  function Peek(ts: seq<Token>): Kind {
    if ts == [] then End else ts[0].kind
  }

  /** The number behind a minus sign. */
  function NegativeOf(ts: seq<Token>): Option<(int, seq<Token>)> {
    if Peek(ts) == Num then Some((-Atoi(ts[0].text), ts[1..])) else None
  }

  function NumOf(ts: seq<Token>): Option<(int, seq<Token>)> {
    if Peek(ts) == Num then Some((Atoi(ts[0].text), ts[1..]))
    else if Peek(ts) == Dash then NegativeOf(ts[1..])
    else None
  }

  function FieldOf(ts: seq<Token>): Option<(int, seq<Token>)> {
    if Peek(ts) == NF then Some((LAST_FIELD, ts[1..])) else NumOf(ts)
  }

  /** What may follow the first number of a range. */
  function EndOf(begin: int, ts: seq<Token>): Option<(Frange, seq<Token>)> {
    if Peek(ts) != Dash then Some((Frange(begin, begin), ts))
    else if Peek(ts[1..]) == End || IsDelim(Peek(ts[1..])) then Some((Frange(begin, LAST_FIELD), ts[1..]))
    else
      match FieldOf(ts[1..])
      case None => None
      case Some((end, rest)) => Some((Frange(begin, end), rest))
  }

  function RangeOf(ts: seq<Token>): Option<(Frange, seq<Token>)> {
    if Peek(ts) == NF then Some((Frange(LAST_FIELD, LAST_FIELD), ts[1..]))
    else
      match NumOf(ts)
      case None => None
      case Some((begin, rest)) => EndOf(begin, rest)
  }

  lemma RangeShortens(ts: seq<Token>)
    ensures RangeOf(ts).Some? ==> |RangeOf(ts).value.1| < |ts|
  {
  }

  function Unspaced(ts: seq<Token>): seq<Token> {
    if Peek(ts) == Space then ts[1..] else ts
  }

  function RangesOf(ts: seq<Token>): Option<seq<Frange>>
    decreases |ts|
  {
    RangeShortens(Unspaced(ts));
    match RangeOf(Unspaced(ts))
    case None => None
    case Some((r, rest)) =>
      if Peek(rest) == End then Some([r])
      else if !IsDelim(Peek(rest)) then None
      else
        match RangesOf(rest[1..])
        case None => None
        case Some(rs) => Some([r] + rs)
  }

  function Ranges(nd: set<char>, input: string): Option<seq<Frange>> {
    match Lex(nd, input)
    case None => None
    case Some(ts) => if ts == [] then None else RangesOf(ts)
  }

  // ---------------------------------------------------------------------------------------------
  // The parsers, which fail at a fatal error.
  // ---------------------------------------------------------------------------------------------

  /** A parser did what the grammar says, given the tokens before and after it; when a lexical error lies
      ahead it may also go on, and the error still lies ahead. */
  ghost predicate Agrees<T(!new)>(grammar: seq<Token> -> Option<(T, seq<Token>)>, before: Option<seq<Token>>,
                                  r: Option<T>, after: Option<seq<Token>>) {
    match before
    case None => r.Some? ==> after.None?
    case Some(ts) => if r.None? then grammar(ts).None? else after.Some? && grammar(ts) == Some((r.value, after.value))
  }

  lemma NegativeRead(t: Token, before: Option<seq<Token>>)
    requires Heads(t, before)
    ensures Agrees(NegativeOf, before, if t.kind == Num then Some(-Atoi(t.text)) else None, Tail(before))
  {
  }

  method ParseNegative(lex: Lexer) returns (r: Option<int>)
    requires lex.Ready()
    modifies lex
    ensures r.Some? ==> lex.Ready() && lex.Left() < old(lex.Left())
    ensures Agrees(NegativeOf, old(lex.Rest()), r, lex.Rest())
  {
    ghost var before := lex.Rest();
    var ok, t := lex.Next();
    NegativeRead(t, before);
    if !ok || t.kind != Num {
      return None;
    }
    return Some(-Atoi(t.text));
  }

  method ParseNum(lex: Lexer) returns (r: Option<int>)
    requires lex.Ready()
    modifies lex
    ensures r.Some? ==> lex.Ready() && lex.Left() < old(lex.Left())
    ensures Agrees(NumOf, old(lex.Rest()), r, lex.Rest())
  {
    var ok, t := lex.Next();
    if !ok || t.kind == End {
      return None;
    }
    if t.kind == Num {
      return Some(Atoi(t.text));
    }
    if t.kind != Dash {
      return None;
    }
    r := ParseNegative(lex);
  }

  /** Also says whether the field was NF. */
  method ParseField(lex: Lexer) returns (r: Option<int>, nf: bool)
    requires lex.Ready()
    modifies lex
    ensures r.Some? ==> lex.Ready() && lex.Left() < old(lex.Left())
    ensures Agrees(FieldOf, old(lex.Rest()), r, lex.Rest())
    ensures nf <==> old(lex.typ) == NF
    ensures r.Some? && nf ==> r == Some(LAST_FIELD)
  {
    nf := lex.typ == NF;
    if nf {
      var ok, _ := lex.Next();
      r := if ok then Some(LAST_FIELD) else None;
      return;
    }
    r := ParseNum(lex);
  }

  method ParseRange(lex: Lexer) returns (r: Option<Frange>)
    requires lex.Ready()
    modifies lex
    ensures r.Some? ==> lex.Ready() && lex.Left() < old(lex.Left())
    ensures Agrees(RangeOf, old(lex.Rest()), r, lex.Rest())
  {
    if lex.typ == End {
      return None;
    }
    var begin, nf := ParseField(lex);
    if begin.None? {
      return None;
    }
    var n := begin.value;
    if nf || lex.typ != Dash {
      return Some(Frange(n, n));
    }
    var ok, _ := lex.Next();
    if !ok {
      return None;
    }
    if lex.typ == End || IsDelim(lex.typ) {
      return Some(Frange(n, LAST_FIELD));
    }
    var end, _ := ParseField(lex);
    return if end.Some? then Some(Frange(n, end.value)) else None;
  }

  /** The ranges found so far, and then those of the rest. */
  function Joined(rs: seq<Frange>, more: Option<seq<Frange>>): Option<seq<Frange>> {
    match more
    case None => None
    case Some(ms) => Some(rs + ms)
  }

  ghost predicate SoFar(all: Option<seq<Token>>, rs: seq<Frange>, rest: Option<seq<Token>>) {
    match all
    case None => rest.None?
    case Some(ts) => rest.Some? && RangesOf(ts) == Joined(rs, RangesOf(rest.value))
  }

  lemma Begun(all: Option<seq<Token>>)
    ensures SoFar(all, [], all)
  {
    if all.Some? && RangesOf(all.value).Some? {
      assert [] + RangesOf(all.value).value == RangesOf(all.value).value;
    }
  }

  /** One range more. */
  lemma Advanced(all: Option<seq<Token>>, rs: seq<Frange>, ts: seq<Token>, r: Frange, rest: seq<Token>)
    requires SoFar(all, rs, Some(ts)) && RangeOf(Unspaced(ts)) == Some((r, rest))
    ensures Peek(rest) == End ==> RangesOf(all.value) == Some(rs + [r])
    ensures IsDelim(Peek(rest)) ==> SoFar(all, rs + [r], Some(rest[1..]))
    ensures Peek(rest) != End && !IsDelim(Peek(rest)) ==> RangesOf(all.value) == None
  {
    RangesStep(ts, r, rest);
    if IsDelim(Peek(rest)) {
      JoinedStep(rs, r, RangesOf(rest[1..]));
    }
  }

  lemma JoinedStep(rs: seq<Frange>, r: Frange, more: Option<seq<Frange>>)
    ensures Joined(rs, Joined([r], more)) == Joined(rs + [r], more)
  {
    if more.Some? {
      assert rs + ([r] + more.value) == (rs + [r]) + more.value;
    }
  }

  lemma RangesStep(ts: seq<Token>, r: Frange, rest: seq<Token>)
    requires RangeOf(Unspaced(ts)) == Some((r, rest))
    ensures RangesOf(ts) == if Peek(rest) == End then Some([r])
                            else if IsDelim(Peek(rest)) then Joined([r], RangesOf(rest[1..])) else None
  {
    RangeShortens(Unspaced(ts));
  }

  lemma Stopped(all: Option<seq<Token>>, rs: seq<Frange>, ts: seq<Token>)
    requires SoFar(all, rs, Some(ts)) && RangeOf(Unspaced(ts)) == None
    ensures RangesOf(all.value) == None
  {
  }

  method SkipSpace(lex: Lexer) returns (ok: bool)
    requires lex.Ready()
    modifies lex
    ensures ok ==> lex.Ready() && lex.Left() <= old(lex.Left())
    ensures var b := old(lex.Rest());
            if b.None? then ok ==> lex.Rest().None? else ok && lex.Rest() == Some(Unspaced(b.value))
  {
    if lex.typ != Space {
      return true;
    }
    var went, _ := lex.Next();
    return went;
  }

  method ParseRanges(nd: set<char>, input: string) returns (r: Option<seq<Frange>>)
    ensures r == Ranges(nd, input)
  {
    var rs: seq<Frange> := [];
    var lex := new Lexer(input, nd);
    if input == "" {
      return None;
    }
    assert input[0..] == input;
    ghost var all := Lex(nd, input);
    Begun(all);
    var ok := lex.Start();
    if !ok {
      return None;
    }
    while true
      invariant fresh(lex) && lex.Ready() && SoFar(all, rs, lex.Rest())
      decreases lex.Left()
    {
      ghost var before := lex.Rest();
      ok := SkipSpace(lex);
      if !ok {
        return None;
      }
      var one := ParseRange(lex);
      if one.None? {
        if before.Some? {
          Stopped(all, rs, before.value);
        }
        return None;
      }
      if before.Some? {
        Advanced(all, rs, before.value, one.value, lex.Rest().value);
      }
      rs := rs + [one.value];
      if lex.typ == End {
        return Some(rs);
      }
      if !IsDelim(lex.typ) {
        return None;
      }
      var went, _ := lex.Next();
      if !went {
        return None;
      }
    }
  }

  // ---------------------------------------------------------------------------------------------
  // Writing ranges down and reading them back.
  // ---------------------------------------------------------------------------------------------

  predicate Bounded(n: int) {
    -MAX_INT <= n <= MAX_INT
  }

  predicate AllBounded(rs: seq<Frange>) {
    forall i :: 0 <= i < |rs| ==> Bounded(rs[i].begin) && Bounded(rs[i].end)
  }

  const MINUS := Token("-", Dash)

  function NumTokens(n: int): seq<Token> {
    if n < 0 then [MINUS, Token(Decimal(-n), Num)] else [Token(Decimal(n), Num)]
  }

  /** A range as n, NF, n- or n-m. */
  function RangeTokens(r: Frange): (ts: seq<Token>)
    ensures ts != []
  {
    if r == Frange(LAST_FIELD, LAST_FIELD) then [Token("NF", NF)]
    else if r.begin == r.end then NumTokens(r.begin)
    else if r.end == LAST_FIELD then NumTokens(r.begin) + [MINUS]
    else NumTokens(r.begin) + ([MINUS] + NumTokens(r.end))
  }

  /** A comma or a bar with or without space behind it, or space alone. */
  predicate IsSeparator(nd: set<char>, ts: seq<Token>) {
    WellFormed(nd, ts) && ts != [] && IsDelim(ts[0].kind)
    && (|ts| == 1 || (|ts| == 2 && ts[0].kind != Space && ts[1].kind == Space))
  }

  predicate Separators(nd: set<char>, seps: seq<seq<Token>>) {
    forall i :: 0 <= i < |seps| ==> IsSeparator(nd, seps[i])
  }

  function ListTokens(rs: seq<Frange>, seps: seq<seq<Token>>): seq<Token>
    requires |rs| == |seps| + 1
  {
    RangeTokens(rs[0]) + if seps == [] then [] else seps[0] + ListTokens(rs[1..], seps[1..])
  }

  lemma NumRead(n: int, rest: seq<Token>)
    requires Bounded(n)
    ensures NumOf(NumTokens(n) + rest) == Some((n, rest))
  {
    var ts := NumTokens(n) + rest;
    if n < 0 {
      DecimalRoundTrip(-n);
      assert ts[1..] == [Token(Decimal(-n), Num)] + rest;
      assert ts[1..][1..] == rest;
    } else {
      DecimalRoundTrip(n);
      assert ts[1..] == rest;
    }
  }

  predicate Follows(rest: seq<Token>) {
    rest == [] || IsDelim(rest[0].kind)
  }

  lemma EndRead(begin: int, end: int, rest: seq<Token>)
    requires Bounded(end) && Follows(rest)
    ensures EndOf(begin, [MINUS] + (NumTokens(end) + rest)) == Some((Frange(begin, end), rest))
    ensures EndOf(begin, [MINUS] + rest) == Some((Frange(begin, LAST_FIELD), rest))
    ensures EndOf(begin, rest) == Some((Frange(begin, begin), rest))
  {
    assert ([MINUS] + rest)[1..] == rest;
    assert ([MINUS] + (NumTokens(end) + rest))[1..] == NumTokens(end) + rest;
    NumRead(end, rest);
  }

  lemma RangeByNum(n: int, rest: seq<Token>)
    requires Bounded(n)
    ensures RangeOf(NumTokens(n) + rest) == EndOf(n, rest)
  {
    NumRead(n, rest);
  }

  lemma RangeRead(r: Frange, rest: seq<Token>)
    requires Bounded(r.begin) && Bounded(r.end) && Follows(rest)
    ensures RangeOf(RangeTokens(r) + rest) == Some((r, rest))
  {
    var b, e := NumTokens(r.begin), NumTokens(r.end);
    EndRead(r.begin, r.end, rest);
    if r == Frange(LAST_FIELD, LAST_FIELD) {
      assert ([Token("NF", NF)] + rest)[1..] == rest;
    } else if r.begin == r.end {
      RangeByNum(r.begin, rest);
    } else if r.end == LAST_FIELD {
      Assoc(b, [MINUS], rest);
      RangeByNum(r.begin, [MINUS] + rest);
    } else {
      Assoc(b, [MINUS] + e, rest);
      Assoc([MINUS], e, rest);
      RangeByNum(r.begin, [MINUS] + (e + rest));
    }
  }

  lemma RangeHead(r: Frange, rest: seq<Token>)
    ensures Unspaced(RangeTokens(r) + rest) == RangeTokens(r) + rest
  {
  }

  /** Behind a separator, with its space skipped, stands the next range. */
  lemma SeparatorSkipped(nd: set<char>, sep: seq<Token>, r: Frange, rest: seq<Token>)
    requires IsSeparator(nd, sep)
    ensures Unspaced((sep + (RangeTokens(r) + rest))[1..]) == RangeTokens(r) + rest
  {
    RangeHead(r, rest);
    if |sep| == 1 {
      assert (sep + (RangeTokens(r) + rest))[1..] == RangeTokens(r) + rest;
    } else {
      assert (sep + (RangeTokens(r) + rest))[1..] == [sep[1]] + (RangeTokens(r) + rest);
    }
  }

  function AfterFirst(rs: seq<Frange>, seps: seq<seq<Token>>): seq<Token>
    requires |rs| == |seps| + 1
  {
    if seps == [] then [] else seps[0] + ListTokens(rs[1..], seps[1..])
  }

  /** The tokens of a list are parsed as the list, also behind a space. */
  lemma {:induction false} ListRead(nd: set<char>, rs: seq<Frange>, seps: seq<seq<Token>>, ts: seq<Token>)
    requires |rs| == |seps| + 1 && AllBounded(rs) && Separators(nd, seps)
    requires Unspaced(ts) == ListTokens(rs, seps)
    ensures RangesOf(ts) == Some(rs)
    decreases |rs|
  {
    var rest := AfterFirst(rs, seps);
    if seps == [] {
      RangeRead(rs[0], rest);
      assert rs == [rs[0]];
    } else {
      assert IsSeparator(nd, seps[0]);
      RangeRead(rs[0], rest);
      SeparatorSkipped(nd, seps[0], rs[1], AfterFirst(rs[1..], seps[1..]));
      ListRead(nd, rs[1..], seps[1..], rest[1..]);
      assert rs == [rs[0]] + rs[1..];
    }
  }

  lemma {:induction false} WellFormedJoin(nd: set<char>, a: seq<Token>, b: seq<Token>)
    requires WellFormed(nd, a) && WellFormed(nd, b) && (a != [] ==> Apart(a[|a| - 1], b))
    ensures WellFormed(nd, a + b)
    decreases |a|
  {
    if a == [] {
      assert a + b == b;
    } else {
      assert (a + b)[1..] == a[1..] + b;
      WellFormedJoin(nd, a[1..], b);
    }
  }

  lemma {:induction false} AsciiDigits(nd: set<char>, s: string)
    requires AllAscii(s)
    ensures Digits(nd, s) == |s|
    decreases |s|
  {
    if s != "" {
      AsciiDigits(nd, s[1..]);
    }
  }

  lemma DecimalProper(nd: set<char>, n: nat)
    ensures Proper(nd, Token(Decimal(n), Num))
  {
    DecimalRoundTrip(n);
    AsciiDigits(nd, Decimal(n));
  }

  /** Neither a delimiter nor the end. */
  predicate InRange(k: Kind) {
    k == Num || k == Dash || k == NF
  }

  lemma NumWellFormed(nd: set<char>, n: int)
    ensures var ts := NumTokens(n); WellFormed(nd, ts) && InRange(ts[0].kind) && ts[|ts| - 1].kind == Num
  {
    if n < 0 {
      DecimalProper(nd, -n);
      assert NumTokens(n)[1..] == [Token(Decimal(-n), Num)];
    } else {
      DecimalProper(nd, n);
    }
  }

  lemma RangeWellFormed(nd: set<char>, r: Frange)
    ensures var ts := RangeTokens(r);
            WellFormed(nd, ts) && InRange(ts[0].kind) && InRange(ts[|ts| - 1].kind)
  {
    NumWellFormed(nd, r.begin);
    NumWellFormed(nd, r.end);
    assert WellFormed(nd, [MINUS]) && WellFormed(nd, [Token("NF", NF)]);
    WellFormedJoin(nd, NumTokens(r.begin), [MINUS]);
    WellFormedJoin(nd, [MINUS], NumTokens(r.end));
    WellFormedJoin(nd, NumTokens(r.begin), [MINUS] + NumTokens(r.end));
  }

  lemma {:induction false} ListWellFormed(nd: set<char>, rs: seq<Frange>, seps: seq<seq<Token>>)
    requires |rs| == |seps| + 1 && Separators(nd, seps)
    ensures var ts := ListTokens(rs, seps); ts != [] && WellFormed(nd, ts) && InRange(ts[0].kind)
    decreases |rs|
  {
    var first := RangeTokens(rs[0]);
    RangeWellFormed(nd, rs[0]);
    if seps == [] {
      assert first + [] == first;
    } else {
      assert IsSeparator(nd, seps[0]);
      ListWellFormed(nd, rs[1..], seps[1..]);
      SeparatorJoins(nd, first, seps[0], ListTokens(rs[1..], seps[1..]));
    }
  }

  lemma SeparatorJoins(nd: set<char>, first: seq<Token>, sep: seq<Token>, more: seq<Token>)
    requires IsSeparator(nd, sep) && WellFormed(nd, first) && WellFormed(nd, more) && first != [] && more != []
    requires InRange(first[|first| - 1].kind) && InRange(more[0].kind)
    ensures WellFormed(nd, first + (sep + more))
  {
    WellFormedJoin(nd, sep, more);
    WellFormedJoin(nd, first, sep + more);
  }

  /** Every list of ranges, written with any separators, parses back to itself. */
  lemma PrintParse(nd: set<char>, rs: seq<Frange>, seps: seq<seq<Token>>)
    requires Beyond(nd) && |rs| == |seps| + 1 && AllBounded(rs) && Separators(nd, seps)
    ensures Ranges(nd, Texts(ListTokens(rs, seps))) == Some(rs)
  {
    var ts := ListTokens(rs, seps);
    ListWellFormed(nd, rs, seps);
    LexExactly(nd, Texts(ts), ts);
    ListRead(nd, rs, seps, ts);
  }

  lemma RangeBounded(ts: seq<Token>)
    ensures RangeOf(ts).Some? ==> Bounded(RangeOf(ts).value.0.begin) && Bounded(RangeOf(ts).value.0.end)
  {
    forall s ensures Bounded(Atoi(s)) && Bounded(-Atoi(s)) {
      UintIsNat(s);
    }
  }

  lemma {:induction false} RangesBounded(ts: seq<Token>)
    ensures RangesOf(ts).Some? ==> RangesOf(ts).value != [] && AllBounded(RangesOf(ts).value)
    decreases |ts|
  {
    RangeBounded(Unspaced(ts));
    RangeShortens(Unspaced(ts));
    match RangeOf(Unspaced(ts))
    case None =>
    case Some((r, rest)) =>
      if IsDelim(Peek(rest)) {
        RangesBounded(rest[1..]);
      }
  }

  /** So a list is the meaning of some field list exactly when it is not empty and its numbers fit. */
  lemma ExpressibleExactly(nd: set<char>, rs: seq<Frange>)
    requires Beyond(nd)
    ensures (exists s :: Ranges(nd, s) == Some(rs)) <==> rs != [] && AllBounded(rs)
  {
    forall s | Ranges(nd, s) == Some(rs) ensures rs != [] && AllBounded(rs) {
      RangesBounded(Lex(nd, s).value);
    }
    if rs != [] && AllBounded(rs) {
      assert WellFormed(nd, [Token(",", Comma)]);
      var commas := seq(|rs| - 1, _ => [Token(",", Comma)]);
      assert Separators(nd, commas);
      PrintParse(nd, rs, commas);
    }
  }
}
