/** Which field lists cmds/field/field.go accepts and what they mean, said without its parser. */
module FieldMeans {
  import opened Common
  import opened FieldLex
  import opened Field

  // ---------------------------------------------------------------------------------------------
  // Numbers.
  // ---------------------------------------------------------------------------------------------

  /** The number that decimal digits spell. */
  function Spelled(s: string): nat
    requires AllAscii(s)
  {
    if s == "" then 0 else Spelled(s[..|s| - 1]) * 10 + (s[|s| - 1] as int - '0' as int)
  }

  lemma {:induction false} UintExactly(s: string)
    requires AllAscii(s)
    ensures ParseUint(s) == if Spelled(s) > MAX_UINT then Range else Value(Spelled(s))
    decreases |s|
  {
    if s != "" {
      UintExactly(s[..|s| - 1]);
    }
  }

  /** What stands behind a character that is no ASCII digit does not matter. */
  lemma {:induction false} UintStops(s: string, c: char, rest: string)
    requires AllAscii(s) && !IsAscii(c)
    ensures ParseUint(s + [c] + rest) == if Spelled(s) > MAX_UINT then Range else Syntax
    decreases |rest|
  {
    var t := s + [c] + rest;
    if rest == "" {
      assert t[..|t| - 1] == s;
      UintExactly(s);
    } else {
      assert t[..|t| - 1] == s + [c] + rest[..|rest| - 1];
      UintStops(s, c, rest[..|rest| - 1]);
    }
  }

  /** Digits mean the number they spell, cut at 2^63 - 1, whatever zeros stand in front. */
  lemma AtoiExactly(s: string)
    requires AllAscii(s)
    ensures Atoi(s) == Min(Spelled(s), 0x7FFF_FFFF_FFFF_FFFF)
  {
    UintExactly(s);
  }

  /** A number with a digit beyond ASCII in it means 0, or 2^63 - 1 when the digits before that do not fit in 64
      bits. */
  lemma AtoiBeyond(s: string, c: char, rest: string)
    requires AllAscii(s) && !IsAscii(c)
    ensures Atoi(s + [c] + rest) == if Spelled(s) > 0xFFFF_FFFF_FFFF_FFFF then 0x7FFF_FFFF_FFFF_FFFF else 0
  {
    UintStops(s, c, rest);
  }

  // ---------------------------------------------------------------------------------------------
  // Ranges.
  // ---------------------------------------------------------------------------------------------

  /** A number with or without a minus sign. */
  predicate IsNum(ts: seq<Token>, n: int) {
    || (|ts| == 1 && ts[0].kind == Num && n == Atoi(ts[0].text))
    || (|ts| == 2 && ts[0].kind == Dash && ts[1].kind == Num && n == -Atoi(ts[1].text))
  }

  predicate IsLast(ts: seq<Token>, n: int) {
    |ts| == 1 && ts[0].kind == NF && n == 0x7FFF_FFFF
  }

  /** n-, n-m or n-NF, with the dash at place k. */
  predicate DashAt(ts: seq<Token>, r: Frange, k: nat) {
    && k < |ts| && ts[k].kind == Dash && IsNum(ts[..k], r.begin)
    && ((k == |ts| - 1 && r.end == 0x7FFF_FFFF) || IsNum(ts[k + 1..], r.end) || IsLast(ts[k + 1..], r.end))
  }

  /** NF, n, n-, n-m or n-NF. */
  predicate IsRange(ts: seq<Token>, r: Frange) {
    || (r.begin == r.end && (IsLast(ts, r.begin) || IsNum(ts, r.begin)))
    || DashAt(ts, r, 1) || DashAt(ts, r, 2)
  }

  predicate NoEnd(ts: seq<Token>) {
    forall i :: 0 <= i < |ts| ==> ts[i].kind != End
  }

  /** The parser left the end of the tokens, and what it took is spelled like its result. */
  predicate Took<T>(ts: seq<Token>, r: Option<(T, seq<Token>)>, k: nat) {
    r.Some? && k <= |ts| && r.value.1 == ts[k..]
  }

  lemma NumTaken(ts: seq<Token>)
    ensures NumOf(ts).Some? ==>
              var k := |ts| - |NumOf(ts).value.1|;
              Took(ts, NumOf(ts), k) && 1 <= k <= 2 && IsNum(ts[..k], NumOf(ts).value.0)
  {
    if NumOf(ts).Some? && Peek(ts) == Dash {
      assert ts[1..][1..] == ts[2..];
    }
  }

  lemma NumRead(ts: seq<Token>, k: nat, n: int)
    requires k <= |ts| && IsNum(ts[..k], n)
    ensures NumOf(ts) == Some((n, ts[k..]))
  {
    if k == 2 {
      assert ts[..k][1] == ts[1] && ts[1..][1..] == ts[2..];
    }
    assert ts[..k][0] == ts[0];
  }

  lemma FieldTaken(ts: seq<Token>)
    ensures FieldOf(ts).Some? ==>
              var k := |ts| - |FieldOf(ts).value.1|;
              Took(ts, FieldOf(ts), k) && (IsNum(ts[..k], FieldOf(ts).value.0) || IsLast(ts[..k], FieldOf(ts).value.0))
  {
    NumTaken(ts);
  }

  lemma FieldRead(ts: seq<Token>, k: nat, n: int)
    requires k <= |ts| && (IsNum(ts[..k], n) || IsLast(ts[..k], n))
    ensures FieldOf(ts) == Some((n, ts[k..]))
  {
    assert ts[..k][0] == ts[0];
    if IsNum(ts[..k], n) {
      NumRead(ts, k, n);
    }
  }

  /** What the range parser takes is a range. */
  lemma RangeTaken(ts: seq<Token>)
    requires RangeOf(ts).Some?
    ensures var k := |ts| - |RangeOf(ts).value.1|;
            Took(ts, RangeOf(ts), k) && k > 0 && IsRange(ts[..k], RangeOf(ts).value.0)
  {
    if Peek(ts) != NF {
      NumTaken(ts);
      var (begin, rest) := NumOf(ts).value;
      var m := |ts| - |rest|;
      if Peek(rest) == Dash {
        DashTaken(ts, m, begin);
      }
    }
  }

  lemma DashTaken(ts: seq<Token>, m: nat, begin: int)
    requires 1 <= m <= 2 && m < |ts| && IsNum(ts[..m], begin) && ts[m].kind == Dash && EndOf(begin, ts[m..]).Some?
    ensures var (r, rest) := EndOf(begin, ts[m..]).value;
            var k := |ts| - |rest|; m < k <= |ts| && rest == ts[k..] && DashAt(ts[..k], r, m)
  {
    var more := ts[m..][1..];
    assert more == ts[m + 1..];
    var (r, rest) := EndOf(begin, ts[m..]).value;
    var k := |ts| - |rest|;
    assert ts[..k][..m] == ts[..m];
    if !(Peek(more) == End || IsDelim(Peek(more))) {
      FieldTaken(more);
      assert more[|more| - |rest|..] == ts[k..];
      assert ts[..k][m + 1..] == more[..|more| - |rest|];
    }
  }

  /** The text goes on with a delimiter, or ends. */
  predicate Delimited(ts: seq<Token>, k: nat) {
    k <= |ts| && (k < |ts| ==> IsDelim(ts[k].kind))
  }

  /** A range is taken as a whole. */
  lemma RangeRead(ts: seq<Token>, k: nat, r: Frange)
    requires Delimited(ts, k) && IsRange(ts[..k], r)
    ensures RangeOf(ts) == Some((r, ts[k..]))
  {
    assert ts[..k][0] == ts[0];
    if DashAt(ts[..k], r, 1) {
      DashRead(ts, k, r, 1);
    } else if DashAt(ts[..k], r, 2) {
      DashRead(ts, k, r, 2);
    } else if IsNum(ts[..k], r.begin) {
      NumRead(ts, k, r.begin);
    }
  }

  /** The tokens from the dash on. */
  lemma EndRead(ts: seq<Token>, k: nat, r: Frange)
    requires 1 <= k && Delimited(ts, k) && ts[0].kind == Dash
    requires (k == 1 && r.end == 0x7FFF_FFFF) || IsNum(ts[1..k], r.end) || IsLast(ts[1..k], r.end)
    ensures EndOf(r.begin, ts) == Some((r, ts[k..]))
  {
    if k > 1 {
      var more := ts[1..];
      assert more[..k - 1] == ts[1..k] && more[0] == ts[1..k][0] && more[k - 1..] == ts[k..];
      FieldRead(more, k - 1, r.end);
    }
  }

  lemma BehindDash(ts: seq<Token>, m: nat, k: nat)
    requires m < k <= |ts|
    ensures ts[m..][1..k - m] == ts[..k][m + 1..] && ts[m..][k - m..] == ts[k..]
  {
  }

  lemma DashRead(ts: seq<Token>, k: nat, r: Frange, m: nat)
    requires Delimited(ts, k) && 1 <= m <= 2 && DashAt(ts[..k], r, m)
    ensures RangeOf(ts) == Some((r, ts[k..]))
  {
    assert ts[..k][..m] == ts[..m] && ts[..k][m] == ts[m] && ts[..m][0] == ts[0];
    NumRead(ts, m, r.begin);
    var us := ts[m..];
    BehindDash(ts, m, k);
    EndRead(us, k - m, r);
  }

  // ---------------------------------------------------------------------------------------------
  // Lists.
  // ---------------------------------------------------------------------------------------------

  /** The first range of the list takes k tokens, behind a space if there is one; then the list ends, or goes on
      behind a delimiter. */
  ghost predicate FirstTakes(ts: seq<Token>, rs: seq<Frange>, k: nat)
    requires rs != []
    decreases |rs|, 0
  {
    var us := if ts != [] && ts[0].kind == Space then ts[1..] else ts;
    && k <= |us| && IsRange(us[..k], rs[0])
    && if |rs| == 1 then k == |us| else k < |us| && us[k].kind in [Comma, Pipe, Space] && IsList(us[k + 1..], rs[1..])
  }

  /** Ranges with delimiters between them and white space in front of each. */
  ghost predicate IsList(ts: seq<Token>, rs: seq<Frange>)
    decreases |rs|, 1
  {
    rs != [] && exists k: nat :: FirstTakes(ts, rs, k)
  }

  lemma {:induction false} ListTaken(ts: seq<Token>)
    requires NoEnd(ts) && RangesOf(ts).Some?
    ensures IsList(ts, RangesOf(ts).value)
    decreases |ts|
  {
    var r, k, rs := FirstTaken(ts);
    if rs != [] {
      ListTaken(Unspaced(ts)[k + 1..]);
    }
    ListCons(ts, r, k, rs);
  }

  lemma FirstTaken(ts: seq<Token>) returns (r: Frange, k: nat, rs: seq<Frange>)
    requires NoEnd(ts) && RangesOf(ts).Some?
    ensures var us := Unspaced(ts);
            && k <= |us| && IsRange(us[..k], r) && RangesOf(ts) == Some([r] + rs)
            && if rs == [] then k == |us|
               else k < |us| && IsDelim(us[k].kind) && NoEnd(us[k + 1..]) && RangesOf(us[k + 1..]) == Some(rs)
  {
    var us := Unspaced(ts);
    RangeTaken(us);
    var rest;
    r, rest := RangeOf(us).value.0, RangeOf(us).value.1;
    k := |us| - |rest|;
    RangesStep(ts, r, rest);
    if rest == [] {
      rs := [];
      assert [r] + [] == [r];
    } else {
      assert rest[0] == us[k] && rest[1..] == us[k + 1..];
      rs := RangesOf(rest[1..]).value;
      RangesBounded(rest[1..]);
    }
  }

  lemma ListCons(ts: seq<Token>, r: Frange, k: nat, rs: seq<Frange>)
    requires k <= |Unspaced(ts)| && IsRange(Unspaced(ts)[..k], r)
    requires if rs == [] then k == |Unspaced(ts)|
             else k < |Unspaced(ts)| && IsDelim(Unspaced(ts)[k].kind) && IsList(Unspaced(ts)[k + 1..], rs)
    ensures IsList(ts, [r] + rs)
  {
    assert ([r] + rs)[1..] == rs;
    assert FirstTakes(ts, [r] + rs, k);
  }

  lemma {:induction false} ListRead(ts: seq<Token>, rs: seq<Frange>)
    requires NoEnd(ts) && IsList(ts, rs)
    ensures RangesOf(ts) == Some(rs)
    decreases |rs|
  {
    var k := FirstRead(ts, rs);
    if |rs| > 1 {
      ListRead(Unspaced(ts)[k + 1..], rs[1..]);
      assert [rs[0]] + rs[1..] == rs;
    } else {
      assert rs == [rs[0]];
    }
  }

  lemma FirstRead(ts: seq<Token>, rs: seq<Frange>) returns (k: nat)
    requires NoEnd(ts) && IsList(ts, rs)
    ensures var us := Unspaced(ts);
            && k <= |us| && RangeOf(us) == Some((rs[0], us[k..])) && NoEnd(us)
            && (|rs| == 1 ==> us[k..] == [])
            && (|rs| > 1 ==> us[k..] != [] && IsDelim(Peek(us[k..])) && us[k..][1..] == us[k + 1..]
                             && IsList(us[k + 1..], rs[1..]))
  {
    k :| FirstTakes(ts, rs, k);
    RangeRead(Unspaced(ts), k, rs[0]);
  }

  lemma {:induction false} WellFormedNoEnd(nd: set<char>, ts: seq<Token>)
    requires WellFormed(nd, ts)
    ensures NoEnd(ts)
    decreases |ts|
  {
    if ts != [] {
      WellFormedNoEnd(nd, ts[1..]);
      assert forall i :: 0 < i < |ts| ==> ts[i] == ts[1..][i - 1];
    }
  }

  /** A string means a list of ranges exactly when it consists of tokens and these are a list of such ranges, with
      delimiters between them and white space in front of them. */
  lemma MeansExactly(nd: set<char>, s: string, rs: seq<Frange>)
    requires Beyond(nd)
    ensures Ranges(nd, s) == Some(rs) <==> Lex(nd, s).Some? && IsList(Lex(nd, s).value, rs)
  {
    if Lex(nd, s).Some? {
      var ts := Lex(nd, s).value;
      LexExactly(nd, s, ts);
      WellFormedNoEnd(nd, ts);
      if Ranges(nd, s) == Some(rs) {
        ListTaken(ts);
      }
      if IsList(ts, rs) {
        ListRead(ts, rs);
      }
    }
  }
}
