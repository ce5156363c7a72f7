/** wc (cmds/wc/wc.go): lines, words, runes, broken runes and bytes, counted line by line. */
module Wc {
  import opened Common

  const NEWLINE: byte := 10

  // ---------------------------------------------------------------------------------------------
  // UTF-8 (section 4 of RFC 3629), as Go decodes it: a byte that starts no rune is one broken rune.
  // ---------------------------------------------------------------------------------------------

  predicate Cont(b: byte) {
    0x80 <= b <= 0xBF
  }

  predicate Two(a: byte, b: byte) {
    0xC2 <= a <= 0xDF && Cont(b)
  }

  predicate Three(a: byte, b: byte, c: byte) {
    0xE0 <= a <= 0xEF && Cont(b) && Cont(c) && (a == 0xE0 ==> 0xA0 <= b) && (a == 0xED ==> b <= 0x9F)
  }

  predicate Four(a: byte, b: byte, c: byte, d: byte) {
    0xF0 <= a <= 0xF4 && Cont(b) && Cont(c) && Cont(d) && (a == 0xF0 ==> 0x90 <= b) && (a == 0xF4 ==> b <= 0x8F)
  }

  const RUNE_ERROR: nat := 0xFFFD

  function Value2(a: byte, b: byte): nat
    requires Two(a, b)
  {
    (a as nat - 0xC0) * 64 + (b as nat - 0x80)
  }

  function Value3(a: byte, b: byte, c: byte): nat
    requires Three(a, b, c)
  {
    (a as nat - 0xE0) * 4096 + (b as nat - 0x80) * 64 + (c as nat - 0x80)
  }

  function Value4(a: byte, b: byte, c: byte, d: byte): nat
    requires Four(a, b, c, d)
  {
    (a as nat - 0xF0) * 262144 + (b as nat - 0x80) * 4096 + (c as nat - 0x80) * 64 + (d as nat - 0x80)
  }

  /** The rune at the start of `p` and the number of its bytes. */
  function Decode(p: bytes): (r: (nat, nat))
    requires p != []
    ensures 1 <= r.1 <= |p| && r.1 <= 4
    ensures p[0] >= 0x80 && r.1 == 1 ==> r.0 == 0xFFFD
  {
    if p[0] < 0x80 then (p[0] as nat, 1)
    else if |p| >= 2 && Two(p[0], p[1]) then (Value2(p[0], p[1]), 2)
    else if |p| >= 3 && Three(p[0], p[1], p[2]) then (Value3(p[0], p[1], p[2]), 3)
    else if |p| >= 4 && Four(p[0], p[1], p[2], p[3]) then (Value4(p[0], p[1], p[2], p[3]), 4)
    else (RUNE_ERROR, 1)
  }

  function Size(p: bytes): (n: nat)
    requires p != []
    ensures 1 <= n <= |p|
  {
    Decode(p).1
  }

  /** The first byte starts no rune. */
  predicate BrokenAt(p: bytes)
    requires p != []
  {
    p[0] >= 0x80 && Size(p) == 1
  }

  predicate Scalar(c: nat) {
    c < 0xD800 || 0xE000 <= c < 0x11_0000
  }

  /** Six bits of a code point behind the continuation mark. */
  function Tail(v: nat): (b: byte)
    ensures Cont(b)
  {
    (0x80 + v % 64) as byte
  }

  function Encode(c: nat): (b: bytes)
    requires Scalar(c)
    ensures b != []
  {
    if c < 0x80 then [c as byte]
    else if c < 0x800 then [(0xC0 + c / 64) as byte, Tail(c)]
    else if c < 0x1_0000 then [(0xE0 + c / 4096) as byte, Tail(c / 64), Tail(c)]
    else [(0xF0 + c / 262144) as byte, Tail(c / 4096), Tail(c / 64), Tail(c)]
  }

  lemma Sixes(c: nat)
    ensures c / 4096 == c / 64 / 64 && c / 262144 == c / 4096 / 64
    ensures c / 262144 * 262144 + c / 4096 % 64 * 4096 + c / 64 % 64 * 64 + c % 64 == c
  {
    var q := c / 64;
    assert c == q * 64 + c % 64 && q == q / 64 * 64 + q % 64;
  }

  lemma Encoded3(c: nat)
    requires Scalar(c) && 0x800 <= c < 0x1_0000
    ensures var a := (0xE0 + c / 4096) as byte;
            Three(a, Tail(c / 64), Tail(c)) && Value3(a, Tail(c / 64), Tail(c)) == c
  {
  }

  lemma Encoded4(c: nat)
    requires Scalar(c) && 0x1_0000 <= c
    ensures var a := (0xF0 + c / 262144) as byte;
            Four(a, Tail(c / 4096), Tail(c / 64), Tail(c)) && Value4(a, Tail(c / 4096), Tail(c / 64), Tail(c)) == c
  {
    Sixes(c);
  }

  lemma Decoded2(a: byte, b: byte)
    requires Two(a, b)
    ensures var v := Value2(a, b); 0x80 <= v < 0x800 && v / 64 == a as nat - 0xC0 && Tail(v) == b
  {
  }

  lemma Decoded3(a: byte, b: byte, c: byte)
    requires Three(a, b, c)
    ensures var v := Value3(a, b, c);
            Scalar(v) && 0x800 <= v < 0x1_0000 && v / 4096 == a as nat - 0xE0 && Tail(v / 64) == b && Tail(v) == c
  {
    var x, y, z := a as nat - 0xE0, b as nat - 0x80, c as nat - 0x80;
    assert Value3(a, b, c) / 64 == x * 64 + y;
  }

  lemma Decoded4(a: byte, b: byte, c: byte, d: byte)
    requires Four(a, b, c, d)
    ensures var v := Value4(a, b, c, d);
            && Scalar(v) && 0x1_0000 <= v && v / 262144 == a as nat - 0xF0
            && Tail(v / 4096) == b && Tail(v / 64) == c && Tail(v) == d
  {
    var w, x, y, z := a as nat - 0xF0, b as nat - 0x80, c as nat - 0x80, d as nat - 0x80;
    assert Value4(a, b, c, d) / 64 == w * 4096 + x * 64 + y;
    assert Value4(a, b, c, d) / 4096 == w * 64 + x;
  }

  lemma DecodeEncode(c: nat, rest: bytes)
    requires Scalar(c)
    ensures Decode(Encode(c) + rest) == (c, |Encode(c)|) && !BrokenAt(Encode(c) + rest)
  {
    if 0x800 <= c < 0x1_0000 {
      Encoded3(c);
    } else if 0x1_0000 <= c {
      Encoded4(c);
    }
  }

  /** A rune that is not broken is the encoding of a scalar value. */
  lemma EncodeDecode(p: bytes)
    requires p != [] && !BrokenAt(p)
    ensures Scalar(Decode(p).0) && p[..Size(p)] == Encode(Decode(p).0)
  {
    if Size(p) == 2 {
      Decoded2(p[0], p[1]);
    } else if Size(p) == 3 {
      Decoded3(p[0], p[1], p[2]);
    } else if Size(p) == 4 {
      Decoded4(p[0], p[1], p[2], p[3]);
    }
  }

  // ---------------------------------------------------------------------------------------------
  // One pass over bytes, ignoring lines.
  // ---------------------------------------------------------------------------------------------

  function Runes(p: bytes): nat {
    if p == [] then 0 else 1 + Runes(p[Size(p)..])
  }

  function Broken(p: bytes): nat {
    if p == [] then 0 else (if BrokenAt(p) then 1 else 0) + Broken(p[Size(p)..])
  }

  predicate Space(c: nat) {
    || 9 <= c <= 13 || c == 0x20 || c == 0x85 || c == 0xA0 || c == 0x1680 || 0x2000 <= c <= 0x200A
    || c == 0x2028 || c == 0x2029 || c == 0x202F || c == 0x205F || c == 0x3000
  }

  /** The maximal runs of runes that are not space; `inWord` says whether one is under way. */
  function Words(p: bytes, inWord: bool): nat {
    if p == [] then 0
    else
      var black := !Space(Decode(p).0);
      (if black && !inWord then 1 else 0) + Words(p[Size(p)..], black)
  }

  function Newlines(p: bytes): nat {
    if p == [] then 0 else (if p[0] == NEWLINE then 1 else 0) + Newlines(p[1..])
  }

  datatype Counts = Counts(nline: nat, nword: nat, nrune: nat, nbadr: nat, nchar: nat)

  function Plus(a: Counts, b: Counts): Counts {
    Counts(a.nline + b.nline, a.nword + b.nword, a.nrune + b.nrune, a.nbadr + b.nbadr, a.nchar + b.nchar)
  }

  /** What one pass over the whole of `p` counts. */
  function Tally(p: bytes): Counts {
    Counts(Newlines(p), Words(p, false), Runes(p), Broken(p), |p|)
  }

  /** A rune does not reach past a newline. */
  lemma DecodeLocal(a: bytes, b: bytes)
    requires a != [] && a[|a| - 1] == NEWLINE
    ensures Decode(a + b) == Decode(a) && (Size(a) == |a| ==> a == [NEWLINE])
  {
  }

  /** So every count of a file is the sum of the counts on both sides of a line break. */
  lemma {:induction false} SplitAtNewline(a: bytes, b: bytes, inWord: bool)
    requires a != [] && a[|a| - 1] == NEWLINE
    ensures Runes(a + b) == Runes(a) + Runes(b) && Broken(a + b) == Broken(a) + Broken(b)
    ensures Words(a + b, inWord) == Words(a, inWord) + Words(b, false)
    decreases |a|
  {
    DecodeLocal(a, b);
    var n := Size(a);
    if n == |a| {
      assert (a + b)[n..] == b;
    } else {
      assert (a + b)[n..] == a[n..] + b;
      SplitAtNewline(a[n..], b, !Space(Decode(a).0));
    }
  }

  lemma {:induction false} NewlinesSum(a: bytes, b: bytes)
    ensures Newlines(a + b) == Newlines(a) + Newlines(b)
    decreases |a|
  {
    if a == [] {
      assert a + b == b;
    } else {
      assert (a + b)[1..] == a[1..] + b;
      NewlinesSum(a[1..], b);
    }
  }

  lemma {:induction false} NoNewlines(a: bytes)
    requires NEWLINE !in a
    ensures Newlines(a) == 0
    decreases |a|
  {
    if a != [] {
      NoNewlines(a[1..]);
    }
  }

  lemma TallyLine(line: bytes, rest: bytes)
    requires NEWLINE !in line
    ensures Tally(line + [NEWLINE] + rest) == Plus(Tally(line + [NEWLINE]), Tally(rest))
    ensures Newlines(line + [NEWLINE]) == 1
  {
    NoNewlines(line);
    NewlinesSum(line, [NEWLINE]);
    NewlinesSum(line + [NEWLINE], rest);
    SplitAtNewline(line + [NEWLINE], rest, false);
  }

  // ---------------------------------------------------------------------------------------------
  // The counting loops.
  // ---------------------------------------------------------------------------------------------

  /** With `n` broken runes found before `i`, those that are left make up the whole. */
  ghost predicate Left(p: bytes, i: nat, n: nat) {
    i <= |p| && n + Broken(p[i..]) == Broken(p)
  }

  lemma LeftStep(p: bytes, i: nat, n: nat)
    requires i < |p| && Left(p, i, n)
    ensures p[i] < 0x80 ==> Left(p, i + 1, n)
    ensures p[i] >= 0x80 ==> Left(p, i + Size(p[i..]), if Size(p[i..]) == 1 then n + 1 else n)
  {
    assert p[i..][Size(p[i..])..] == p[i + Size(p[i..])..];
  }

  method InvalidCount(p: bytes) returns (n: nat)
    ensures n == Broken(p)
  {
    var i := 0;
    n := 0;
    assert p[0..] == p;
    while i < |p|
      invariant Left(p, i, n)
    {
      LeftStep(p, i, n);
      if p[i] < 0x80 {
        i := i + 1;
      } else {
        var size := Size(p[i..]);
        if size == 1 {
          n := n + 1;
        }
        i := i + size;
      }
    }
  }

  /** Reads up to and including the next newline; without one, all that is left. */
  method ReadLine(rest: bytes) returns (line: bytes, after: bytes, ended: bool)
    ensures Newlines(line) == (if ended then 0 else 1) && line + after == rest && (ended ==> after == [])
    ensures Tally(rest) == Plus(Tally(line), Tally(after))
  {
    var i := 0;
    while i < |rest|
      invariant i <= |rest| && NEWLINE !in rest[..i]
    {
      if rest[i] == NEWLINE {
        assert rest[..i + 1] == rest[..i] + [NEWLINE];
        assert rest == rest[..i] + [NEWLINE] + rest[i + 1..];
        TallyLine(rest[..i], rest[i + 1..]);
        return rest[..i + 1], rest[i + 1..], false;
      }
      i := i + 1;
    }
    NoNewlines(rest);
    return rest, [], true;
  }

  method AddLine(c: Counts, line: bytes, ended: bool) returns (d: Counts)
    requires Newlines(line) == if ended then 0 else 1
    ensures d == Plus(c, Tally(line))
  {
    d := if ended then c else c.(nline := c.nline + 1);
    var bad := InvalidCount(line);
    d := d.(nword := d.nword + Words(line, false), nrune := d.nrune + Runes(line), nchar := d.nchar + |line|,
            nbadr := d.nbadr + bad);
  }

  lemma PlusAssoc(a: Counts, b: Counts, c: Counts)
    ensures Plus(Plus(a, b), c) == Plus(a, Plus(b, c))
  {
  }

  /** The counts of a file line by line are those of one pass over it; a read error gives no counts. */
  method Count(data: bytes, fails: bool) returns (c: Counts)
    ensures c == if fails then Counts(0, 0, 0, 0, 0) else Tally(data)
  {
    c := Counts(0, 0, 0, 0, 0);
    var rest := data;
    var counted := false;
    while !counted
      invariant Plus(c, Tally(rest)) == Tally(data) && (counted ==> rest == [] && !fails)
      decreases |rest|, !counted
    {
      var line, after, ended := ReadLine(rest);
      if ended {
        if fails {
          return Counts(0, 0, 0, 0, 0);
        }
        counted := true;
      }
      PlusAssoc(c, Tally(line), Tally(after));
      c := AddLine(c, line, ended);
      rest := after;
    }
  }

  // ---------------------------------------------------------------------------------------------
  // What the counts mean.
  // ---------------------------------------------------------------------------------------------

  predicate Scalars(cs: seq<nat>) {
    forall i :: 0 <= i < |cs| ==> Scalar(cs[i])
  }

  function EncodeAll(cs: seq<nat>): bytes
    requires Scalars(cs)
  {
    if cs == [] then [] else Encode(cs[0]) + EncodeAll(cs[1..])
  }

  lemma {:induction false} CountsOfText(cs: seq<nat>)
    requires Scalars(cs)
    ensures Broken(EncodeAll(cs)) == 0 && Runes(EncodeAll(cs)) == |cs|
    decreases |cs|
  {
    if cs != [] {
      DecodeEncode(cs[0], EncodeAll(cs[1..]));
      CountsOfText(cs[1..]);
      assert EncodeAll(cs)[|Encode(cs[0])|..] == EncodeAll(cs[1..]);
    }
  }

  lemma EncodeCons(c: nat, cs: seq<nat>)
    requires Scalar(c) && Scalars(cs)
    ensures Scalars([c] + cs) && EncodeAll([c] + cs) == Encode(c) + EncodeAll(cs)
  {
    assert ([c] + cs)[1..] == cs;
  }

  lemma FirstRune(p: bytes) returns (c: nat, rest: bytes)
    requires p != [] && Broken(p) == 0
    ensures Scalar(c) && p == Encode(c) + rest && Broken(rest) == 0
  {
    EncodeDecode(p);
    c, rest := Decode(p).0, p[Size(p)..];
  }

  lemma {:induction false} TextOfCounts(p: bytes) returns (cs: seq<nat>)
    requires Broken(p) == 0
    ensures Scalars(cs) && EncodeAll(cs) == p
    decreases |p|
  {
    if p == [] {
      cs := [];
    } else {
      var c, rest := FirstRune(p);
      cs := TextOfCounts(rest);
      EncodeCons(c, cs);
      cs := [c] + cs;
    }
  }

  /** A file has no broken rune exactly when it is UTF-8 text, and then the runes are its code points. */
  lemma CleanExactly(p: bytes)
    ensures Tally(p).nbadr == 0 <==> exists cs :: Scalars(cs) && EncodeAll(cs) == p
    ensures forall cs :: Scalars(cs) && EncodeAll(cs) == p ==> Tally(p).nrune == |cs|
  {
    if Broken(p) == 0 {
      var cs := TextOfCounts(p);
    }
    forall cs | Scalars(cs) && EncodeAll(cs) == p
      ensures Broken(p) == 0 && Runes(p) == |cs|
    {
      CountsOfText(cs);
    }
  }

  lemma {:induction false} CountsInOrder(p: bytes)
    ensures Tally(p).nbadr <= Tally(p).nrune <= Tally(p).nchar <= 4 * Tally(p).nrune
    decreases |p|
  {
    if p != [] {
      CountsInOrder(p[Size(p)..]);
    }
  }
}
