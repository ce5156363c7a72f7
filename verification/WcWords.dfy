/** What the word count of cmds/wc/wc.go means: the fields of the decoded text. */
module WcWords {
  import opened Common
  import opened Wc

  /** The text as Go decodes it: each broken rune is one error rune. */
  function Decoded(p: bytes): seq<nat> {
    if p == [] then [] else [Decode(p).0] + Decoded(p[Size(p)..])
  }

  /** UTF-8 text decodes to its code points. */
  lemma {:induction false} DecodedText(cs: seq<nat>)
    requires Scalars(cs)
    ensures Decoded(EncodeAll(cs)) == cs
    decreases |cs|
  {
    if cs != [] {
      DecodeEncode(cs[0], EncodeAll(cs[1..]));
      DecodedText(cs[1..]);
      assert EncodeAll(cs)[|Encode(cs[0])|..] == EncodeAll(cs[1..]);
      assert [cs[0]] + cs[1..] == cs;
    }
  }

  // ---------------------------------------------------------------------------------------------
  // Fields and gaps.
  // ---------------------------------------------------------------------------------------------

  predicate AllSpace(g: seq<nat>) {
    forall i :: 0 <= i < |g| ==> Space(g[i])
  }

  /** A field: at least one rune and none of them white space. */
  predicate Field(w: seq<nat>) {
    w != [] && forall i :: 0 <= i < |w| ==> !Space(w[i])
  }

  /** Fields with white space around them; between two fields there is some. */
  predicate Proper(gaps: seq<seq<nat>>, fields: seq<seq<nat>>) {
    && |gaps| == |fields| + 1
    && (forall i :: 0 <= i < |gaps| ==> AllSpace(gaps[i]))
    && (forall i :: 0 <= i < |fields| ==> Field(fields[i]))
    && (forall i :: 0 < i < |fields| ==> gaps[i] != [])
  }

  function Laid(gaps: seq<seq<nat>>, fields: seq<seq<nat>>): seq<nat>
    requires |gaps| == |fields| + 1
  {
    if fields == [] then gaps[0] else gaps[0] + (fields[0] + Laid(gaps[1..], fields[1..]))
  }

  /** The count over decoded text. */
  function WordsIn(cs: seq<nat>, inWord: bool): nat {
    if cs == [] then 0
    else (if !Space(cs[0]) && !inWord then 1 else 0) + WordsIn(cs[1..], !Space(cs[0]))
  }

  lemma {:induction false} WordsDecoded(p: bytes, inWord: bool)
    ensures Words(p, inWord) == WordsIn(Decoded(p), inWord)
    decreases |p|
  {
    if p != [] {
      WordsDecoded(p[Size(p)..], !Space(Decode(p).0));
    }
  }

  lemma {:induction false} SkipGap(g: seq<nat>, rest: seq<nat>, inWord: bool)
    requires AllSpace(g)
    ensures WordsIn(g + rest, inWord) == WordsIn(rest, inWord && g == [])
    decreases |g|
  {
    if g == [] {
      assert g + rest == rest;
    } else {
      assert (g + rest)[1..] == g[1..] + rest;
      SkipGap(g[1..], rest, false);
    }
  }

  lemma {:induction false} SkipField(w: seq<nat>, rest: seq<nat>, inWord: bool)
    requires Field(w)
    ensures WordsIn(w + rest, inWord) == (if inWord then 0 else 1) + WordsIn(rest, true)
    decreases |w|
  {
    assert (w + rest)[1..] == w[1..] + rest;
    if |w| == 1 {
      assert w[1..] + rest == rest;
    } else {
      SkipField(w[1..], rest, true);
    }
  }

  lemma {:induction false} FieldsCounted(gaps: seq<seq<nat>>, fields: seq<seq<nat>>, inWord: bool)
    requires Proper(gaps, fields) && (inWord && fields != [] ==> gaps[0] != [])
    ensures WordsIn(Laid(gaps, fields), inWord) == |fields|
    decreases |fields|
  {
    if fields == [] {
      SkipGap(gaps[0], [], inWord);
      assert gaps[0] + [] == gaps[0];
    } else {
      var rest := Laid(gaps[1..], fields[1..]);
      SkipGap(gaps[0], fields[0] + rest, inWord);
      SkipField(fields[0], rest, false);
      FieldsCounted(gaps[1..], fields[1..], true);
    }
  }

  /** The text split into fields. */
  lemma {:induction false} HasFields(cs: seq<nat>) returns (gaps: seq<seq<nat>>, fields: seq<seq<nat>>)
    ensures Proper(gaps, fields) && Laid(gaps, fields) == cs
    decreases |cs|
  {
    if cs == [] {
      gaps, fields := [[]], [];
    } else {
      gaps, fields := HasFields(cs[1..]);
      assert [cs[0]] + cs[1..] == cs;
      if Space(cs[0]) {
        gaps := LongerGap(gaps, fields, cs[0]);
      } else if fields != [] && gaps[0] == [] {
        fields := LongerField(gaps, fields, cs[0]);
      } else {
        gaps, fields := NewField(gaps, fields, cs[0]);
      }
    }
  }

  lemma LongerGap(gaps: seq<seq<nat>>, fields: seq<seq<nat>>, c: nat) returns (gaps': seq<seq<nat>>)
    requires Proper(gaps, fields) && Space(c)
    ensures Proper(gaps', fields) && Laid(gaps', fields) == [c] + Laid(gaps, fields)
  {
    gaps' := gaps[0 := [c] + gaps[0]];
    assert gaps'[1..] == gaps[1..];
    if fields != [] {
      Assoc([c], gaps[0], fields[0] + Laid(gaps[1..], fields[1..]));
    }
  }

  lemma LongerField(gaps: seq<seq<nat>>, fields: seq<seq<nat>>, c: nat) returns (fields': seq<seq<nat>>)
    requires Proper(gaps, fields) && fields != [] && gaps[0] == [] && !Space(c)
    ensures Proper(gaps, fields') && Laid(gaps, fields') == [c] + Laid(gaps, fields)
  {
    var rest := Laid(gaps[1..], fields[1..]);
    fields' := fields[0 := [c] + fields[0]];
    assert fields'[1..] == fields[1..];
    Assoc([c], fields[0], rest);
    assert [] + (fields'[0] + rest) == fields'[0] + rest && [] + (fields[0] + rest) == fields[0] + rest;
  }

  lemma NewField(gaps: seq<seq<nat>>, fields: seq<seq<nat>>, c: nat)
      returns (gaps': seq<seq<nat>>, fields': seq<seq<nat>>)
    requires Proper(gaps, fields) && (fields != [] ==> gaps[0] != []) && !Space(c)
    ensures Proper(gaps', fields') && Laid(gaps', fields') == [c] + Laid(gaps, fields)
  {
    gaps', fields' := [[]] + gaps, [[c]] + fields;
    assert gaps'[1..] == gaps && fields'[1..] == fields;
    assert [] + ([c] + Laid(gaps, fields)) == [c] + Laid(gaps, fields);
  }

  /** The gaps and fields make up the decoded text of `p`. */
  predicate SplitsInto(p: bytes, gaps: seq<seq<nat>>, fields: seq<seq<nat>>) {
    Proper(gaps, fields) && Laid(gaps, fields) == Decoded(p)
  }

  /** The word count is the number of fields that white space separates, however the text is split into them; every text
      can be split. */
  lemma WordsAreFields(p: bytes)
    ensures exists gaps, fields :: SplitsInto(p, gaps, fields)
    ensures forall gaps, fields :: SplitsInto(p, gaps, fields) ==> Tally(p).nword == |fields|
  {
    var gs, fs := HasFields(Decoded(p));
    assert SplitsInto(p, gs, fs);
    WordsDecoded(p, false);
    forall gaps, fields | SplitsInto(p, gaps, fields) ensures Tally(p).nword == |fields| {
      FieldsCounted(gaps, fields, false);
    }
  }
}
