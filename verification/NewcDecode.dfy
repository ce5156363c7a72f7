/** What the reader of pkg/cpio/newc/newc.go makes of any data. */
module NewcDecode {
  import opened Common
  import opened CpioInode
  import opened CpioRecords
  import opened Newc
  import opened NewcLayout

  /** A hexadecimal digit in either case. */
  predicate IsHex(b: byte) {
    0x30 <= b <= 0x39 || 0x41 <= b <= 0x46 || 0x61 <= b <= 0x66
  }

  predicate AllHex(s: bytes) {
    forall k :: 0 <= k < |s| ==> IsHex(s[k])
  }

  lemma {:induction false} HexValueExactly(s: bytes)
    ensures HexValue(s).Some? <==> AllHex(s)
    decreases |s|
  {
    if s != [] {
      var k := |s| - 1;
      HexValueExactly(s[..k]);
      assert IsHex(s[k]) <==> DigitValue(s[k]).Some?;
      assert forall i :: 0 <= i < k ==> s[..k][i] == s[i];
    }
  }

  /** The same digit in lower case. */
  function Lower(b: byte): byte {
    if 0x41 <= b <= 0x46 then b + 0x20 else b
  }

  /** The case of the digits does not matter. */
  lemma {:induction false} CaseDoesNotMatter(s: bytes, t: bytes)
    requires |s| == |t| && forall k :: 0 <= k < |s| ==> Lower(s[k]) == Lower(t[k])
    ensures HexValue(s) == HexValue(t)
    decreases |s|
  {
    if s != [] {
      var k := |s| - 1;
      assert Lower(s[k]) == Lower(t[k]);
      CaseDoesNotMatter(s[..k], t[..k]);
    }
  }

  lemma AllHexSplit(s: bytes, n: nat)
    requires n <= |s|
    ensures AllHex(s) <==> AllHex(s[..n]) && AllHex(s[n..])
  {
    if AllHex(s[..n]) && AllHex(s[n..]) {
      forall k | 0 <= k < |s| ensures IsHex(s[k]) {
        assert if k < n then s[k] == s[..n][k] else s[k] == s[n..][k - n];
      }
    }
  }

  lemma {:induction false} WordValuesExactly(s: bytes)
    requires |s| % 8 == 0
    ensures WordValues(s).Some? <==> AllHex(s)
    decreases |s|
  {
    if |s| >= 8 {
      AllHexSplit(s, 8);
      HexValueExactly(s[..8]);
      WordValuesExactly(s[8..]);
    }
  }

  lemma TailSlice(s: bytes, i: nat, j: nat)
    requires i <= j <= |s| - 8
    ensures s[8..][i..j] == s[8 + i..8 + j]
  {
    assert s[8..|s|] == s[8..];
    SliceSlice(s, 8, |s|, i, j);
  }

  lemma WordValuesStep(s: bytes)
    requires WordValues(s).Some? && |s| >= 8
    ensures WordValues(s[8..]).Some? && HexValue(s[..8]).Some?
    ensures WordValues(s).value == [HexValue(s[..8]).value] + WordValues(s[8..]).value
  {
  }

  lemma {:induction false} WordValuesAt(s: bytes, k: nat)
    requires WordValues(s).Some? && 8 * k + 8 <= |s|
    ensures k < |WordValues(s).value| && HexValue(s[8 * k..8 * k + 8]) == Some(WordValues(s).value[k])
    decreases |s|
  {
    WordValuesStep(s);
    if k > 0 {
      WordValuesAt(s[8..], k - 1);
      TailSlice(s, 8 * k - 8, 8 * k);
    }
  }

  /** A whole header stands at `pos`: the magic and hexadecimal digits. */
  predicate HasHeader(data: bytes, pos: nat) {
    && pos + 110 <= |data| && data[pos..pos + 6] == [0x30, 0x37, 0x30, 0x37, 0x30, 0x31]
    && AllHex(data[pos + 6..pos + 110])
  }

  lemma HeaderWords(data: bytes, pos: nat)
    requires pos + 110 <= |data|
    ensures HasHeader(data, pos) <==> data[pos..pos + 6] == MAGIC && WordValues(data[pos + 6..pos + 110]).Some?
    ensures HasHeader(data, pos) ==> |WordValues(data[pos + 6..pos + 110]).value| == 13
  {
    WordValuesExactly(data[pos + 6..pos + 110]);
    WordCount(data[pos + 6..pos + 110]);
  }

  /** The number whose eight digits stand `at` bytes behind the start of a header. */
  function FieldAt(data: bytes, pos: nat, at: nat): nat
    requires pos + at + 8 <= |data|
  {
    match HexValue(data[pos + at..pos + at + 8])
    case Some(v) => v
    case None => 0
  }

  lemma FieldIsWord(data: bytes, pos: nat, vs: seq<nat>, k: nat, at: nat)
    requires HasHeader(data, pos) && WordValues(data[pos + 6..pos + 110]) == Some(vs) && k < 13 && at == 6 + 8 * k
    ensures |vs| == 13 && vs[k] == FieldAt(data, pos, at)
  {
    HeaderWords(data, pos);
    WordValuesAt(data[pos + 6..pos + 110], k);
    SliceSlice(data, pos + 6, pos + 110, 8 * k, 8 * k + 8);
  }

  /** The record holds the numbers of the header at `pos`, each from its place, and no device. */
  predicate HoldsNumbers(data: bytes, pos: nat, i: Info)
    requires HasHeader(data, pos)
  {
    && i.ino == FieldAt(data, pos, 6) && i.mode == FieldAt(data, pos, 14) && i.uid == FieldAt(data, pos, 22)
    && i.gid == FieldAt(data, pos, 30) && i.nlink == FieldAt(data, pos, 38) && i.mtime == FieldAt(data, pos, 46)
    && i.fileSize == FieldAt(data, pos, 54) && i.dev == 0
    && i.major == FieldAt(data, pos, 62) && i.minor == FieldAt(data, pos, 70)
    && i.rmajor == FieldAt(data, pos, 78) && i.rminor == FieldAt(data, pos, 86)
  }

  lemma NumbersHeld(data: bytes, pos: nat, vs: seq<nat>, name: string)
    requires HasHeader(data, pos) && WordValues(data[pos + 6..pos + 110]) == Some(vs)
    ensures |vs| == 13 && HoldsNumbers(data, pos, InfoOf(vs, name))
    ensures vs[6] == FieldAt(data, pos, 54) && vs[11] == FieldAt(data, pos, 94)
  {
    FieldIsWord(data, pos, vs, 0, 6);
    FieldIsWord(data, pos, vs, 1, 14);
    FieldIsWord(data, pos, vs, 2, 22);
    FieldIsWord(data, pos, vs, 3, 30);
    FieldIsWord(data, pos, vs, 4, 38);
    FieldIsWord(data, pos, vs, 5, 46);
    FieldIsWord(data, pos, vs, 6, 54);
    FieldIsWord(data, pos, vs, 7, 62);
    FieldIsWord(data, pos, vs, 8, 70);
    FieldIsWord(data, pos, vs, 9, 78);
    FieldIsWord(data, pos, vs, 10, 86);
    FieldIsWord(data, pos, vs, 11, 94);
  }

  /** What the record at a whole header is. */
  predicate FoundRight(data: bytes, pos: nat, r: Record, after: nat)
    requires HasHeader(data, pos) && 0 < FieldAt(data, pos, 94) && pos + 110 + FieldAt(data, pos, 94) <= |data|
  {
    var n, size := FieldAt(data, pos, 94), FieldAt(data, pos, 54);
    var start := Round4(pos + 110 + n);
    && HoldsNumbers(data, pos, r.info) && r.info.name == NameOf(data[pos + 110..pos + 110 + n - 1])
    && r.content == Some(if start <= |data| then data[start..Min(start + size, |data|)] else [])
    && after == Round4(start + size)
  }

  lemma ClipIs(data: bytes, start: nat, size: nat)
    ensures Clip(data, start, size) == if start <= |data| then data[start..Min(start + size, |data|)] else []
  {
  }

  lemma FoundIsRight(data: bytes, pos: nat, vs: seq<nat>)
    requires HasHeader(data, pos) && WordValues(data[pos + 6..pos + 110]) == Some(vs) && |vs| == 13
    requires 0 < vs[11] && pos + 110 + vs[11] <= |data|
    ensures vs[11] == FieldAt(data, pos, 94) && Decode(data, pos).0.Found?
    ensures FoundRight(data, pos, Decode(data, pos).0.r, Decode(data, pos).1)
  {
    DecodeWords(data, pos, vs);
    WordsAreRight(data, pos, vs, NameOf(data[pos + 110..pos + 110 + vs[11] - 1]));
  }

  lemma WordsAreRight(data: bytes, pos: nat, vs: seq<nat>, name: string)
    requires HasHeader(data, pos) && WordValues(data[pos + 6..pos + 110]) == Some(vs) && |vs| == 13
    requires 0 < vs[11] && pos + 110 + vs[11] <= |data| && name == NameOf(data[pos + 110..pos + 110 + vs[11] - 1])
    ensures vs[11] == FieldAt(data, pos, 94)
    ensures var start := Round4(pos + 110 + vs[11]);
            FoundRight(data, pos, Record(InfoOf(vs, name), Some(Clip(data, start, vs[6]))), Round4(start + vs[6]))
  {
    NumbersHeld(data, pos, vs, name);
    ClipIs(data, Round4(pos + 110 + vs[11]), vs[6]);
  }

  lemma DecodeWords(data: bytes, pos: nat, vs: seq<nat>)
    requires pos + 110 <= |data| && data[pos..pos + 6] == MAGIC && WordValues(data[pos + 6..pos + 110]) == Some(vs)
    requires |vs| == 13 && 0 < vs[11] && pos + 110 + vs[11] <= |data|
    ensures var start := Round4(pos + 110 + vs[11]);
            var name := NameOf(data[pos + 110..pos + 110 + vs[11] - 1]);
            Decode(data, pos)
            == (Found(Record(InfoOf(vs, name), Some(Clip(data, start, vs[6])))), Round4(start + vs[6]))
  {
  }

  /** What decoding any data at any position gives: the end when the header or the name is cut off, an error exactly
      when there is no header, a panic exactly for a name without room for its zero byte, and otherwise the
      record with the numbers, the name and as much of the content as there is. */
  lemma DecodeExactly(data: bytes, pos: nat)
    ensures var d := Decode(data, pos).0;
            && (d.Malformed? <==> pos + 110 <= |data| && !HasHeader(data, pos))
            && (d.EndOfData? <==> pos + 110 > |data|
                                  || (HasHeader(data, pos) && pos + 110 + FieldAt(data, pos, 94) > |data|))
            && (d.SlicePanic? <==> HasHeader(data, pos) && FieldAt(data, pos, 94) == 0)
            && (d.Found? <==> HasHeader(data, pos) && 0 < FieldAt(data, pos, 94) <= |data| - pos - 110)
            && (d.Found? ==> FoundRight(data, pos, d.r, Decode(data, pos).1))
  {
    if pos + 110 <= |data| {
      HeaderWords(data, pos);
      if HasHeader(data, pos) {
        var vs := WordValues(data[pos + 6..pos + 110]).value;
        NumbersHeld(data, pos, vs, "");
        if 0 < vs[11] && pos + 110 + vs[11] <= |data| {
          FoundIsRight(data, pos, vs);
        }
      }
    }
  }
}
