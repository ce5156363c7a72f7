/** The new ASCII format of pkg/cpio/newc/newc.go: records as bytes, aligned to four. */
module Newc {
  import opened Common
  import opened CpioInode
  import opened CpioRecords

  const TWO_32: nat := 0x1_0000_0000
  const MAGIC: bytes := [0x30, 0x37, 0x30, 0x37, 0x30, 0x31]   // "070701"
  const HEADER_LEN: nat := 110                                 // magic and thirteen numbers

  // ---------------------------------------------------------------------------------------------
  // Hexadecimal numbers of eight digits.
  // ---------------------------------------------------------------------------------------------

  function Digit(v: nat): byte
    requires v < 16
  {
    if v < 10 then (0x30 + v) as byte else (0x41 + v - 10) as byte
  }

  /** The value of a hexadecimal digit in either case. */
  function DigitValue(b: byte): Option<nat> {
    if 0x30 <= b <= 0x39 then Some(b as nat - 0x30)
    else if 0x41 <= b <= 0x46 then Some(b as nat - 0x41 + 10)
    else if 0x61 <= b <= 0x66 then Some(b as nat - 0x61 + 10)
    else None
  }

  function Hex(v: nat, n: nat): (s: bytes)
    ensures |s| == n
  {
    if n == 0 then [] else Hex(v / 16, n - 1) + [Digit(v % 16)]
  }

  function HexValue(s: bytes): Option<nat> {
    if s == [] then Some(0)
    else
      var k := |s| - 1;
      match (HexValue(s[..k]), DigitValue(s[k]))
      case (Some(hi), Some(lo)) => Some(hi * 16 + lo)
      case _ => None
  }

  function Pow16(n: nat): nat {
    if n == 0 then 1 else 16 * Pow16(n - 1)
  }

  lemma {:induction false} HexRoundTrip(v: nat, n: nat)
    requires v < Pow16(n)
    ensures HexValue(Hex(v, n)) == Some(v)
    decreases n
  {
    if n > 0 {
      HexRoundTrip(v / 16, n - 1);
      assert Hex(v, n)[..n - 1] == Hex(v / 16, n - 1);
      assert DigitValue(Digit(v % 16)) == Some(v % 16);
    }
  }

  lemma Pow16Of8()
    ensures Pow16(8) == TWO_32
  {
    assert Pow16(2) == 256 && Pow16(4) == 65536;
    assert Pow16(6) == 16 * (16 * Pow16(4));
  }

  /** A 32-bit number as eight digits. */
  function Word(v: nat): bytes {
    Hex(v % TWO_32, 8)
  }

  lemma WordRoundTrip(v: nat)
    ensures HexValue(Word(v)) == Some(v % TWO_32)
  {
    Pow16Of8();
    HexRoundTrip(v % TWO_32, 8);
  }

  function Words(vs: seq<nat>): (s: bytes)
    ensures |s| == 8 * |vs|
  {
    if vs == [] then [] else Word(vs[0]) + Words(vs[1..])
  }

  function WordValues(s: bytes): Option<seq<nat>> {
    if |s| < 8 then Some([])
    else
      match (HexValue(s[..8]), WordValues(s[8..]))
      case (Some(v), Some(vs)) => Some([v] + vs)
      case _ => None
  }

  function Truncated(vs: seq<nat>): seq<nat> {
    seq(|vs|, i requires 0 <= i < |vs| => vs[i] % TWO_32)
  }

  /** The thirteen numbers of a header come back as 32-bit numbers. */
  lemma {:induction false} WordsRoundTrip(vs: seq<nat>)
    ensures WordValues(Words(vs)) == Some(Truncated(vs))
    decreases |vs|
  {
    if vs == [] {
      assert Truncated(vs) == [];
    } else {
      var s := Words(vs);
      assert s[..8] == Word(vs[0]) && s[8..] == Words(vs[1..]);
      WordRoundTrip(vs[0]);
      WordsRoundTrip(vs[1..]);
      assert Truncated(vs) == [vs[0] % TWO_32] + Truncated(vs[1..]);
    }
  }

  // ---------------------------------------------------------------------------------------------
  // Names, padding, records.
  // ---------------------------------------------------------------------------------------------

  /** The characters of a name stand for bytes. */
  predicate ByteName(name: string) {
    forall i :: 0 <= i < |name| ==> name[i] < 256 as char
  }

  function NameBytes(name: string): bytes
    requires ByteName(name)
  {
    seq(|name|, i requires 0 <= i < |name| => name[i] as int as byte)
  }

  function NameOf(b: bytes): string {
    seq(|b|, i requires 0 <= i < |b| => b[i] as int as char)
  }

  lemma NameRoundTrip(name: string)
    requires ByteName(name)
    ensures NameOf(NameBytes(name)) == name
  {
  }

  function Round4(n: nat): nat {
    (n + 3) / 4 * 4
  }

  /** The zero bytes that bring a position to a multiple of four. */
  function Pad(pos: nat): bytes {
    seq(Round4(pos) - pos, _ => 0)
  }

  /** The bytes behind the header; a record without a reader has none. */
  function Body(r: Record): bytes {
    if r.content.Some? then r.content.value else []
  }

  /** The size in the header: that of the file, but 0 without a reader. */
  function SizeOf(r: Record): nat {
    if r.content.Some? then r.info.fileSize else 0
  }

  /** The header numbers, in the order of the format; the last is the unused checksum. */
  function Fields(r: Record): seq<nat> {
    var i := r.info;
    [i.ino, i.mode, i.uid, i.gid, i.nlink, i.mtime, SizeOf(r), i.major, i.minor, i.rmajor, i.rminor, |i.name| + 1, 0]
  }

  function Head(r: Record): (s: bytes)
    requires ByteName(r.info.name)
    ensures |s| == HEADER_LEN + |r.info.name| + 1
  {
    MAGIC + Words(Fields(r)) + (NameBytes(r.info.name) + [0])
  }

  /** The bytes of a record that starts at position `pos` of the archive. */
  function Encode(r: Record, pos: nat): bytes
    requires ByteName(r.info.name)
  {
    var named := pos + |Head(r)|;
    var filled := Round4(named) + |Body(r)|;
    Head(r) + Pad(named) + Body(r) + (if Body(r) == [] then [] else Pad(filled))
  }

  /** A record that the format can hold: the length of its name is 32-bit, and its size as 32 bits is that of its
      content. */
  predicate Fits(r: Record) {
    ByteName(r.info.name) && |r.info.name| + 1 < TWO_32 && SizeOf(r) % TWO_32 == |Body(r)|
  }

  /** What comes back: every number as 32 bits, no device, and an empty content for none. */
  function Stored(r: Record): Record {
    var i := r.info;
    Record(Info(i.ino % TWO_32, i.mode % TWO_32, i.uid % TWO_32, i.gid % TWO_32, i.nlink % TWO_32,
                i.mtime % TWO_32, SizeOf(r) % TWO_32, 0, i.major % TWO_32, i.minor % TWO_32,
                i.rmajor % TWO_32, i.rminor % TWO_32, i.name), Some(Body(r)))
  }

  class NewcWriter {
    var out: bytes
    var pos: nat

    ghost predicate Valid()
      reads this
    {
      pos == |out|
    }

    constructor ()
      ensures Valid() && out == []
    {
      out, pos := [], 0;
    }

    method Write(b: bytes)
      requires Valid()
      modifies this
      ensures Valid() && out == old(out) + b
    {
      out := out + b;
      pos := pos + |b|;
    }

    method WritePad()
      requires Valid()
      modifies this
      ensures Valid() && out == old(out) + Pad(|old(out)|)
    {
      var o := Round4(pos);
      if o != pos {
        Write(seq(o - pos, _ => 0));
      }
    }

    method WriteHead(r: Record)
      requires Valid() && ByteName(r.info.name)
      modifies this
      ensures Valid() && out == old(out) + Head(r)
    {
      Write(MAGIC);
      Write(Words(Fields(r)));
      Write(NameBytes(r.info.name) + [0]);
    }

    method WriteRecord(r: Record)
      requires Valid() && ByteName(r.info.name)
      modifies this
      ensures Valid() && out == old(out) + Encode(r, |old(out)|)
    {
      WriteHead(r);
      WritePad();
      if r.content.None? {
        return;
      }
      Write(r.content.value);
      if |r.content.value| > 0 {
        WritePad();
      }
    }
  }

  // ---------------------------------------------------------------------------------------------
  // Reading back.
  // ---------------------------------------------------------------------------------------------

  /** A name length of 0 makes the reader slice out of range. */
  datatype Decoded = Found(r: Record) | EndOfData | Malformed | SlicePanic

  /** The bytes from `pos` up to `pos + n`, clipped at the end of the data. */
  function Clip(data: bytes, pos: nat, n: nat): bytes {
    if pos >= |data| then [] else data[pos..Min(pos + n, |data|)]
  }

  function InfoOf(vs: seq<nat>, name: string): Info
    requires |vs| == 13
  {
    Info(vs[0], vs[1], vs[2], vs[3], vs[4], vs[5], vs[6], 0, vs[7], vs[8], vs[9], vs[10], name)
  }

  /** `ReadRecord` at a position: what it finds and where it stands afterwards. */
  function Decode(data: bytes, pos: nat): (Decoded, nat) {
    if pos + HEADER_LEN > |data| then (EndOfData, pos)
    else
      var named := pos + HEADER_LEN;
      if data[pos..pos + 6] != MAGIC then (Malformed, named)
      else
        match WordValues(data[pos + 6..named])
        case None => (Malformed, named)
        case Some(vs) =>
          if |vs| != 13 then (Malformed, named)
          else if named + vs[11] > |data| then (EndOfData, Round4(named))
          else if vs[11] == 0 then (SlicePanic, Round4(named))
          else
            var name := NameOf(data[named..named + vs[11] - 1]);
            var start := Round4(named + vs[11]);
            (Found(Record(InfoOf(vs, name), Some(Clip(data, start, vs[6])))), Round4(start + vs[6]))
  }

  lemma {:induction false} WordCount(s: bytes)
    ensures WordValues(s).Some? ==> |WordValues(s).value| == |s| / 8
    decreases |s|
  {
    if |s| >= 8 {
      WordCount(s[8..]);
    }
  }

  class NewcReader {
    const data: bytes
    var pos: nat

    constructor (data: bytes)
      ensures this.data == data && pos == 0
    {
      this.data, pos := data, 0;
    }

    /** Reads exactly n bytes or reports the end. */
    method Take(n: nat) returns (b: Option<bytes>)
      modifies this
      ensures b == if old(pos) + n <= |data| then Some(data[old(pos)..old(pos) + n]) else None
      ensures pos == if b.Some? then old(pos) + n else old(pos)
    {
      if pos + n > |data| {
        return None;
      }
      b := Some(data[pos..pos + n]);
      pos := pos + n;
    }

    method ReadRecord() returns (d: Decoded)
      modifies this
      ensures (d, pos) == Decode(data, old(pos))
    {
      var buf := Take(HEADER_LEN);
      if buf.None? {
        return EndOfData;
      }
      assert buf.value[..6] == data[old(pos)..old(pos) + 6];
      assert buf.value[6..] == data[old(pos) + 6..pos];
      if buf.value[..6] != MAGIC {
        return Malformed;
      }
      var words := WordValues(buf.value[6..]);
      WordCount(buf.value[6..]);
      if words.None? {
        return Malformed;
      }
      var vs := words.value;
      ghost var named := pos;
      var name := Take(vs[11]);
      pos := Round4(pos);
      if name.None? {
        return EndOfData;
      }
      if vs[11] == 0 {
        return SlicePanic;
      }
      assert name.value[..vs[11] - 1] == data[named..named + vs[11] - 1];
      d := Found(Record(InfoOf(vs, NameOf(name.value[..vs[11] - 1])), Some(Clip(data, pos, vs[6]))));
      pos := Round4(pos + vs[6]);
    }
  }

  lemma Round4Of(n: nat)
    ensures n <= Round4(n) < n + 4 && Round4(n) % 4 == 0 && Round4(Round4(n)) == Round4(n)
  {
  }

  /** The bytes `b` stand in the data at `pos`. */
  predicate Holds(data: bytes, pos: nat, b: bytes) {
    pos + |b| <= |data| && data[pos..pos + |b|] == b
  }

  lemma HoldsPart(data: bytes, pos: nat, a: bytes, b: bytes, c: bytes)
    requires Holds(data, pos, a + b + c)
    ensures Holds(data, pos + |a|, b)
  {
    var all := a + b + c;
    var at := pos + |a|;
    forall k | 0 <= k < |b|
      ensures data[at..at + |b|][k] == b[k]
    {
      assert data[pos..pos + |all|][|a| + k] == all[|a| + k];
    }
  }

  lemma HeadHolds(data: bytes, pos: nat, r: Record)
    requires ByteName(r.info.name) && Holds(data, pos, Head(r))
    ensures Holds(data, pos, MAGIC) && Holds(data, pos + 6, Words(Fields(r)))
    ensures Holds(data, pos + HEADER_LEN, NameBytes(r.info.name)) && pos + |Head(r)| <= |data|
  {
    var words, name := Words(Fields(r)), NameBytes(r.info.name);
    assert Head(r) == [] + MAGIC + (words + (name + [0])) == MAGIC + words + (name + [0]);
    assert Head(r) == (MAGIC + words) + name + [0];
    HoldsPart(data, pos, [], MAGIC, words + (name + [0]));
    HoldsPart(data, pos, MAGIC, words, name + [0]);
    HoldsPart(data, pos, MAGIC + words, name, [0]);
  }

  lemma HoldsFour(data: bytes, pos: nat, a: bytes, b: bytes, c: bytes, d: bytes)
    requires Holds(data, pos, a + b + c + d)
    ensures Holds(data, pos, a) && Holds(data, pos + |a| + |b|, c)
  {
    assert a + b + c + d == [] + a + (b + c + d);
    HoldsPart(data, pos, [], a, b + c + d);
    HoldsPart(data, pos, a + b, c, d);
  }

  lemma EncodedParts(data: bytes, pos: nat, r: Record)
    requires ByteName(r.info.name) && Holds(data, pos, Encode(r, pos))
    ensures Holds(data, pos, Head(r)) && Holds(data, Round4(pos + |Head(r)|), Body(r))
  {
    var named := pos + |Head(r)|;
    Round4Of(named);
    HoldsFour(data, pos, Head(r), Pad(named), Body(r),
              if Body(r) == [] then [] else Pad(Round4(named) + |Body(r)|));
  }

  lemma EncodedLength(pos: nat, r: Record)
    requires ByteName(r.info.name)
    ensures pos + |Encode(r, pos)| == Round4(Round4(pos + |Head(r)|) + |Body(r)|)
  {
    Round4Of(pos + |Head(r)|);
    Round4Of(Round4(pos + |Head(r)|) + |Body(r)|);
  }

  /** What stands at each place of the data, as far as it decides the result of decoding. */
  ghost predicate Landmarks(data: bytes, pos: nat, vs: seq<nat>, name: bytes, content: bytes) {
    && pos + HEADER_LEN + |name| + 1 <= |data| && Holds(data, pos, MAGIC)
    && WordValues(data[pos + 6..pos + HEADER_LEN]) == Some(vs) && |vs| == 13
    && vs[11] == |name| + 1 && vs[6] == |content|
    && Holds(data, pos + HEADER_LEN, name)
    && Holds(data, Round4(pos + HEADER_LEN + |name| + 1), content)
  }

  lemma DecodeAt(data: bytes, pos: nat, vs: seq<nat>, name: bytes, content: bytes)
    requires Landmarks(data, pos, vs, name, content)
    ensures Decode(data, pos) == (Found(Record(InfoOf(vs, NameOf(name)), Some(content))),
                                  Round4(Round4(pos + HEADER_LEN + |name| + 1) + |content|))
  {
    assert Clip(data, Round4(pos + HEADER_LEN + |name| + 1), vs[6]) == content;
  }

  lemma StoredInfo(r: Record)
    requires Fits(r)
    ensures var vs := Truncated(Fields(r));
            vs[11] == |r.info.name| + 1 && vs[6] == |Body(r)|
            && Record(InfoOf(vs, r.info.name), Some(Body(r))) == Stored(r)
  {
  }

  lemma FittingLandmarks(data: bytes, pos: nat, r: Record)
    requires Fits(r) && Holds(data, pos, Encode(r, pos))
    ensures Landmarks(data, pos, Truncated(Fields(r)), NameBytes(r.info.name), Body(r))
  {
    EncodedParts(data, pos, r);
    HeadHolds(data, pos, r);
    WordsRoundTrip(Fields(r));
    StoredInfo(r);
  }

  lemma FittingFound(data: bytes, pos: nat, r: Record)
    requires Fits(r) && Landmarks(data, pos, Truncated(Fields(r)), NameBytes(r.info.name), Body(r))
    ensures Decode(data, pos) == (Found(Stored(r)), Round4(Round4(pos + |Head(r)|) + |Body(r)|))
  {
    DecodeAt(data, pos, Truncated(Fields(r)), NameBytes(r.info.name), Body(r));
    NameRoundTrip(r.info.name);
    StoredInfo(r);
  }

  lemma FittingAtLandmarks(data: bytes, pos: nat, r: Record)
    requires Fits(r) && Holds(data, pos, Encode(r, pos))
    ensures Decode(data, pos) == (Found(Stored(r)), Round4(Round4(pos + |Head(r)|) + |Body(r)|))
  {
    FittingLandmarks(data, pos, r);
    FittingFound(data, pos, r);
  }

  /** A record that fits is read back as it is stored, wherever it stands, and the reader stops where the next record
      starts. */
  lemma FittingDecodes(data: bytes, pos: nat, r: Record)
    requires Fits(r) && Holds(data, pos, Encode(r, pos))
    ensures Decode(data, pos) == (Found(Stored(r)), pos + |Encode(r, pos)|)
  {
    FittingAtLandmarks(data, pos, r);
    EncodedLength(pos, r);
  }

  /** The magic and the numbers of any encoded record are found. */
  lemma HeadDecodes(data: bytes, pos: nat, r: Record)
    requires ByteName(r.info.name) && Holds(data, pos, Encode(r, pos))
    ensures pos + HEADER_LEN <= |data| && data[pos..pos + 6] == MAGIC
    ensures WordValues(data[pos + 6..pos + HEADER_LEN]) == Some(Truncated(Fields(r)))
  {
    EncodedParts(data, pos, r);
    HeadHolds(data, pos, r);
    WordsRoundTrip(Fields(r));
  }

  /** What a record that was found says about the data. */
  lemma FoundMeans(data: bytes, pos: nat, vs: seq<nat>, found: Record)
    requires pos + HEADER_LEN <= |data| && data[pos..pos + 6] == MAGIC
    requires WordValues(data[pos + 6..pos + HEADER_LEN]) == Some(vs) && |vs| == 13
    requires Decode(data, pos).0 == Found(found)
    ensures vs[11] == |found.info.name| + 1
    ensures var start := Round4(pos + HEADER_LEN + vs[11]);
            found.content == Some(Clip(data, start, vs[6])) && Decode(data, pos).1 == Round4(start + vs[6])
  {
  }

  /** The numbers that decide whether a record is read back. */
  lemma KeyFields(r: Record)
    ensures |Truncated(Fields(r))| == 13
    ensures Truncated(Fields(r))[11] == (|r.info.name| + 1) % TWO_32 && Truncated(Fields(r))[6] == SizeOf(r) % TWO_32
  {
  }

  lemma ClipMeans(data: bytes, start: nat, n: nat, b: bytes)
    requires Clip(data, start, n) == b && start + |b| <= |data|
    ensures n == |b| || (n > |b| && start + |b| == |data|)
  {
  }

  /** Reading a stored record back says that it fits, or that its size is too large and the data ends with it. */
  lemma FoundFits(data: bytes, pos: nat, r: Record)
    requires ByteName(r.info.name) && Holds(data, pos, Encode(r, pos)) && Decode(data, pos).0 == Found(Stored(r))
    ensures var start := Round4(pos + |Head(r)|);
            && Decode(data, pos).1 == Round4(start + SizeOf(r) % TWO_32)
            && (Fits(r) || (SizeOf(r) % TWO_32 > |Body(r)| && start + |Body(r)| == |data|))
  {
    HeadDecodes(data, pos, r);
    KeyFields(r);
    FoundMeans(data, pos, Truncated(Fields(r)), Stored(r));
    EncodedParts(data, pos, r);
    ClipMeans(data, Round4(pos + |Head(r)|), SizeOf(r) % TWO_32, Body(r));
  }

  /** A record is read back as it is stored, with the reader at the next record, exactly when it fits. */
  lemma DecodeEncode(data: bytes, pos: nat, r: Record)
    requires ByteName(r.info.name) && Holds(data, pos, Encode(r, pos))
    ensures Decode(data, pos) == (Found(Stored(r)), pos + |Encode(r, pos)|) <==> Fits(r)
  {
    if Fits(r) {
      FittingDecodes(data, pos, r);
    } else if Decode(data, pos) == (Found(Stored(r)), pos + |Encode(r, pos)|) {
      EncodedLength(pos, r);
      FoundFits(data, pos, r);
    }
  }
}
