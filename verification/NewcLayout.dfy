/** Where each byte of a record of pkg/cpio/newc/newc.go stands, including those that its reader skips. */
module NewcLayout {
  import opened Common
  import opened CpioInode
  import opened CpioRecords
  import opened Newc

  predicate Zeros(s: bytes, from: nat, to: nat) {
    to <= |s| && forall k :: from <= k < to ==> s[k] == 0
  }

  predicate UpperHex(b: byte) {
    0x30 <= b <= 0x39 || 0x41 <= b <= 0x46
  }

  /** Eight upper-case digits from `at` on that spell the low 32 bits of `v`. */
  predicate NumberAt(s: bytes, at: nat, v: nat) {
    && at + 8 <= |s| && HexValue(s[at..at + 8]) == Some(v % TWO_32)
    && forall k :: at <= k < at + 8 ==> UpperHex(s[k])
  }

  /** The header of the new ASCII format: magic, then the numbers in their order. */
  predicate HeaderAt(s: bytes, r: Record) {
    var i := r.info;
    && |s| >= HEADER_LEN && s[..6] == [0x30, 0x37, 0x30, 0x37, 0x30, 0x31]
    && NumberAt(s, 6, i.ino) && NumberAt(s, 14, i.mode) && NumberAt(s, 22, i.uid) && NumberAt(s, 30, i.gid)
    && NumberAt(s, 38, i.nlink) && NumberAt(s, 46, i.mtime)
    && NumberAt(s, 54, if r.content.Some? then i.fileSize else 0)
    && NumberAt(s, 62, i.major) && NumberAt(s, 70, i.minor) && NumberAt(s, 78, i.rmajor) && NumberAt(s, 86, i.rminor)
    && NumberAt(s, 94, |i.name| + 1) && NumberAt(s, 102, 0)
  }

  lemma {:induction false} HexIsUpper(v: nat, n: nat)
    ensures forall k :: 0 <= k < n ==> UpperHex(Hex(v, n)[k])
    decreases n
  {
    if n > 0 {
      HexIsUpper(v / 16, n - 1);
    }
  }

  lemma {:induction false} WordAt(vs: seq<nat>, k: nat)
    requires k < |vs|
    ensures 8 * k + 8 <= |Words(vs)| && Words(vs)[8 * k..8 * k + 8] == Word(vs[k])
    decreases k
  {
    var w, rest := Word(vs[0]), Words(vs[1..]);
    if k == 0 {
      assert (w + rest)[0..8] == w;
    } else {
      WordAt(vs[1..], k - 1);
      assert (w + rest)[8 * k..8 * k + 8] == rest[8 * k - 8..8 * k];
    }
  }

  lemma SliceSlice(s: bytes, a: nat, b: nat, i: nat, j: nat)
    requires a <= b <= |s| && i <= j <= b - a
    ensures s[a..b][i..j] == s[a + i..a + j]
  {
    forall k | 0 <= k < j - i ensures s[a..b][i..j][k] == s[a + i..a + j][k] {
      assert s[a..b][i + k] == s[a + (i + k)];
    }
  }

  lemma NumberOfWord(s: bytes, words: bytes, k: nat, v: nat)
    requires 6 + |words| <= |s| && s[6..6 + |words|] == words
    requires 8 * k + 8 <= |words| && words[8 * k..8 * k + 8] == Word(v)
    ensures NumberAt(s, 6 + 8 * k, v)
  {
    var at := 6 + 8 * k;
    SliceSlice(s, 6, 6 + |words|, 8 * k, 8 * k + 8);
    WordRoundTrip(v);
    HexIsUpper(v % TWO_32, 8);
    forall j | at <= j < at + 8 ensures UpperHex(s[j]) {
      assert s[j] == Word(v)[j - at];
    }
  }

  lemma Number(s: bytes, r: Record, k: nat, at: nat, v: nat)
    requires |s| >= HEADER_LEN && s[6..HEADER_LEN] == Words(Fields(r))
    requires k < 13 && at == 6 + 8 * k && v == Fields(r)[k]
    ensures NumberAt(s, at, v)
  {
    WordAt(Fields(r), k);
    NumberOfWord(s, Words(Fields(r)), k, v);
  }

  lemma HeaderOf(s: bytes, r: Record)
    requires |s| >= HEADER_LEN && s[..6] == MAGIC && s[6..HEADER_LEN] == Words(Fields(r))
    ensures HeaderAt(s, r)
  {
    var i := r.info;
    Number(s, r, 0, 6, i.ino);
    Number(s, r, 1, 14, i.mode);
    Number(s, r, 2, 22, i.uid);
    Number(s, r, 3, 30, i.gid);
    Number(s, r, 4, 38, i.nlink);
    Number(s, r, 5, 46, i.mtime);
    Number(s, r, 6, 54, SizeOf(r));
    Number(s, r, 7, 62, i.major);
    Number(s, r, 8, 70, i.minor);
    Number(s, r, 9, 78, i.rmajor);
    Number(s, r, 10, 86, i.rminor);
    Number(s, r, 11, 94, |i.name| + 1);
    Number(s, r, 12, 102, 0);
  }

  /** The name with its zero byte, the padding behind it, the content and its padding; the record ends on a multiple of
      four. */
  predicate PartsAt(s: bytes, pos: nat, r: Record) {
    var name, body := |r.info.name|, if r.content.Some? then r.content.value else [];
    var start := Round4(pos + HEADER_LEN + name + 1) - pos;
    && start + |body| <= |s| < start + |body| + 4 && (pos + |s|) % 4 == 0
    && (forall k :: 0 <= k < name ==> s[HEADER_LEN + k] as int == r.info.name[k] as int)
    && Zeros(s, HEADER_LEN + name, start)
    && s[start..start + |body|] == body
    && Zeros(s, start + |body|, |s|)
  }

  lemma NameStands(r: Record, pos: nat)
    requires ByteName(r.info.name)
    ensures var s, n := Encode(r, pos), |r.info.name|;
            && (forall k :: 0 <= k < n ==> s[HEADER_LEN + k] as int == r.info.name[k] as int)
            && s[HEADER_LEN + n] == 0
  {
    var s := Encode(r, pos);
    forall k | 0 <= k < |r.info.name| ensures s[HEADER_LEN + k] as int == r.info.name[k] as int {
      assert s[HEADER_LEN + k] == Head(r)[HEADER_LEN + k] == NameBytes(r.info.name)[k];
    }
    assert s[HEADER_LEN + |r.info.name|] == Head(r)[HEADER_LEN + |r.info.name|] == 0;
  }

  /** The bytes of four parts, one after the other. */
  lemma FourParts(a: bytes, b: bytes, c: bytes, d: bytes)
    requires Zeros(b, 0, |b|) && Zeros(d, 0, |d|)
    ensures var s := a + b + c + d;
            && Zeros(s, |a|, |a| + |b|) && s[|a| + |b|..|a| + |b| + |c|] == c && Zeros(s, |a| + |b| + |c|, |s|)
  {
  }

  lemma PadIsZero(pos: nat)
    ensures Zeros(Pad(pos), 0, |Pad(pos)|)
  {
  }

  lemma PartSizes(r: Record, pos: nat)
    requires ByteName(r.info.name)
    ensures var n, start := |Encode(r, pos)|, Round4(pos + |Head(r)|) - pos;
            && start == |Head(r)| + |Pad(pos + |Head(r)|)|
            && start + |Body(r)| <= n < start + |Body(r)| + 4 && (pos + n) % 4 == 0
  {
    Round4Of(pos + |Head(r)|);
    Round4Of(Round4(pos + |Head(r)|) + |Body(r)|);
    EncodedLength(pos, r);
  }

  lemma BodyStands(r: Record, pos: nat)
    requires ByteName(r.info.name)
    ensures var s, start := Encode(r, pos), |Head(r)| + |Pad(pos + |Head(r)|)|;
            && Zeros(s, |Head(r)|, start) && start + |Body(r)| <= |s|
            && s[start..start + |Body(r)|] == Body(r) && Zeros(s, start + |Body(r)|, |s|)
  {
    var named := pos + |Head(r)|;
    var filled := Round4(named) + |Body(r)|;
    PadIsZero(named);
    PadIsZero(filled);
    FourParts(Head(r), Pad(named), Body(r), if Body(r) == [] then [] else Pad(filled));
  }

  lemma PartsOf(r: Record, pos: nat)
    requires ByteName(r.info.name)
    ensures PartsAt(Encode(r, pos), pos, r)
  {
    PartSizes(r, pos);
    NameStands(r, pos);
    BodyStands(r, pos);
  }

  lemma HeaderStands(r: Record, pos: nat)
    requires ByteName(r.info.name)
    ensures HeaderAt(Encode(r, pos), r)
  {
    var s, words := Encode(r, pos), Words(Fields(r));
    assert s[..6] == MAGIC && s[6..HEADER_LEN] == words;
    HeaderOf(s, r);
  }

  /** Every byte of a written record is where the format wants it. */
  lemma EncodeLayout(r: Record, pos: nat)
    requires ByteName(r.info.name)
    ensures HeaderAt(Encode(r, pos), r) && PartsAt(Encode(r, pos), pos, r)
  {
    HeaderStands(r, pos);
    PartsOf(r, pos);
  }
}
