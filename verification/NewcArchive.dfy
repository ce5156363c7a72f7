/** Whole archives in the format of pkg/cpio/newc/newc.go, under the record layer of pkg/cpio/cpio.go. */
module NewcArchive {
  import opened Common
  import opened CpioInode
  import opened CpioRecords
  import opened Newc
  import opened NewcDecode

  // ---------------------------------------------------------------------------------------------
  // Laying records out.
  // ---------------------------------------------------------------------------------------------

  predicate AllFit(rs: seq<Record>) {
    forall i :: 0 <= i < |rs| ==> Fits(rs[i])
  }

  function AllStored(rs: seq<Record>): seq<Record> {
    seq(|rs|, i requires 0 <= i < |rs| => Stored(rs[i]))
  }

  predicate ByteNames(rs: seq<Record>) {
    forall i :: 0 <= i < |rs| ==> ByteName(rs[i].info.name)
  }

  /** The bytes of the records one after the other, from position `pos` on. */
  function Layout(rs: seq<Record>, pos: nat): bytes
    requires ByteNames(rs)
  {
    if rs == [] then []
    else
      var b := Encode(rs[0], pos);
      b + Layout(rs[1..], pos + |b|)
  }

  lemma LayoutFrom(rs: seq<Record>, n: nat, out: bytes, b: bytes)
    requires ByteNames(rs) && n < |rs| && b == Encode(rs[n], |out|)
    ensures out + Layout(rs[n..], |out|) == (out + b) + Layout(rs[n + 1..], |out + b|)
  {
    assert rs[n..][1..] == rs[n + 1..];
    Assoc(out, b, Layout(rs[n + 1..], |out + b|));
  }

  /** Writing records with the format's writer lays them out. */
  method WriteAll(rs: seq<Record>) returns (out: bytes)
    requires ByteNames(rs)
    ensures out == Layout(rs, 0)
  {
    var w := new NewcWriter();
    assert rs[0..] == rs;
    for i := 0 to |rs|
      invariant fresh(w) && w.Valid() && Layout(rs, 0) == w.out + Layout(rs[i..], |w.out|)
    {
      LayoutFrom(rs, i, w.out, Encode(rs[i], |w.out|));
      w.WriteRecord(rs[i]);
    }
    out := w.out;
  }

  lemma DecodeAdvances(data: bytes, pos: nat)
    ensures Decode(data, pos).0.Found? ==> pos < Decode(data, pos).1 && pos < |data|
  {
  }

  /** What the record layer above sees of the bytes from `pos` on, up to the first unreadable entry. */
  function EntriesAt(data: bytes, pos: nat): seq<Entry>
    decreases |data| - pos
  {
    DecodeAdvances(data, pos);
    var (d, next) := Decode(data, pos);
    match d
    case Found(r) => [Good(r)] + EntriesAt(data, next)
    case EndOfData => []
    case _ => [Bad]
  }

  lemma HoldsSplit(data: bytes, pos: nat, a: bytes, b: bytes)
    requires Holds(data, pos, a + b)
    ensures Holds(data, pos, a) && Holds(data, pos + |a|, b)
  {
    assert a + b == [] + a + b == a + b + [];
    HoldsPart(data, pos, [], a, b);
    HoldsPart(data, pos, a, b, []);
  }

  lemma LayoutSplit(data: bytes, pos: nat, rs: seq<Record>)
    requires ByteNames(rs) && rs != [] && Holds(data, pos, Layout(rs, pos))
    ensures ByteNames(rs[1..]) && Holds(data, pos, Encode(rs[0], pos))
    ensures var next := pos + |Encode(rs[0], pos)|;
            Holds(data, next, Layout(rs[1..], next)) && next + |Layout(rs[1..], next)| == pos + |Layout(rs, pos)|
  {
    var b := Encode(rs[0], pos);
    HoldsSplit(data, pos, b, Layout(rs[1..], pos + |b|));
  }

  lemma EntriesStep(data: bytes, pos: nat, r: Record, next: nat)
    requires Decode(data, pos) == (Found(r), next)
    ensures EntriesAt(data, pos) == [Good(r)] + EntriesAt(data, next)
  {
  }

  lemma EntriesCons(rs: seq<Record>)
    requires rs != []
    ensures Entries(AllStored(rs)) == [Good(Stored(rs[0]))] + Entries(AllStored(rs[1..]))
  {
  }

  lemma FirstEntry(data: bytes, pos: nat, r: Record, rest: seq<Entry>)
    requires EntriesAt(data, pos) == [Good(r)] + rest
    ensures Decode(data, pos).0 == Found(r)
  {
    assert EntriesAt(data, pos)[0] == Good(r);
  }

  lemma LayoutLonger(rs: seq<Record>, pos: nat)
    requires ByteNames(rs) && rs != []
    ensures |Layout(rs, pos)| > 0
  {
  }

  /** A record that does not fit is not read back when more follows. */
  lemma MisfitLost(data: bytes, pos: nat, r: Record)
    requires ByteName(r.info.name) && Holds(data, pos, Encode(r, pos)) && pos + |Encode(r, pos)| < |data| && !Fits(r)
    ensures Decode(data, pos).0 != Found(Stored(r))
  {
    if Decode(data, pos).0 == Found(Stored(r)) {
      EncodedLength(pos, r);
      FoundFits(data, pos, r);
    }
  }

  lemma SameTail(e: Entry, a: seq<Entry>, b: seq<Entry>)
    ensures [e] + a == [e] + b <==> a == b
  {
    if [e] + a == [e] + b {
      assert ([e] + a)[1..] == a && ([e] + b)[1..] == b;
    }
  }

  lemma FitsCons(rs: seq<Record>)
    requires rs != []
    ensures AllFit(rs) <==> Fits(rs[0]) && AllFit(rs[1..])
  {
    if Fits(rs[0]) && AllFit(rs[1..]) {
      forall i | 0 <= i < |rs| ensures Fits(rs[i]) {
        assert i > 0 ==> Fits(rs[1..][i - 1]);
      }
    }
  }

  /** The record stands at `pos` and ends at `next`, and perhaps more follows. */
  ghost predicate Stands(data: bytes, r: Record, pos: nat, next: nat, more: bool) {
    && ByteName(r.info.name) && Holds(data, pos, Encode(r, pos)) && next == pos + |Encode(r, pos)|
    && (more ==> next < |data|)
  }

  /** Record k stands between its positions. */
  ghost predicate StandsAt(data: bytes, rs: seq<Record>, ps: seq<nat>, k: nat)
    requires k < |rs| == |ps| - 1
  {
    Stands(data, rs[k], ps[k], ps[k + 1], k + 1 < |rs|)
  }

  ghost predicate AllStand(data: bytes, rs: seq<Record>, ps: seq<nat>) {
    |ps| == |rs| + 1 && forall k :: 0 <= k < |rs| ==> StandsAt(data, rs, ps, k)
  }

  lemma StandsFirst(data: bytes, pos: nat, rs: seq<Record>) returns (next: nat)
    requires ByteNames(rs) && rs != [] && Holds(data, pos, Layout(rs, pos))
    ensures Stands(data, rs[0], pos, next, |rs| > 1)
    ensures ByteNames(rs[1..]) && Holds(data, next, Layout(rs[1..], next))
    ensures next + |Layout(rs[1..], next)| == pos + |Layout(rs, pos)|
  {
    LayoutSplit(data, pos, rs);
    next := pos + |Encode(rs[0], pos)|;
    if |rs| > 1 {
      LayoutLonger(rs[1..], next);
    }
  }

  /** Records laid out stand one after the other. */
  lemma {:induction false} LayoutStands(data: bytes, pos: nat, rs: seq<Record>) returns (ps: seq<nat>)
    requires ByteNames(rs) && Holds(data, pos, Layout(rs, pos))
    ensures AllStand(data, rs, ps) && ps[0] == pos && ps[|rs|] == pos + |Layout(rs, pos)|
    decreases |rs|
  {
    if rs == [] {
      ps := [pos];
    } else {
      var next := StandsFirst(data, pos, rs);
      var more := LayoutStands(data, next, rs[1..]);
      ps := [pos] + more;
      StandCons(data, rs, pos, more);
    }
  }

  lemma StandCons(data: bytes, rs: seq<Record>, pos: nat, more: seq<nat>)
    requires rs != [] && AllStand(data, rs[1..], more) && Stands(data, rs[0], pos, more[0], |rs| > 1)
    ensures AllStand(data, rs, [pos] + more)
  {
    var ps := [pos] + more;
    forall k | 0 <= k < |rs| ensures StandsAt(data, rs, ps, k) {
      if k > 0 {
        assert StandsAt(data, rs[1..], more, k - 1);
      }
    }
  }

  lemma FittingEntry(data: bytes, r: Record, pos: nat, next: nat, more: bool, es: seq<Entry>)
    requires Stands(data, r, pos, next, more) && Fits(r)
    ensures EntriesAt(data, pos) == [Good(Stored(r))] + es <==> EntriesAt(data, next) == es
  {
    FittingDecodes(data, pos, r);
    EntriesStep(data, pos, Stored(r), next);
    SameTail(Good(Stored(r)), EntriesAt(data, next), es);
  }

  lemma MisfitEntry(data: bytes, r: Record, pos: nat, next: nat, es: seq<Entry>)
    requires Stands(data, r, pos, next, true) && !Fits(r)
    ensures EntriesAt(data, pos) != [Good(Stored(r))] + es
  {
    MisfitLost(data, pos, r);
    if EntriesAt(data, pos) == [Good(Stored(r))] + es {
      FirstEntry(data, pos, Stored(r), es);
    }
  }

  lemma NoEntries(data: bytes)
    ensures EntriesAt(data, |data|) == []
  {
  }

  lemma {:induction false} EntriesFrom(data: bytes, rs: seq<Record>, ps: seq<nat>, k: nat)
    requires AllStand(data, rs, ps) && k <= |rs| && ps[|rs|] == |data| && (rs != [] ==> Fits(rs[|rs| - 1]))
    ensures EntriesAt(data, ps[k]) == Entries(AllStored(rs[k..])) <==> AllFit(rs[k..])
    decreases |rs| - k
  {
    if k == |rs| {
      NoEntries(data);
    } else {
      assert StandsAt(data, rs, ps, k);
      assert rs[k..] == [rs[k]] + rs[k + 1..];
      EntriesFrom(data, rs, ps, k + 1);
      EntriesStart(data, rs[k], ps[k], ps[k + 1], k + 1 < |rs|, rs[k + 1..]);
    }
  }

  /** One record in front of others. */
  lemma EntriesStart(data: bytes, r: Record, pos: nat, next: nat, more: bool, rs: seq<Record>)
    requires Stands(data, r, pos, next, more) && (!more ==> Fits(r))
    requires EntriesAt(data, next) == Entries(AllStored(rs)) <==> AllFit(rs)
    ensures EntriesAt(data, pos) == Entries(AllStored([r] + rs)) <==> AllFit([r] + rs)
  {
    assert ([r] + rs)[1..] == rs;
    EntriesCons([r] + rs);
    FitsCons([r] + rs);
    if Fits(r) {
      FittingEntry(data, r, pos, next, more, Entries(AllStored(rs)));
    } else {
      MisfitEntry(data, r, pos, next, Entries(AllStored(rs)));
    }
  }

  /** Records laid out at the end of the data, of which the last fits, are the entries found there exactly when all of
      them fit. */
  lemma EntriesOfLayout(data: bytes, pos: nat, rs: seq<Record>)
    requires ByteNames(rs) && Holds(data, pos, Layout(rs, pos)) && pos + |Layout(rs, pos)| == |data|
    requires rs != [] ==> Fits(rs[|rs| - 1])
    ensures EntriesAt(data, pos) == Entries(AllStored(rs)) <==> AllFit(rs)
  {
    var ps := LayoutStands(data, pos, rs);
    EntriesFrom(data, rs, ps, 0);
    assert rs[0..] == rs;
  }

  lemma MembersStep(data: bytes, pos: nat, r: Record, next: nat)
    requires Decode(data, pos) == (Found(r), next)
    ensures r.info.name == TRAILER ==> Readable(EntriesAt(data, pos)) && Members(EntriesAt(data, pos)) == []
    ensures r.info.name != TRAILER ==>
              && (Readable(EntriesAt(data, pos)) <==> Readable(EntriesAt(data, next)))
              && Members(EntriesAt(data, pos)) == [r] + Members(EntriesAt(data, next))
  {
    EntriesStep(data, pos, r, next);
    assert ([Good(r)] + EntriesAt(data, next))[1..] == EntriesAt(data, next);
  }

  /** Where no record is found, the archive is at its end or cannot be read. */
  lemma LastEntry(data: bytes, pos: nat)
    ensures Decode(data, pos).0.EndOfData? ==> Readable(EntriesAt(data, pos)) && Members(EntriesAt(data, pos)) == []
    ensures Decode(data, pos).0.Malformed? || Decode(data, pos).0.SlicePanic? ==> !Readable(EntriesAt(data, pos))
  {
  }

  /** Reads a whole archive from its bytes: all records before the first trailer or the end of the data, and nothing
      when a malformed record comes first. */
  method ReadArchive(data: bytes) returns (files: Option<seq<Record>>)
    ensures files == if Readable(EntriesAt(data, 0)) then Some(Members(EntriesAt(data, 0))) else None
  {
    var fs := [];
    var r := new NewcReader(data);
    while true
      invariant fresh(r) && r.data == data
      invariant Readable(EntriesAt(data, r.pos)) <==> Readable(EntriesAt(data, 0))
      invariant Members(EntriesAt(data, 0)) == fs + Members(EntriesAt(data, r.pos))
      decreases |data| - r.pos
    {
      ghost var pos := r.pos;
      DecodeAdvances(data, pos);
      var d := r.ReadRecord();
      LastEntry(data, pos);
      match d {
        case EndOfData =>
          assert fs + [] == fs;
          return Some(fs);
        case Found(rec) =>
          MembersStep(data, pos, rec, r.pos);
          if rec.info.name == TRAILER {
            assert fs + [] == fs;
            return Some(fs);
          }
          Assoc(fs, [rec], Members(EntriesAt(data, r.pos)));
          fs := fs + [rec];
        case _ => return None;
      }
    }
  }

  /** A record with the trailer's name is found under that name, whatever its size. */
  lemma TrailerFound(data: bytes, pos: nat, r: Record)
    requires ByteName(r.info.name) && r.info.name == TRAILER && Holds(data, pos, Encode(r, pos))
    ensures Decode(data, pos).0.Found? && Decode(data, pos).0.r.info.name == TRAILER
  {
    HeadDecodes(data, pos, r);
    KeyFields(r);
    NamePlaced(data, pos, r);
    DecodeWords(data, pos, Truncated(Fields(r)));
  }

  lemma NamePlaced(data: bytes, pos: nat, r: Record)
    requires ByteName(r.info.name) && Holds(data, pos, Encode(r, pos))
    ensures var n := |r.info.name|;
            pos + 110 + n + 1 <= |data| && NameOf(data[pos + 110..pos + 110 + n]) == r.info.name
  {
    EncodedParts(data, pos, r);
    HeadHolds(data, pos, r);
    NameRoundTrip(r.info.name);
  }

  /** Reading from `pos` gives exactly these members. */
  ghost predicate Gives(data: bytes, pos: nat, ms: seq<Record>) {
    Readable(EntriesAt(data, pos)) && Members(EntriesAt(data, pos)) == ms
  }

  lemma GivesMore(data: bytes, pos: nat, r: Record, next: nat, ms: seq<Record>)
    requires Decode(data, pos) == (Found(r), next) && r.info.name != TRAILER
    ensures Gives(data, pos, [r] + ms) <==> Gives(data, next, ms)
  {
    MembersStep(data, pos, r, next);
    var now := Members(EntriesAt(data, next));
    if [r] + now == [r] + ms {
      assert ([r] + now)[1..] == now && ([r] + ms)[1..] == ms;
    }
  }

  lemma FirstMember(data: bytes, pos: nat, r: Record, ms: seq<Record>)
    requires Gives(data, pos, [r] + ms)
    ensures Decode(data, pos).0 == Found(r)
  {
    var d, next := Decode(data, pos).0, Decode(data, pos).1;
    LastEntry(data, pos);
    if d.Found? {
      MembersStep(data, pos, d.r, next);
      assert ([r] + ms)[0] == r;
    }
  }

  lemma StoredCons(ms: seq<Record>)
    requires ms != []
    ensures AllStored(ms) == [Stored(ms[0])] + AllStored(ms[1..])
  {
  }

  lemma FittingMember(data: bytes, r: Record, pos: nat, next: nat, ms: seq<Record>)
    requires Stands(data, r, pos, next, true) && Fits(r) && r.info.name != TRAILER
    ensures Gives(data, pos, [Stored(r)] + ms) <==> Gives(data, next, ms)
  {
    FittingDecodes(data, pos, r);
    GivesMore(data, pos, Stored(r), next, ms);
  }

  lemma MisfitMember(data: bytes, r: Record, pos: nat, next: nat, ms: seq<Record>)
    requires Stands(data, r, pos, next, true) && !Fits(r)
    ensures !Gives(data, pos, [Stored(r)] + ms)
  {
    MisfitLost(data, pos, r);
    if Gives(data, pos, [Stored(r)] + ms) {
      FirstMember(data, pos, Stored(r), ms);
    }
  }

  lemma TrailerMember(data: bytes, r: Record, pos: nat, next: nat, more: bool)
    requires Stands(data, r, pos, next, more) && r.info.name == TRAILER
    ensures Gives(data, pos, [])
  {
    TrailerFound(data, pos, r);
    MembersStep(data, pos, Decode(data, pos).0.r, Decode(data, pos).1);
  }

  /** The members from place k up to the record with the trailer's name at place n are read back exactly when all of
      them fit. */
  lemma {:induction false} MembersFrom(data: bytes, rs: seq<Record>, ps: seq<nat>, k: nat, n: nat)
    requires AllStand(data, rs, ps) && k <= n < |rs| && rs[n].info.name == TRAILER
    requires forall i :: 0 <= i < n ==> rs[i].info.name != TRAILER
    ensures Gives(data, ps[k], AllStored(rs[k..n])) <==> AllFit(rs[k..n])
    decreases n - k
  {
    assert StandsAt(data, rs, ps, k);
    if k == n {
      TrailerMember(data, rs[n], ps[n], ps[n + 1], n + 1 < |rs|);
    } else {
      var ms := rs[k..n];
      assert ms[0] == rs[k] && ms[1..] == rs[k + 1..n];
      StoredCons(ms);
      FitsCons(ms);
      if Fits(rs[k]) {
        FittingMember(data, rs[k], ps[k], ps[k + 1], AllStored(rs[k + 1..n]));
        MembersFrom(data, rs, ps, k + 1, n);
      } else {
        MisfitMember(data, rs[k], ps[k], ps[k + 1], AllStored(rs[k + 1..n]));
      }
    }
  }

  /** An archive survives the trip through bytes exactly when the records in question fit: after any writes, finished by
      a trailer, the bytes read back as the stored form of the first occurrences given before a record with the
      trailer's name. */
  lemma ArchiveRoundTrip(given: seq<Record>)
    requires ByteNames(Dedup(given + [TrailerRecord]))
    ensures var ms := Dedup(BeforeTrailer(given));
            Gives(Layout(Dedup(given + [TrailerRecord]), 0), 0, AllStored(ms)) <==> AllFit(ms)
  {
    var rs := Dedup(given + [TrailerRecord]);
    var ms, x, rest := FinishedLog(given);
    var data := Layout(rs, 0);
    assert data[0..|data|] == data;
    var ps := LayoutStands(data, 0, rs);
    var n := |ms|;
    assert rs[0..n] == ms && rs[n] == x;
    forall i | 0 <= i < n ensures rs[i].info.name != TRAILER {
      assert ms[i] == rs[i];
    }
    MembersFrom(data, rs, ps, 0, n);
  }

  // ---------------------------------------------------------------------------------------------
  // Renumbered files in the archive.
  // ---------------------------------------------------------------------------------------------

  /** The records carry the numbers that renumbering gave their files. */
  ghost predicate Numbered(rs: seq<Record>, ids: seq<DevInode>) {
    |rs| == |ids| && forall k :: 0 <= k < |rs| ==> rs[k].info.ino == Number(ids, k) % TWO_64
  }

  lemma StoredIno(rs: seq<Record>, ids: seq<DevInode>, k: nat)
    requires Numbered(rs, ids) && k < |rs|
    ensures Stored(rs[k]).info.ino == Number(ids, k) % TWO_32
  {
  }

  lemma NumberBelow(ids: seq<DevInode>, k: nat)
    requires k < |ids|
    ensures Number(ids, k) < Distinct(ids, |ids|)
  {
    FirstIsNew(ids, k);
    DistinctMonotone(ids, First(ids, k) + 1, |ids|);
  }

  lemma SmallIno(rs: seq<Record>, ids: seq<DevInode>, k: nat)
    requires Numbered(rs, ids) && k < |rs| && Distinct(ids, |ids|) <= TWO_32
    ensures Stored(rs[k]).info.ino == Number(ids, k)
  {
    StoredIno(rs, ids, k);
    NumberBelow(ids, k);
    NoWrap32(Number(ids, k));
  }

  lemma NoWrap32(n: nat)
    requires n < TWO_32
    ensures n % TWO_32 == n
  {
  }

  /** The archive keeps different files apart. */
  ghost predicate KeptApart(rs: seq<Record>, ids: seq<DevInode>)
    requires |rs| == |ids|
  {
    forall j, k :: 0 <= j < |rs| && 0 <= k < |rs| ==>
      (Stored(rs[j]).info.ino == Stored(rs[k]).info.ino <==> ids[j] == ids[k])
  }

  /** The inode numbers in the archive, which are 32-bit, are different for different files exactly when there are at
      most 2^32 of them. */
  lemma KeptApartExactly(rs: seq<Record>, ids: seq<DevInode>)
    requires Numbered(rs, ids)
    ensures KeptApart(rs, ids) <==> Distinct(ids, |ids|) <= TWO_32
  {
    if Distinct(ids, |ids|) <= TWO_32 {
      forall j, k | 0 <= j < |rs| && 0 <= k < |rs|
        ensures Stored(rs[j]).info.ino == Stored(rs[k]).info.ino <==> ids[j] == ids[k]
      {
        SmallIno(rs, ids, j);
        SmallIno(rs, ids, k);
        NumberInjective(ids, j, k);
      }
    } else {
      var j := NumberDense(ids, |ids|, 0);
      var k := NumberDense(ids, |ids|, TWO_32);
      NumberInjective(ids, j, k);
      StoredIno(rs, ids, j);
      StoredIno(rs, ids, k);
    }
  }

  /** What the archiver writes for a list of files is numbered like that. */
  lemma RenumberedIsNumbered(infos: seq<Info>, outs: seq<Info>, dones: seq<bool>, rs: seq<Record>)
    requires |outs| == |dones| == |rs| == |infos|
    requires forall k :: 0 <= k < |infos| ==> RightAt(infos, outs, dones, k) && rs[k].info == outs[k]
    ensures Numbered(rs, Ids(infos))
  {
    forall k | 0 <= k < |rs| ensures rs[k].info.ino == Number(Ids(infos), k) % TWO_64 {
      assert RightAt(infos, outs, dones, k);
    }
  }
}
