/**
 The record layer of pkg/cpio/cpio.go: a writer that drops duplicate names, a reader that stops at the
 trailer, and concatenation.  The record format below is a list of records.
 */
module CpioRecords {
  import opened Common
  import opened CpioInode
  import opened CpioPaths

  const TRAILER := "TRAILER!!!"

  /** A record has no content when it came without a reader, as the repeat of a hard link does. */
  datatype Record = Record(info: Info, content: Option<bytes>)

  const TrailerRecord := Record(Info(0, 0, 0, 0, 0, 0, 0, 0, 0, 0, 0, 0, TRAILER), Some([]))

  function Rooted(r: Record): Record {
    r.(info := r.info.(name := Relative(r.info.name)))
  }

  // ---------------------------------------------------------------------------------------------
  // First occurrences by name.
  // ---------------------------------------------------------------------------------------------

  predicate HasName(rs: seq<Record>, name: string) {
    exists k :: 0 <= k < |rs| && rs[k].info.name == name
  }

  /** The records whose name did not occur before. */
  function Dedup(rs: seq<Record>): seq<Record> {
    if rs == [] then []
    else
      var k := |rs| - 1;
      Dedup(rs[..k]) + if HasName(rs[..k], rs[k].info.name) then [] else [rs[k]]
  }

  /** The places in `rs` that `Dedup` keeps. */
  function Firsts(rs: seq<Record>): seq<nat> {
    if rs == [] then []
    else
      var k := |rs| - 1;
      Firsts(rs[..k]) + if HasName(rs[..k], rs[k].info.name) then [] else [k]
  }

  predicate IsFirst(rs: seq<Record>, k: nat) {
    k < |rs| && forall j :: 0 <= j < k ==> rs[j].info.name != rs[k].info.name
  }

  lemma NewIsFirst(rs: seq<Record>)
    requires rs != []
    ensures IsFirst(rs, |rs| - 1) <==> !HasName(rs[..|rs| - 1], rs[|rs| - 1].info.name)
  {
    var n := |rs| - 1;
    if IsFirst(rs, n) {
      forall j | 0 <= j < n ensures rs[..n][j].info.name != rs[n].info.name {
        assert rs[..n][j] == rs[j];
      }
    }
    if !HasName(rs[..n], rs[n].info.name) {
      forall j | 0 <= j < n ensures rs[j].info.name != rs[n].info.name {
        assert rs[..n][j] == rs[j];
      }
    }
  }

  lemma FirstEarlier(rs: seq<Record>, n: nat, k: nat)
    requires k < n <= |rs|
    ensures IsFirst(rs, k) <==> IsFirst(rs[..n], k)
  {
    forall j | 0 <= j < k ensures rs[..n][j] == rs[j] {
    }
  }

  /** `Firsts` lists exactly the first occurrences, in order. */
  lemma {:induction false} FirstsExactly(rs: seq<Record>)
    ensures forall i :: 0 <= i < |Firsts(rs)| ==> IsFirst(rs, Firsts(rs)[i])
    ensures forall i, j :: 0 <= i < j < |Firsts(rs)| ==> Firsts(rs)[i] < Firsts(rs)[j]
    ensures forall k: nat :: IsFirst(rs, k) ==> k in Firsts(rs)
    decreases |rs|
  {
    if rs != [] {
      var n := |rs| - 1;
      var earlier := Firsts(rs[..n]);
      FirstsExactly(rs[..n]);
      NewIsFirst(rs);
      forall i | 0 <= i < |earlier| ensures IsFirst(rs, earlier[i]) && earlier[i] < n {
        assert IsFirst(rs[..n], earlier[i]);
        FirstEarlier(rs, n, earlier[i]);
      }
      forall k: nat | IsFirst(rs, k) ensures k in Firsts(rs) {
        if k < n {
          FirstEarlier(rs, n, k);
          assert k in earlier;
        }
      }
    }
  }

  /** `Dedup` keeps exactly the records in those places. */
  lemma {:induction false} DedupAtFirsts(rs: seq<Record>)
    ensures |Dedup(rs)| == |Firsts(rs)|
    ensures forall i :: 0 <= i < |Firsts(rs)| ==> Firsts(rs)[i] < |rs| && Dedup(rs)[i] == rs[Firsts(rs)[i]]
    decreases |rs|
  {
    if rs != [] {
      DedupAtFirsts(rs[..|rs| - 1]);
    }
  }

  lemma {:induction false} DedupKeepsFirsts(rs: seq<Record>)
    ensures |Dedup(rs)| == |Firsts(rs)|
    ensures forall i :: 0 <= i < |Firsts(rs)| ==> IsFirst(rs, Firsts(rs)[i]) && Dedup(rs)[i] == rs[Firsts(rs)[i]]
    ensures forall i, j :: 0 <= i < j < |Firsts(rs)| ==> Firsts(rs)[i] < Firsts(rs)[j]
    ensures forall k: nat :: IsFirst(rs, k) ==> k in Firsts(rs)
  {
    FirstsExactly(rs);
    DedupAtFirsts(rs);
  }

  /** The names are pairwise distinct and all of them are there. */
  lemma DedupNames(rs: seq<Record>)
    ensures forall i, j :: 0 <= i < j < |Dedup(rs)| ==> Dedup(rs)[i].info.name != Dedup(rs)[j].info.name
    ensures forall name :: HasName(Dedup(rs), name) <==> HasName(rs, name)
  {
    DedupKeepsFirsts(rs);
    forall name ensures HasName(Dedup(rs), name) <==> HasName(rs, name) {
      if HasName(rs, name) {
        var k := FirstWith(rs, name);
        var i :| 0 <= i < |Firsts(rs)| && Firsts(rs)[i] == k;
        assert Dedup(rs)[i].info.name == name;
      }
      if HasName(Dedup(rs), name) {
        var i :| 0 <= i < |Dedup(rs)| && Dedup(rs)[i].info.name == name;
        assert rs[Firsts(rs)[i]].info.name == name;
      }
    }
  }

  lemma {:induction false} FirstWith(rs: seq<Record>, name: string) returns (k: nat)
    requires HasName(rs, name)
    ensures IsFirst(rs, k) && rs[k].info.name == name
  {
    k := 0;
    while rs[k].info.name != name
      invariant k < |rs| && forall j :: 0 <= j < k ==> rs[j].info.name != name
      invariant HasName(rs, name)
      decreases |rs| - k
    {
      var m :| 0 <= m < |rs| && rs[m].info.name == name;
      k := k + 1;
    }
  }

  // ---------------------------------------------------------------------------------------------
  // Reader and writer.
  // ---------------------------------------------------------------------------------------------

  /** What the format finds next: a record, or something it cannot read. */
  datatype Entry = Good(r: Record) | Bad

  datatype ReadResult = Got(r: Record) | EndOfArchive | Broken

  function IsTrailer(e: Entry): bool {
    e.Good? && e.r.info.name == TRAILER
  }

  /** The records before the first trailer or unreadable entry. */
  function Members(es: seq<Entry>): seq<Record> {
    if es == [] || es[0].Bad? || IsTrailer(es[0]) then [] else [es[0].r] + Members(es[1..])
  }

  /** An archive that ends with a trailer or with its last entry, and not with an unreadable one. */
  predicate Readable(es: seq<Entry>) {
    es == [] || IsTrailer(es[0]) || (es[0].Good? && Readable(es[1..]))
  }

  /** An archive is readable exactly when a trailer stands in front of every unreadable entry. */
  lemma {:induction false} ReadableExactly(es: seq<Entry>)
    ensures Readable(es) <==> forall k :: 0 <= k < |es| && es[k].Bad? ==> exists j :: 0 <= j < k && IsTrailer(es[j])
    decreases |es|
  {
    if es != [] && es[0].Good? && !IsTrailer(es[0]) {
      ReadableExactly(es[1..]);
      if Readable(es) {
        forall k | 0 <= k < |es| && es[k].Bad? ensures exists j :: 0 <= j < k && IsTrailer(es[j]) {
          assert es[1..][k - 1] == es[k];
          var j :| 0 <= j < k - 1 && IsTrailer(es[1..][j]);
          assert IsTrailer(es[j + 1]);
        }
      } else {
        var k :| 0 <= k < |es[1..]| && es[1..][k].Bad? && forall j :: 0 <= j < k ==> !IsTrailer(es[1..][j]);
        assert es[k + 1].Bad?;
        forall j | 0 <= j < k + 1 ensures !IsTrailer(es[j]) {
          assert j > 0 ==> !IsTrailer(es[1..][j - 1]);
        }
      }
    }
  }

  /** The members are the records in front of the first trailer or unreadable entry. */
  lemma {:induction false} MembersExactly(es: seq<Entry>)
    ensures var ms := Members(es);
            && |ms| <= |es| && (forall k :: 0 <= k < |ms| ==> es[k] == Good(ms[k]) && ms[k].info.name != "TRAILER!!!")
            && (|ms| < |es| ==> es[|ms|].Bad? || es[|ms|].r.info.name == "TRAILER!!!")
    decreases |es|
  {
    if !(es == [] || es[0].Bad? || IsTrailer(es[0])) {
      MembersExactly(es[1..]);
      var ms := Members(es);
      assert ms[1..] == Members(es[1..]);
      assert forall k :: 0 < k < |ms| ==> es[k] == es[1..][k - 1] && ms[k] == ms[1..][k - 1];
    }
  }

  /** What stands at `pos` and what follows it. */
  lemma NextMember(es: seq<Entry>, pos: nat)
    requires pos <= |es|
    ensures var rest := es[pos..];
            if pos == |es| || es[pos].Bad? || IsTrailer(es[pos]) then
              Members(rest) == [] && (Readable(rest) <==> pos == |es| || es[pos].Good?)
            else
              Members(rest) == [es[pos].r] + Members(es[pos + 1..]) && (Readable(rest) <==> Readable(es[pos + 1..]))
  {
    assert pos < |es| ==> es[pos..][0] == es[pos] && es[pos..][1..] == es[pos + 1..];
  }

  function Entries(rs: seq<Record>): seq<Entry> {
    seq(|rs|, i requires 0 <= i < |rs| => Good(rs[i]))
  }

  class Reader {
    const es: seq<Entry>
    var pos: nat

    constructor (es: seq<Entry>)
      ensures this.es == es && pos == 0
    {
      this.es, pos := es, 0;
    }

    ghost predicate Valid()
      reads this
    {
      pos <= |es|
    }

    method ReadRecord() returns (r: ReadResult)
      requires Valid()
      modifies this
      ensures Valid()
      ensures r == if old(pos) == |es| || IsTrailer(es[old(pos)]) then EndOfArchive
                   else if es[old(pos)].Bad? then Broken else Got(es[old(pos)].r)
      ensures r.Got? ==> pos == old(pos) + 1
    {
      if pos == |es| {
        return EndOfArchive;
      }
      var e := es[pos];
      pos := pos + 1;
      if e.Bad? {
        return Broken;
      }
      if e.r.info.name == TRAILER {
        return EndOfArchive;
      }
      return Got(e.r);
    }

    method ReadRecords() returns (files: Option<seq<Record>>)
      requires Valid()
      modifies this
      ensures files == if Readable(old(es[pos..])) then Some(Members(old(es[pos..]))) else None
    {
      var fs := [];
      while true
        invariant Valid()
        invariant old(pos) <= pos && Members(es[old(pos)..]) == fs + Members(es[pos..])
        invariant Readable(es[old(pos)..]) <==> Readable(es[pos..])
        decreases |es| - pos
      {
        ghost var rest := es[pos..];
        assert pos < |es| ==> rest[0] == es[pos] && rest[1..] == es[pos + 1..];
        var r := ReadRecord();
        match r {
          case EndOfArchive =>
            assert fs + [] == fs;
            return Some(fs);
          case Broken => return None;
          case Got(f) => fs := fs + [f];
        }
      }
    }
  }

  class Writer {
    var alreadyWritten: set<string>
    var log: seq<Record>
    ghost var given: seq<Record>   // every record handed to WriteRecord, under its relative name

    constructor ()
      ensures Valid() && given == [] && log == []
    {
      alreadyWritten, log, given := {}, [], [];
    }

    ghost predicate Valid()
      reads this
    {
      && log == Dedup(given)
      && (forall name :: name in alreadyWritten <==> HasName(given, name))
      && (forall k :: 0 <= k < |given| ==> !IsAbs(given[k].info.name))
    }

    method WriteRecord(rec: Record)
      requires Valid()
      modifies this
      ensures Valid() && given == old(given) + [Rooted(rec)]
      ensures Rooted(rec).content == rec.content && Rooted(rec).info.(name := rec.info.name) == rec.info
    {
      var r := rec;
      if IsAbs(rec.info.name) {
        r := rec.(info := rec.info.(name := RelToRoot(rec.info.name)));
      }
      RelativeIsNotAbsolute(rec.info.name);
      NamesSnoc(given, r);
      given := given + [r];
      if r.info.name in alreadyWritten {
        return;
      }
      alreadyWritten := alreadyWritten + {r.info.name};
      log := log + [r];
    }

    method WriteTrailer()
      requires Valid()
      modifies this
      ensures Valid() && given == old(given) + [TrailerRecord]
    {
      WriteRecord(TrailerRecord);
    }

    /** Copies an archive record by record through a transformation. */
    method Concat(r: Reader, transform: Record -> Record) returns (ok: bool)
      requires Valid() && r.Valid()
      modifies this, r
      ensures Valid() && given == old(given) + Transformed(transform, Members(old(r.es[r.pos..])))
      ensures ok <==> Readable(old(r.es[r.pos..]))
    {
      ghost var all := given + Transformed(transform, Members(r.es[r.pos..]));
      ghost var readable := Readable(r.es[r.pos..]);
      while true
        invariant Valid() && r.Valid()
        invariant Copying(transform, r.es, r.pos, given, all, readable)
        decreases |r.es| - r.pos
      {
        ghost var had, at := given, r.pos;
        var f := r.ReadRecord();
        CopyStep(transform, r.es, at, had, all, readable);
        match f {
          case EndOfArchive => return true;
          case Broken => return false;
          case Got(rec) => WriteRecord(transform(rec));
        }
      }
    }
  }

  function Transformed(f: Record -> Record, rs: seq<Record>): seq<Record> {
    seq(|rs|, i requires 0 <= i < |rs| => Rooted(f(rs[i])))
  }

  /** What is left of an archive, transformed, makes up `all` with what was copied. */
  ghost predicate Copying(f: Record -> Record, es: seq<Entry>, pos: nat, had: seq<Record>, all: seq<Record>,
                          readable: bool) {
    pos <= |es| && all == had + Transformed(f, Members(es[pos..])) && (readable <==> Readable(es[pos..]))
  }

  lemma CopyStep(f: Record -> Record, es: seq<Entry>, pos: nat, had: seq<Record>, all: seq<Record>, readable: bool)
    requires Copying(f, es, pos, had, all, readable)
    ensures if pos == |es| || es[pos].Bad? || IsTrailer(es[pos]) then
              all == had && (readable <==> pos == |es| || es[pos].Good?)
            else Copying(f, es, pos + 1, had + [Rooted(f(es[pos].r))], all, readable)
  {
    NextMember(es, pos);
    if pos == |es| || es[pos].Bad? || IsTrailer(es[pos]) {
      assert had + Transformed(f, []) == had;
    } else {
      TransformedCons(f, es[pos].r, Members(es[pos + 1..]), had);
    }
  }

  lemma TransformedCons(f: Record -> Record, r: Record, rs: seq<Record>, had: seq<Record>)
    ensures had + Transformed(f, [r] + rs) == (had + [Rooted(f(r))]) + Transformed(f, rs)
  {
    var all := [r] + rs;
    assert Transformed(f, all) == [Rooted(f(r))] + Transformed(f, rs);
  }

  lemma NamesSnoc(rs: seq<Record>, r: Record)
    ensures forall name :: HasName(rs + [r], name) <==> HasName(rs, name) || r.info.name == name
    ensures Dedup(rs + [r]) == Dedup(rs) + if HasName(rs, r.info.name) then [] else [r]
  {
    var all := rs + [r];
    assert all[..|rs|] == rs;
    forall name ensures HasName(all, name) <==> HasName(rs, name) || r.info.name == name {
      if HasName(rs, name) {
        var k :| 0 <= k < |rs| && rs[k].info.name == name;
        assert all[k].info.name == name;
      }
      if HasName(all, name) && r.info.name != name {
        var k :| 0 <= k < |all| && all[k].info.name == name;
        assert rs[k].info.name == name;
      }
      assert all[|rs|].info.name == r.info.name;
    }
  }

  // ---------------------------------------------------------------------------------------------
  // Whole archives.
  // ---------------------------------------------------------------------------------------------

  /** The records given before the first one with the trailer's name. */
  function BeforeTrailer(rs: seq<Record>): seq<Record> {
    if rs == [] || rs[0].info.name == TRAILER then [] else [rs[0]] + BeforeTrailer(rs[1..])
  }

  lemma {:induction false} DedupPrefix(rs: seq<Record>, n: nat)
    requires n <= |rs|
    ensures |Dedup(rs[..n])| <= |Dedup(rs)| && Dedup(rs)[..|Dedup(rs[..n])|] == Dedup(rs[..n])
    decreases |rs|
  {
    if n == |rs| {
      assert rs[..n] == rs;
    } else {
      assert rs[..|rs| - 1][..n] == rs[..n];
      DedupPrefix(rs[..|rs| - 1], n);
    }
  }

  /** Reading stops at the first trailer. */
  lemma {:induction false} MembersStop(ms: seq<Record>, x: Record, rest: seq<Record>)
    requires !HasName(ms, TRAILER) && x.info.name == TRAILER
    ensures Members(Entries(ms + ([x] + rest))) == ms && Readable(Entries(ms + ([x] + rest)))
    decreases |ms|
  {
    var all := ms + ([x] + rest);
    if ms == [] {
      assert Entries(all)[0] == Good(x);
    } else {
      assert ms[0].info.name != TRAILER;
      assert Entries(all)[0] == Good(ms[0]) && Entries(all)[1..] == Entries(ms[1..] + ([x] + rest));
      forall k | 0 <= k < |ms[1..]| ensures ms[1..][k].info.name != TRAILER {
        assert ms[k + 1].info.name != TRAILER;
      }
      MembersStop(ms[1..], x, rest);
      assert [ms[0]] + ms[1..] == ms;
    }
  }

  lemma {:induction false} TrailerPlace(rs: seq<Record>) returns (n: nat)
    requires HasName(rs, TRAILER)
    ensures n < |rs| && rs[n].info.name == TRAILER && BeforeTrailer(rs) == rs[..n] && !HasName(rs[..n], TRAILER)
    decreases |rs|
  {
    if rs[0].info.name == TRAILER {
      n := 0;
    } else {
      var k :| 0 <= k < |rs| && rs[k].info.name == TRAILER;
      assert rs[1..][k - 1] == rs[k];
      var m := TrailerPlace(rs[1..]);
      n := m + 1;
      assert rs[..n] == [rs[0]] + rs[1..][..m];
      forall j | 0 <= j < n ensures rs[..n][j].info.name != TRAILER {
        if j > 0 {
          assert rs[1..][..m][j - 1].info.name != TRAILER;
        }
      }
    }
  }

  lemma {:induction false} BeforeAppended(rs: seq<Record>, x: Record)
    requires x.info.name == TRAILER
    ensures BeforeTrailer(rs + [x]) == BeforeTrailer(rs)
    ensures !HasName(rs, TRAILER) ==> BeforeTrailer(rs) == rs
    decreases |rs|
  {
    if rs != [] {
      assert (rs + [x])[1..] == rs[1..] + [x];
      BeforeAppended(rs[1..], x);
      assert HasName(rs[1..], TRAILER) ==> HasName(rs, TRAILER) by {
        if HasName(rs[1..], TRAILER) {
          var k :| 0 <= k < |rs[1..]| && rs[1..][k].info.name == TRAILER;
          assert rs[k + 1].info.name == TRAILER;
        }
      }
      if !HasName(rs, TRAILER) {
        assert rs[0].info.name != TRAILER;
        assert [rs[0]] + rs[1..] == rs;
      }
    }
  }

  /** The part of the log up to the first trailer-named record. */
  lemma LogSplit(all: seq<Record>, n: nat) returns (ms: seq<Record>, rest: seq<Record>)
    requires n < |all| && all[n].info.name == TRAILER && !HasName(all[..n], TRAILER)
    ensures ms == Dedup(all[..n]) && !HasName(ms, TRAILER) && Dedup(all) == ms + ([all[n]] + rest)
  {
    DedupPrefix(all, n + 1);
    NamesSnoc(all[..n], all[n]);
    assert all[..n + 1] == all[..n] + [all[n]];
    ms := Dedup(all[..n]);
    DedupNames(all[..n]);
    var log := Dedup(all);
    rest := log[|ms| + 1..];
    assert log[..|ms| + 1] == ms + [all[n]];
    assert log == log[..|ms| + 1] + rest;
  }

  /** What is written, split at the first record with the trailer's name. */
  lemma FinishedLog(given: seq<Record>) returns (ms: seq<Record>, x: Record, rest: seq<Record>)
    ensures ms == Dedup(BeforeTrailer(given)) && !HasName(ms, TRAILER) && x.info.name == TRAILER
    ensures Dedup(given + [TrailerRecord]) == ms + ([x] + rest)
  {
    var all := given + [TrailerRecord];
    assert all[|given|].info.name == TRAILER;
    var n := TrailerPlace(all);
    BeforeAppended(given, TrailerRecord);
    x := all[n];
    ms, rest := LogSplit(all, n);
  }

  /** The archive after any writes and concatenations, finished by a trailer: reading it gives the first
      occurrences among what was given before a record with the trailer's name. */
  lemma FinishedArchive(given: seq<Record>)
    ensures var log := Dedup(given + [TrailerRecord]);
            && Readable(Entries(log)) && Members(Entries(log)) == Dedup(BeforeTrailer(given))
            && (!HasName(given, TRAILER) ==> log == Dedup(given) + [TrailerRecord])
  {
    var all := given + [TrailerRecord];
    assert all[|given|].info.name == TRAILER;
    var n := TrailerPlace(all);
    BeforeAppended(given, TrailerRecord);
    NamesSnoc(given, TrailerRecord);
    var ms, rest := LogSplit(all, n);
    MembersStop(ms, all[n], rest);
  }

  /** So the archive holds everything that was given exactly when no record had the trailer's name. */
  lemma ArchiveComplete(given: seq<Record>)
    ensures Members(Entries(Dedup(given + [TrailerRecord]))) == Dedup(given) <==> !HasName(given, TRAILER)
  {
    FinishedArchive(given);
    BeforeAppended(given, TrailerRecord);
    if HasName(given, TRAILER) {
      var n := TrailerPlace(given);
      DedupNames(given);
      DedupNames(given[..n]);
      assert HasName(Dedup(given), TRAILER) && !HasName(Dedup(given[..n]), TRAILER);
    }
  }

  /** A file named like the trailer hides itself and what is written after it. */
  lemma TrailerNameLoses(info: Info, content: Option<bytes>, after: Record)
    requires info.name == TRAILER
    ensures var given := [Record(info, content), after];
            Members(Entries(Dedup(given + [TrailerRecord]))) == [] != Dedup(given)
  {
    var given := [Record(info, content), after];
    FinishedArchive(given);
    assert BeforeTrailer(given) == [];
    assert given[0].info.name == TRAILER;
    ArchiveComplete(given);
  }
}
