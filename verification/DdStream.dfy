/**
 The two ends of the dd pipeline as objects: the section reader that skips and limits the input, and the
 chunked buffer that is filled by one read and written in pieces.  The reader and the writer they talk
 to are scripted: a `Source` hands out its bytes in any portions, a `Sink` may fail at any write.
 */
module DdStream {
  import opened Common
  import opened DdPipeline
  import opened DdCopy

  const MAX_INT64: int := 0x7FFF_FFFF_FFFF_FFFF
  const TWO_64: int := 0x1_0000_0000_0000_0000

  predicate IsInt64(x: int) {
    -MAX_INT64 - 1 <= x <= MAX_INT64
  }

  /** Two's complement wrap-around of a 64-bit sum. */
  function Wrap64(x: int): int {
    var r := x % TWO_64;
    if r > MAX_INT64 then r - TWO_64 else r
  }

  /** How a source answers one read: at most `most` bytes, and whether it reports the end at once. */
  datatype Turn = Turn(most: nat, eager: bool)

  /** A stream of bytes that ends with EOF, or with an error when `broken`. */
  class Source {
    const all: bytes
    const broken: bool
    var pos: nat
    var turns: seq<Turn>
    var idled: bool   // some read returned nothing although bytes were left

    ghost predicate Valid()
      reads this
    {
      pos <= |all| <= MAX_INT64
    }

    constructor (all: bytes, broken: bool, turns: seq<Turn>)
      requires |all| <= MAX_INT64
      ensures Valid() && this.all == all && this.broken == broken && pos == 0 && !idled
    {
      this.all, this.broken, this.turns, this.pos, this.idled := all, broken, turns, 0, false;
    }

    function End(): Err {
      if broken then Fail else Eof
    }

    method Read(k: nat) returns (b: bytes, err: Err)
      requires Valid()
      modifies this
      ensures Valid() && pos == old(pos) + |b| && b == all[old(pos)..pos] && |b| <= k
      ensures !err.Nil? ==> pos == |all| && err == End()
      ensures b == [] && err.Nil? && k > 0 ==> idled
      ensures old(idled) ==> idled
      ensures idled && !old(idled) ==> b == [] && err.Nil? && pos < |all|
    {
      var turn := if turns == [] then Turn(|all|, false) else turns[0];
      turns := if turns == [] then [] else turns[1..];
      var n := Min(Min(k, turn.most), |all| - pos);
      b := all[pos..pos + n];
      pos := pos + n;
      err := if pos == |all| && (n == 0 || turn.eager) then End() else Nil;
      if n == 0 && err.Nil? && pos < |all| {
        idled := true;
      }
    }

    /** `io.CopyN` to the bit bucket. */
    method Discard(n: int) returns (copied: nat, err: Err)
      requires Valid()
      modifies this`pos
      ensures Valid() && pos == old(pos) + copied && copied == Max(0, Min(n, |all| - old(pos)))
      ensures err == if copied < n then End() else Nil
    {
      copied := Max(0, Min(n, |all| - pos));
      pos := pos + copied;
      err := if copied < n then End() else Nil;
    }
  }

  /** The limit that `newStreamSectionReader` computes. */
  function LimitOf(base: int, n: int): int {
    var limit := Wrap64(base + n);
    if limit < 0 then MAX_INT64 else limit
  }

  /** The wrapped sum saturates correctly for every non-negative offset and length. */
  lemma LimitSaturates(base: int, n: int)
    requires 0 <= base <= MAX_INT64 && 0 <= n <= MAX_INT64
    ensures LimitOf(base, n) == Min(base + n, MAX_INT64)
  {
    if base + n <= MAX_INT64 {
      assert (base + n) % TWO_64 == base + n;
    } else {
      assert (base + n) % TWO_64 == base + n;
      assert Wrap64(base + n) < 0;
    }
  }

  /** The part of the stream between `base` and `limit`. */
  function Section(all: bytes, base: int, limit: int): bytes {
    var end := Min(limit, |all|);
    if 0 <= base <= end then all[base..end] else []
  }

  class SectionReader {
    const base: int
    const limit: int
    const src: Source
    var offset: int

    constructor (src: Source, offset: int, n: int)
      requires IsInt64(offset) && IsInt64(n) && src.Valid() && src.pos == 0
      ensures Valid() && this.src == src && base == offset && limit == LimitOf(offset, n)
      ensures this.offset == 0
    {
      this.src, this.base, this.limit, this.offset := src, offset, LimitOf(offset, n), 0;
    }

    /** Either nothing was delivered and skipping is still to be done, or `offset` is the stream position. */
    ghost predicate Valid()
      reads this, src
    {
      && src.Valid()
      && if offset == 0 then src.pos == 0 || (0 < base && src.pos == |src.all| < base)
         else offset == src.pos && 0 <= base <= offset && offset <= Max(base, limit)
    }

    /** The stream position of the next byte to deliver. */
    ghost function Next(): int
      reads this
    {
      if offset == 0 then base else offset
    }

    /** A read whose next byte is at `next` meets the error that the stream ends with: skipping runs into it, or there
        is something left to ask the stream for. */
    ghost predicate MeetsError(next: int)
      reads this
    {
      base < 0 || (src.broken && (|src.all| < base || next < limit))
    }

    method Read(k: nat) returns (b: bytes, err: Err)
      requires Valid()
      modifies this, src
      ensures Valid() && |b| <= k
      ensures b != [] ==> 0 <= old(Next()) && old(Next()) + |b| == Next() <= Min(limit, |src.all|)
                          && b == src.all[old(Next())..Next()]
      ensures b == [] ==> Next() == old(Next())
      ensures b == [] && k > 0 ==> !err.Nil?
      ensures !err.Nil? && k > 0 ==>
                Next() < 0 || Next() >= Min(limit, |src.all|) || src.idled
      ensures old(src.idled) ==> src.idled
      ensures err.Nil? && k > 0 ==> src.idled == old(src.idled)
      ensures err.Fail? ==> base < 0 || (src.broken && src.pos == |src.all|)
      ensures !err.Nil? && k > 0 && !src.idled ==> (err.Fail? <==> MeetsError(old(Next())))
      ensures !err.Nil? && k > 0 && !src.idled ==> EndsRight(err, src.broken, |src.all|, base, limit)
      ensures src.idled && !old(src.idled) ==> err.Eof?
    {
      if offset == 0 && base != 0 {
        var n, skipErr := src.Discard(base);
        if !skipErr.Nil? {
          return [], skipErr;
        } else if n != base {
          return [], Fail;
        }
        offset := base;
      }
      if offset >= limit {
        return [], Eof;
      }
      var room := Min(k, limit - offset);
      b, err := src.Read(room);
      offset := offset + |b|;
      if b == [] && err.Nil? {
        err := Eof;
      }
    }
  }

  /** `d` is what a reader whose next byte is at `next` has delivered of the section from `base` on. */
  predicate Delivered(all: bytes, base: int, limit: int, next: int, d: bytes) {
    if next == base then d == []
    else 0 <= base < next <= Min(limit, |all|) && d == all[base..next]
  }

  predicate AllOpen(script: seq<Read>) {
    forall i :: 0 <= i < |script| ==> !Terminal(script[i])
  }

  predicate AllShort(script: seq<Read>, k: nat) {
    forall i :: 0 <= i < |script| ==> |script[i].b| <= k
  }

  lemma DeliverMore(script: seq<Read>, r: Read, all: bytes, base: int, limit: int, from: int, next: int)
    requires AllOpen(script) && Delivered(all, base, limit, from, Flatten(Chunks(script)))
    requires if r.b == [] then next == from
             else 0 <= from && from + |r.b| == next <= Min(limit, |all|) && r.b == all[from..next]
    ensures Delivered(all, base, limit, next, Flatten(Chunks(script + [r])))
  {
    ChunksSnoc(script, r);
    if r.b == [] {
      assert Chunks(script) + [] == Chunks(script);
    } else {
      FlattenSnoc(Chunks(script), r.b);
      SliceJoin(all, base, from, next);
    }
  }

  lemma SliceJoin(all: bytes, a: int, b: int, c: int)
    requires 0 <= a <= b <= c <= |all|
    ensures all[a..b] + all[b..c] == all[a..c]
    ensures [] + all[b..c] == all[b..c]
  {
  }

  lemma DeliveredAll(all: bytes, base: int, limit: int, next: int, d: bytes)
    requires Delivered(all, base, limit, next, d)
    ensures IsPrefix(d, Section(all, base, limit))
    ensures next < 0 || next >= Min(limit, |all|) ==> d == Section(all, base, limit)
  {
  }

  /** How the reads of a section of a stream of `size` bytes end.  An error of the stream is met when the stream ends
      inside the section, and not when it goes on behind it; when both end at the same place the stream may report
      the error together with the last bytes. */
  predicate EndsRight(end: Err, broken: bool, size: nat, base: int, limit: int) {
    && !end.Nil?
    && (base < 0 || (broken && size < Max(base, limit)) ==> end.Fail?)
    && (0 <= base && (!broken || size > Max(base, limit)) ==> end.Eof?)
  }

  /** All reads of `k` bytes up to the one that ends the input, as the pipeline's reader makes them.
      Together they deliver the section, in order and nothing else, unless the stream returned an empty
      read without an error, which is taken for its end. */
  method ReadScript(sr: SectionReader, k: nat) returns (script: seq<Read>)
    requires sr.Valid() && sr.offset == 0 && k > 0 && !sr.src.idled
    modifies sr, sr.src
    ensures AllShort(script, k)
    ensures script != [] && Terminal(script[|script| - 1]) && AllOpen(script[..|script| - 1])
    ensures IsPrefix(Flatten(Chunks(script)), Section(sr.src.all, sr.base, sr.limit))
    ensures !sr.src.idled ==> Flatten(Chunks(script)) == Section(sr.src.all, sr.base, sr.limit)
    ensures !sr.src.idled ==> EndsRight(EndOf(script), sr.src.broken, |sr.src.all|, sr.base, sr.limit)
  {
    script := [];
    ghost var from := sr.Next();
    var b, err := sr.Read(k);
    DeliverMore(script, Read(b, err), sr.src.all, sr.base, sr.limit, from, sr.Next());
    while err.Nil?
      invariant sr.Valid() && (err.Nil? ==> !sr.src.idled)
      invariant AllOpen(script) && AllShort(script, k) && |b| <= k && (b == [] ==> !err.Nil?)
      invariant Delivered(sr.src.all, sr.base, sr.limit, sr.Next(), Flatten(Chunks(script + [Read(b, err)])))
      invariant b != [] ==> sr.Next() <= |sr.src.all|
      invariant !err.Nil? ==> sr.Next() < 0 || sr.Next() >= Min(sr.limit, |sr.src.all|) || sr.src.idled
      invariant !err.Nil? && !sr.src.idled ==> EndsRight(err, sr.src.broken, |sr.src.all|, sr.base, sr.limit)
      decreases err.Nil?, |sr.src.all| - sr.Next()
    {
      script := script + [Read(b, err)];
      from := sr.Next();
      b, err := sr.Read(k);
      DeliverMore(script, Read(b, err), sr.src.all, sr.base, sr.limit, from, sr.Next());
    }
    ScriptDone(script, Read(b, err), k, sr.src.all, sr.base, sr.limit, sr.Next());
    script := script + [Read(b, err)];
  }

  /** What the reads are once the last of them is there. */
  lemma ScriptDone(script: seq<Read>, r: Read, k: nat, all: bytes, base: int, limit: int, next: int)
    requires AllOpen(script) && AllShort(script, k) && |r.b| <= k && !r.err.Nil?
    requires Delivered(all, base, limit, next, Flatten(Chunks(script + [r])))
    ensures var s := script + [r];
            && AllShort(s, k) && s[..|s| - 1] == script && Terminal(s[|s| - 1]) && EndOf(s) == r.err
            && IsPrefix(Flatten(Chunks(s)), Section(all, base, limit))
            && (next < 0 || next >= Min(limit, |all|) ==> Flatten(Chunks(s)) == Section(all, base, limit))
  {
    EndOfAt(script + [r], |script|);
    DeliveredAll(all, base, limit, next, Flatten(Chunks(script + [r])));
  }

  /** One write takes at most `most` bytes and may fail. */
  datatype Gate = Gate(most: nat, fails: bool)

  /** A writer that obeys the rule of io.Writer: taking less than it was given is an error. */
  class Sink {
    var out: bytes
    var gates: seq<Gate>

    method Write(p: bytes) returns (got: nat, failed: bool)
      modifies this
      ensures got <= |p| && out == old(out) + p[..got] && (got < |p| ==> failed)
      ensures old(gates) == [] ==> gates == [] && got == |p| && !failed
    {
      var gate := if gates == [] then Gate(|p|, false) else gates[0];
      gates := if gates == [] then [] else gates[1..];
      got := Min(gate.most, |p|);
      failed := gate.fails || got < |p|;
      out := out + p[..got];
    }
  }

  /** Every piece of `d` keeps its length under the conversion. */
  predicate KeepsLength(tr: bytes -> bytes, obs: nat, d: bytes)
    requires obs > 0
  {
    d == [] || (var n := Min(obs, |d|); |tr(d[..n])| == n && KeepsLength(tr, obs, d[n..]))
  }

  /** `i` bytes of the chunk `c` have been converted and written after `start`. */
  predicate Partly(tr: bytes -> bytes, obs: nat, c: bytes, i: nat, start: bytes, out: bytes)
    requires obs > 0
  {
    && i <= |c| && IsPrefix(start, out)
    && out + Pieces(tr, obs, c[i..]) == start + Pieces(tr, obs, c)
    && (KeepsLength(tr, obs, c[i..]) <==> KeepsLength(tr, obs, c))
  }

  lemma WritePiece(tr: bytes -> bytes, obs: nat, c: bytes, i: nat, n: nat, start: bytes, before: bytes, got: nat)
    requires obs > 0 && i < |c| && n == Min(obs, |c| - i) && Partly(tr, obs, c, i, start, before)
    requires got <= |tr(c[i..i + n])|
    ensures var out := before + tr(c[i..i + n])[..got];
            && IsPrefix(start, out) && IsPrefix(out, start + Pieces(tr, obs, c))
            && (got == |tr(c[i..i + n])| == n ==> Partly(tr, obs, c, i + n, start, out))
            && (|tr(c[i..i + n])| != n ==> !KeepsLength(tr, obs, c))
  {
    assert c[i..][..n] == c[i..i + n] && c[i..][n..] == c[i + n..];
    PieceStep(tr, obs, c[i..], before, got);
  }

  lemma WrittenAll(tr: bytes -> bytes, obs: nat, c: bytes, start: bytes, out: bytes)
    requires obs > 0 && Partly(tr, obs, c, |c|, start, out)
    ensures out == start + Pieces(tr, obs, c) && KeepsLength(tr, obs, c) && IsPrefix(out, out)
  {
    assert out + [] == out;
  }

  datatype WriteErr = WriteNil | WriteFail | ShortWrite

  class ChunkedBuffer {
    const outChunk: nat
    const transform: bytes -> bytes
    const data: array<byte>
    var length: nat

    ghost predicate Valid()
      reads this
    {
      outChunk > 0 && length <= data.Length
    }

    /** The bytes that the last read put into the buffer. */
    ghost function Chunk(): bytes
      requires Valid()
      reads this, data
    {
      data[..length]
    }

    constructor (inChunkSize: nat, outChunkSize: nat, transform: bytes -> bytes)
      requires outChunkSize > 0
      ensures Valid() && fresh(data) && data.Length == inChunkSize && Chunk() == []
      ensures outChunk == outChunkSize && this.transform == transform
    {
      data := new byte[inChunkSize];
      outChunk, this.transform, length := outChunkSize, transform, 0;
    }

    /** One read into the buffer; an empty one without an error becomes the end of the input. */
    method ReadFrom(r: SectionReader) returns (n: nat, err: Err)
      requires Valid() && r.Valid() && data.Length > 0
      modifies this, data, r, r.src
      ensures Valid() && r.Valid() && n == length == |Chunk()|
      ensures n <= data.Length
      ensures n > 0 ==> 0 <= old(r.Next()) && old(r.Next()) + n == r.Next() <= Min(r.limit, |r.src.all|)
                        && Chunk() == r.src.all[old(r.Next())..r.Next()]
      ensures n == 0 ==> !err.Nil? && r.Next() == old(r.Next())
      ensures !err.Nil? ==> r.Next() < 0 || r.Next() >= Min(r.limit, |r.src.all|) || r.src.idled
      ensures err.Fail? ==> r.base < 0 || (r.src.broken && r.src.pos == |r.src.all|)
      ensures !err.Nil? && !r.src.idled ==> (err.Fail? <==> r.MeetsError(old(r.Next())))
    {
      var b: bytes;
      b, err := r.Read(data.Length);
      forall i | 0 <= i < |b| {
        data[i] := b[i];
      }
      length := |b|;
      assert data[..length] == b;
      n := |b|;
      if n == 0 && err.Nil? {
        err := Eof;
      }
    }

    /** Writes the chunk in pieces.  What reaches the sink is always a prefix of the converted chunk.
        Success means that all of it was taken and that the conversion kept the length of every piece.
        With a sink that never fails, a change of length is the only way to fail, and it is reported as
        a short write of no bytes. */
    method WriteTo(w: Sink) returns (n: nat, err: WriteErr)
      requires Valid()
      modifies w
      ensures IsPrefix(old(w.out), w.out)
      ensures IsPrefix(w.out, old(w.out) + Pieces(transform, outChunk, Chunk()))
      ensures err.WriteNil? ==> w.out == old(w.out) + Pieces(transform, outChunk, Chunk()) && n == length
      ensures err.WriteNil? ==> KeepsLength(transform, outChunk, Chunk())
      ensures old(w.gates) == [] ==> (err.WriteNil? <==> KeepsLength(transform, outChunk, Chunk()))
      ensures old(w.gates) == [] && !err.WriteNil? ==> err.ShortWrite? && n == 0
      ensures n == if err.ShortWrite? then 0 else |w.out| - |old(w.out)|
    {
      n, err := WritePieces(transform, outChunk, data[..length], w);
    }
  }

  /** The loop of `WriteTo` over the contents `c` of a buffer. */
  method WritePieces(tr: bytes -> bytes, obs: nat, c: bytes, w: Sink) returns (n: nat, err: WriteErr)
    requires obs > 0
    modifies w
    ensures IsPrefix(old(w.out), w.out) && IsPrefix(w.out, old(w.out) + Pieces(tr, obs, c))
    ensures err.WriteNil? ==> w.out == old(w.out) + Pieces(tr, obs, c) && n == |c| && KeepsLength(tr, obs, c)
    ensures old(w.gates) == [] ==> (err.WriteNil? <==> KeepsLength(tr, obs, c))
    ensures old(w.gates) == [] && !err.WriteNil? ==> err.ShortWrite? && n == 0
    ensures n == if err.ShortWrite? then 0 else |w.out| - |old(w.out)|
  {
    ghost var start := w.out;
    var i := 0;
    assert c[0..] == c;
    while i < |c|
      invariant Partly(tr, obs, c, i, start, w.out) && |w.out| == |start| + i
      invariant old(w.gates) == [] ==> w.gates == []
    {
      var chunk := obs;
      if i + chunk > |c| {
        chunk := |c| - i;
      }
      ghost var before := w.out;
      var got, failed := w.Write(tr(c[i..i + chunk]));
      WritePiece(tr, obs, c, i, chunk, start, before, got);
      if failed {
        return i + got, WriteFail;
      }
      if got != chunk {
        return 0, ShortWrite;
      }
      i := i + got;
    }
    WrittenAll(tr, obs, c, start, w.out);
    return i, WriteNil;
  }

  /** A run of the pipeline that returned and in which no write failed or was short. */
  ghost predicate Completed(c: Config, acts: seq<Action>, t: State) {
    c.ibs > 0 && c.obs > 0 && Run(c, Init, acts, t) && t.writer.Returned? && WritesOk(c, Init, acts)
  }

  /** However reader and writer interleave, this is what is written and counted, and how the input ended is told. */
  ghost predicate AlwaysWrites(c: Config, x: bytes) {
    forall acts, t :: Completed(c, acts, t) ==>
      t.out == x && t.total == |x| && t.writer.result == (if EndOf(c.script).Fail? then ReadError else Ok)
  }

  lemma ScriptWritten(c: Config, f: byte -> byte)
    requires ValidConfig(c) && Bytewise(c.tr, f)
    ensures AlwaysWrites(c, MapBytes(f, Flatten(Chunks(c.script))))
  {
    BytewiseExpected(c, f);
    forall acts, t | Completed(c, acts, t)
      ensures t.out == Expected(c) && t.total == |t.out|
              && t.writer.result == (if EndOf(c.script).Fail? then ReadError else Ok)
    {
      ReturnedCopy(c, acts, t);
    }
  }

  /** For an offset and a length that are not negative, the section ends where they say, without overflow. */
  lemma SectionMeans(all: bytes, offset: int, n: int)
    requires 0 <= offset <= MAX_INT64 && 0 <= n <= MAX_INT64 && |all| <= MAX_INT64
    ensures Section(all, offset, LimitOf(offset, n))
         == if offset <= |all| then all[offset..Min(offset + n, |all|)] else []
  {
    LimitSaturates(offset, n);
  }

  /** From the stream to the output.  The section reader is opened on the stream and read to its end; every run of
      the pipeline over these reads that returns without a write error has written the section, converted byte
      by byte.  A stream that returns nothing without an error is taken to have ended there. */
  method CopySection(src: Source, offset: int, n: int, ibs: nat, obs: nat, f: byte -> byte)
    returns (c: Config, copied: bytes)
    requires IsInt64(offset) && IsInt64(n) && src.Valid() && src.pos == 0 && !src.idled && ibs > 0 && obs > 0
    modifies src
    ensures c.ibs == ibs && c.obs == obs && Bytewise(c.tr, f) && copied == Flatten(Chunks(c.script))
    ensures c.script != [] && Terminal(c.script[|c.script| - 1]) && AllOpen(c.script[..|c.script| - 1])
    ensures ValidConfig(c) && AlwaysWrites(c, MapBytes(f, copied))
    ensures IsPrefix(copied, Section(src.all, offset, LimitOf(offset, n)))
    ensures !src.idled ==> copied == Section(src.all, offset, LimitOf(offset, n))
    ensures !src.idled ==> EndsRight(EndOf(c.script), src.broken, |src.all|, offset, LimitOf(offset, n))
    ensures !src.idled && 0 <= offset && 0 <= n ==>
              copied == if offset <= |src.all| then src.all[offset..Min(offset + n, |src.all|)] else []
  {
    var sr := new SectionReader(src, offset, n);
    var script := ReadScript(sr, ibs);
    c := Config(ibs, obs, d => MapBytes(f, d), script);
    copied := Flatten(Chunks(script));
    ScriptWritten(c, f);
    if 0 <= offset && 0 <= n {
      SectionMeans(src.all, offset, n);
    }
  }
}
