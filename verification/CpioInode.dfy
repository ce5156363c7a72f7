/** Inode renumbering for reproducible archives, pkg/cpio/fs_unix.go. */
module CpioInode {
  const TWO_64: nat := 0x1_0000_0000_0000_0000

  datatype Info = Info(ino: nat, mode: nat, uid: nat, gid: nat, nlink: nat, mtime: nat, fileSize: nat,
                       dev: nat, major: nat, minor: nat, rmajor: nat, rminor: nat, name: string)

  datatype DevInode = DevInode(dev: nat, ino: nat)

  function IdOf(i: Info): DevInode {
    DevInode(i.dev, i.ino)
  }

  function Ids(infos: seq<Info>): seq<DevInode> {
    seq(|infos|, k requires 0 <= k < |infos| => IdOf(infos[k]))
  }

  // ---------------------------------------------------------------------------------------------
  // First occurrences.
  // ---------------------------------------------------------------------------------------------

  ghost predicate FirstAt(ids: seq<DevInode>, k: nat, f: nat)
    requires k < |ids|
  {
    f <= k && ids[f] == ids[k] && forall j :: 0 <= j < f ==> ids[j] != ids[k]
  }

  lemma {:induction false} FirstExists(ids: seq<DevInode>, k: nat, n: nat)
    requires k < |ids| && n <= k && ids[n] == ids[k]
    ensures exists f :: FirstAt(ids, k, f)
    decreases n
  {
    if j :| 0 <= j < n && ids[j] == ids[k] {
      FirstExists(ids, k, j);
    } else {
      assert FirstAt(ids, k, n);
    }
  }

  /** The place where the pair at place k occurred first. */
  ghost function First(ids: seq<DevInode>, k: nat): (f: nat)
    requires k < |ids|
    ensures FirstAt(ids, k, f)
  {
    FirstExists(ids, k, k);
    var f :| FirstAt(ids, k, f);
    f
  }

  /** The number of different pairs among the first n. */
  function Distinct(ids: seq<DevInode>, n: nat): nat
    requires n <= |ids|
  {
    if n == 0 then 0 else Distinct(ids, n - 1) + if ids[n - 1] in ids[..n - 1] then 0 else 1
  }

  /** The number a reproducible archive gives to the file at place k: how many other files came first. */
  ghost function Number(ids: seq<DevInode>, k: nat): nat
    requires k < |ids|
  {
    Distinct(ids, First(ids, k))
  }

  lemma {:induction false} DistinctMonotone(ids: seq<DevInode>, m: nat, n: nat)
    requires m <= n <= |ids|
    ensures Distinct(ids, m) <= Distinct(ids, n)
    decreases n
  {
    if m < n {
      DistinctMonotone(ids, m, n - 1);
    }
  }

  lemma FirstIsNew(ids: seq<DevInode>, k: nat)
    requires k < |ids|
    ensures ids[First(ids, k)] !in ids[..First(ids, k)]
    ensures Distinct(ids, First(ids, k) + 1) == Number(ids, k) + 1
  {
  }

  /** Numbers follow the order of first occurrences. */
  lemma NumberOrder(ids: seq<DevInode>, j: nat, k: nat)
    requires j < |ids| && k < |ids| && First(ids, j) < First(ids, k)
    ensures Number(ids, j) < Number(ids, k)
  {
    FirstIsNew(ids, j);
    DistinctMonotone(ids, First(ids, j) + 1, First(ids, k));
  }

  lemma FirstEqual(ids: seq<DevInode>, j: nat, k: nat)
    requires j < |ids| && k < |ids|
    ensures First(ids, j) == First(ids, k) <==> ids[j] == ids[k]
  {
    var f, g := First(ids, j), First(ids, k);
    assert f < g ==> ids[f] != ids[k];
    assert g < f ==> ids[g] != ids[j];
  }

  /** Different files get different numbers, and one file one number. */
  lemma NumberInjective(ids: seq<DevInode>, j: nat, k: nat)
    requires j < |ids| && k < |ids|
    ensures Number(ids, j) == Number(ids, k) <==> ids[j] == ids[k]
  {
    FirstEqual(ids, j, k);
    if First(ids, j) < First(ids, k) {
      NumberOrder(ids, j, k);
    } else if First(ids, k) < First(ids, j) {
      NumberOrder(ids, k, j);
    }
  }

  /** No number is skipped. */
  lemma {:induction false} NumberDense(ids: seq<DevInode>, n: nat, m: nat) returns (k: nat)
    requires n <= |ids| && m < Distinct(ids, n)
    ensures k < n && First(ids, k) == k && Number(ids, k) == m
    decreases n
  {
    if m < Distinct(ids, n - 1) {
      k := NumberDense(ids, n - 1, m);
    } else {
      k := n - 1;
      RepeatExactly(ids, k);
    }
  }

  /** Equal in the same places. */
  predicate SamePattern(a: seq<DevInode>, b: seq<DevInode>) {
    |a| == |b| && forall j, k :: 0 <= j < |a| && 0 <= k < |a| ==> (a[j] == a[k] <==> b[j] == b[k])
  }

  lemma FirstOfPattern(a: seq<DevInode>, b: seq<DevInode>, k: nat)
    requires SamePattern(a, b) && k < |a|
    ensures First(a, k) == First(b, k)
  {
    var f, g := First(a, k), First(b, k);
    assert a[f] == a[k] <==> b[f] == b[k];
    assert a[g] == a[k] <==> b[g] == b[k];
  }

  lemma {:induction false} DistinctOfPattern(a: seq<DevInode>, b: seq<DevInode>, n: nat)
    requires SamePattern(a, b) && n <= |a|
    ensures Distinct(a, n) == Distinct(b, n)
    decreases n
  {
    if n > 0 {
      DistinctOfPattern(a, b, n - 1);
      var k := n - 1;
      RepeatExactly(a, k);
      RepeatExactly(b, k);
      FirstOfPattern(a, b, k);
    }
  }

  lemma RepeatExactly(ids: seq<DevInode>, k: nat)
    requires k < |ids|
    ensures ids[k] in ids[..k] <==> First(ids, k) < k
  {
    if First(ids, k) < k {
      assert ids[..k][First(ids, k)] == ids[k];
    }
  }

  // ---------------------------------------------------------------------------------------------
  // The renumbering.
  // ---------------------------------------------------------------------------------------------

  ghost predicate EntryOk(seen: seq<DevInode>, m: map<DevInode, Info>, k: nat)
    requires k < |seen|
  {
    seen[k] in m && m[seen[k]].ino == Number(seen, k) % TWO_64
  }

  /** Old entries stay right, and the file at the end has the right entry too. */
  lemma EntriesKept(seen: seq<DevInode>, d: DevInode, m: map<DevInode, Info>, m': map<DevInode, Info>)
    requires forall k :: 0 <= k < |seen| ==> EntryOk(seen, m, k)
    requires forall x :: x in seen ==> x in m' && x in m && m'[x] == m[x]
    requires d !in seen ==> d in m' && m'[d].ino == Distinct(seen, |seen|) % TWO_64
    ensures forall k :: 0 <= k <= |seen| ==> EntryOk(seen + [d], m', k)
  {
    SeenMore(seen, d);
    forall k | 0 <= k <= |seen| ensures EntryOk(seen + [d], m', k) {
      if k < |seen| {
        assert EntryOk(seen, m, k);
      } else if d in seen {
        assert EntryOk(seen, m, First(seen + [d], |seen|));
      }
    }
  }

  ghost predicate TableOk(seen: seq<DevInode>, m: map<DevInode, Info>, next: nat) {
    && next == Distinct(seen, |seen|) % TWO_64
    && (forall d :: d in m <==> d in seen)
    && (forall k :: 0 <= k < |seen| ==> EntryOk(seen, m, k))
  }

  /** The last of the files seen was renumbered right. */
  ghost predicate Renumbered(seen: seq<DevInode>, i: Info, r: Info, done: bool)
    requires seen != []
  {
    && r == i.(dev := 0, ino := Number(seen, |seen| - 1) % TWO_64)
    && (done <==> First(seen, |seen| - 1) < |seen| - 1)
  }

  lemma KnownFile(seen: seq<DevInode>, m: map<DevInode, Info>, next: nat, i: Info)
    requires TableOk(seen, m, next) && IdOf(i) in m
    ensures TableOk(seen + [IdOf(i)], m, next)
    ensures Renumbered(seen + [IdOf(i)], i, i.(dev := 0, ino := m[IdOf(i)].ino), true)
  {
    var d := IdOf(i);
    SeenMore(seen, d);
    EntriesKept(seen, d, m, m);
    assert EntryOk(seen + [d], m, |seen|);
  }

  lemma NewFile(seen: seq<DevInode>, m: map<DevInode, Info>, next: nat, i: Info, r: Info)
    requires TableOk(seen, m, next) && IdOf(i) !in m && r == i.(dev := 0, ino := next)
    ensures TableOk(seen + [IdOf(i)], m[IdOf(i) := r], (next + 1) % TWO_64)
    ensures Renumbered(seen + [IdOf(i)], i, r, false)
  {
    var d := IdOf(i);
    SeenMore(seen, d);
    NextNumber(next, Distinct(seen, |seen|));
    EntriesKept(seen, d, m, m[d := r]);
  }

  class Renumberer {
    var inodeMap: map<DevInode, Info>
    var inumber: nat
    ghost var seen: seq<DevInode>

    /** The table after the files `seen`, with the 64-bit counter. */
    ghost predicate Valid()
      reads this
    {
      TableOk(seen, inodeMap, inumber)
    }

    constructor ()
      ensures Valid() && seen == []
    {
      inodeMap, inumber, seen := map[], 0, [];
    }

    /** Clears the device, and gives the file the number of its first occurrence or the next free one. */
    method Inode(i: Info) returns (r: Info, done: bool)
      requires Valid()
      modifies this
      ensures Valid() && seen == old(seen) + [IdOf(i)] && Renumbered(seen, i, r, done)
    {
      var d := IdOf(i);
      r := i.(dev := 0);
      if d in inodeMap {
        KnownFile(seen, inodeMap, inumber, i);
        r, done := r.(ino := inodeMap[d].ino), true;
      } else {
        r, done := r.(ino := inumber), false;
        NewFile(seen, inodeMap, inumber, i, r);
        inumber := (inumber + 1) % TWO_64;
        inodeMap := inodeMap[d := r];
      }
      seen := seen + [d];
    }
  }

  lemma NextNumber(x: nat, n: nat)
    requires x == n % TWO_64
    ensures (x + 1) % TWO_64 == (n + 1) % TWO_64
  {
  }

  /** What one more file changes. */
  lemma SeenMore(seen: seq<DevInode>, d: DevInode)
    ensures var s := seen + [d];
            && (forall k :: 0 <= k < |seen| ==> First(s, k) == First(seen, k) && Number(s, k) == Number(seen, k))
            && Distinct(s, |s|) == Distinct(seen, |seen|) + (if d in seen then 0 else 1)
            && (d in seen ==> First(s, |seen|) < |seen|
                              && Number(s, |seen|) == Number(seen, First(s, |seen|)))
            && (d !in seen ==> First(s, |seen|) == |seen| && Number(s, |seen|) == Distinct(seen, |seen|))
  {
    var s := seen + [d];
    forall n | 0 <= n <= |seen| ensures Distinct(s, n) == Distinct(seen, n) {
      DistinctPrefix(seen, d, n);
    }
    forall k | 0 <= k < |seen| ensures First(s, k) == First(seen, k) {
      assert s[First(seen, k)] == seen[First(seen, k)];
    }
    assert s[..|seen|] == seen;
    RepeatExactly(s, |seen|);
    if d in seen {
      var f := First(s, |seen|);
      assert s[f] == seen[f] == d;
      FirstEqual(s, f, |seen|);
    }
  }

  lemma {:induction false} DistinctPrefix(seen: seq<DevInode>, d: DevInode, n: nat)
    requires n <= |seen|
    ensures Distinct(seen + [d], n) == Distinct(seen, n)
    decreases n
  {
    if n > 0 {
      DistinctPrefix(seen, d, n - 1);
      assert (seen + [d])[..n - 1] == seen[..n - 1];
    }
  }

  lemma IdsMore(infos: seq<Info>, n: nat)
    requires n < |infos|
    ensures Ids(infos[..n]) + [IdOf(infos[n])] == Ids(infos[..n + 1])
  {
  }

  /** A whole run of the archiver over a list of files. */
  method RenumberAll(infos: seq<Info>) returns (outs: seq<Info>, dones: seq<bool>)
    ensures |outs| == |infos| && |dones| == |infos|
    ensures forall k :: 0 <= k < |infos| ==> RightAt(infos, outs, dones, k)
  {
    outs, dones := [], [];
    var table := new Renumberer();
    for n := 0 to |infos|
      invariant fresh(table) && table.Valid() && table.seen == Ids(infos[..n]) && |outs| == |dones| == n
      invariant forall k :: 0 <= k < n ==> RightAt(infos, outs, dones, k)
    {
      var r, done := table.Inode(infos[n]);
      IdsMore(infos, n);
      PrefixNumbers(infos, n);
      RightMore(infos, outs, dones, n, r, done);
      outs, dones := outs + [r], dones + [done];
    }
  }

  lemma RightMore(infos: seq<Info>, outs: seq<Info>, dones: seq<bool>, n: nat, r: Info, done: bool)
    requires n < |infos| && |outs| == |dones| == n && forall k :: 0 <= k < n ==> RightAt(infos, outs, dones, k)
    requires r == infos[n].(dev := 0, ino := Number(Ids(infos), n) % TWO_64) && (done <==> First(Ids(infos), n) < n)
    ensures forall k :: 0 <= k <= n ==> RightAt(infos, outs + [r], dones + [done], k)
  {
    forall k | 0 <= k <= n ensures RightAt(infos, outs + [r], dones + [done], k) {
      assert k < n ==> RightAt(infos, outs, dones, k);
    }
  }

  /** The file at place k lost its device, has the number of its pair, and is marked exactly if it repeats. */
  ghost predicate RightAt(infos: seq<Info>, outs: seq<Info>, dones: seq<bool>, k: nat)
    requires k < |infos| && k < |outs| && k < |dones|
  {
    && outs[k] == infos[k].(dev := 0, ino := Number(Ids(infos), k) % TWO_64)
    && (dones[k] <==> First(Ids(infos), k) < k)
  }

  /** The number of a file does not depend on the files after it. */
  lemma PrefixNumbers(infos: seq<Info>, n: nat)
    requires n < |infos|
    ensures var p := Ids(infos[..n + 1]);
            First(p, n) == First(Ids(infos), n) && Number(p, n) == Number(Ids(infos), n)
  {
    var p, ids := Ids(infos[..n + 1]), Ids(infos);
    assert p == ids[..n + 1];
    var f, g := First(p, n), First(ids, n);
    assert ids[f] == p[f] && p[g] == ids[g];
    DistinctOfPrefix(ids, n + 1, f);
  }

  lemma {:induction false} DistinctOfPrefix(ids: seq<DevInode>, m: nat, n: nat)
    requires n <= m <= |ids|
    ensures Distinct(ids[..m], n) == Distinct(ids, n)
    decreases n
  {
    if n > 0 {
      DistinctOfPrefix(ids, m, n - 1);
      assert ids[..m][..n - 1] == ids[..n - 1];
    }
  }

  /** Two sets of files whose pairs are equal in the same places get the same numbers and the same
      devices, whatever the pairs were. */
  lemma Reproducible(a: seq<Info>, b: seq<Info>, k: nat)
    requires SamePattern(Ids(a), Ids(b)) && k < |a|
    ensures Number(Ids(a), k) == Number(Ids(b), k) && First(Ids(a), k) == First(Ids(b), k)
  {
    FirstOfPattern(Ids(a), Ids(b), k);
    DistinctOfPattern(Ids(a), Ids(b), First(Ids(a), k));
  }

  /** With at most 2^64 different files the counter does not wrap, so the renumbered files have different numbers
      exactly when they are different. */
  lemma WrappedNumbersInjective(ids: seq<DevInode>, j: nat, k: nat)
    requires j < |ids| && k < |ids| && Distinct(ids, |ids|) <= TWO_64
    ensures Number(ids, j) % TWO_64 == Number(ids, k) % TWO_64 <==> ids[j] == ids[k]
  {
    NumberInjective(ids, j, k);
    NoWrap(ids, j);
    NoWrap(ids, k);
  }

  lemma NoWrap(ids: seq<DevInode>, k: nat)
    requires k < |ids| && Distinct(ids, |ids|) <= TWO_64
    ensures Number(ids, k) % TWO_64 == Number(ids, k)
  {
    FirstIsNew(ids, k);
    DistinctMonotone(ids, First(ids, k) + 1, |ids|);
  }
}
