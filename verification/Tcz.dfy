/**
 Dependency closure of cmds/tcz/tcz.go: a recursive search with a shared set of needed packages over a
 dependency graph that may have cycles.  The package server and the local package directory are finite
 maps from file names to contents; a package that is nowhere to be found ends the program.
 */
module Tcz {
  import opened Common

  // ---------------------------------------------------------------------------------------------
  // Dependency files.
  // ---------------------------------------------------------------------------------------------

  /** The entries before the first blank line that are not ignored. */
  function Entries(ignored: set<string>, parts: seq<string>): seq<string> {
    if parts == [] || parts[0] == "" then []
    else (if parts[0] in ignored then [] else [parts[0]]) + Entries(ignored, parts[1..])
  }

  lemma NextEntry(ignored: set<string>, parts: seq<string>, i: nat, done: seq<string>, all: seq<string>)
    requires i < |parts| && parts[i] != "" && all == done + Entries(ignored, parts[i..])
    ensures if parts[i] in ignored then all == done + Entries(ignored, parts[i + 1..])
            else parts[i] in all && all == (done + [parts[i]]) + Entries(ignored, parts[i + 1..])
  {
    assert parts[i..][1..] == parts[i + 1..];
    if parts[i] !in ignored {
      assert all[|done|] == parts[i];
    } else {
      assert [] + Entries(ignored, parts[i + 1..]) == Entries(ignored, parts[i + 1..]);
    }
  }

  /** The effective dependency list of a dependency file. */
  function Effective(ignored: set<string>, text: string): seq<string> {
    Entries(ignored, Split(text, '\n'))
  }

  /** The text that the program writes back. */
  function Render(list: seq<string>): string {
    if list == [] then "" else list[0] + "\n" + Render(list[1..])
  }

  predicate OneLine(v: string) {
    forall i :: 0 <= i < |v| ==> v[i] != '\n'
  }

  predicate Plain(v: string) {
    v != "" && OneLine(v)
  }

  lemma {:induction false} SplitHead(v: string, rest: string)
    requires OneLine(v)
    ensures Split(v + "\n" + rest, '\n') == [v] + Split(rest, '\n')
    decreases |v|
  {
    var text := v + "\n" + rest;
    if v == "" {
      assert text[1..] == rest;
    } else {
      assert text[1..] == v[1..] + "\n" + rest;
      SplitHead(v[1..], rest);
      assert [v[0]] + v[1..] == v;
    }
  }

  lemma {:induction false} SplitHasNoNewline(text: string)
    ensures forall k :: 0 <= k < |Split(text, '\n')| ==> OneLine(Split(text, '\n')[k])
    decreases |text|
  {
    if text != "" {
      SplitHasNoNewline(text[1..]);
      assert OneLine(Split(text[1..], '\n')[0]);
    }
  }

  lemma {:induction false} EntriesArePlain(ignored: set<string>, parts: seq<string>)
    requires forall k :: 0 <= k < |parts| ==> OneLine(parts[k])
    ensures forall k :: 0 <= k < |Entries(ignored, parts)| ==>
              Plain(Entries(ignored, parts)[k]) && Entries(ignored, parts)[k] !in ignored
    decreases |parts|
  {
    if parts != [] && parts[0] != "" {
      EntriesArePlain(ignored, parts[1..]);
    }
  }

  lemma {:induction false} RenderRoundTrip(ignored: set<string>, list: seq<string>)
    requires forall k :: 0 <= k < |list| ==> Plain(list[k]) && list[k] !in ignored
    ensures Effective(ignored, Render(list)) == list
    decreases |list|
  {
    if list != [] {
      assert Plain(list[0]);
      SplitHead(list[0], Render(list[1..]));
      assert ([list[0]] + Split(Render(list[1..]), '\n'))[1..] == Split(Render(list[1..]), '\n');
      RenderRoundTrip(ignored, list[1..]);
    }
  }

  /** The names that are not ignored. */
  function Kept(ignored: set<string>, list: seq<string>): seq<string> {
    if list == [] then [] else (if list[0] in ignored then [] else [list[0]]) + Kept(ignored, list[1..])
  }

  /** A name is in the effective list exactly when it stands in front of the first blank line and is not ignored. */
  lemma {:induction false} KeptExactly(ignored: set<string>, list: seq<string>, v: string)
    ensures v in Kept(ignored, list) <==> v in list && v !in ignored
    decreases |list|
  {
    if list != [] {
      KeptExactly(ignored, list[1..], v);
    }
  }

  /** What follows the names of a dependency file: nothing, a blank line and any text, or a last name without a
      newline. */
  predicate Tail(tail: string, last: seq<string>) {
    || (tail == "" && last == [])
    || (tail != "" && tail[0] == '\n' && last == [])
    || (Plain(tail) && last == [tail])
  }

  lemma TailMeans(ignored: set<string>, tail: string, last: seq<string>)
    requires Tail(tail, last)
    ensures Effective(ignored, tail) == Kept(ignored, last)
  {
    if last == [] {
      assert Split(tail, '\n')[0] == "";
    } else {
      SplitOneLine(tail);
      assert last == [tail];
      assert Entries(ignored, [tail][1..]) == [] == Kept(ignored, last[1..]);
    }
  }

  lemma FirstLineMeans(ignored: set<string>, v: string, rest: string)
    requires Plain(v)
    ensures Effective(ignored, v + "\n" + rest) == (if v in ignored then [] else [v]) + Effective(ignored, rest)
  {
    SplitHead(v, rest);
    assert ([v] + Split(rest, '\n'))[1..] == Split(rest, '\n');
  }

  /** A blank line ends the list, whatever follows it, and so does the end of the file; the last line needs no
      newline. */
  lemma {:induction false} BlankLineEnds(ignored: set<string>, list: seq<string>, tail: string, last: seq<string>)
    requires (forall k :: 0 <= k < |list| ==> Plain(list[k])) && Tail(tail, last)
    ensures Effective(ignored, Render(list) + tail) == Kept(ignored, list + last)
    decreases |list|
  {
    if list == [] {
      assert "" + tail == tail && [] + last == last;
      TailMeans(ignored, tail, last);
    } else {
      var rest := Render(list[1..]) + tail;
      assert Render(list) + tail == list[0] + "\n" + rest;
      FirstLineMeans(ignored, list[0], rest);
      BlankLineEnds(ignored, list[1..], tail, last);
      assert (list + last)[1..] == list[1..] + last;
    }
  }

  lemma {:induction false} SplitOneLine(v: string)
    requires OneLine(v)
    ensures Split(v, '\n') == [v]
    decreases |v|
  {
    if v != "" {
      SplitOneLine(v[1..]);
      assert [v[0]] + v[1..] == v;
    }
  }

  /** Rewriting a dependency file keeps its effective list. */
  lemma RewriteKeepsEffective(ignored: set<string>, text: string)
    ensures Effective(ignored, Render(Effective(ignored, text))) == Effective(ignored, text)
  {
    SplitHasNoNewline(text);
    EntriesArePlain(ignored, Split(text, '\n'));
    RenderRoundTrip(ignored, Effective(ignored, text));
  }

  lemma {:induction false} RenderSnoc(list: seq<string>, v: string)
    ensures Render(list + [v]) == Render(list) + v + "\n"
  {
    if list == [] {
      assert [v][1..] == [];
    } else {
      assert (list + [v])[1..] == list[1..] + [v];
      RenderSnoc(list[1..], v);
      assert list[0] + "\n" + (Render(list[1..]) + v + "\n") == list[0] + "\n" + Render(list[1..]) + v + "\n";
    }
  }

  // ---------------------------------------------------------------------------------------------
  // The dependency graph.
  // ---------------------------------------------------------------------------------------------

  type Graph = string -> seq<string>

  predicate ClosedAt(g: Graph, x: string, s: set<string>) {
    forall k :: 0 <= k < |g(x)| ==> g(x)[k] in s
  }

  predicate Closed(g: Graph, s: set<string>) {
    forall x :: x in s ==> ClosedAt(g, x, s)
  }

  /** The text of a dependency file: the local copy, else the server's, else nothing. */
  function DepText(files: map<string, string>, server: map<string, string>, name: string): string {
    var dep := name + ".dep";
    if dep in files then files[dep] else if dep in server then server[dep] else ""
  }

  predicate DescribesAt(files: map<string, string>, server: map<string, string>, ignored: set<string>, g: Graph,
                        q: string) {
    Effective(ignored, DepText(files, server, q)) == g(q)
  }

  /** `g` is the graph that the files describe. */
  ghost predicate Describes(files: map<string, string>, server: map<string, string>, ignored: set<string>, g: Graph) {
    forall q :: DescribesAt(files, server, ignored, g, q)
  }

  lemma {:induction false} SuffixInjective(p: string, q: string, suffix: string)
    requires p + suffix == q + suffix
    ensures p == q
  {
    assert p == (p + suffix)[..|p|];
    assert q == (q + suffix)[..|q|];
  }

  /** Replacing the dependency file of `p` by one with the same effective list keeps the graph. */
  lemma WriteKeepsGraph(files: map<string, string>, server: map<string, string>, ignored: set<string>, g: Graph,
                        p: string, text: string)
    requires Describes(files, server, ignored, g) && Effective(ignored, text) == g(p)
    ensures Describes(files[p + ".dep" := text], server, ignored, g)
  {
    var files' := files[p + ".dep" := text];
    forall q ensures DescribesAt(files', server, ignored, g, q) {
      assert DescribesAt(files, server, ignored, g, q);
      if q + ".dep" == p + ".dep" {
        SuffixInjective(q, p, ".dep");
      }
    }
  }

  lemma FetchKeepsGraphs(files: map<string, string>, server: map<string, string>, ignored: set<string>, name: string)
    ensures name !in files && name in server ==>
              forall g | Describes(files, server, ignored, g) ::
                Describes(files[name := server[name]], server, ignored, g)
  {
    if name !in files && name in server {
      var files' := files[name := server[name]];
      forall g, q | Describes(files, server, ignored, g) ensures DescribesAt(files', server, ignored, g, q) {
        assert DescribesAt(files, server, ignored, g, q);
        assert DepText(files', server, q) == DepText(files, server, q);
      }
    }
  }

  function EntrySet(ignored: set<string>, files: map<string, string>): set<string> {
    set n, k | n in files && 0 <= k < |Effective(ignored, files[n])| :: Effective(ignored, files[n])[k]
  }

  /** Finitely many files name finitely many packages. */
  lemma FiniteUniverse(files: map<string, string>, server: map<string, string>, ignored: set<string>, g: Graph,
                       requests: set<string>) returns (u: set<string>)
    requires Describes(files, server, ignored, g)
    ensures requests <= u && Closed(g, u)
  {
    u := requests + EntrySet(ignored, files) + EntrySet(ignored, server);
    forall x, k | x in u && 0 <= k < |g(x)| ensures g(x)[k] in u {
      assert DescribesAt(files, server, ignored, g, x);
      var dep := x + ".dep";
      if dep in files {
        assert g(x)[k] in EntrySet(ignored, files);
      } else if dep in server {
        assert g(x)[k] in EntrySet(ignored, server);
      }
    }
  }

  lemma {:induction false} SubsetSize<T>(a: set<T>, b: set<T>)
    requires a <= b
    ensures |a| <= |b| && (a != b ==> |a| < |b|)
  {
    assert b == a + (b - a);
    assert a != b ==> b - a != {};
  }

  /** `s` is closed, and holds the packages already needed and the one requested. */
  ghost predicate Bound(g: Graph, s: set<string>, have: set<string>, p: string) {
    Closed(g, s) && have <= s && p in s
  }

  /** Everything in `now` is forced by having `have` and requesting `p`. */
  ghost predicate Forced(g: Graph, have: set<string>, p: string, now: set<string>) {
    have <= now && forall s | Bound(g, s, have, p) :: now <= s
  }

  /** The packages that were added, except `p`, have all their dependencies. */
  predicate AddedClosed(g: Graph, have: set<string>, now: set<string>, p: string) {
    forall x :: x in now && x !in have && x != p ==> ClosedAt(g, x, now)
  }

  predicate AddedFetched(files: map<string, string>, have: set<string>, now: set<string>) {
    forall x :: x in now && x !in have ==> x in files
  }

  /** The search below `p` after the entries `done` of its dependency list. */
  ghost predicate Progress(g: Graph, have: set<string>, p: string, now: set<string>, done: seq<string>) {
    && Forced(g, have, p, now) && p in now && AddedClosed(g, have, now, p)
    && forall k :: 0 <= k < |done| ==> done[k] in now
  }

  /** A nested search for the next entry `v` of `p` extends the search. */
  lemma Descend(g: Graph, have: set<string>, p: string, now: set<string>, done: seq<string>, v: string,
                later: set<string>)
    requires Progress(g, have, p, now, done) && v in g(p)
    requires Forced(g, now, v, later)
    ensures Forced(g, have, p, later)
    ensures v in later && ClosedAt(g, v, later) && AddedClosed(g, now, later, v) ==>
              Progress(g, have, p, later, done + [v])
  {
    forall s | Bound(g, s, have, p) ensures later <= s {
      assert ClosedAt(g, p, s);
      assert Bound(g, s, now, v);
    }
    if v in later && ClosedAt(g, v, later) && AddedClosed(g, now, later, v) {
      forall x | x in later && x !in have && x != p ensures ClosedAt(g, x, later) {
        if x in now {
          assert ClosedAt(g, x, now);
        }
      }
    }
  }

  lemma FetchedTransitive(before: map<string, string>, after: map<string, string>,
                          have: set<string>, now: set<string>, later: set<string>)
    requires AddedFetched(before, have, now) && before.Keys <= after.Keys && AddedFetched(after, now, later)
    ensures AddedFetched(after, have, later)
  {
    forall x | x in later && x !in have ensures x in after {
      assert x in now ==> x in before.Keys;
    }
  }

  lemma ForcedByRequest(g: Graph, have: set<string>, p: string, marked: set<string>, now: set<string>)
    requires marked == have + {p} && Forced(g, marked, p, now)
    ensures Forced(g, have, p, now)
  {
    forall s | Bound(g, s, have, p) ensures now <= s {
      assert Bound(g, s, marked, p);
    }
  }

  /** The nested search is asked for a package inside `u`, and fewer packages are left. */
  lemma StaysInside(g: Graph, u: set<string>, have: set<string>, p: string, now: set<string>, v: string)
    requires Bound(g, u, have, p) && Forced(g, have, p, now) && v in g(p)
    ensures Bound(g, u, now, v) && |u - now| <= |u - have|
  {
    assert ClosedAt(g, p, u);
    SubsetSize(u - now, u - have);
  }

  lemma Finish(g: Graph, have: set<string>, p: string, now: set<string>)
    requires Progress(g, have, p, now, g(p))
    ensures ClosedAt(g, p, now) && AddedClosed(g, have, now, "") && AddedClosed(g, have, now, p)
  {
  }

  /** The dependency files of the packages in `who` are as before. */
  predicate DepFilesKept(before: map<string, string>, after: map<string, string>, who: set<string>) {
    forall q :: q in who ==> DepFileKept(before, after, q)
  }

  predicate DepFileKept(before: map<string, string>, after: map<string, string>, q: string) {
    var dep := q + ".dep";
    dep in before ==> dep in after && after[dep] == before[dep]
  }

  /** `after` holds every file of `before` unchanged. */
  predicate Extends(before: map<string, string>, after: map<string, string>) {
    forall n :: n in before ==> n in after && after[n] == before[n]
  }

  lemma ExtendsKeeps(before: map<string, string>, after: map<string, string>, who: set<string>)
    requires Extends(before, after)
    ensures DepFilesKept(before, after, who)
  {
  }

  lemma KeptTransitive(a: map<string, string>, b: map<string, string>, c: map<string, string>,
                       who: set<string>, more: set<string>)
    requires DepFilesKept(a, b, who) && DepFilesKept(b, c, more) && who <= more
    ensures DepFilesKept(a, c, who)
  {
    forall q | q in who ensures DepFileKept(a, c, q) {
      assert DepFileKept(a, b, q) && DepFileKept(b, c, q);
    }
  }

  lemma MarkShrinks(u: set<string>, have: set<string>, p: string)
    requires p in u
    ensures |u - (have + {p})| + 1 == |u - have| + (if p in have then 1 else 0)
  {
    if p in have {
      assert have + {p} == have;
    } else {
      assert u - have == (u - (have + {p})) + {p};
    }
  }

  lemma OwnDepFileOnly(before: map<string, string>, files: map<string, string>, who: set<string>, p: string,
                       text: string)
    requires DepFilesKept(before, files, who) && p !in who
    ensures DepFilesKept(before, files[p + ".dep" := text], who)
  {
    var after := files[p + ".dep" := text];
    forall q | q in who ensures DepFileKept(before, after, q) {
      assert DepFileKept(before, files, q);
      if q + ".dep" == p + ".dep" {
        SuffixInjective(q, p, ".dep");
      }
    }
  }

  datatype Result = Ok | Fatal(name: string)

  /** The dependency file of one of these packages. */
  predicate IsDepFile(f: string, marked: set<string>) {
    exists p :: p in marked && f == p + ".dep"
  }

  /** A file that is no dependency file of theirs is what it was, or else the server's. */
  predicate FileKept(f: string, old': map<string, string>, files: map<string, string>, server: map<string, string>,
                     marked: set<string>) {
    f in files && !IsDepFile(f, marked) ==>
      if f in old' then files[f] == old'[f] else f in server && files[f] == server[f]
  }

  ghost predicate FilesKept(old': map<string, string>, files: map<string, string>, server: map<string, string>,
                      marked: set<string>) {
    old'.Keys <= files.Keys && forall f :: FileKept(f, old', files, server, marked)
  }

  lemma FilesKeptTransitive(a: map<string, string>, b: map<string, string>, c: map<string, string>,
                            server: map<string, string>, some: set<string>, all: set<string>)
    requires FilesKept(a, b, server, some) && FilesKept(b, c, server, all) && some <= all
    ensures FilesKept(a, c, server, all)
  {
    forall f ensures FileKept(f, a, c, server, all) {
      assert FileKept(f, a, b, server, some) && FileKept(f, b, c, server, all);
    }
  }

  lemma FilesKeptDep(a: map<string, string>, b: map<string, string>, server: map<string, string>, marked: set<string>,
                     p: string, text: string)
    requires FilesKept(a, b, server, marked) && p in marked
    ensures FilesKept(a, b[p + ".dep" := text], server, marked)
  {
    var c := b[p + ".dep" := text];
    forall f ensures FileKept(f, a, c, server, marked) {
      assert FileKept(f, a, b, server, marked);
    }
  }

  lemma FilesKeptMore(a: map<string, string>, b: map<string, string>, server: map<string, string>, some: set<string>,
                      all: set<string>)
    requires FilesKept(a, b, server, some) && some <= all
    ensures FilesKept(a, b, server, all)
  {
    forall f ensures FileKept(f, a, b, server, all) {
      assert FileKept(f, a, b, server, some);
    }
  }

  function GraphOf(files: map<string, string>, server: map<string, string>, ignored: set<string>): Graph {
    q => Effective(ignored, DepText(files, server, q))
  }

  function Requests(packages: seq<string>): set<string> {
    set i | 0 <= i < |packages| :: packages[i] + ".tcz"
  }

  /** `s` is the least closed set that holds the requests. */
  ghost predicate IsClosure(g: Graph, requests: set<string>, s: set<string>) {
    && requests <= s && Closed(g, s)
    && forall t | Closed(g, t) && requests <= t :: s <= t
  }

  lemma RequestsSnoc(packages: seq<string>, i: nat)
    requires i < |packages|
    ensures Requests(packages[..i + 1]) == Requests(packages[..i]) + {packages[i] + ".tcz"}
    ensures Requests(packages[..i + 1]) <= Requests(packages)
  {
    forall x | x in Requests(packages[..i + 1]) ensures x in Requests(packages[..i]) + {packages[i] + ".tcz"} {
      var k :| 0 <= k < i + 1 && x == packages[..i + 1][k] + ".tcz";
      assert k < i ==> packages[..i][k] == packages[k];
    }
    forall x | x in Requests(packages[..i]) ensures x in Requests(packages[..i + 1]) {
      var k :| 0 <= k < i && x == packages[..i][k] + ".tcz";
      assert packages[..i + 1][k] == packages[k];
    }
    assert packages[..i + 1][i] == packages[i];
  }

  /** One more request, searched from a closure, yields a closure again. */
  lemma ClosureExtends(g: Graph, requests: set<string>, have: set<string>, p: string, now: set<string>)
    requires IsClosure(g, requests, have) && Forced(g, have, p, now)
    ensures forall t | Closed(g, t) && requests + {p} <= t :: now <= t
    ensures p in now && ClosedAt(g, p, now) && AddedClosed(g, have, now, p) ==> IsClosure(g, requests + {p}, now)
  {
    forall t | Closed(g, t) && requests + {p} <= t ensures now <= t {
      assert Bound(g, t, have, p);
    }
    if p in now && ClosedAt(g, p, now) && AddedClosed(g, have, now, p) {
      forall x | x in now ensures ClosedAt(g, x, now) {
        if x in have {
          assert ClosedAt(g, x, have);
        }
      }
    }
  }

  lemma MissingIsForced(g: Graph, requests: set<string>, have: set<string>, p: string, now: set<string>,
                        name: string, all: set<string>)
    requires IsClosure(g, requests, have) && Forced(g, have, p, now + {name}) && requests + {p} <= all
    ensures forall s | Closed(g, s) && all <= s :: name in s
  {
    ClosureExtends(g, requests, have, p, now + {name});
    forall s | Closed(g, s) && all <= s ensures name in s {
      assert name in now + {name};
    }
  }

  class Installer {
    const server: map<string, string>
    const ignored: set<string>
    var files: map<string, string>
    var deps: set<string>

    constructor (server: map<string, string>, ignored: set<string>, files: map<string, string>)
      ensures this.server == server && this.ignored == ignored && this.files == files && deps == {}
    {
      this.server, this.ignored, this.files, deps := server, ignored, files, {};
    }

    /** Makes the file available locally if it can. */
    method Fetch(name: string) returns (ok: bool)
      modifies this`files
      ensures ok <==> name in old(files) || name in server
      ensures files == if name !in old(files) && name in server then old(files)[name := server[name]] else old(files)
      ensures ok ==> name in files
      ensures Extends(old(files), files) && old(files.Keys) <= files.Keys
      ensures forall g | old(Describes(files, server, ignored, g)) :: Describes(files, server, ignored, g)
      ensures FilesKept(old(files), files, server, {})
    {
      FetchKeepsGraphs(files, server, ignored, name);
      if name in files {
        return true;
      }
      if name !in server {
        return false;
      }
      files := files[name := server[name]];
      ok := true;
    }

    /** The search.  `g` is the graph of the files and `u` any finite closed set the search stays in. */
    method InstallPackage(tczName: string, ghost g: Graph, ghost u: set<string>) returns (r: Result)
      requires Describes(files, server, ignored, g) && Bound(g, u, deps, tczName)
      modifies this
      ensures Describes(files, server, ignored, g) && old(files.Keys) <= files.Keys
      ensures Forced(g, old(deps), tczName, deps) && AddedFetched(files, old(deps), deps)
      ensures r.Ok? ==> tczName in deps && ClosedAt(g, tczName, deps) && AddedClosed(g, old(deps), deps, tczName)
      ensures DepFilesKept(old(files), files, old(deps) - {tczName})
      ensures r.Ok? ==> tczName + ".dep" in files && files[tczName + ".dep"] == Render(g(tczName))
      ensures FilesKept(old(files), files, server, deps)
      ensures r.Fatal? ==> r.name !in server && r.name !in files && Forced(g, old(deps), tczName, deps + {r.name})
      decreases |u - deps| + (if tczName in deps then 1 else 0), 1
    {
      var depName := tczName + ".dep";
      var ok := Fetch(tczName);
      FilesKeptMore(old(files), files, server, {}, deps);
      if !ok {
        return Fatal(tczName);
      }
      ghost var fetched := files;
      ghost var have := deps;
      deps := deps + {tczName};
      MarkShrinks(u, have, tczName);
      ok := Fetch(depName);
      ExtendsKeeps(old(files), files, have - {tczName});
      FilesKeptTransitive(old(files), fetched, files, server, {}, {});
      FilesKeptMore(old(files), files, server, {}, deps);
      if !ok {
        assert DescribesAt(files, server, ignored, g, tczName);
        WriteKeepsGraph(files, server, ignored, g, tczName, "");
        OwnDepFileOnly(old(files), files, have - {tczName}, tczName, "");
        FilesKeptDep(old(files), files, server, deps, tczName, "");
        files := files[depName := ""];
        return Ok;
      }
      var depList := files[depName];
      assert DescribesAt(files, server, ignored, g, tczName);
      ghost var before, marked := files, deps;
      var realDepList;
      r, realDepList := InstallEntries(tczName, depList, g, u);
      KeptTransitive(old(files), before, files, have - {tczName}, marked);
      FilesKeptTransitive(old(files), before, files, server, marked, deps);
      ghost var after := files;
      ForcedByRequest(g, have, tczName, marked, deps);
      if r.Fatal? {
        ForcedByRequest(g, have, tczName, marked, deps + {r.name});
        return;
      }
      FilesKeptDep(old(files), files, server, deps, tczName, realDepList);
      WriteBack(tczName, depList, realDepList, g);
      KeptTransitive(old(files), after, files, have - {tczName}, deps - {tczName});
    }

    /** Writes the dependency file back unless its text is the same. */
    method WriteBack(tczName: string, depList: string, realDepList: string, ghost g: Graph)
      requires Describes(files, server, ignored, g) && g(tczName) == Effective(ignored, depList)
      requires tczName + ".dep" in files && files[tczName + ".dep"] == depList
      requires realDepList == Render(Effective(ignored, depList))
      modifies this`files
      ensures files == old(files)[tczName + ".dep" := realDepList] && Describes(files, server, ignored, g)
      ensures DepFilesKept(old(files), files, deps - {tczName})
    {
      RewriteKeepsEffective(ignored, depList);
      WriteKeepsGraph(files, server, ignored, g, tczName, realDepList);
      OwnDepFileOnly(files, files, deps - {tczName}, tczName, realDepList);
      if depList != realDepList {
        files := files[tczName + ".dep" := realDepList];
      }
    }

    /** The loop over the dependency list of `tczName`, which is already marked as needed. */
    method InstallEntries(tczName: string, depList: string, ghost g: Graph, ghost u: set<string>)
      returns (r: Result, realDepList: string)
      requires Describes(files, server, ignored, g) && Bound(g, u, deps, tczName) && tczName in deps
      requires g(tczName) == Effective(ignored, depList)
      modifies this
      ensures Describes(files, server, ignored, g) && old(files.Keys) <= files.Keys
      ensures Forced(g, old(deps), tczName, deps) && AddedFetched(files, old(deps), deps)
      ensures r.Ok? ==> ClosedAt(g, tczName, deps) && AddedClosed(g, old(deps), deps, tczName)
      ensures DepFilesKept(old(files), files, old(deps))
      ensures r.Ok? ==> realDepList == Render(Effective(ignored, depList))
      ensures FilesKept(old(files), files, server, deps) && old(deps) <= deps
      ensures r.Fatal? ==> r.name !in server && r.name !in files && Forced(g, old(deps), tczName, deps + {r.name})
      decreases |u - deps| + 1, 0
    {
      realDepList := "";
      ghost var have := deps;
      var parts := Split(depList, '\n');
      var i := 0;
      ghost var done: seq<string> := [];
      while i < |parts| && parts[i] != ""
        invariant i <= |parts| && g(tczName) == done + Entries(ignored, parts[i..]) && realDepList == Render(done)
        invariant Describes(files, server, ignored, g) && old(files.Keys) <= files.Keys
        invariant Progress(g, have, tczName, deps, done) && AddedFetched(files, have, deps)
        invariant DepFilesKept(old(files), files, have)
        invariant FilesKept(old(files), files, server, deps) && have <= deps
      {
        var v := parts[i];
        NextEntry(ignored, parts, i, done, g(tczName));
        i := i + 1;
        if v in ignored {
          continue;
        }
        RenderSnoc(done, v);
        realDepList := realDepList + v + "\n";
        if v !in deps {
          StaysInside(g, u, have, tczName, deps, v);
          ghost var now, before := deps, files;
          r := InstallPackage(v, g, u);
          KeptTransitive(old(files), before, files, have, now - {v});
          FilesKeptTransitive(old(files), before, files, server, now, deps);
          FetchedTransitive(before, files, have, now, deps);
          Descend(g, have, tczName, now, done, v, deps);
          if r.Fatal? {
            Descend(g, have, tczName, now, done, v, deps + {r.name});
            return;
          }
        }
        done := done + [v];
      }
      assert done == g(tczName);
      Finish(g, have, tczName, deps);
      r := Ok;
    }

    /** The package loop of `main`: the packages needed are exactly the least set that holds the requests
        and is closed under the effective dependencies, for any finite graph.  When it fails, the missing
        package belongs to every such set. */
    method InstallAll(packages: seq<string>) returns (r: Result)
      requires deps == {}
      modifies this
      ensures r.Ok? ==> IsClosure(GraphOf(old(files), server, ignored), Requests(packages), deps)
      ensures r.Ok? ==> deps <= files.Keys
      ensures r.Fatal? ==> r.name !in server && r.name !in files
      ensures r.Fatal? ==>
                forall s | Closed(GraphOf(old(files), server, ignored), s) && Requests(packages) <= s :: r.name in s
      ensures Describes(files, server, ignored, GraphOf(old(files), server, ignored))
      ensures FilesKept(old(files), files, server, deps)
    {
      ghost var g := GraphOf(files, server, ignored);
      ghost var u := FiniteUniverse(files, server, ignored, g, Requests(packages));
      r := Ok;
      for i := 0 to |packages|
        invariant r.Ok? && Describes(files, server, ignored, g)
        invariant IsClosure(g, Requests(packages[..i]), deps) && deps <= files.Keys
        invariant FilesKept(old(files), files, server, deps)
      {
        RequestsSnoc(packages, i);
        ghost var before, marked := files, deps;
        r := InstallRequest(packages[i] + ".tcz", Requests(packages[..i]), Requests(packages), g, u);
        FilesKeptTransitive(old(files), before, files, server, marked, deps);
        if r.Fatal? {
          return;
        }
      }
      assert packages[..|packages|] == packages;
    }

    /** One turn of that loop, after the requests `done`. */
    method InstallRequest(tczName: string, ghost done: set<string>, ghost all: set<string>, ghost g: Graph,
                          ghost u: set<string>)
      returns (r: Result)
      requires Describes(files, server, ignored, g) && IsClosure(g, done, deps) && deps <= files.Keys
      requires done + {tczName} <= all <= u && Closed(g, u)
      modifies this
      ensures Describes(files, server, ignored, g)
      ensures r.Ok? ==> IsClosure(g, done + {tczName}, deps) && deps <= files.Keys
      ensures r.Fatal? ==> r.name !in server && r.name !in files
      ensures r.Fatal? ==> forall s | Closed(g, s) && all <= s :: r.name in s
      ensures FilesKept(old(files), files, server, deps) && old(deps) <= deps
    {
      ghost var have := deps;
      r := InstallPackage(tczName, g, u);
      if r.Fatal? {
        MissingIsForced(g, done, have, tczName, deps, r.name, all);
      } else {
        ClosureExtends(g, done, have, tczName, deps);
      }
    }
  }
}
