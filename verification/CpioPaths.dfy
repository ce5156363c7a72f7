/** The names under which pkg/cpio/cpio.go writes records: an absolute name becomes relative to the root. */
module CpioPaths {
  import opened Common

  predicate IsAbs(name: string) {
    name != "" && name[0] == '/'
  }

  /** An absolute path resolved from the root: empty parts and dots vanish, two dots go up. */
  function Resolve(ps: seq<string>, stack: seq<string>): seq<string>
    decreases |ps|
  {
    if ps == [] then stack
    else if ps[0] == "" || ps[0] == "." then Resolve(ps[1..], stack)
    else if ps[0] == ".." then Resolve(ps[1..], if stack == [] then [] else stack[..|stack| - 1])
    else Resolve(ps[1..], stack + [ps[0]])
  }

  function Join(ps: seq<string>): string {
    if ps == [] then "" else if |ps| == 1 then ps[0] else ps[0] + "/" + Join(ps[1..])
  }

  /** `filepath.Rel("/", name)` for an absolute name. */
  function RelToRoot(name: string): string {
    var ps := Resolve(Split(name, '/'), []);
    if ps == [] then "." else Join(ps)
  }

  /** The name under which a record is written. */
  function Relative(name: string): string {
    if IsAbs(name) then RelToRoot(name) else name
  }

  // ---------------------------------------------------------------------------------------------
  // Parts and paths.
  // ---------------------------------------------------------------------------------------------

  predicate NoSlash(p: string) {
    forall i :: 0 <= i < |p| ==> p[i] != '/'
  }

  predicate AllNoSlash(ps: seq<string>) {
    forall k :: 0 <= k < |ps| ==> NoSlash(ps[k])
  }

  /** A part that stands for a directory or a file. */
  predicate Plain(p: string) {
    NoSlash(p) && p != "" && p != "." && p != ".."
  }

  predicate AllPlain(ps: seq<string>) {
    forall k :: 0 <= k < |ps| ==> Plain(ps[k])
  }

  lemma {:induction false} SplitPart(p: string, rest: string)
    requires NoSlash(p)
    ensures Split(p, '/') == [p] && Split(p + "/" + rest, '/') == [p] + Split(rest, '/')
    decreases |p|
  {
    var text := p + "/" + rest;
    if p == "" {
      assert text[1..] == rest;
    } else {
      assert text[1..] == p[1..] + "/" + rest;
      SplitPart(p[1..], rest);
      assert [p[0]] + p[1..] == p;
    }
  }

  /** Splitting undoes joining. */
  lemma {:induction false} SplitJoin(ps: seq<string>)
    requires ps != [] && AllNoSlash(ps)
    ensures Split(Join(ps), '/') == ps
    decreases |ps|
  {
    if |ps| == 1 {
      SplitPart(ps[0], "");
    } else {
      SplitJoin(ps[1..]);
      SplitPart(ps[0], Join(ps[1..]));
    }
  }

  lemma {:induction false} SplitNoSlash(name: string)
    ensures AllNoSlash(Split(name, '/'))
    decreases |name|
  {
    if name != "" {
      SplitNoSlash(name[1..]);
      assert NoSlash(Split(name[1..], '/')[0]);
    }
  }

  /** The parts of an absolute path, behind the root. */
  lemma AbsoluteParts(ps: seq<string>)
    requires AllNoSlash(ps)
    ensures var name := "/" + Join(ps);
            IsAbs(name) && Resolve(Split(name, '/'), []) == Resolve(ps, [])
  {
    var name := "/" + Join(ps);
    assert name[1..] == Join(ps);
    if ps == [] {
      assert ["", ""][1..] == [""] && [""][1..] == [];
    } else {
      SplitJoin(ps);
      assert ([""] + ps)[1..] == ps;
    }
  }

  // ---------------------------------------------------------------------------------------------
  // Resolving.
  // ---------------------------------------------------------------------------------------------

  lemma {:induction false} ResolveConcat(a: seq<string>, b: seq<string>, stack: seq<string>)
    ensures Resolve(a + b, stack) == Resolve(b, Resolve(a, stack))
    decreases |a|
  {
    if a == [] {
      assert a + b == b;
    } else {
      assert (a + b)[1..] == a[1..] + b;
      var next := if a[0] == "" || a[0] == "." then stack
                  else if a[0] == ".." then (if stack == [] then [] else stack[..|stack| - 1])
                  else stack + [a[0]];
      ResolveConcat(a[1..], b, next);
    }
  }

  lemma {:induction false} PlainResolves(ps: seq<string>, stack: seq<string>)
    requires AllPlain(ps)
    ensures Resolve(ps, stack) == stack + ps
    decreases |ps|
  {
    if ps == [] {
      assert stack + [] == stack;
    } else {
      assert Plain(ps[0]);
      PlainResolves(ps[1..], stack + [ps[0]]);
      assert stack + [ps[0]] + ps[1..] == stack + ps;
    }
  }

  lemma {:induction false} ResolvedPlain(ps: seq<string>, stack: seq<string>)
    requires AllNoSlash(ps) && AllPlain(stack)
    ensures AllPlain(Resolve(ps, stack))
    decreases |ps|
  {
    if ps != [] {
      assert NoSlash(ps[0]);
      var next := if ps[0] == "" || ps[0] == "." then stack
                  else if ps[0] == ".." then (if stack == [] then [] else stack[..|stack| - 1])
                  else stack + [ps[0]];
      ResolvedPlain(ps[1..], next);
    }
  }

  /** Parts that leave every place as it is can be dropped. */
  lemma ResolveDrops(a: seq<string>, mid: seq<string>, b: seq<string>)
    requires Resolve(mid, Resolve(a, [])) == Resolve(a, [])
    ensures Resolve(a + mid + b, []) == Resolve(a + b, [])
  {
    ResolveConcat(a, b, []);
    ResolveConcat(a, mid, []);
    ResolveConcat(a + mid, b, []);
  }

  lemma UpUndoes(p: string, s: seq<string>)
    requires Plain(p)
    ensures Resolve([p, ".."], s) == s
  {
    assert [p, ".."][1..] == [".."] && [".."][1..] == [];
    assert (s + [p])[..|s|] == s;
  }

  // ---------------------------------------------------------------------------------------------
  // Names of records.
  // ---------------------------------------------------------------------------------------------

  /** The name of an absolute path is all of its resolved parts. */
  lemma RelativeOfParts(ps: seq<string>)
    requires AllNoSlash(ps)
    ensures var qs := Resolve(ps, []); Relative("/" + Join(ps)) == if qs == [] then "." else Join(qs)
  {
    AbsoluteParts(ps);
  }

  /** An absolute name keeps all of its parts: only the slash in front goes. */
  lemma RelativeKeepsPath(ps: seq<string>)
    requires ps != [] && AllPlain(ps)
    ensures Relative("/" + Join(ps)) == Join(ps)
  {
    assert AllNoSlash(ps) by {
      forall k | 0 <= k < |ps| ensures NoSlash(ps[k]) {
        assert Plain(ps[k]);
      }
    }
    RelativeOfParts(ps);
    PlainResolves(ps, []);
    assert [] + ps == ps;
  }

  lemma RelativeDrops(a: seq<string>, mid: seq<string>, b: seq<string>)
    requires AllNoSlash(a) && AllNoSlash(mid) && AllNoSlash(b) && Resolve(mid, Resolve(a, [])) == Resolve(a, [])
    ensures Relative("/" + Join(a + mid + b)) == Relative("/" + Join(a + b))
  {
    RelativeOfParts(a + b);
    RelativeOfParts(a + mid + b);
    ResolveDrops(a, mid, b);
  }

  /** Empty parts and dots in an absolute name change nothing. */
  lemma DotChangesNothing(a: seq<string>, d: string, b: seq<string>)
    requires AllNoSlash(a) && AllNoSlash(b) && (d == "" || d == ".")
    ensures Relative("/" + Join(a + [d] + b)) == Relative("/" + Join(a + b))
  {
    assert [d][1..] == [];
    RelativeDrops(a, [d], b);
  }

  /** Two dots remove the part before them. */
  lemma TwoDotsGoUp(a: seq<string>, p: string, b: seq<string>)
    requires AllNoSlash(a) && AllNoSlash(b) && Plain(p)
    ensures Relative("/" + Join(a + [p, ".."] + b)) == Relative("/" + Join(a + b))
  {
    UpUndoes(p, Resolve(a, []));
    assert NoSlash([p, ".."][0]) && NoSlash([p, ".."][1]);
    RelativeDrops(a, [p, ".."], b);
  }

  /** At the root they remove nothing. */
  lemma TwoDotsAtRoot(b: seq<string>)
    requires AllNoSlash(b)
    ensures Relative("/" + Join([".."] + b)) == Relative("/" + Join(b))
  {
    RelativeOfParts(b);
    RelativeOfParts([".."] + b);
    assert ([".."] + b)[1..] == b;
  }

  /** What an absolute name resolves to. */
  function PartsOf(name: string): seq<string> {
    Resolve(Split(name, '/'), [])
  }

  lemma PartsPlain(name: string)
    ensures AllPlain(PartsOf(name)) && AllNoSlash(PartsOf(name))
  {
    SplitNoSlash(name);
    ResolvedPlain(Split(name, '/'), []);
    forall k | 0 <= k < |PartsOf(name)| ensures NoSlash(PartsOf(name)[k]) {
      assert Plain(PartsOf(name)[k]);
    }
  }

  lemma JoinedIsNotDot(ps: seq<string>)
    requires ps != [] && AllPlain(ps) && AllNoSlash(ps)
    ensures Join(ps) != "." && !IsAbs(Join(ps))
  {
    SplitJoin(ps);
    SplitPart(".", "");
    assert Plain(ps[0]);
  }

  /** No record is written under an absolute name, and writing its name again changes nothing. */
  lemma RelativeIsNotAbsolute(name: string)
    ensures !IsAbs(Relative(name)) && Relative(Relative(name)) == Relative(name)
  {
    PartsPlain(name);
    if IsAbs(name) && PartsOf(name) != [] {
      JoinedIsNotDot(PartsOf(name));
    }
  }

  /** Two absolute names are written as one record exactly when they resolve to the same place. */
  lemma SameNameExactly(x: string, y: string)
    requires IsAbs(x) && IsAbs(y)
    ensures Relative(x) == Relative(y) <==> PartsOf(x) == PartsOf(y)
  {
    PartsPlain(x);
    PartsPlain(y);
    if PartsOf(x) != [] {
      JoinedIsNotDot(PartsOf(x));
      SplitJoin(PartsOf(x));
    }
    if PartsOf(y) != [] {
      JoinedIsNotDot(PartsOf(y));
      SplitJoin(PartsOf(y));
    }
  }
}
