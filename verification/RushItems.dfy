/** Words and redirections of a command of cmds/rush/parse.go in any order, with any blanks. */
module RushItems {
  import opened Common
  import opened RushParse
  import opened RushPrint
  import opened RushLine

  predicate Blanks(s: string) {
    forall i :: 0 <= i < |s| ==> s[i] == ' ' || s[i] == '\t'
  }

  /** A word behind blanks, or a redirection with blanks in front of its sign and of its target. */
  datatype Item = Plain(blanks: string, a: string) | Target(blanks: string, sign: char, gap: string, a: string)

  predicate ItemOk(i: Item) {
    && ArgOk(i.a) && Blanks(i.blanks)
    && (i.Plain? ==> i.blanks != "") && (i.Target? ==> Blanks(i.gap) && i.sign in ['<', '>'])
  }

  predicate ItemsOk(items: seq<Item>) {
    forall k :: 0 <= k < |items| ==> ItemOk(items[k])
  }

  function ItemText(i: Item): string
    requires ItemOk(i)
  {
    match i
    case Plain(blanks, a) => blanks + ArgText(a)
    case Target(blanks, sign, gap, a) => blanks + ([sign] + (gap + ArgText(a)))
  }

  function ItemsText(items: seq<Item>): string
    requires ItemsOk(items)
  {
    if items == [] then "" else ItemText(items[0]) + ItemsText(items[1..])
  }

  function Add(c: Command, i: Item): Command {
    match i
    case Plain(_, a) => c.(args := c.args + [a])
    case Target(_, sign, _, a) => c.(fdmap := c.fdmap[(if sign == '<' then 0 else 1) := a])
  }

  /** Words become arguments in their order; of several redirections of a stream the last one counts. */
  function AddAll(c: Command, items: seq<Item>): Command
    decreases |items|
  {
    if items == [] then c else AddAll(Add(c, items[0]), items[1..])
  }

  lemma {:induction false} SkipBlanks(b: string, rest: string, c: Command)
    requires Blanks(b)
    ensures ParseRest(b + rest, c) == ParseRest(rest, c) && GetArg(b + rest) == GetArg(rest)
    decreases |b|
  {
    if b == "" {
      assert b + rest == rest;
    } else {
      assert b + rest == [b[0]] + (b[1..] + rest);
      BlankToken(b[0], b[1..] + rest);
      SkipBlanks(b[1..], rest, c);
    }
  }

  lemma PlainRead(a: string, rest: string, c: Command)
    requires ArgOk(a) && EndsWord(rest)
    ensures ParseRest(ArgText(a) + rest, c) == ParseRest(rest, c.(args := c.args + [a]))
  {
    TokArg(a, rest);
  }

  lemma TargetRead(sign: char, gap: string, a: string, rest: string, c: Command)
    requires ArgOk(a) && EndsWord(rest) && Blanks(gap) && sign in ['<', '>']
    ensures ParseRest([sign] + (gap + (ArgText(a) + rest)), c)
         == ParseRest(rest, c.(fdmap := c.fdmap[(if sign == '<' then 0 else 1) := a]))
  {
    TokChar(sign, gap + (ArgText(a) + rest));
    SkipBlanks(gap, ArgText(a) + rest, c);
    TokArg(a, rest);
  }

  lemma ItemRead(i: Item, rest: string, c: Command)
    requires ItemOk(i) && EndsWord(rest)
    ensures ParseRest(ItemText(i) + rest, c) == ParseRest(rest, Add(c, i))
  {
    match i
    case Plain(blanks, a) =>
      Assoc(blanks, ArgText(a), rest);
      SkipBlanks(blanks, ArgText(a) + rest, c);
      PlainRead(a, rest, c);
    case Target(blanks, sign, gap, a) =>
      Assoc(blanks, [sign] + (gap + ArgText(a)), rest);
      Assoc([sign], gap + ArgText(a), rest);
      Assoc(gap, ArgText(a), rest);
      SkipBlanks(blanks, [sign] + (gap + (ArgText(a) + rest)), c);
      TargetRead(sign, gap, a, rest, c);
  }

  lemma ItemStarts(i: Item, rest: string)
    requires ItemOk(i)
    ensures ItemText(i) + rest != "" && (ItemText(i) + rest)[0] in ['<', '>', ' ', '\t']
  {
  }

  lemma ItemsStart(items: seq<Item>, rest: string)
    requires ItemsOk(items) && EndsWord(rest)
    ensures EndsWord(ItemsText(items) + rest)
  {
    if items == [] {
      assert "" + rest == rest;
    } else {
      Assoc(ItemText(items[0]), ItemsText(items[1..]), rest);
      ItemStarts(items[0], ItemsText(items[1..]) + rest);
    }
  }

  lemma {:induction false} ItemsRead(items: seq<Item>, rest: string, c: Command)
    requires ItemsOk(items) && EndsWord(rest)
    ensures ParseRest(ItemsText(items) + rest, c) == ParseRest(rest, AddAll(c, items))
    decreases |items|
  {
    if items == [] {
      assert "" + rest == rest;
    } else {
      Assoc(ItemText(items[0]), ItemsText(items[1..]), rest);
      ItemsStart(items[1..], rest);
      ItemRead(items[0], ItemsText(items[1..]) + rest, c);
      ItemsRead(items[1..], rest, Add(c, items[0]));
    }
  }

  lemma FirstItem(r: string)
    requires r != "" && r[0] in ['<', '>', ' ', '\t']
    ensures !StartsNothing(r)
  {
    assert [r[0]] + r[1..] == r;
    if r[0] in ['<', '>'] {
      TokChar(r[0], r[1..]);
    } else {
      BlankToken(r[0], r[1..]);
    }
  }

  lemma LineEnd(blanks: string, rest: string, c: Command)
    requires Blanks(blanks)
    ensures ParseRest(blanks + ("\n" + rest), c) == Done((c, StatusEOL), rest) && EndsWord(blanks + ("\n" + rest))
  {
    SkipBlanks(blanks, "\n" + rest, c);
    TokChar('\n', rest);
  }

  /** A line of words and redirections, in any order and with any blanks, is the one command that they make up. */
  lemma ItemsMean(items: seq<Item>, blanks: string, rest: string)
    requires ItemsOk(items) && items != [] && Blanks(blanks)
    ensures ParseCommands(ItemsText(items) + (blanks + ("\n" + rest)))
         == Done(([AddAll(NewCommand, items)], StatusEOL), rest)
  {
    var tail := blanks + ("\n" + rest);
    LineEnd(blanks, rest, AddAll(NewCommand, items));
    ItemsRead(items, tail, NewCommand);
    Assoc(ItemText(items[0]), ItemsText(items[1..]), tail);
    ItemStarts(items[0], ItemsText(items[1..]) + tail);
    FirstItem(ItemsText(items) + tail);
  }

  /** What the items make up, by their places. */
  function Words(items: seq<Item>): seq<string> {
    if items == [] then [] else (if items[0].Plain? then [items[0].a] else []) + Words(items[1..])
  }

  /** The target of the last redirection with this sign. */
  function LastTarget(items: seq<Item>, sign: char): Option<string> {
    if items == [] then None
    else
      var i := items[|items| - 1];
      if i.Target? && i.sign == sign then Some(i.a) else LastTarget(items[..|items| - 1], sign)
  }

  lemma {:induction false} AddAllArgs(c: Command, items: seq<Item>)
    ensures AddAll(c, items).args == c.args + Words(items)
    ensures AddAll(c, items).link == c.link && AddAll(c, items).bg == c.bg
    decreases |items|
  {
    if items == [] {
      assert c.args + [] == c.args;
    } else {
      AddAllArgs(Add(c, items[0]), items[1..]);
      if items[0].Plain? {
        Assoc(c.args, [items[0].a], Words(items[1..]));
      } else {
        assert [] + Words(items[1..]) == Words(items[1..]);
      }
    }
  }

  lemma {:induction false} AddAllSnoc(c: Command, items: seq<Item>, i: Item)
    ensures AddAll(c, items + [i]) == Add(AddAll(c, items), i)
    decreases |items|
  {
    if items == [] {
      assert [i][1..] == [];
    } else {
      assert (items + [i])[1..] == items[1..] + [i];
      AddAllSnoc(Add(c, items[0]), items[1..], i);
    }
  }

  /** The value under a key, if there is one. */
  function Entry(m: map<nat, string>, fd: nat): Option<string> {
    if fd in m then Some(m[fd]) else None
  }

  lemma {:induction false} AddAllTargets(items: seq<Item>)
    requires ItemsOk(items)
    ensures var m := AddAll(NewCommand, items).fdmap;
            Entry(m, 0) == LastTarget(items, '<') && Entry(m, 1) == LastTarget(items, '>') && m.Keys <= {0, 1}
    decreases |items|
  {
    if items != [] {
      var k := |items| - 1;
      SplitLast(items);
      AddAllSnoc(NewCommand, items[..k], items[k]);
      AddAllTargets(items[..k]);
      assert ItemOk(items[k]);
    }
  }

  /** The arguments of such a line are its words in their order, and each stream is redirected to the target of the last
      sign for it. */
  lemma LineMeans(items: seq<Item>, blanks: string, rest: string)
    requires ItemsOk(items) && items != [] && Blanks(blanks)
    ensures var o := ParseCommands(ItemsText(items) + (blanks + ("\n" + rest)));
            && o.Done? && o.rest == rest && o.value.1 == StatusEOL && |o.value.0| == 1
            && var c := o.value.0[0];
               && c.args == Words(items) && c.link == "" && !c.bg && c.fdmap.Keys <= {0, 1}
               && Entry(c.fdmap, 0) == LastTarget(items, '<') && Entry(c.fdmap, 1) == LastTarget(items, '>')
  {
    ItemsMean(items, blanks, rest);
    AddAllArgs(NewCommand, items);
    AddAllTargets(items);
    assert [] + Words(items) == Words(items);
  }
}
