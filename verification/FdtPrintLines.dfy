/**
  What `fdt_print` shows at a depth, said of the whole text of a tree: a list
  of lines, each with its level. The depth picks lines from that list, and the
  list itself does not know about it.
 */
module FdtPrintLines {
  import opened Bytes
  import opened FdtPrint
  import opened FdtValues

  /** A line of the text of a tree; the line of a NOP is shown whatever the depth is. */
  datatype Line = Line(level: nat, nop: bool, text: string)

  /** The lines of a node's contents at `level`. */
  ghost function ItemLines(ln: Lines, items: Items, level: nat): seq<Line>
    decreases items, 0
  {
    match items
    case Nil => []
    case PropItem(p, rest) => [Line(level, false, ln.prop(level, p))] + ItemLines(ln, rest, level)
    case NopItem(rest) => [Line(level, true, ln.nop(level))] + ItemLines(ln, rest, level)
    case Sub(name, inner, rest) => NodeLines(ln, name, inner, level) + ItemLines(ln, rest, level)
  }

  /** The lines of a node at `level`: its braces, and its contents one level further in. */
  ghost function NodeLines(ln: Lines, name: Name, items: Items, level: nat): seq<Line>
    decreases items, 1
  {
    [Line(level, false, ln.open(level, name))] + ItemLines(ln, items, level + 1)
    + [Line(level, false, ln.close(level))]
  }

  /** The lines of a root node behind `nops` NOPs. */
  ghost function RootLines(ln: Lines, nops: nat, name: Name, items: Items): seq<Line> {
    seq(nops, _ => Line(0, true, ln.nop(0))) + NodeLines(ln, name, items, 0)
  }

  /** The texts of the lines that are not deeper than `depth`, and of the NOPs, in order. */
  function Shown(lines: seq<Line>, depth: int): string {
    if lines == [] then "" else ShownLine(lines[0], depth) + Shown(lines[1..], depth)
  }

  function ShownLine(l: Line, depth: int): string {
    if l.level <= depth || l.nop then l.text else ""
  }

  /** The texts of all lines, in order. */
  function AllText(lines: seq<Line>): string {
    if lines == [] then "" else lines[0].text + AllText(lines[1..])
  }

  lemma Associative(a: string, b: string, c: string)
    ensures (a + b) + c == a + (b + c)
  {
  }

  lemma {:induction false} ShownBoth(a: seq<Line>, b: seq<Line>, depth: int)
    ensures Shown(a + b, depth) == Shown(a, depth) + Shown(b, depth)
  {
    if a == [] {
      assert a + b == b;
    } else {
      ShownBoth(a[1..], b, depth);
      assert (a + b)[1..] == a[1..] + b && (a + b)[0] == a[0];
      Associative(ShownLine(a[0], depth), Shown(a[1..], depth), Shown(b, depth));
    }
  }

  lemma ShownThree(a: seq<Line>, b: seq<Line>, c: seq<Line>, depth: int)
    ensures Shown(a + b + c, depth) == Shown(a, depth) + (Shown(b, depth) + Shown(c, depth))
  {
    ShownBoth(a + b, c, depth);
    ShownBoth(a, b, depth);
    Associative(Shown(a, depth), Shown(b, depth), Shown(c, depth));
  }

  lemma ShownOne(l: Line, depth: int)
    ensures Shown([l], depth) == ShownLine(l, depth)
  {
    assert [l][1..] == [];
  }

  // ---------------------------------------------------------------- the recursive printer shows these lines

  lemma {:induction false} ItemsShown(ln: Lines, items: Items, level: nat, depth: int)
    ensures PlainItems(ln, items, level, depth) == Shown(ItemLines(ln, items, level), depth)
    decreases items, 0
  {
    match items
    case Nil =>
    case PropItem(p, rest) =>
      ItemsShown(ln, rest, level, depth);
      ShownOne(Line(level, false, ln.prop(level, p)), depth);
      ShownBoth([Line(level, false, ln.prop(level, p))], ItemLines(ln, rest, level), depth);
    case NopItem(rest) =>
      ItemsShown(ln, rest, level, depth);
      ShownOne(Line(level, true, ln.nop(level)), depth);
      ShownBoth([Line(level, true, ln.nop(level))], ItemLines(ln, rest, level), depth);
    case Sub(name, inner, rest) =>
      NodeShown(ln, name, inner, level, depth);
      ItemsShown(ln, rest, level, depth);
      ShownBoth(NodeLines(ln, name, inner, level), ItemLines(ln, rest, level), depth);
  }

  lemma NodeShown(ln: Lines, name: Name, items: Items, level: nat, depth: int)
    ensures PlainNode(ln, name, items, level, depth) == Shown(NodeLines(ln, name, items, level), depth)
    decreases items, 1
  {
    ItemsShown(ln, items, level + 1, depth);
    var open, close := Line(level, false, ln.open(level, name)), Line(level, false, ln.close(level));
    ShownThree([open], ItemLines(ln, items, level + 1), [close], depth);
    ShownOne(open, depth);
    ShownOne(close, depth);
  }

  lemma {:induction false} NopsShown(ln: Lines, nops: nat, depth: int)
    ensures Repeat(ln.nop(0), nops) == Shown(seq(nops, _ => Line(0, true, ln.nop(0))), depth)
  {
    var lines := seq(nops, _ => Line(0, true, ln.nop(0)));
    if nops > 0 {
      NopsShown(ln, nops - 1, depth);
      assert lines[1..] == seq(nops - 1, _ => Line(0, true, ln.nop(0)));
    }
  }

  /**
    For every stream that holds a node's tokens at `|pre|`, behind any number
    of NOPs, and every depth: a tree of at most 31 nested nodes prints exactly
    its lines down to that depth and its NOPs, with return code 0; a deeper one
    prints a prefix of them and a complaint, with return code 1.
   */
  lemma PrintsShownLines(ln: Lines, pre: seq<Token>, nops: nat, name: Name, items: Items, post: seq<Token>,
                         depth: int)
    requires WellFormed(items)
    ensures var toks := pre + seq(nops, _ => Nop) + NodeTokens(name, items) + post;
            var shown := Shown(RootLines(ln, nops, name, items), depth);
            && Opens(toks, |pre|)
            && var r := Walk(ln, toks, |pre|, 0, depth);
               if 1 + Height(items) <= 31 then r == Result(0, shown)
               else r.rc == 1 && exists n: nat | n <= |r.out| :: EndsIn("Nested too deep, aborting.\n", r.out, n, shown)
  {
    WalkPrintsTree(ln, pre, nops, name, items, post, depth);
    NodeShown(ln, name, items, 0, depth);
    NopsShown(ln, nops, depth);
    ShownBoth(seq(nops, _ => Line(0, true, ln.nop(0))), NodeLines(ln, name, items, 0), depth);
  }

  // ---------------------------------------------------------------- a depth that shows everything

  ghost predicate Within(lines: seq<Line>, depth: int) {
    forall l | l in lines :: l.level <= depth
  }

  lemma {:induction false} ItemsWithin(ln: Lines, items: Items, level: nat, depth: int)
    requires level + Height(items) <= depth
    ensures Within(ItemLines(ln, items, level), depth)
    decreases items
  {
    match items
    case Nil =>
    case PropItem(_, rest) => ItemsWithin(ln, rest, level, depth);
    case NopItem(rest) => ItemsWithin(ln, rest, level, depth);
    case Sub(_, inner, rest) =>
      ItemsWithin(ln, inner, level + 1, depth);
      ItemsWithin(ln, rest, level, depth);
  }

  lemma {:induction false} WithinIsAll(lines: seq<Line>, depth: int)
    requires Within(lines, depth)
    ensures Shown(lines, depth) == AllText(lines)
  {
    if lines != [] {
      assert lines[0] in lines;
      assert forall l | l in lines[1..] :: l in lines;
      WithinIsAll(lines[1..], depth);
    }
  }

  /** A depth of at least the number of nested nodes shows every line of the tree. */
  lemma DeepEnoughShowsAll(ln: Lines, nops: nat, name: Name, items: Items, depth: int)
    requires 1 + Height(items) <= depth
    ensures Shown(RootLines(ln, nops, name, items), depth) == AllText(RootLines(ln, nops, name, items))
  {
    ItemsWithin(ln, items, 1, depth);
    WithinIsAll(RootLines(ln, nops, name, items), depth);
  }

  /** A tree that is printed at all is printed completely with the depth of `fdt print`. */
  lemma PrintShowsAll(ln: Lines, pre: seq<Token>, nops: nat, name: Name, items: Items, post: seq<Token>)
    requires WellFormed(items) && 1 + Height(items) <= 31
    ensures var toks := pre + seq(nops, _ => Nop) + NodeTokens(name, items) + post;
            && Opens(toks, |pre|)
            && Walk(ln, toks, |pre|, 0, 32) == Result(0, AllText(RootLines(ln, nops, name, items)))
  {
    PrintsShownLines(ln, pre, nops, name, items, post, 32);
    DeepEnoughShowsAll(ln, nops, name, items, 32);
  }

  // ---------------------------------------------------------------- streams that break off

  /** What a token that ends the walk inside the root node prints. */
  function Complaint(bad: Token, depth: int): string {
    if bad.Property? then "libfdt fdt_getprop(): error\n"
    else if bad.Unknown? && 1 <= depth then "Unknown tag 0x" + UpperCase(Hex(bad.tag, 8)) + "\n"
    else ""
  }

  lemma StopsAt(ln: Lines, toks: seq<Token>, i: nat, level: nat, depth: int)
    requires i < |toks| && level == 1
    requires toks[i].End? || toks[i].Unknown? || (toks[i].Property? && toks[i].p.len < 0)
    ensures Walk(ln, toks, i, level, depth) == Result(1, Complaint(toks[i], depth))
  {
  }

  lemma WholeItems(ln: Lines, items: Items, level: nat, depth: int)
    requires 0 < level && level + Height(items) < MAX_LEVEL
    ensures ItemsText(ln, items, level, depth) == Text(PlainItems(ln, items, level, depth), true)
  {
    ItemsCut(ln, items, level, depth);
  }

  lemma WalkBehind(ln: Lines, toks: seq<Token>, i: nat, items: Items, level: nat, depth: int, plain: string,
                   end: Result)
    requires WellFormed(items) && 0 < level < MAX_LEVEL && Encodes(toks, i, items)
    requires ItemsText(ln, items, level, depth) == Text(plain, true)
    requires Walk(ln, toks, i + Size(items), level, depth) == end
    ensures Walk(ln, toks, i, level, depth) == Prefixed(plain, end)
  {
    WalkItems(ln, toks, i, items, level, depth);
  }

  lemma WalkBroken(ln: Lines, toks: seq<Token>, i: nat, name: Name, items: Items, level: nat, depth: int, bad: Token)
    requires WellFormed(items) && level == 0 && 1 + Height(items) <= 31 && i + 1 + |Tokens(items)| < |toks|
    requires toks[i] == BeginNode(name) && Stands(toks, i + 1, Tokens(items)) && toks[i + 1 + |Tokens(items)|] == bad
    requires bad.End? || bad.Unknown? || (bad.Property? && bad.p.len < 0)
    ensures Walk(ln, toks, i, level, depth) ==
            Prefixed(Upto(level, depth, ln.open(level, name)) + PlainItems(ln, items, level + 1, depth),
                     Result(1, Complaint(bad, depth)))
  {
    WalkOpen(ln, toks, i, name, level, depth);
    TokensSize(items);
    TokensEncode(toks, i + 1, items);
    StopsAt(ln, toks, i + 1 + Size(items), level + 1, depth);
    WholeItems(ln, items, level + 1, depth);
    var plain, end := PlainItems(ln, items, level + 1, depth), Result(1, Complaint(bad, depth));
    WalkBehind(ln, toks, i + 1, items, level + 1, depth, plain, end);
    PrefixedTwice(Upto(level, depth, ln.open(level, name)), plain, end);
  }

  /** The lines of a node at `level` that is not closed. */
  ghost function OpenLines(ln: Lines, name: Name, items: Items, level: nat): seq<Line> {
    [Line(level, false, ln.open(level, name))] + ItemLines(ln, items, level + 1)
  }

  lemma OpenShown(ln: Lines, name: Name, items: Items, level: nat, depth: int)
    ensures Upto(level, depth, ln.open(level, name)) + PlainItems(ln, items, level + 1, depth) ==
            Shown(OpenLines(ln, name, items, level), depth)
  {
    var open := Line(level, false, ln.open(level, name));
    ItemsShown(ln, items, level + 1, depth);
    ShownOne(open, depth);
    ShownBoth([open], ItemLines(ln, items, level + 1), depth);
  }

  /**
    A node that is not closed: behind the lines of what came before, the end
    of the stream, an unknown tag or a property of negative length ends the
    walk with return code 1.
   */
  lemma BrokenOff(ln: Lines, pre: seq<Token>, name: Name, items: Items, bad: Token, post: seq<Token>, level: nat,
                  depth: int)
    requires WellFormed(items) && 1 + Height(items) <= 31 && level == 0
    requires bad.End? || bad.Unknown? || (bad.Property? && bad.p.len < 0)
    ensures var toks := pre + ([BeginNode(name)] + Tokens(items) + [bad]) + post;
            && Opens(toks, |pre|)
            && Walk(ln, toks, |pre|, level, depth) ==
               Prefixed(Shown(OpenLines(ln, name, items, level), depth), Result(1, Complaint(bad, depth)))
  {
    var i, toks := |pre|, pre + ([BeginNode(name)] + Tokens(items) + [bad]) + post;
    NodeWithin(pre, BeginNode(name), Tokens(items), bad, post);
    WalkBroken(ln, toks, i, name, items, level, depth, bad);
    OpenShown(ln, name, items, level, depth);
  }

  // ---------------------------------------------------------------- how the lines look

  /** The lines of a tree: tabs for the level, then a brace, a name with or without a value, or a comment. */
  lemma LinesLookLike(name: string, p: Prop)
    ensures var ln := PrintedLines();
            && ln.open(0, Named("")) == "/ {\n"
            && (name != "" ==> ln.open(1, Named(name)) == "\t" + name + " {\n")
            && ln.close(0) == "};\n" && ln.close(2) == "\t\t};\n" && ln.nop(1) == "\t/* NOP */\n"
            && (p.len == 0 ==> ln.prop(1, p) == "\t" + p.name + ";\n")
            && (p.len > 0 ==> ln.prop(1, p) == "\t" + p.name + " = " + ValueText(p.data, p.after, p.addr) + ";\n")
  {
    assert Tabs(0) == "" && Tabs(1) == "\t" && Tabs(2) == "\t\t";
    assert "" + "/" + " {\n" == "/ {\n";
  }
}
