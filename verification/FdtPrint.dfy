/**
  `fdt_print`: a walk over the flat token stream of a device tree with a level
  counter, against a recursive printer of the tree the stream encodes.
 */
module FdtPrint {
  import opened Bytes
  import opened FdtValues
  import opened Strto

  const MAX_LEVEL := 32

  // ---------------------------------------------------------------- tokens and trees

  /** `len` is the signed length field; `data` the bytes it covers and `after` the byte behind them. */
  datatype Prop = Prop(name: string, len: int, data: seq<byte>, after: byte, addr: string)

  /** What `fdt_next_tag` returns, with what the branches look up. `name` is None where `fdt_get_name` fails. */
  datatype Token =
    | BeginNode(name: Name)
    | EndNode
    | Property(p: Prop)
    | Nop
    | End
    | Unknown(tag: nat)

  datatype Name = NoName | Named(text: string)

  /** The contents of a node; properties, NOPs and subnodes may come in any order. */
  datatype Items =
    | Nil
    | PropItem(p: Prop, rest: Items)
    | NopItem(rest: Items)
    | Sub(name: Name, inner: Items, rest: Items)

  /** The tokens of a node's contents (the structure block of section 5.4 of the Devicetree Specification). */
  function Tokens(items: Items): seq<Token>
    decreases items, 0
  {
    match items
    case Nil => []
    case PropItem(p, rest) => [Property(p)] + Tokens(rest)
    case NopItem(rest) => [Nop] + Tokens(rest)
    case Sub(name, inner, rest) => NodeTokens(name, inner) + Tokens(rest)
  }

  function NodeTokens(name: Name, items: Items): seq<Token>
    decreases items, 1
  {
    [BeginNode(name)] + Tokens(items) + [EndNode]
  }

  /** Every property value has the length its length field says. */
  predicate WellFormed(items: Items) {
    match items
    case Nil => true
    case PropItem(p, rest) => p.len == |p.data| && WellFormed(rest)
    case NopItem(rest) => WellFormed(rest)
    case Sub(_, inner, rest) => WellFormed(inner) && WellFormed(rest)
  }

  /** How many nodes lie inside each other below this one. */
  function Height(items: Items): nat {
    match items
    case Nil => 0
    case PropItem(_, rest) => Height(rest)
    case NopItem(rest) => Height(rest)
    case Sub(_, inner, rest) =>
      if 1 + Height(inner) > Height(rest) then 1 + Height(inner) else Height(rest)
  }

  // ---------------------------------------------------------------- text

  function Tabs(level: nat): string {
    seq(level, _ => '\t')
  }

  /** The C string at `&tabs[index]`, where `tabs` holds MAX_LEVEL tabs and a NUL. */
  function TabsFrom(index: int): (s: string)
    requires 0 <= index <= MAX_LEVEL
    ensures s == Tabs(MAX_LEVEL - index)
  {
    Tabs(MAX_LEVEL)[index..]
  }

  function NodeName(n: Name): string {
    match n
    case NoName => "/* NULL pointer error */"
    case Named(s) => if s == "" then "/" else s
  }

  /** `%X` of a number that `%x` prints as `s`. */
  function UpperCase(s: string): string {
    seq(|s|, i requires 0 <= i < |s| => if 'a' <= s[i] <= 'z' then s[i] - 'a' + 'A' else s[i])
  }

  function OpenText(level: nat, name: Name): string {
    Tabs(level) + NodeName(name) + " {\n"
  }

  function CloseText(level: nat): string {
    Tabs(level) + "};\n"
  }

  ghost function PropText(level: nat, p: Prop): string {
    if p.len == 0 then Tabs(level) + p.name + ";\n"
    else Tabs(level) + p.name + " = " + ValueText(p.data, p.after, p.addr) + ";\n"
  }

  function NopText(level: nat): string {
    Tabs(level) + "/* NOP */\n"
  }

  /** The complaint about a negative length, whatever `fdt_strerror` calls it. */
  const ERROR_LINE := "libfdt fdt_getprop(): error\n"

  const ABORT := "Nested too deep, aborting.\n"

  /** How the single lines of a tree look; the walk does not depend on it. */
  datatype Lines = Lines(open: (nat, Name) -> string, close: nat -> string, prop: (nat, Prop) -> string,
                         nop: nat -> string)

  ghost function PrintedLines(): Lines {
    Lines((l: nat, n) => OpenText(l, n), (l: nat) => CloseText(l), (l: nat, p) => PropText(l, p),
          (l: nat) => NopText(l))
  }

  // ---------------------------------------------------------------- the recursive printer

  /** Text shown only down to `depth`. */
  function Upto(level: nat, depth: int, s: string): string {
    if level <= depth then s else ""
  }

  /** The contents of a node at `level`; a NOP is shown at every depth. */
  ghost function PlainItems(ln: Lines, items: Items, level: nat, depth: int): string
    decreases items, 0
  {
    match items
    case Nil => ""
    case PropItem(p, rest) => Upto(level, depth, ln.prop(level, p)) + PlainItems(ln, rest, level, depth)
    case NopItem(rest) => ln.nop(level) + PlainItems(ln, rest, level, depth)
    case Sub(name, inner, rest) => PlainNode(ln, name, inner, level, depth) + PlainItems(ln, rest, level, depth)
  }

  /** A node at `level` with its contents one level further in. */
  ghost function PlainNode(ln: Lines, name: Name, items: Items, level: nat, depth: int): string
    decreases items, 1
  {
    Upto(level, depth, ln.open(level, name))
    + (PlainItems(ln, items, level + 1, depth) + Upto(level, depth, ln.close(level)))
  }

  // ---------------------------------------------------------------- the same printer with the nesting limit

  /** `whole` tells a complete text from one that broke off at the nesting limit. */
  datatype Text = Text(text: string, whole: bool)

  ghost function Then(a: Text, b: Text): Text {
    if a.whole then Text(a.text + b.text, b.whole) else a
  }

  ghost function ItemsText(ln: Lines, items: Items, level: nat, depth: int): Text
    requires level < MAX_LEVEL
    decreases items, 0
  {
    match items
    case Nil => Text("", true)
    case PropItem(p, rest) => Then(Text(Upto(level, depth, ln.prop(level, p)), true), ItemsText(ln, rest, level, depth))
    case NopItem(rest) => Then(Text(ln.nop(level), true), ItemsText(ln, rest, level, depth))
    case Sub(name, inner, rest) => Then(NodeText(ln, name, inner, level, depth), ItemsText(ln, rest, level, depth))
  }

  ghost function NodeText(ln: Lines, name: Name, items: Items, level: nat, depth: int): Text
    requires level < MAX_LEVEL
    decreases items, 1
  {
    var open := Upto(level, depth, ln.open(level, name));
    if level + 1 >= MAX_LEVEL then Text(open + ABORT, false)
    else Then(Text(open, true),
              Then(ItemsText(ln, items, level + 1, depth), Text(Upto(level, depth, ln.close(level)), true)))
  }

  // ---------------------------------------------------------------- the walk

  datatype Result = Result(rc: int, out: string)

  function Prefixed(s: string, r: Result): Result {
    Result(r.rc, s + r.out)
  }

  /** What one token does: print something and go on at a level, or print something and return. */
  datatype Step = Go(s: string, level: nat) | Stop(rc: int, s: string)

  ghost function TokenStep(ln: Lines, tok: Token, level: nat, depth: int): (r: Step)
    requires level < MAX_LEVEL && (level == 0 ==> !tok.EndNode?)
    ensures r.Go? ==> r.level < MAX_LEVEL && (r.level == 0 ==> level == 0 && (tok.Nop? || tok.Property?))
  {
    match tok
    case BeginNode(name) =>
      var s := Upto(level, depth, ln.open(level, name));
      if level + 1 >= MAX_LEVEL then Stop(1, s + ABORT) else Go(s, level + 1)
    case EndNode =>
      var s := Upto(level - 1, depth, ln.close(level - 1));
      if level == 1 then Stop(0, s) else Go(s, level - 1)
    case Property(p) =>
      if p.len < 0 then Stop(1, ERROR_LINE) else Go(Upto(level, depth, ln.prop(level, p)), level)
    case Nop => Go(ln.nop(level), level)
    case End => Stop(1, "")
    case Unknown(tag) => Stop(1, if level <= depth then "Unknown tag 0x" + UpperCase(Hex(tag, 8)) + "\n" else "")
  }

  /** No node ends before one begins: the end tag would index the tabs out of range. */
  predicate Opens(toks: seq<Token>, i: nat)
    decreases |toks| - i
  {
    i < |toks| ==> !toks[i].EndNode? && (toks[i].Nop? || toks[i].Property? ==> Opens(toks, i + 1))
  }

  /** The walk from token `i` on; behind the last token the stream reads as ended. */
  ghost function Walk(ln: Lines, toks: seq<Token>, i: nat, level: nat, depth: int): Result
    requires i <= |toks| && level < MAX_LEVEL && (level == 0 ==> Opens(toks, i))
    decreases |toks| - i
  {
    if i == |toks| then Result(1, "")
    else
      match TokenStep(ln, toks[i], level, depth)
      case Go(s, l) => Prefixed(s, Walk(ln, toks, i + 1, l, depth))
      case Stop(rc, s) => Result(rc, s)
  }

  /** One turn of the switch; `next` is -1 where the original leaves the loop with 0. */
  method PrintToken(tok: Token, level: nat, depth: int) returns (stop: bool, s: string, next: int)
    requires level < MAX_LEVEL && (level == 0 ==> !tok.EndNode?)
    ensures match TokenStep(PrintedLines(), tok, level, depth)
            case Go(t, l) => !stop && s == t && next == l
            case Stop(rc, t) => s == t && stop == (rc != 0) && (!stop ==> next == -1) && rc in {0, 1}
  {
    stop, s, next := false, "", level;
    match tok {
      case BeginNode(name) =>
        if level <= depth {
          s := TabsFrom(MAX_LEVEL - level) + NodeName(name) + " {\n";
        }
        next := level + 1;
        if next >= MAX_LEVEL {
          return true, s + ABORT, next;
        }
      case EndNode =>
        next := level - 1;
        if next <= depth {
          s := TabsFrom(MAX_LEVEL - next) + "};\n";
        }
        if next == 0 {
          next := -1;
        }
      case Property(p) =>
        if p.len < 0 {
          return true, ERROR_LINE, next;
        } else if p.len == 0 {
          if level <= depth {
            s := TabsFrom(MAX_LEVEL - level) + p.name + ";\n";
          }
        } else if level <= depth {
          var value := PrintData(p.data, p.after, p.addr);
          s := TabsFrom(MAX_LEVEL - level) + p.name + " = " + value + ";\n";
        }
      case Nop =>
        s := TabsFrom(MAX_LEVEL - level) + "/* NOP */\n";
      case End =>
        return true, "", next;
      case Unknown(tag) =>
        return true, if level <= depth then "Unknown tag 0x" + UpperCase(Hex(tag, 8)) + "\n" else "", next;
    }
  }

  lemma PrefixedTwice(s: string, u: string, r: Result)
    ensures Prefixed(s, Prefixed(u, r)) == Prefixed(s + u, r)
  {
    assert s + (u + r.out) == (s + u) + r.out;
  }

  /** `fdt_print` without a property name; every level it reaches indexes the tab array. */
  method FdtPrint(toks: seq<Token>, nodeoffset: int, depth: int) returns (rc: int, out: string)
    // a path that is found leads to a node, or to the start of the stream, which opens with one
    requires nodeoffset >= 0 ==> nodeoffset <= |toks| && Opens(toks, nodeoffset)
    ensures nodeoffset < 0 ==> rc == 1
    ensures nodeoffset >= 0 ==> Result(rc, out) == Walk(PrintedLines(), toks, nodeoffset, 0, depth)
  {
    if nodeoffset < 0 {
      return 1, "libfdt fdt_path_offset() returned an error\n";
    }
    out := "";
    var i: nat, level := nodeoffset, 0;
    while level >= 0
      invariant i <= |toks| && -1 <= level < MAX_LEVEL
      invariant level == 0 ==> Opens(toks, i)
      invariant level >= 0 ==>
                  Walk(PrintedLines(), toks, nodeoffset, 0, depth) ==
                  Prefixed(out, Walk(PrintedLines(), toks, i, level, depth))
      invariant level == -1 ==> Walk(PrintedLines(), toks, nodeoffset, 0, depth) == Result(0, out)
      decreases level >= 0, |toks| - i
    {
      if i == |toks| {
        return 1, out;
      }
      var stop, s, next := PrintToken(toks[i], level, depth);
      if stop {
        return 1, out + s;
      }
      if next >= 0 {
        PrefixedTwice(out, s, Walk(PrintedLines(), toks, i + 1, next, depth));
      }
      out, i, level := out + s, i + 1, next;
    }
    return 0, out;
  }

  // ---------------------------------------------------------------- the walk refines the recursion

  function Size(items: Items): nat {
    match items
    case Nil => 0
    case PropItem(_, rest) => 1 + Size(rest)
    case NopItem(rest) => 1 + Size(rest)
    case Sub(_, inner, rest) => 2 + Size(inner) + Size(rest)
  }

  /** The stream holds the tokens of `items` from `i` on. */
  predicate Encodes(toks: seq<Token>, i: nat, items: Items)
    decreases items
  {
    && i + Size(items) <= |toks|
    && match items
       case Nil => true
       case PropItem(p, rest) => toks[i] == Property(p) && Encodes(toks, i + 1, rest)
       case NopItem(rest) => toks[i] == Nop && Encodes(toks, i + 1, rest)
       case Sub(name, inner, rest) =>
         && toks[i] == BeginNode(name) && Encodes(toks, i + 1, inner)
         && toks[i + 1 + Size(inner)] == EndNode && Encodes(toks, i + 2 + Size(inner), rest)
  }

  /** A text followed by what comes after it, unless the text broke off. */
  ghost function Onward(t: Text, r: Result): Result {
    if t.whole then Prefixed(t.text, r) else Result(1, t.text)
  }

  lemma OnwardBoth(t: Text, u: Text, r: Result)
    ensures Onward(t, Onward(u, r)) == Onward(Then(t, u), r)
  {
    PrefixedTwice(t.text, u.text, r);
  }

  lemma OnwardNode(open: string, t: Text, close: string, r: Result)
    ensures Prefixed(open, Onward(t, Prefixed(close, r))) == Onward(Then(Text(open, true), Then(t, Text(close, true))),
                                                                    r)
  {
    OnwardBoth(t, Text(close, true), r);
    OnwardBoth(Text(open, true), Then(t, Text(close, true)), r);
  }

  lemma WalkLeaf(ln: Lines, toks: seq<Token>, i: nat, level: nat, depth: int)
    requires i < |toks| && 0 < level < MAX_LEVEL && (toks[i].Nop? || (toks[i].Property? && toks[i].p.len >= 0))
    ensures var s := if toks[i].Nop? then ln.nop(level) else Upto(level, depth, ln.prop(level, toks[i].p));
            Walk(ln, toks, i, level, depth) == Onward(Text(s, true), Walk(ln, toks, i + 1, level, depth))
  {
  }

  lemma WalkOpen(ln: Lines, toks: seq<Token>, i: nat, name: Name, level: nat, depth: int)
    requires i < |toks| && toks[i] == BeginNode(name) && level < MAX_LEVEL
    ensures var open := Upto(level, depth, ln.open(level, name));
            Walk(ln, toks, i, level, depth) ==
            if level + 1 < MAX_LEVEL then Prefixed(open, Walk(ln, toks, i + 1, level + 1, depth))
            else Result(1, open + ABORT)
  {
  }

  /** What follows a node: the rest of its parent, or the end of the walk. */
  ghost function AfterNode(ln: Lines, toks: seq<Token>, i: nat, level: nat, depth: int): Result
    requires i <= |toks| && level < MAX_LEVEL
  {
    if level == 0 then Result(0, "") else Walk(ln, toks, i, level, depth)
  }

  lemma WalkClose(ln: Lines, toks: seq<Token>, i: nat, level: nat, depth: int)
    requires i < |toks| && toks[i] == EndNode && level + 1 < MAX_LEVEL
    ensures Walk(ln, toks, i, level + 1, depth) ==
            Prefixed(Upto(level, depth, ln.close(level)), AfterNode(ln, toks, i + 1, level, depth))
  {
  }

  /** A node whose contents print as they should prints as it should. */
  lemma WalkInside(ln: Lines, toks: seq<Token>, i: nat, name: Name, items: Items, level: nat, depth: int)
    requires level + 1 < MAX_LEVEL && i + 2 + Size(items) <= |toks|
    requires toks[i] == BeginNode(name) && toks[i + 1 + Size(items)] == EndNode
    requires Walk(ln, toks, i + 1, level + 1, depth) ==
             Onward(ItemsText(ln, items, level + 1, depth), Walk(ln, toks, i + 1 + Size(items), level + 1, depth))
    ensures Walk(ln, toks, i, level, depth) ==
            Onward(NodeText(ln, name, items, level, depth), AfterNode(ln, toks, i + 2 + Size(items), level, depth))
  {
    var e := i + 1 + Size(items);
    WalkOpen(ln, toks, i, name, level, depth);
    WalkClose(ln, toks, e, level, depth);
    OnwardNode(Upto(level, depth, ln.open(level, name)), ItemsText(ln, items, level + 1, depth),
               Upto(level, depth, ln.close(level)), AfterNode(ln, toks, e + 1, level, depth));
  }

  lemma {:induction false} WalkItems(ln: Lines, toks: seq<Token>, i: nat, items: Items, level: nat, depth: int)
    requires 0 < level < MAX_LEVEL && WellFormed(items) && Encodes(toks, i, items)
    ensures Walk(ln, toks, i, level, depth) ==
            Onward(ItemsText(ln, items, level, depth), Walk(ln, toks, i + Size(items), level, depth))
    decreases items, 0
  {
    if items != Nil {
      var after := Walk(ln, toks, i + Size(items), level, depth);
      var rest := ItemsText(ln, items.rest, level, depth);
      if items.Sub? {
        WalkNode(ln, toks, i, items.name, items.inner, level, depth);
        WalkItems(ln, toks, i + 2 + Size(items.inner), items.rest, level, depth);
        OnwardBoth(NodeText(ln, items.name, items.inner, level, depth), rest, after);
      } else {
        WalkLeaf(ln, toks, i, level, depth);
        WalkItems(ln, toks, i + 1, items.rest, level, depth);
        OnwardBoth(Text(if items.NopItem? then ln.nop(level) else Upto(level, depth, ln.prop(level, items.p)), true),
                   rest, after);
      }
    }
  }

  lemma WalkNode(ln: Lines, toks: seq<Token>, i: nat, name: Name, items: Items, level: nat, depth: int)
    requires level < MAX_LEVEL && WellFormed(items) && i + 2 + Size(items) <= |toks|
    requires toks[i] == BeginNode(name) && Encodes(toks, i + 1, items) && toks[i + 1 + Size(items)] == EndNode
    ensures Walk(ln, toks, i, level, depth) ==
            Onward(NodeText(ln, name, items, level, depth), AfterNode(ln, toks, i + 2 + Size(items), level, depth))
    decreases items, 1
  {
    if level + 1 < MAX_LEVEL {
      WalkItems(ln, toks, i + 1, items, level + 1, depth);
      WalkInside(ln, toks, i, name, items, level, depth);
    } else {
      WalkOpen(ln, toks, i, name, level, depth);
    }
  }

  // ---------------------------------------------------------------- the nesting limit

  /** The bounded text is the plain one, or a prefix of it closed by `complaint`. */
  ghost predicate CutBy(complaint: string, t: Text, plain: string) {
    if t.whole then t.text == plain else exists n: nat | n <= |t.text| :: EndsIn(complaint, t.text, n, plain)
  }

  predicate EndsIn(complaint: string, s: string, n: nat, plain: string) {
    n <= |s| && s[..n] <= plain && s[n..] == complaint
  }

  ghost predicate Cut(t: Text, plain: string) { CutBy(ABORT, t, plain) }

  lemma CutTail(complaint: string, p: string, s: string, q: string, n: nat)
    requires EndsIn(complaint, s, n, q)
    ensures EndsIn(complaint, p + s, |p| + n, p + q)
  {
    assert (p + s)[..|p| + n] == p + s[..n];
  }

  lemma CutThen(complaint: string, t: Text, p: string, u: Text, q: string)
    requires CutBy(complaint, t, p) && CutBy(complaint, u, q)
    ensures CutBy(complaint, Then(t, u), p + q)
  {
    if t.whole && !u.whole {
      var n: nat :| n <= |u.text| && EndsIn(complaint, u.text, n, q);
      CutTail(complaint, p, u.text, q, n);
    } else if !t.whole {
      var n: nat :| n <= |t.text| && EndsIn(complaint, t.text, n, p);
      assert EndsIn(complaint, t.text, n, p + q);
    }
  }

  lemma {:induction false} ItemsCut(ln: Lines, items: Items, level: nat, depth: int)
    requires 0 < level < MAX_LEVEL
    ensures Cut(ItemsText(ln, items, level, depth), PlainItems(ln, items, level, depth))
    ensures ItemsText(ln, items, level, depth).whole <==> level + Height(items) < MAX_LEVEL
    decreases items, 0
  {
    match items
    case Nil =>
    case PropItem(p, rest) =>
      ItemsCut(ln, rest, level, depth);
      var s := Upto(level, depth, ln.prop(level, p));
      CutThen(ABORT, Text(s, true), s, ItemsText(ln, rest, level, depth), PlainItems(ln, rest, level, depth));
    case NopItem(rest) =>
      ItemsCut(ln, rest, level, depth);
      CutThen(ABORT, Text(ln.nop(level), true), ln.nop(level), ItemsText(ln, rest, level, depth),
              PlainItems(ln, rest, level, depth));
    case Sub(name, inner, rest) =>
      NodeCut(ln, name, inner, level, depth);
      ItemsCut(ln, rest, level, depth);
      CutThen(ABORT, NodeText(ln, name, inner, level, depth), PlainNode(ln, name, inner, level, depth),
              ItemsText(ln, rest, level, depth), PlainItems(ln, rest, level, depth));
  }

  lemma NodeCut(ln: Lines, name: Name, items: Items, level: nat, depth: int)
    requires level < MAX_LEVEL
    ensures Cut(NodeText(ln, name, items, level, depth), PlainNode(ln, name, items, level, depth))
    ensures NodeText(ln, name, items, level, depth).whole <==> level + 1 + Height(items) < MAX_LEVEL
    decreases items, 1
  {
    var open, close := Upto(level, depth, ln.open(level, name)), Upto(level, depth, ln.close(level));
    if level + 1 < MAX_LEVEL {
      ItemsCut(ln, items, level + 1, depth);
      var t, p := ItemsText(ln, items, level + 1, depth), PlainItems(ln, items, level + 1, depth);
      CutThen(ABORT, t, p, Text(close, true), close);
      CutThen(ABORT, Text(open, true), open, Then(t, Text(close, true)), p + close);
    } else {
      assert EndsIn(ABORT, open + ABORT, |open|, PlainNode(ln, name, items, level, depth));
    }
  }

  lemma {:induction false} TokensSize(items: Items)
    ensures |Tokens(items)| == Size(items)
  {
    match items
    case Nil =>
    case PropItem(_, rest) => TokensSize(rest);
    case NopItem(rest) => TokensSize(rest);
    case Sub(_, inner, rest) =>
      TokensSize(inner);
      TokensSize(rest);
  }

  /** `part` stands in the stream from `i` on. */
  predicate Stands(toks: seq<Token>, i: nat, part: seq<Token>) {
    i + |part| <= |toks| && forall k | 0 <= k < |part| :: toks[i + k] == part[k]
  }

  lemma StandsBoth(toks: seq<Token>, i: nat, part: seq<Token>, more: seq<Token>)
    ensures Stands(toks, i, part + more) <==> Stands(toks, i, part) && Stands(toks, i + |part|, more)
  {
    if Stands(toks, i, part + more) {
      assert forall k | 0 <= k < |part| :: (part + more)[k] == part[k];
      forall k | 0 <= k < |more| ensures toks[i + |part| + k] == more[k] {
        assert (part + more)[|part| + k] == more[k];
      }
    }
  }

  lemma StandsOne(toks: seq<Token>, i: nat, t: Token)
    requires Stands(toks, i, [t])
    ensures i < |toks| && toks[i] == t
  {
    assert [t][0] == t;
  }

  lemma LeafStands(toks: seq<Token>, i: nat, t: Token, more: seq<Token>)
    requires Stands(toks, i, [t] + more)
    ensures i < |toks| && toks[i] == t && Stands(toks, i + 1, more)
  {
    StandsBoth(toks, i, [t], more);
    StandsOne(toks, i, t);
  }

  lemma NodeStands(toks: seq<Token>, i: nat, open: Token, body: seq<Token>, close: Token, more: seq<Token>)
    requires Stands(toks, i, [open] + body + [close] + more)
    ensures var e := i + 1 + |body|;
            && e < |toks| && toks[i] == open && toks[e] == close
            && Stands(toks, i + 1, body) && Stands(toks, e + 1, more)
  {
    StandsBoth(toks, i, [open] + body + [close], more);
    StandsBoth(toks, i, [open] + body, [close]);
    StandsBoth(toks, i, [open], body);
    StandsOne(toks, i, open);
    StandsOne(toks, i + 1 + |body|, close);
  }

  /** The tokens of a tree, wherever they stand in the stream, are an encoding of it. */
  lemma {:induction false} TokensEncode(toks: seq<Token>, i: nat, items: Items)
    requires Stands(toks, i, Tokens(items))
    ensures Encodes(toks, i, items)
    decreases items
  {
    TokensSize(items);
    match items
    case Nil =>
    case PropItem(p, rest) =>
      LeafStands(toks, i, Property(p), Tokens(rest));
      TokensEncode(toks, i + 1, rest);
    case NopItem(rest) =>
      LeafStands(toks, i, Nop, Tokens(rest));
      TokensEncode(toks, i + 1, rest);
    case Sub(name, inner, rest) =>
      TokensSize(inner);
      NodeStands(toks, i, BeginNode(name), Tokens(inner), EndNode, Tokens(rest));
      TokensEncode(toks, i + 1, inner);
      TokensEncode(toks, i + 2 + Size(inner), rest);
  }

  lemma NodeWithin(pre: seq<Token>, open: Token, body: seq<Token>, close: Token, post: seq<Token>)
    ensures var toks, e := pre + ([open] + body + [close]) + post, |pre| + 1 + |body|;
            e < |toks| && toks[|pre|] == open && toks[e] == close && Stands(toks, |pre| + 1, body)
  {
  }

  lemma RootWithin(pre: seq<Token>, nops: nat, open: Token, body: seq<Token>, close: Token, post: seq<Token>)
    ensures var toks, i := pre + seq(nops, _ => Nop) + ([open] + body + [close]) + post, |pre| + nops;
            && i + 1 + |body| < |toks| && toks[i] == open && toks[i + 1 + |body|] == close && Stands(toks, i + 1, body)
            && forall k | |pre| <= k < i :: toks[k] == Nop
  {
    NodeWithin(pre + seq(nops, _ => Nop), open, body, close, post);
  }

  lemma Concluded(t: Text, plain: string)
    requires Cut(t, plain)
    ensures var r := Onward(t, Result(0, ""));
            if t.whole then r == Result(0, plain) else r.rc == 1 && Cut(Text(r.out, false), plain)
  {
    assert t.text + "" == t.text;
  }

  /** A tree of `height` nested nodes that should print as `plain` did so, or broke off with a complaint. */
  ghost predicate Concludes(r: Result, plain: string, height: nat) {
    if height <= 31 then r == Result(0, plain) else r.rc == 1 && Cut(Text(r.out, false), plain)
  }

  lemma ConcludesAfter(lead: string, r: Result, plain: string, height: nat)
    requires Concludes(r, plain, height)
    ensures Concludes(Prefixed(lead, r), lead + plain, height)
  {
    if height > 31 { CutAfter(lead, r.out, plain); }
  }

  lemma WalkTop(ln: Lines, toks: seq<Token>, i: nat, name: Name, items: Items, level: nat, depth: int)
    requires WellFormed(items) && level == 0 && i + 1 + |Tokens(items)| < |toks|
    requires toks[i] == BeginNode(name) && Stands(toks, i + 1, Tokens(items))
    requires toks[i + 1 + |Tokens(items)|] == EndNode
    ensures Concludes(Walk(ln, toks, i, level, depth), PlainNode(ln, name, items, level, depth), 1 + Height(items))
  {
    TokensSize(items);
    TokensEncode(toks, i + 1, items);
    WalkNode(ln, toks, i, name, items, level, depth);
    NodeCut(ln, name, items, level, depth);
    Concluded(NodeText(ln, name, items, level, depth), PlainNode(ln, name, items, level, depth));
  }

  function Repeat(s: string, n: nat): string {
    if n == 0 then "" else s + Repeat(s, n - 1)
  }

  lemma NopStep(ln: Lines, toks: seq<Token>, i: nat, level: nat, depth: int)
    requires i < |toks| && toks[i] == Nop && level == 0 && Opens(toks, i + 1)
    ensures Opens(toks, i)
    ensures Walk(ln, toks, i, level, depth) == Prefixed(ln.nop(level), Walk(ln, toks, i + 1, level, depth))
  {
  }

  /** NOPs before the root node are printed one after the other. */
  lemma {:induction false} LeadingNops(ln: Lines, toks: seq<Token>, i: nat, n: nat, level: nat, depth: int)
    requires level == 0 && i + n < |toks| && toks[i + n].BeginNode? && forall k | i <= k < i + n :: toks[k] == Nop
    ensures Opens(toks, i)
    ensures Walk(ln, toks, i, level, depth) == Prefixed(Repeat(ln.nop(level), n), Walk(ln, toks, i + n, level, depth))
    decreases n
  {
    if n > 0 {
      LeadingNops(ln, toks, i + 1, n - 1, level, depth);
      NopStep(ln, toks, i, level, depth);
      PrefixedTwice(ln.nop(level), Repeat(ln.nop(level), n - 1), Walk(ln, toks, i + n, level, depth));
    }
  }

  lemma CutAfter(lead: string, s: string, plain: string)
    requires Cut(Text(s, false), plain)
    ensures Cut(Text(lead + s, false), lead + plain)
  {
    var n: nat :| n <= |s| && EndsIn(ABORT, s, n, plain);
    CutTail(ABORT, lead, s, plain, n);
  }

  /** A root node behind `nops` NOPs. */
  lemma WalkRoot(ln: Lines, toks: seq<Token>, i: nat, nops: nat, level: nat, depth: int, plain: string, height: nat)
    requires level == 0 && i + nops < |toks| && toks[i + nops].BeginNode?
    requires forall k | i <= k < i + nops :: toks[k] == Nop
    requires Concludes(Walk(ln, toks, i + nops, level, depth), plain, height)
    ensures Opens(toks, i)
    ensures Concludes(Walk(ln, toks, i, level, depth), Repeat(ln.nop(level), nops) + plain, height)
  {
    LeadingNops(ln, toks, i, nops, level, depth);
    ConcludesAfter(Repeat(ln.nop(level), nops), Walk(ln, toks, i + nops, level, depth), plain, height);
  }

  /**
    For every stream that holds a node's tokens at `|pre|`, behind any number
    of NOPs: a tree of at most 31 nested nodes is printed exactly as the
    recursive printer does, with return code 0; a deeper one prints a prefix of
    that text and a complaint, with return code 1.
   */
  lemma WalkPrintsTree(ln: Lines, pre: seq<Token>, nops: nat, name: Name, items: Items, post: seq<Token>, depth: int)
    requires WellFormed(items)
    ensures var toks := pre + seq(nops, _ => Nop) + NodeTokens(name, items) + post;
            var plain := Repeat(ln.nop(0), nops) + PlainNode(ln, name, items, 0, depth);
            && Opens(toks, |pre|)
            && Concludes(Walk(ln, toks, |pre|, 0, depth), plain, 1 + Height(items))
  {
    var toks := pre + seq(nops, _ => Nop) + NodeTokens(name, items) + post;
    RootWithin(pre, nops, BeginNode(name), Tokens(items), EndNode, post);
    WalkTop(ln, toks, |pre| + nops, name, items, 0, depth);
    WalkRoot(ln, toks, |pre|, nops, 0, depth, PlainNode(ln, name, items, 0, depth), 1 + Height(items));
  }
}
