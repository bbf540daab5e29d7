/**
  The words of `ethsw`, said without its tables: what a number and an address
  look like on the command line, what the help text promises, and where each
  parameter ends up.
 */
module EthswLanguage {
  import opened Bytes
  import opened EthswParser
  import opened EthswTables
  import opened EthswWords
  import opened Numerals
  import opened Strto

  // ---------------------------------------------------------------- numbers and addresses

  /** A number is a decimal numeral, with a newline behind it or not; its value is what the numeral denotes. */
  lemma NumberIff(w: string, n: nat)
    ensures NumberOf(w) == Just(n) <==>
            || (w != "" && Denotes(w, 10, n))
            || (|w| > 1 && w[|w| - 1] == '\n' && Denotes(w[..|w| - 1], 10, n))
  {
    DigitsDenote(w, 0, 10, 0, Strtoul(w, 0, 10));
    assert w[..|w|] == w;
    if w != "" && Denotes(w, 10, n) {
      NumberRead(w, w, n);
    }
    if |w| > 1 && w[|w| - 1] == '\n' && Denotes(w[..|w| - 1], 10, n) {
      NumberRead(w, w[..|w| - 1], n);
    }
  }

  lemma NumberRead(w: string, digits: string, n: nat)
    requires digits <= w && Denotes(digits, 10, n) && (|digits| < |w| ==> w[|digits|] == '\n')
    ensures Strtoul(w, 0, 10) == Number(n, |digits|)
  {
    assert w[0..0 + |digits|] == digits;
    assert Stops(w, |digits|, 10);
    NumeralRead(w, 0, digits, 10, n);
  }

  /** What `%d` prints is read back. */
  lemma DecimalIsNumber(n: nat)
    ensures NumberOf(Decimal(n)) == Just(n)
  {
    DecimalDenotes(n);
    NumberIff(Decimal(n), n);
  }

  /** One or two hexadecimal digits for each byte, and colons between them. */
  predicate AreDigits(ws: seq<string>, bs: seq<byte>) {
    |ws| == |bs| == 6 && forall i | 0 <= i < 6 :: 1 <= |ws[i]| <= 2 && Denotes(ws[i], 16, bs[i])
  }

  function AddressText(ws: seq<string>, i: nat): string
    requires |ws| == 6 && i < 6
    decreases 6 - i
  {
    if i == 5 then ws[5] else ws[i] + ":" + AddressText(ws, i + 1)
  }

  /** A field of the address ends at `e`, and both readers agree on it. */
  predicate IsField(s: string, at: nat, b: byte, e: nat) {
    at < e <= |s| && SkipNum(s, at) == e && !HexPrefix(s, at) && Strtoul(s, at, 16) == Number(b, e)
  }

  /** The digits of a byte that end at `e`, as both readers see them. */
  lemma ByteRead(s: string, at: nat, w: string, b: byte, e: nat)
    requires 1 <= |w| <= 2 && Denotes(w, 16, b) && TextAt(s, at, w) && e == at + |w| && CharAt(s, e) in [':', NUL]
    ensures IsField(s, at, b, e)
  {
    TextAtIndex(s, at, w, 0);
    var _ := DigitAt(w, 16, b, 0);
    if |w| == 2 {
      TextAtIndex(s, at, w, 1);
      var _ := DigitAt(w, 16, b, 1);
    }
    NoDigitStops(s, e);
    NumeralRead(s, at, w, 16, b);
  }

  lemma TailSplit(s: string, at: nat, w: string, rest: string, e: nat)
    requires at <= |s| && s[at..] == w + ":" + rest && e == at + |w|
    ensures e < |s| && TextAt(s, at, w) && s[e] == ':' && s[e + 1..] == rest
  {
    var tail := s[at..];
    assert s[at..e] == tail[..|w|] == w;
    assert s[e] == tail[|w|];
    assert s[e + 1..] == tail[|w| + 1..] == rest;
  }

  /** Where the digits of byte `k` stand. */
  function Pos(ws: seq<string>, k: nat): nat
    requires k <= |ws|
  {
    if k == 0 then 0 else Pos(ws, k - 1) + |ws[k - 1]| + 1
  }

  lemma {:induction false} TailAt(s: string, ws: seq<string>, k: nat)
    requires |ws| == 6 && k < 6 && s == AddressText(ws, 0)
    ensures Pos(ws, k) <= |s| && s[Pos(ws, k)..] == AddressText(ws, k)
  {
    if k == 0 {
      assert s[0..] == s;
    } else {
      TailAt(s, ws, k - 1);
      TailSplit(s, Pos(ws, k - 1), ws[k - 1], AddressText(ws, k), Pos(ws, k - 1) + |ws[k - 1]|);
    }
  }

  lemma FieldAt(s: string, ws: seq<string>, bs: seq<byte>, k: nat) returns (at: nat, e: nat)
    requires AreDigits(ws, bs) && k < 6 && s == AddressText(ws, 0)
    ensures at == Pos(ws, k) && e + 1 == Pos(ws, k + 1) && IsField(s, at, bs[k], e)
    ensures if k < 5 then e < |s| && s[e] == ':' else e == |s|
  {
    at, e := Pos(ws, k), Pos(ws, k) + |ws[k]|;
    TailAt(s, ws, k);
    if k < 5 {
      TailSplit(s, at, ws[k], AddressText(ws, k + 1), e);
    } else {
      assert s[at..e] == s[at..];
    }
    ByteRead(s, at, ws[k], bs[k], e);
  }

  lemma {:induction false} FieldsValid(s: string, ws: seq<string>, bs: seq<byte>, i: nat, at: nat)
    requires AreDigits(ws, bs) && i < 6 && s == AddressText(ws, 0) && at == Pos(ws, i)
    ensures ValidFrom(s, at, i)
    decreases 6 - i
  {
    var _, e := FieldAt(s, ws, bs, i);
    if i < 5 { FieldsValid(s, ws, bs, i + 1, e + 1); }
  }

  /** Number `k` stands at `at[k]` and ends at `ends[k]`, one character before the next. */
  predicate IsNumberAt(read: nat -> Number, size: nat, at: seq<nat>, ends: seq<nat>, bs: seq<byte>, k: nat)
    requires |at| == |ends| == |bs| == 6 && k < 6
  {
    && read(at[k]) == Number(bs[k], ends[k])
    && if k < 5 then ends[k] < size && at[k + 1] == ends[k] + 1 else ends[k] == size
  }

  lemma BytesStep(read: nat -> Number, size: nat, at: seq<nat>, ends: seq<nat>, bs: seq<byte>, k: nat)
    requires |at| == |ends| == |bs| == 6 && k < 6 && IsNumberAt(read, size, at, ends, bs, k)
    requires k < 5 ==> BytesOf(read, size, at[k + 1], k + 1) == bs[k + 1..]
    ensures BytesOf(read, size, at[k], k) == bs[k..]
  {
    assert bs[k..] == [bs[k]] + bs[k + 1..];
  }

  lemma {:induction false} NumbersRead(read: nat -> Number, size: nat, at: seq<nat>, ends: seq<nat>, bs: seq<byte>,
                                       i: nat)
    requires |at| == |ends| == |bs| == 6 && i < 6
    requires forall k: nat | k < 6 :: IsNumberAt(read, size, at, ends, bs, k)
    ensures BytesOf(read, size, at[i], i) == bs[i..]
    decreases 6 - i
  {
    if i < 5 { NumbersRead(read, size, at, ends, bs, i + 1); }
    BytesStep(read, size, at, ends, bs, i);
  }

  /** Six bytes in hexadecimal, with colons between them, are read back in order. */
  lemma AddressIsRead(ws: seq<string>, bs: seq<byte>)
    requires AreDigits(ws, bs)
    ensures AddressOf(AddressText(ws, 0)) == Just(bs)
  {
    var s := AddressText(ws, 0);
    var at := seq(6, k requires 0 <= k < 6 => Pos(ws, k));
    var ends := seq(6, k requires 0 <= k < 6 => Pos(ws, k) + |ws[k]|);
    FieldsValid(s, ws, bs, 0, 0);
    forall k: nat | k < 6 ensures IsNumberAt(HexIn(s), |s|, at, ends, bs, k) {
      var _, _ := FieldAt(s, ws, bs, k);
    }
    NumbersRead(HexIn(s), |s|, at, ends, bs, 0);
    assert bs[0..] == bs;
  }

  // ---------------------------------------------------------------- the language in words

  /** A word of a command: a literal one, a number or an address. */
  datatype Place = Literally(w: string) | ANumber | AnAddress

  /** The commands of the help text, each with the number of its row. */
  function Usage(row: nat): seq<Place>
    requires row < 51
  {
    match row
    case 0 => [Literally("enable")]
    case 1 => [Literally("disable")]
    case 2 => [Literally("show")]
    case 3 => [Literally("statistics"), Literally("help")]
    case 4 => [Literally("statistics")]
    case 5 => [Literally("statistics"), Literally("clear")]
    case 6 => [Literally("learning")]
    case 7 => [Literally("learning"), Literally("help")]
    case 8 => [Literally("learning"), Literally("show")]
    case 9 => [Literally("learning"), Literally("auto")]
    case 10 => [Literally("learning"), Literally("disable")]
    case 11 => [Literally("fdb")]
    case 12 => [Literally("fdb"), Literally("help")]
    case 13 => [Literally("fdb"), Literally("show")]
    case 14 => [Literally("fdb"), Literally("flush")]
    case 15 => [Literally("fdb"), Literally("add"), AnAddress]
    case 16 => [Literally("fdb"), Literally("del"), AnAddress]
    case 17 => [Literally("pvid")]
    case 18 => [Literally("pvid"), Literally("help")]
    case 19 => [Literally("pvid"), Literally("show")]
    case 20 => [Literally("pvid"), ANumber]
    case 21 => [Literally("vlan")]
    case 22 => [Literally("vlan"), Literally("help")]
    case 23 => [Literally("vlan"), Literally("show")]
    case 24 => [Literally("vlan"), Literally("add"), ANumber]
    case 25 => [Literally("vlan"), Literally("del"), ANumber]
    case 26 => [Literally("untagged")]
    case 27 => [Literally("untagged"), Literally("help")]
    case 28 => [Literally("untagged"), Literally("show")]
    case 29 => [Literally("untagged"), Literally("all")]
    case 30 => [Literally("untagged"), Literally("none")]
    case 31 => [Literally("untagged"), Literally("pvid")]
    case 32 => [Literally("egress"), Literally("tag")]
    case 33 => [Literally("egress"), Literally("tag"), Literally("help")]
    case 34 => [Literally("egress"), Literally("tag"), Literally("show")]
    case 35 => [Literally("egress"), Literally("tag"), Literally("pvid")]
    case 36 => [Literally("egress"), Literally("tag"), Literally("classified")]
    case 37 => [Literally("vlan"), Literally("fdb")]
    case 38 => [Literally("vlan"), Literally("fdb"), Literally("help")]
    case 39 => [Literally("vlan"), Literally("fdb"), Literally("show")]
    case 40 => [Literally("vlan"), Literally("fdb"), Literally("shared")]
    case 41 => [Literally("vlan"), Literally("fdb"), Literally("private")]
    case 42 => [Literally("ingress"), Literally("filtering")]
    case 43 => [Literally("ingress"), Literally("filtering"), Literally("help")]
    case 44 => [Literally("ingress"), Literally("filtering"), Literally("show")]
    case 45 => [Literally("ingress"), Literally("filtering"), Literally("enable")]
    case 46 => [Literally("ingress"), Literally("filtering"), Literally("disable")]
    case 47 => [Literally("aggr")]
    case 48 => [Literally("aggr"), Literally("help")]
    case 49 => [Literally("aggr"), Literally("show")]
    case _ => [Literally("aggr"), ANumber]
  }

  /** In front of a command: nothing, a port, a VLAN, or both. */
  function Front(o: nat): seq<Place>
    requires o <= 3
  {
    match o
    case 0 => [Literally("port"), ANumber]
    case 1 => [Literally("vlan"), ANumber]
    case 2 => [Literally("port"), ANumber, Literally("vlan"), ANumber]
    case _ => []
  }

  /** The address of all ones is not taken. */
  predicate Accepts(p: Place, w: string) {
    match p
    case Literally(name) => w == name
    case ANumber => NumberOf(w).Just?
    case AnAddress => AddressOf(w).Just? && !forall k | 0 <= k < |AddressOf(w).value| :: AddressOf(w).value[k] == 0xFF
  }

  /** The words behind the name of the command are what `ps` asks for. */
  predicate Reads(ws: seq<string>, ps: seq<Place>) {
    |ws| == |ps| + 1 && forall k | 0 <= k < |ps| :: Accepts(ps[k], ws[k + 1])
  }

  /** The key of the tables for a word of the language. */
  predicate IsKeyFor(p: Place, k: Key) {
    match p
    case Literally(name) => k.Keyword? && k.id < KEYWORD_COUNT && Name(k.id) == name
    case ANumber => k.Parameter? && k != ADD_DEL_MAC
    case AnAddress => k == ADD_DEL_MAC
  }

  predicate AreKeysFor(ps: seq<Place>, ks: seq<Key>) {
    |ps| == |ks| && forall i | 0 <= i < |ps| :: IsKeyFor(ps[i], ks[i])
  }

  /** The words of a row, one by one. */
  predicate IsUsage(ps: seq<Place>, p: Pattern) {
    match p
    case One(a) => |ps| == 1 && IsKeyFor(ps[0], a)
    case Two(a, b) => |ps| == 2 && IsKeyFor(ps[0], a) && IsKeyFor(ps[1], b)
    case Three(a, b, c) => |ps| == 3 && IsKeyFor(ps[0], a) && IsKeyFor(ps[1], b) && IsKeyFor(ps[2], c)
  }

  lemma PortRows(row: nat)
    requires 0 <= row < 6
    ensures IsUsage(Usage(row), Row(row))
  {
  }

  lemma LearningRows(row: nat)
    requires 6 <= row < 11
    ensures IsUsage(Usage(row), Row(row))
  {
  }

  lemma FdbRows(row: nat)
    requires 11 <= row < 17
    ensures IsUsage(Usage(row), Row(row))
  {
  }

  lemma PvidRows(row: nat)
    requires 17 <= row < 21
    ensures IsUsage(Usage(row), Row(row))
  {
  }

  lemma VlanRows(row: nat)
    requires 21 <= row < 26
    ensures IsUsage(Usage(row), Row(row))
  {
  }

  lemma UntaggedRows(row: nat)
    requires 26 <= row < 32
    ensures IsUsage(Usage(row), Row(row))
  {
  }

  lemma TagRows(row: nat)
    requires 32 <= row < 37
    ensures IsUsage(Usage(row), Row(row))
  {
  }

  lemma VlanFdbRows(row: nat)
    requires 37 <= row < 42
    ensures IsUsage(Usage(row), Row(row))
  {
  }

  lemma FilteringRows(row: nat)
    requires 42 <= row < 47
    ensures IsUsage(Usage(row), Row(row))
  {
  }

  lemma AggrRows(row: nat)
    requires 47 <= row < 51
    ensures IsUsage(Usage(row), Row(row))
  {
  }

  /** The help text and the table say the same. */
  lemma RowIsUsage(row: nat)
    requires row < 51
    ensures row < ROWS && IsUsage(Usage(row), Row(row))
  {
    if row < 6 {
      PortRows(row);
    } else if row < 11 {
      LearningRows(row);
    } else if row < 17 {
      FdbRows(row);
    } else if row < 21 {
      PvidRows(row);
    } else if row < 26 {
      VlanRows(row);
    } else if row < 32 {
      UntaggedRows(row);
    } else if row < 37 {
      TagRows(row);
    } else if row < 42 {
      VlanFdbRows(row);
    } else if row < 47 {
      FilteringRows(row);
    } else {
      AggrRows(row);
    }
  }

  lemma UsageKeys(ps: seq<Place>, p: Pattern)
    requires IsUsage(ps, p)
    ensures AreKeysFor(ps, p.Keys())
  {
  }

  lemma FrontIsPrefix(o: nat)
    requires o <= 3
    ensures AreKeysFor(Front(o), OptionalPart(o))
  {
  }

  lemma FitsIff(p: Place, k: Key, w: string)
    requires IsKeyFor(p, k)
    ensures EthswParser.Fits(StandardLexicon(), w, k) <==> Accepts(p, w)
  {
  }

  lemma SpellsIff(ws: seq<string>, ps: seq<Place>, ks: seq<Key>)
    requires AreKeysFor(ps, ks)
    ensures Spells(StandardLexicon(), ws, ks) <==> Reads(ws, ps)
  {
    forall k | 0 <= k < |ps| && |ws| == |ps| + 1
      ensures EthswParser.Fits(StandardLexicon(), ws[k + 1], ks[k]) <==> Accepts(ps[k], ws[k + 1])
    {
      FitsIff(ps[k], ks[k], ws[k + 1]);
    }
  }

  /** Words are the command of a row exactly if they are a front part and the words of the help text. */
  lemma CommandIff(ws: seq<string>, row: nat)
    requires row < 51
    ensures row < ROWS
    ensures IsCommand(StandardLexicon(), ws, row) <==> exists o: nat :: o <= 3 && Reads(ws, Front(o) + Usage(row))
  {
    RowIsUsage(row);
    UsageKeys(Usage(row), Row(row));
    forall o: nat | o <= 3
      ensures Spells(StandardLexicon(), ws, OptionalPart(o) + Row(row).Keys()) <==> Reads(ws, Front(o) + Usage(row))
    {
      FrontIsPrefix(o);
      SpellsIff(ws, Front(o) + Usage(row), OptionalPart(o) + Row(row).Keys());
    }
  }

  /** A row prints help if its last word is `help` or it names a group of settings and asks for nothing. */
  lemma HelpRows(row: nat)
    requires row < 51
    ensures PrintsHelp(row) <==>
            || Usage(row)[|Usage(row)| - 1] == Literally("help")
            || row in {6, 11, 17, 21, 26, 32, 37, 42, 47}
  {
    assert "help"[0] == 'h' && "help"[3] == 'p';
  }

  // ---------------------------------------------------------------- where the parameters end up

  lemma {:induction false} SkipKeys(lex: Lexicon, ws: seq<string>, keys: seq<Key>, slot: Slot, m: nat, n: nat)
    requires 1 <= m <= n <= |ws| <= |keys| && forall k | m <= k < n :: !InSlot(slot, keys[k])
    ensures LastNumber(lex, ws, keys, slot, n) == LastNumber(lex, ws, keys, slot, m)
  {
    if m < n { SkipKeys(lex, ws, keys, slot, m, n - 1); }
  }

  /** The only parameter of a row is its last word, in six rows. */
  lemma RowParameter(row: nat)
    requires row < ROWS
    ensures var ks := Row(row).Keys();
            && ks != [] && (forall k | 0 <= k < |ks| - 1 :: ks[k].Keyword?)
            && var last := ks[|ks| - 1];
               if row in {15, 16} then last == ADD_DEL_MAC
               else if row == 20 then last == PVID_NO
               else if row in {24, 25} then last == ADD_DEL_NO
               else if row == 50 then last == AGGR_NO
               else last.Keyword?
  {
    assert GoodRow(Row(row)) && RowOf(Row(row)) == row;
  }

  /** The number at word `at`, or -1 for none. */
  function NumberAt(lex: Lexicon, ws: seq<string>, at: nat): int {
    if 0 < at < |ws| && lex.number(ws[at]).Just? then lex.number(ws[at]).value else -1
  }

  /** Where the word of a slot stands in the front part of a command; 0 for nowhere. */
  function InFront(slot: Slot, o: nat): nat {
    match slot
    case PortSlot => if o == 0 || o == 2 then 2 else 0
    case VidSlot => if o == 1 then 2 else if o == 2 then 4 else 0
    case AggrSlot => 0
  }

  /** The rows whose last word is the number of a slot: `aggr` for the group; `pvid`, `vlan add`, `vlan del`. */
  predicate AtEnd(slot: Slot, row: nat) {
    match slot
    case PortSlot => false
    case VidSlot => row in {20, 24, 25}
    case AggrSlot => row == 50
  }

  lemma FrontNumber(lex: Lexicon, ws: seq<string>, keys: seq<Key>, slot: Slot, o: nat, m: nat)
    requires o <= 3 && m == |OptionalPart(o)| + 1 && m <= |ws| <= |keys|
    requires forall k | 1 <= k < m :: keys[k] == OptionalPart(o)[k - 1] && EthswParser.Fits(lex, ws[k], keys[k])
    ensures LastNumber(lex, ws, keys, slot, m) == NumberAt(lex, ws, InFront(slot, o))
  {
    assert LastNumber(lex, ws, keys, slot, 1) == -1;
    if o < 3 {
      assert keys[1] == Prefix(o)[0] && keys[2] == Prefix(o)[1];
      assert LastNumber(lex, ws, keys, slot, 2) == -1;
      if o == 2 {
        assert keys[3] == VLAN && keys[4] == VLAN_NO;
        assert LastNumber(lex, ws, keys, slot, 4) == LastNumber(lex, ws, keys, slot, 3);
      }
    }
  }

  /** The keys of the words of a command: its front part, then its row. */
  predicate AreKeys(lex: Lexicon, ws: seq<string>, keys: seq<Key>, pre: seq<Key>, ks: seq<Key>) {
    && ks != [] && |keys| == |ws| == |pre| + |ks| + 1
    && (forall k | 1 <= k <= |pre| :: keys[k] == pre[k - 1])
    && (forall k | |pre| < k < |ws| :: keys[k] == ks[k - 1 - |pre|])
    && (forall k | 1 <= k < |ws| :: EthswParser.Fits(lex, ws[k], keys[k]))
  }

  lemma SlotIs(lex: Lexicon, ws: seq<string>, o: nat, row: nat, keys: seq<Key>, slot: Slot)
    requires o <= 3 && row < ROWS && AreKeys(lex, ws, keys, OptionalPart(o), Row(row).Keys())
    ensures LastNumber(lex, ws, keys, slot, |ws|) ==
            NumberAt(lex, ws, if AtEnd(slot, row) then |ws| - 1 else InFront(slot, o))
  {
    var pre, ks := OptionalPart(o), Row(row).Keys();
    RowParameter(row);
    assert keys[|ws| - 1] == ks[|ks| - 1] && EthswParser.Fits(lex, ws[|ws| - 1], keys[|ws| - 1]);
    if !AtEnd(slot, row) {
      SkipKeys(lex, ws, keys, slot, |pre| + 1, |ws|);
      FrontNumber(lex, ws, keys, slot, o, |pre| + 1);
    }
  }

  lemma AddressAtEnd(lex: Lexicon, ws: seq<string>, o: nat, row: nat, keys: seq<Key>)
    requires o <= 3 && row < ROWS && AreKeys(lex, ws, keys, OptionalPart(o), Row(row).Keys())
    ensures LastAddress(lex, ws, keys, |ws|) == if row in {15, 16} then lex.address(ws[|ws| - 1]) else Nothing
  {
    var ks := Row(row).Keys();
    RowParameter(row);
    assert keys[|ws| - 1] == ks[|ks| - 1];
    if row !in {15, 16} {
      LastAddressIs(lex, ws, keys, |ws|, Nothing);
    }
  }

  /**
    What a command is called with: the port behind `port`; the VLAN at the end
    of `pvid`, `vlan add` and `vlan del` or else behind `vlan` in front; the
    group behind `aggr`; the address at the end of `fdb add` and `fdb del`.
    Whatever a command does not name is -1.
   */
  lemma ArgumentsAre(lex: Lexicon, ws: seq<string>, o: nat, row: nat)
    requires o <= 3 && row < ROWS && Spells(lex, ws, OptionalPart(o) + Row(row).Keys())
    ensures var last := |ws| - 1;
            var vlan := if o == 1 then 2 else if o == 2 then 4 else 0;
            ArgumentsOf(lex, ws, OptionalPart(o) + Row(row).Keys()) ==
            Arguments(NumberAt(lex, ws, if o == 0 || o == 2 then 2 else 0),
                      NumberAt(lex, ws, if row in {20, 24, 25} then last else vlan),
                      NumberAt(lex, ws, if row == 50 then last else 0),
                      if row in {15, 16} then lex.address(ws[last]) else Nothing)
  {
    var pre, ks := OptionalPart(o), Row(row).Keys();
    var keys := [KeyEnd] + (pre + ks);
    RowParameter(row);
    assert forall k | 1 <= k < |ws| :: keys[k] == (pre + ks)[k - 1];
    forall k | 1 <= k < |ws| ensures EthswParser.Fits(lex, ws[k], keys[k]) {
      assert EthswParser.Fits(lex, ws[k - 1 + 1], (pre + ks)[k - 1]);
    }
    SlotIs(lex, ws, o, row, keys, PortSlot);
    SlotIs(lex, ws, o, row, keys, VidSlot);
    SlotIs(lex, ws, o, row, keys, AggrSlot);
    AddressAtEnd(lex, ws, o, row, keys);
  }
}
