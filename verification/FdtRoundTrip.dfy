/** The printer and the parser of property values undo each other. */
module FdtRoundTrip {
  import opened Bytes
  import opened FdtValues
  import opened Numerals
  import opened Strto

  // ---------------------------------------------------------------- reading printed numbers

  function Pow16(n: nat): nat {
    if n == 0 then 1 else 16 * Pow16(n - 1)
  }

  /** What the printer writes for a number is a numeral of it. */
  lemma {:induction false} HexDenotes(v: nat, n: nat)
    requires v < Pow16(n)
    ensures Denotes(Hex(v, n), 16, v)
  {
    if n > 0 {
      HexDenotes(v / 16, n - 1);
      assert Hex(v, n)[..n - 1] == Hex(v / 16, n - 1);
    }
  }

  lemma ByteNumber(t: string, i: nat, b: byte)
    requires TextAt(t, i, Hex(b, 2)) && i + 2 < |t| && !IsXDigit(t[i + 2])
    ensures Strtoul(t, i, 16) == Number(b, i + 2) && IsXDigit(t[i])
  {
    TextAtIndex(t, i, Hex(b, 2), 0);
    TextAtIndex(t, i, Hex(b, 2), 1);
    assert Pow16(2) == 256;
    HexDenotes(b, 2);
    NoDigitStops(t, i + 2);
    NumeralRead(t, i, Hex(b, 2), 16, b);
  }

  // ---------------------------------------------------------------- cells

  predicate IsGap(c: char) { c == ' ' || c == NUL }

  /** Items are followed by a space or an argument break; the last one by the closing bracket. */
  predicate GoodSeps(seps: seq<char>, close: char) {
    && seps != [] && seps[|seps| - 1] == close
    && forall k | 0 <= k < |seps| - 1 :: IsGap(seps[k])
  }

  predicate GoodCells(cells: seq<Cell>) {
    forall k | 0 <= k < |cells| :: cells[k].Num? ==> cells[k].v < Pow256(CELL)
  }

  /** The buffer after one cell was stored at `len`. */
  function Put(buf: seq<byte>, len: nat, c: Cell): (r: seq<byte>)
    requires len + CELL <= |buf|
    ensures |r| == |buf|
  {
    if c.Num? then Overwrite(buf, len, BigEndianBytes(c.v, CELL)) else buf
  }

  /** The buffer after the cells from the `k`-th on were stored at `len`. */
  function Stored(buf: seq<byte>, len: nat, cells: seq<Cell>, k: nat): (r: seq<byte>)
    requires k <= |cells| && len + 4 * (|cells| - k) <= |buf|
    ensures |r| == |buf|
    decreases |cells| - k
  {
    if k == |cells| then buf else Stored(Put(buf, len, cells[k]), len + CELL, cells, k + 1)
  }

  /** A cell as it may be typed: any numeral of C, or `?`. */
  predicate Spelled(w: string, c: Cell) {
    match c
    case Num(v) => CNumeral(w, v)
    case Keep => w == "?"
  }

  predicate AllSpelled(words: seq<string>, cells: seq<Cell>) {
    |words| == |cells| && forall k | 0 <= k < |cells| :: Spelled(words[k], cells[k])
  }

  /** Every word from the `k`-th on with the character that follows it. */
  function WordText(words: seq<string>, seps: seq<char>, k: nat): string
    requires |seps| == |words| && k <= |words|
    decreases |words| - k
  {
    if k == |words| then "" else words[k] + [seps[k]] + WordText(words, seps, k + 1)
  }

  /** The word at `i` is converted, or kept, and the parser goes on behind the gap. */
  lemma CellParsed(t: string, i: nat, w: string, c: Cell, sep: char, buf: seq<byte>, len: nat)
    requires TextAt(t, i, w + [sep]) && Spelled(w, c) && len + CELL <= |buf| && (IsGap(sep) || sep == '>')
    ensures i + |w| < |t|
    ensures CellsFrom(t, i, buf, len) ==
            CellsFrom(t, SkipSpaces(t, i + |w|), Put(buf, len, c), len + CELL)
    ensures t[i + |w|] == sep && t[i] != ' '
  {
    TextAtSplit(t, i, w, [sep]);
    TextAtIndex(t, i + |w|, [sep], 0);
    if c.Num? {
      FirstOfCNumeral(w, c.v);
      CNumeralRead(t, i, w, c.v);
    }
    TextAtIndex(t, i, w, 0);
  }

  /** Behind a cell the parser goes on at the next one, or is done. */
  lemma CellGap(t: string, e: nat, buf: seq<byte>, len: nat)
    requires e < |t| && (IsGap(t[e]) || t[e] == '>')
    requires t[e] == ' ' ==> e + 1 < |t| && t[e + 1] != ' '
    ensures CellsFrom(t, SkipSpaces(t, e), buf, len) ==
            if t[e] == '>' then Parsed(len, buf) else CellsFrom(t, e + 1, buf, len)
  {
    if t[e] == ' ' { assert SkipSpaces(t, e) == SkipSpaces(t, e + 1) == e + 1; }
  }

  lemma WordStarts(t: string, i: nat, words: seq<string>, cells: seq<Cell>, seps: seq<char>, k: nat)
    requires |cells| == |seps| && k < |cells| && AllSpelled(words, cells) && TextAt(t, i, WordText(words, seps, k))
    ensures i < |t| && t[i] != ' '
  {
    if cells[k].Num? { FirstOfCNumeral(words[k], cells[k].v); }
    TextAtSplit(t, i, words[k] + [seps[k]], WordText(words, seps, k + 1));
    TextAtIndex(t, i, words[k] + [seps[k]], 0);
  }

  /** The `k`-th word of a list, and what the parser makes of it and of the gap behind it. */
  lemma WordAhead(t: string, i: nat, words: seq<string>, cells: seq<Cell>, seps: seq<char>, k: nat, buf: seq<byte>,
                  len: nat)
    returns (e: nat)
    requires |cells| == |seps| && k < |cells| && GoodSeps(seps, '>') && AllSpelled(words, cells)
    requires TextAt(t, i, WordText(words, seps, k)) && len + CELL <= |buf|
    ensures e < |t| && TextAt(t, e + 1, WordText(words, seps, k + 1))
    ensures CellsFrom(t, i, buf, len) ==
            if k + 1 == |cells| then Parsed(len + CELL, Put(buf, len, cells[k]))
            else CellsFrom(t, e + 1, Put(buf, len, cells[k]), len + CELL)
  {
    e := i + |words[k]|;
    TextAtSplit(t, i, words[k] + [seps[k]], WordText(words, seps, k + 1));
    CellParsed(t, i, words[k], cells[k], seps[k], buf, len);
    if k + 1 < |cells| { WordStarts(t, e + 1, words, cells, seps, k + 1); }
    CellGap(t, e, Put(buf, len, cells[k]), len + CELL);
  }

  lemma {:induction false} CellsParsed(t: string, i: nat, words: seq<string>, cells: seq<Cell>, seps: seq<char>, k: nat,
                                       buf: seq<byte>, len: nat)
    requires |cells| == |seps| && k < |cells| && GoodSeps(seps, '>') && AllSpelled(words, cells)
    requires TextAt(t, i, WordText(words, seps, k)) && len + 4 * (|cells| - k) <= |buf|
    ensures CellsFrom(t, i, buf, len) == Parsed(len + 4 * (|cells| - k), Stored(buf, len, cells, k))
    decreases |cells| - k
  {
    var e := WordAhead(t, i, words, cells, seps, k, buf, len);
    if k + 1 < |cells| { CellsParsed(t, e + 1, words, cells, seps, k + 1, Put(buf, len, cells[k]), len + CELL); }
  }

  /**
    Cells typed as numerals of C or as `?`, with spaces between them, handed
    over in one argument or broken at any of the spaces, are stored in order.
   */
  lemma WordsAccepted(args: seq<string>, words: seq<string>, cells: seq<Cell>, seps: seq<char>, buf: seq<byte>)
    requires cells != [] && |cells| == |seps| && GoodSeps(seps, '>') && AllSpelled(words, cells)
    requires args != [] && Flat(args) == "<" + WordText(words, seps, 0) + [NUL]
    requires 4 * |cells| <= |buf|
    ensures ParseProp(args, buf) == Parsed(4 * |cells|, Stored(buf, 0, cells, 0))
  {
    var t := Flat(args);
    assert t[1..1 + |WordText(words, seps, 0)|] == WordText(words, seps, 0);
    CellsParsed(t, 1, words, cells, seps, 0, buf, 0);
  }

  /** Bytes `4 j` to `4 j + 3` hold `v`, most significant byte first. */
  predicate HoldsBig(buf: seq<byte>, j: nat, v: nat)
    requires 4 * j + 4 <= |buf|
  {
    && buf[4 * j] == v / 0x100_0000 % 256 && buf[4 * j + 1] == v / 0x1_0000 % 256
    && buf[4 * j + 2] == v / 0x100 % 256 && buf[4 * j + 3] == v % 256
  }

  lemma BytesOfCell(v: nat)
    ensures BigEndianBytes(v, 4) == [v / 0x100_0000 % 256, v / 0x1_0000 % 256, v / 0x100 % 256, v % 256]
  {
    assert BigEndianBytes(v / 256, 3) == BigEndianBytes(v / 256 / 256, 2) + [v / 256 % 256];
    assert BigEndianBytes(v / 256 / 256, 2) == [v / 256 / 256 / 256 % 256, v / 256 / 256 % 256];
  }

  lemma BytesHeld(buf: seq<byte>, j: nat, v: nat)
    requires 4 * j + 4 <= |buf| && buf[4 * j..4 * j + 4] == BigEndianBytes(v, 4)
    ensures HoldsBig(buf, j, v)
  {
    BytesOfCell(v);
    var b := buf[4 * j..4 * j + 4];
    assert buf[4 * j] == b[0] && buf[4 * j + 1] == b[1] && buf[4 * j + 2] == b[2] && buf[4 * j + 3] == b[3];
  }

  /**
    What is stored for typed cells, byte by byte: every number most significant
    byte first, and at a `?` and behind the last cell what was there before.
   */
  lemma TypedCells(args: seq<string>, words: seq<string>, cells: seq<Cell>, seps: seq<char>, buf: seq<byte>, j: nat)
    requires cells != [] && |cells| == |seps| && GoodSeps(seps, '>') && AllSpelled(words, cells)
    requires args != [] && Flat(args) == "<" + WordText(words, seps, 0) + [NUL]
    requires 4 * |cells| <= |buf| && 4 * j + 4 <= |buf|
    ensures var o := ParseProp(args, buf);
            && o.Parsed? && o.len == 4 * |cells| && |o.buf| == |buf|
            && if j < |cells| && cells[j].Num? then HoldsBig(o.buf, j, cells[j].v)
               else o.buf[4 * j..4 * j + 4] == buf[4 * j..4 * j + 4]
  {
    WordsAccepted(args, words, cells, seps, buf);
    StoredCells(buf, 0, cells, 0, j);
    if j < |cells| && cells[j].Num? {
      BytesHeld(Stored(buf, 0, cells, 0), j, cells[j].v);
    }
  }

  function CellWords(cells: seq<Cell>): seq<string> {
    seq(|cells|, k requires 0 <= k < |cells| => CellWord(cells[k]))
  }

  lemma CellWordSpells(c: Cell)
    requires c.Num? ==> c.v < Pow256(CELL)
    ensures Spelled(CellWord(c), c)
  {
    if c.Num? {
      assert Pow16(8) == 0x1_0000_0000 == Pow256(4);
      HexDenotes(c.v, 8);
      assert CellWord(c)[2..] == Hex(c.v, 8);
    }
  }

  lemma {:induction false} CellTextIsWords(cells: seq<Cell>, seps: seq<char>, k: nat)
    requires |seps| == |cells| && k <= |cells|
    ensures CellText(cells, seps, k) == WordText(CellWords(cells), seps, k)
    decreases |cells| - k
  {
    if k < |cells| { CellTextIsWords(cells, seps, k + 1); }
  }

  /**
    Cells printed with spaces between them, handed over in one argument or
    broken at any of the spaces, are stored in order: a number as its four
    bytes, a `?` as the four bytes that were there.
   */
  lemma CellsAccepted(args: seq<string>, cells: seq<Cell>, seps: seq<char>, buf: seq<byte>)
    requires cells != [] && |cells| == |seps| && GoodSeps(seps, '>') && GoodCells(cells)
    requires args != [] && Flat(args) == "<" + CellText(cells, seps, 0) + [NUL]
    requires 4 * |cells| <= |buf|
    ensures ParseProp(args, buf) == Parsed(4 * |cells|, Stored(buf, 0, cells, 0))
  {
    CellTextIsWords(cells, seps, 0);
    forall k | 0 <= k < |cells| ensures Spelled(CellWords(cells)[k], cells[k]) { CellWordSpells(cells[k]); }
    WordsAccepted(args, CellWords(cells), cells, seps, buf);
  }

  lemma OverwrittenCell(buf: seq<byte>, k: nat, j: nat, cell: seq<byte>)
    requires |cell| == CELL && 4 * k + CELL <= |buf| && 4 * j + CELL <= |buf|
    ensures Overwrite(buf, 4 * k, cell)[4 * j..4 * j + CELL] ==
            if j == k then cell else buf[4 * j..4 * j + CELL]
  {
    var r := Overwrite(buf, 4 * k, cell);
    assert forall i | 0 <= i < |buf| :: r[i] == if 4 * k <= i < 4 * k + CELL then cell[i - 4 * k] else buf[i];
  }

  lemma {:induction false} StoredCells(buf: seq<byte>, len: nat, cells: seq<Cell>, k: nat, j: nat)
    requires k <= |cells| && len == 4 * k && 4 * |cells| <= |buf| && 4 * j + CELL <= |buf|
    ensures var r := Stored(buf, len, cells, k);
            r[4 * j..4 * j + CELL] ==
            if k <= j < |cells| && cells[j].Num? then BigEndianBytes(cells[j].v, CELL)
            else buf[4 * j..4 * j + CELL]
    decreases |cells| - k
  {
    if k < |cells| {
      StoredCells(Put(buf, len, cells[k]), len + CELL, cells, k + 1, j);
      if cells[k].Num? { OverwrittenCell(buf, k, j, BigEndianBytes(cells[k].v, CELL)); }
    }
  }

  // ---------------------------------------------------------------- byte streams

  /** The buffer after the bytes from the `k`-th on were stored at `len`. */
  function StoredBytes(buf: seq<byte>, len: nat, bs: seq<byte>, k: nat): (r: seq<byte>)
    requires k <= |bs| && len + |bs| - k <= |buf|
    ensures |r| == |buf|
    decreases |bs| - k
  {
    if k == |bs| then buf else StoredBytes(Overwrite(buf, len, [bs[k]]), len + 1, bs, k + 1)
  }

  lemma ByteParsed(t: string, i: nat, b: byte, sep: char, buf: seq<byte>, len: nat)
    requires TextAt(t, i, Hex(b, 2) + [sep]) && len < |buf| && (IsGap(sep) || sep == ']')
    ensures i + 2 < |t| && t[i + 2] == sep && IsXDigit(t[i])
    ensures BytesFrom(t, i, buf, len) == BytesFrom(t, i + 2, Overwrite(buf, len, [b]), len + 1)
  {
    TextAtSplit(t, i, Hex(b, 2), [sep]);
    TextAtIndex(t, i + 2, [sep], 0);
    ByteNumber(t, i, b);
  }

  lemma ByteGap(t: string, e: nat, buf: seq<byte>, len: nat)
    requires e < |t| && (IsGap(t[e]) || t[e] == ']')
    requires t[e] != ']' ==> e + 1 < |t| && IsXDigit(t[e + 1])
    ensures BytesFrom(t, e, buf, len) == if t[e] == ']' then Parsed(len, buf) else BytesFrom(t, e + 1, buf, len)
  {
    if t[e] == ' ' { assert SkipSpaces(t, e) == SkipSpaces(t, e + 1) == e + 1; }
  }

  lemma {:induction false} BytesParsed(t: string, i: nat, bs: seq<byte>, seps: seq<char>, k: nat, buf: seq<byte>,
                                       len: nat)
    requires |bs| == |seps| && k < |bs| && GoodSeps(seps, ']')
    requires TextAt(t, i, ByteText(bs, seps, k)) && len + |bs| - k <= |buf|
    ensures IsXDigit(t[i])
    ensures BytesFrom(t, i, buf, len) == Parsed(len + |bs| - k, StoredBytes(buf, len, bs, k))
    decreases |bs| - k
  {
    TextAtSplit(t, i, Hex(bs[k], 2) + [seps[k]], ByteText(bs, seps, k + 1));
    ByteParsed(t, i, bs[k], seps[k], buf, len);
    var buf' := Overwrite(buf, len, [bs[k]]);
    if k + 1 < |bs| { BytesParsed(t, i + 3, bs, seps, k + 1, buf', len + 1); }
    ByteGap(t, i + 2, buf', len + 1);
  }

  lemma {:induction false} StoredBytesAre(buf: seq<byte>, len: nat, bs: seq<byte>, k: nat)
    requires k <= |bs| && len + |bs| - k <= |buf|
    ensures StoredBytes(buf, len, bs, k) == Overwrite(buf, len, bs[k..])
    decreases |bs| - k
  {
    if k < |bs| {
      StoredBytesAre(Overwrite(buf, len, [bs[k]]), len + 1, bs, k + 1);
      assert bs[k..] == [bs[k]] + bs[k + 1..];
    }
  }

  lemma BytesAccepted(args: seq<string>, bs: seq<byte>, seps: seq<char>, buf: seq<byte>)
    requires bs != [] && |bs| == |seps| && GoodSeps(seps, ']') && |bs| <= |buf|
    requires args != [] && Flat(args) == "[" + ByteText(bs, seps, 0) + [NUL]
    ensures ParseProp(args, buf) == Parsed(|bs|, Overwrite(buf, 0, bs))
  {
    var t := Flat(args);
    assert t[1..1 + |ByteText(bs, seps, 0)|] == ByteText(bs, seps, 0);
    BytesParsed(t, 1, bs, seps, 0, buf, 0);
    StoredBytesAre(buf, 0, bs, 0);
  }

  // ---------------------------------------------------------------- one argument, or split at the spaces

  function SplitAtSpaces(s: string): (r: seq<string>)
    ensures r != []
  {
    if s == "" then [""]
    else
      var r := SplitAtSpaces(s[1..]);
      if s[0] == ' ' then [""] + r else [[s[0]] + r[0]] + r[1..]
  }

  function Broken(s: string): string {
    if s == "" then "" else [if s[0] == ' ' then NUL else s[0]] + Broken(s[1..])
  }

  lemma {:induction false} SplitIsBroken(s: string)
    ensures Flat(SplitAtSpaces(s)) == Broken(s) + [NUL]
  {
    if s == "" {
      assert Flat([""]) == [NUL];
    } else {
      var r := SplitAtSpaces(s[1..]);
      SplitIsBroken(s[1..]);
      var l := SplitAtSpaces(s);
      assert if s[0] == ' ' then l[1..] == r else l[1..] == r[1..];
      assert Flat(l) == l[0] + [NUL] + Flat(l[1..]);
      if s[0] == ' ' {
        assert Flat(l) == [NUL] + (Broken(s[1..]) + [NUL]);
      } else {
        assert Flat(r) == r[0] + [NUL] + Flat(r[1..]);
        assert Flat(l) == [s[0]] + Flat(r);
      }
    }
  }

  lemma {:induction false} BrokenConcat(s: string, u: string)
    ensures Broken(s + u) == Broken(s) + Broken(u)
  {
    if s == "" {
      assert s + u == u;
    } else {
      assert (s + u)[1..] == s[1..] + u;
      BrokenConcat(s[1..], u);
    }
  }

  lemma {:induction false} BrokenWord(s: string)
    requires ' ' !in s
    ensures Broken(s) == s
  {
    if s != "" { BrokenWord(s[1..]); }
  }

  lemma BrokenItem(w: string, sep: char, u: string)
    requires ' ' !in w
    ensures Broken(w + [sep] + u) == w + [if sep == ' ' then NUL else sep] + Broken(u)
  {
    BrokenConcat(w + [sep], u);
    BrokenConcat(w, [sep]);
    BrokenWord(w);
  }

  lemma {:induction false} BrokenCells(cells: seq<Cell>, n: nat, k: nat)
    requires n == |cells| && k <= n
    ensures Broken(CellText(cells, Seps(n, ' ', '>'), k)) == CellText(cells, Seps(n, NUL, '>'), k)
    decreases n - k
  {
    if k < n {
      BrokenItem(CellWord(cells[k]), Seps(n, ' ', '>')[k], CellText(cells, Seps(n, ' ', '>'), k + 1));
      BrokenCells(cells, n, k + 1);
    }
  }

  lemma {:induction false} BrokenBytes(bs: seq<byte>, n: nat, k: nat)
    requires n == |bs| && k <= n
    ensures Broken(ByteText(bs, Seps(n, ' ', ']'), k)) == ByteText(bs, Seps(n, NUL, ']'), k)
    decreases n - k
  {
    if k < n {
      BrokenItem(Hex(bs[k], 2), Seps(n, ' ', ']')[k], ByteText(bs, Seps(n, ' ', ']'), k + 1));
      BrokenBytes(bs, n, k + 1);
    }
  }

  // ---------------------------------------------------------------- theorems

  /** The printed cells of a value with those in `keep` replaced by `?`. */
  function Replaced(data: seq<byte>, keep: set<nat>): (r: seq<Cell>)
    ensures |r| == |data| / CELL
  {
    seq(|data| / CELL, k requires 0 <= k < |data| / CELL => if k in keep then Keep else CellOf(data, k))
  }

  function CellLine(data: seq<byte>, keep: set<nat>): string {
    "<" + CellText(Replaced(data, keep), Seps(|data| / CELL, ' ', '>'), 0)
  }

  /**
    The printed cells, with any of them replaced by `?`, passed as one argument
    or split at the spaces, come back as the same bytes; a replaced cell keeps
    what the buffer held.
   */
  lemma CellsRoundTrip(data: seq<byte>, keep: set<nat>, buf: seq<byte>, split: bool, j: nat)
    requires data != [] && |data| % CELL == 0 && |data| <= |buf| && 4 * j + CELL <= |buf|
    ensures var text := CellLine(data, keep);
            var o := ParseProp(if split then SplitAtSpaces(text) else [text], buf);
            && o.Parsed? && o.len == |data| && |o.buf| == |buf|
            && o.buf[4 * j..4 * j + CELL] ==
               if 4 * j < |data| && j !in keep then data[4 * j..4 * j + CELL]
               else buf[4 * j..4 * j + CELL]
  {
    var cells, n := Replaced(data, keep), |data| / CELL;
    var text := CellLine(data, keep);
    var seps := Seps(n, if split then NUL else ' ', '>');
    var args := if split then SplitAtSpaces(text) else [text];
    forall k | 0 <= k < n ensures cells[k].Num? ==> cells[k].v < Pow256(CELL) {
      BigEndianRoundTrip(data[4 * k..4 * k + CELL]);
    }
    assert Flat(args) == "<" + CellText(cells, seps, 0) + [NUL] by {
      if split {
        SplitIsBroken(text);
        BrokenCells(cells, n, 0);
        BrokenConcat("<", CellText(cells, Seps(n, ' ', '>'), 0));
        BrokenWord("<");
      } else {
        assert Flat([text]) == text + [NUL];
      }
    }
    CellsAccepted(args, cells, seps, buf);
    StoredCells(buf, 0, cells, 0, j);
    if 4 * j < |data| { BigEndianRoundTrip(data[4 * j..4 * j + CELL]); }
  }

  /** The printed text itself is the line with nothing replaced. */
  lemma PrintedCells(data: seq<byte>, after: byte, addr: string)
    requires data != [] && |data| % CELL == 0 && |data| <= CMD_FDT_MAX_DUMP && !Printable(data, after)
    ensures ValueText(data, after, addr) == CellLine(data, {})
  {
    assert Cells(data) == Replaced(data, {});
  }

  /** A printed byte stream, passed as one argument or split at the spaces, comes back unchanged. */
  lemma ByteStreamRoundTrip(data: seq<byte>, after: byte, addr: string, buf: seq<byte>, split: bool)
    requires |data| % CELL != 0 && |data| <= CMD_FDT_MAX_DUMP && !Printable(data, after) && |data| <= |buf|
    ensures var text := ValueText(data, after, addr);
            ParseProp(if split then SplitAtSpaces(text) else [text], buf) == Parsed(|data|, Overwrite(buf, 0, data))
  {
    var n := |data|;
    var text := "[" + ByteText(data, Seps(n, ' ', ']'), 0);
    var seps := Seps(n, if split then NUL else ' ', ']');
    var args := if split then SplitAtSpaces(text) else [text];
    assert Flat(args) == "[" + ByteText(data, seps, 0) + [NUL] by {
      if split {
        SplitIsBroken(text);
        BrokenBytes(data, n, 0);
        BrokenConcat("[", ByteText(data, Seps(n, ' ', ']'), 0));
        BrokenWord("[");
      } else {
        assert Flat([text]) == text + [NUL];
      }
    }
    BytesAccepted(args, data, seps, buf);
  }

  lemma {:induction false} FlatOfStrings(d: seq<byte>, j: nat)
    requires d != [] && d[|d| - 1] == 0 && j <= |d|
    ensures Flat(Strings(d, j)) == Chars(d[j..])
    decreases |d| - j
  {
    if j < |d| {
      var e, l := FirstNul(d, j), Strings(d, Next(d, j));
      FlatOfStrings(d, Next(d, j));
      assert ([Piece(d, j)] + l)[1..] == l;
      assert d[j..] == d[j..e] + [d[e]] + d[e + 1..];
    }
  }

  /**
    The strings the printer splits a terminated value into, passed as
    arguments, are put together to the same value, unless the first one is
    taken for a cell array or a byte stream.
   */
  lemma StringsRoundTrip(data: seq<byte>, after: byte, buf: seq<byte>)
    requires Printable(data, after) && data[|data| - 1] == 0 && |data| <= |buf|
    requires data[0] != '<' as int && data[0] != '[' as int
    ensures Strings(data, 0) != []
    ensures ParseProp(Strings(data, 0), buf) == Parsed(|data|, Overwrite(buf, 0, data))
  {
    FlatOfStrings(data, 0);
    assert data[0..] == data;
    CodesOfChars(data);
    assert Flat(Strings(data, 0))[0] == data[0] as char;
  }

  lemma CodesOfChars(data: seq<byte>)
    ensures Codes(Chars(data)) == data
  {
  }
}
