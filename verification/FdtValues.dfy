/**
  Property values of a flattened device tree as text: `print_data` guesses a
  form for a value and prints it, `fdt_parse_prop` reads such a form back.
 */
module FdtValues {
  import opened Bytes
  import opened Strto

  const CMD_FDT_MAX_DUMP := 64

  // ---------------------------------------------------------------- C strings

  predicate IsCString(s: string) {
    forall i | 0 <= i < |s| :: s[i] != NUL && (s[i] as int) < 256
  }

  /**
    The arguments as they lie behind each other, each with its terminator. A
    pointer into argument k is an offset into this text; the step to the next
    argument is the step over a terminator, and the offset behind the last
    terminator stands for the null pointer that closes the argument vector.
   */
  function Flat(args: seq<string>): string {
    if args == [] then "" else args[0] + [NUL] + Flat(args[1..])
  }

  function Codes(s: string): (b: seq<byte>) {
    seq(|s|, i requires 0 <= i < |s| => s[i] as int % 256)
  }

  function Chars(b: seq<byte>): (s: string) {
    seq(|b|, i requires 0 <= i < |b| => b[i] as char)
  }

  // ---------------------------------------------------------------- parsing

  /**
    `Undefined`: the original reads through the null pointer behind the last
    argument, or leaves the scratch buffer.
   */
  datatype Outcome = Parsed(len: nat, buf: seq<byte>) | Rejected | Undefined

  function SkipSpaces(t: string, i: nat): (r: nat)
    requires i <= |t|
    ensures i <= r <= |t|
    decreases |t| - i
  {
    if i < |t| && t[i] == ' ' then SkipSpaces(t, i + 1) else i
  }

  function Overwrite(buf: seq<byte>, at: nat, bs: seq<byte>): seq<byte>
    requires at + |bs| <= |buf|
  {
    buf[..at] + bs + buf[at + |bs|..]
  }

  /** An array of cells, from offset `i` on. */
  function CellsFrom(t: string, i: nat, buf: seq<byte>, len: nat): Outcome
    requires i <= |t|
    decreases |t| - i
  {
    if i == |t| then Undefined
    else if t[i] == '>' then Parsed(len, buf)
    else if t[i] == NUL then CellsFrom(t, i + 1, buf, len)
    else if len + CELL > |buf| then Undefined
    else
      var n := Strtoul(t, i, 0);
      if t[i] == '?' then CellsFrom(t, SkipSpaces(t, i + 1), buf, len + CELL)
      else if n.end == i then Rejected
      else CellsFrom(t, SkipSpaces(t, n.end), Overwrite(buf, len, BigEndianBytes(n.value, CELL)), len + CELL)
  }

  /** A byte stream, from offset `i` on. */
  function BytesFrom(t: string, i: nat, buf: seq<byte>, len: nat): Outcome
    requires i <= |t|
    decreases |t| - i
  {
    if i == |t| then Undefined
    else if t[i] == ']' then Parsed(len, buf)
    else
      var j := SkipSpaces(t, i);
      if j == |t| then Undefined
      else if t[j] == NUL then BytesFrom(t, j + 1, buf, len)
      else if !IsXDigit(t[j]) then (if t[j] == ']' then Parsed(len, buf) else Rejected)
      else if len + 1 > |buf| then Undefined
      else
        var n := Strtoul(t, j, 16);
        BytesFrom(t, n.end, Overwrite(buf, len, [n.value % 256]), len + 1)
  }

  /** The whole parser: the first character of the first argument picks the form. */
  function ParseProp(args: seq<string>, buf: seq<byte>): Outcome
    requires args != []
  {
    var t := Flat(args);
    if t[0] == '<' then CellsFrom(t, 1, buf, 0)
    else if t[0] == '[' then BytesFrom(t, 1, buf, 0)
    else if |t| > |buf| then Undefined
    else Parsed(|t|, Overwrite(buf, 0, Codes(t)))
  }

  // ---------------------------------------------------------------- the parser's loops

  /** What the caller of `fdt_parse_prop` sees: the return code, or nothing to rely on. */
  datatype Status = Accepted | Refused | Crashed

  ghost predicate Reports(o: Outcome, status: Status, len: nat, buf: seq<byte>) {
    match o
    case Parsed(n, b) => status == Accepted && len == n && buf == b
    case Rejected => status == Refused
    case Undefined => status == Crashed
  }

  method StoreBytes(data: array<byte>, at: nat, bs: seq<byte>)
    requires at + |bs| <= data.Length
    modifies data
    ensures data[..] == Overwrite(old(data[..]), at, bs)
  {
    forall i | 0 <= i < |bs| {
      data[at + i] := bs[i];
    }
  }

  method SkipSpacesLoop(t: string, i: nat) returns (j: nat)
    requires i <= |t|
    ensures j == SkipSpaces(t, i)
  {
    j := i;
    while CharAt(t, j) == ' '
      invariant i <= j <= |t| && SkipSpaces(t, j) == SkipSpaces(t, i)
      decreases |t| - j
    {
      j := j + 1;
    }
  }

  method ParseCells(t: string, data: array<byte>) returns (status: Status, len: nat)
    requires t != []
    modifies data
    ensures Reports(CellsFrom(t, 1, old(data[..]), 0), status, len, data[..])
  {
    var i: nat := 1;
    len := 0;
    while i < |t| && t[i] != '>'
      invariant i <= |t|
      invariant CellsFrom(t, i, data[..], len) == CellsFrom(t, 1, old(data[..]), 0)
      decreases |t| - i
    {
      if t[i] == NUL {
        i := i + 1;
        continue;
      }
      if len + CELL > data.Length {
        return Crashed, len;
      }
      var cp := i;
      var n := Strtoul(t, cp, 0);
      i := n.end;
      if t[cp] != '?' {
        StoreBytes(data, len, BigEndianBytes(n.value, CELL));
      } else {
        i := i + 1;
      }
      len := len + CELL;
      if i <= cp {
        return Refused, len;
      }
      i := SkipSpacesLoop(t, i);
    }
    status := if i == |t| then Crashed else Accepted;
  }

  method ParseBytes(t: string, data: array<byte>) returns (status: Status, len: nat)
    requires t != []
    modifies data
    ensures Reports(BytesFrom(t, 1, old(data[..]), 0), status, len, data[..])
  {
    var i: nat := 1;
    len := 0;
    while i < |t| && t[i] != ']'
      invariant i <= |t|
      invariant BytesFrom(t, i, data[..], len) == BytesFrom(t, 1, old(data[..]), 0)
      decreases |t| - i
    {
      i := SkipSpacesLoop(t, i);
      if i == |t| {
        return Crashed, len;
      }
      if t[i] == NUL {
        i := i + 1;
        continue;
      }
      if !IsXDigit(t[i]) {
        break;
      }
      if len + 1 > data.Length {
        return Crashed, len;
      }
      var n := Strtoul(t, i, 16);
      StoreBytes(data, len, [n.value % 256]);
      i, len := n.end, len + 1;
    }
    if i == |t| {
      return Crashed, len;
    }
    status := if t[i] != ']' then Refused else Accepted;
  }

  lemma OverwriteMore(buf: seq<byte>, s: string, u: string)
    requires |s| + |u| <= |buf|
    ensures Overwrite(Overwrite(buf, 0, Codes(s)), |s|, Codes(u)) == Overwrite(buf, 0, Codes(s + u))
  {
  }

  lemma FlatNext(args: seq<string>, k: nat)
    requires k < |args|
    ensures Flat(args[k..]) == args[k] + [NUL] + Flat(args[k + 1..])
  {
    assert args[k..][1..] == args[k + 1..];
  }

  lemma CutPiece(t: string, len: nat, piece: string, rest: string)
    requires len <= |t| && t[len..] == piece + rest
    ensures len + |piece| <= |t| && t[..len + |piece|] == t[..len] + piece && t[len + |piece|..] == rest
  {
    assert t == t[..len] + t[len..];
  }

  lemma StringsBegin(args: seq<string>, buf: seq<byte>)
    ensures var t := Flat(args); t[0..] == Flat(args[0..]) && Overwrite(buf, 0, Codes(t[..0])) == buf
  {
    assert args[0..] == args;
  }

  lemma StringsEnd(args: seq<string>, len: nat)
    requires len <= |Flat(args)| && Flat(args)[len..] == Flat(args[|args|..])
    ensures len == |Flat(args)| && Flat(args)[..len] == Flat(args)
  {
    assert args[|args|..] == [];
  }

  /** Storing one more string stores one more piece of the flat text. */
  lemma StringStored(buf: seq<byte>, t: string, args: seq<string>, k: nat, len: nat)
    requires k < |args| && len <= |t| <= |buf| && t[len..] == Flat(args[k..])
    ensures var piece := args[k] + [NUL];
            && len + |piece| <= |t| && t[len + |piece|..] == Flat(args[k + 1..])
            && Overwrite(Overwrite(buf, 0, Codes(t[..len])), len, Codes(piece)) ==
               Overwrite(buf, 0, Codes(t[..len + |piece|]))
  {
    var piece := args[k] + [NUL];
    FlatNext(args, k);
    CutPiece(t, len, piece, Flat(args[k + 1..]));
    OverwriteMore(buf, t[..len], piece);
  }

  /** The strings before the `k`-th are stored in what was `buf`. */
  predicate StoredUpto(buf: seq<byte>, now: seq<byte>, args: seq<string>, k: nat, len: nat) {
    && k <= |args| && len <= |Flat(args)| <= |buf| && Flat(args)[len..] == Flat(args[k..])
    && now == Overwrite(buf, 0, Codes(Flat(args)[..len]))
  }

  method StoreString(data: array<byte>, args: seq<string>, k: nat, len: nat, ghost buf: seq<byte>) returns (len': nat)
    requires k < |args| && |buf| == data.Length && StoredUpto(buf, data[..], args, k, len)
    modifies data
    ensures StoredUpto(buf, data[..], args, k + 1, len')
  {
    var piece := args[k] + [NUL];
    StringStored(buf, Flat(args), args, k, len);
    StoreBytes(data, len, Codes(piece));
    len' := len + |piece|;
  }

  /** One or more strings: each is copied with its terminator. */
  method ParseStrings(args: seq<string>, data: array<byte>) returns (status: Status, len: nat)
    requires args != [] && |Flat(args)| <= data.Length
    modifies data
    ensures status == Accepted && len == |Flat(args)|
    ensures data[..] == Overwrite(old(data[..]), 0, Codes(Flat(args)))
  {
    len := 0;
    StringsBegin(args, data[..]);
    for k := 0 to |args|
      invariant StoredUpto(old(data[..]), data[..], args, k, len)
    {
      len := StoreString(data, args, k, len, old(data[..]));
    }
    StringsEnd(args, len);
    status := Accepted;
  }

  /** `fdt_parse_prop`. */
  method FdtParseProp(args: seq<string>, data: array<byte>) returns (status: Status, len: nat)
    requires args != [] && forall k | 0 <= k < |args| :: IsCString(args[k])
    modifies data
    ensures Reports(ParseProp(args, old(data[..])), status, len, data[..])
  {
    var t := Flat(args);
    if t[0] == '<' {
      status, len := ParseCells(t, data);
    } else if t[0] == '[' {
      status, len := ParseBytes(t, data);
    } else if |t| > data.Length {
      status, len := Crashed, 0;
    } else {
      status, len := ParseStrings(args, data);
    }
  }

  // ---------------------------------------------------------------- printable strings

  /**
    What the heuristic of `is_printable_string` decides. `after` is the byte
    that follows the value in the blob: a value that ends in a newline is
    taken for a string only if that byte happens to be NUL.
   */
  ghost predicate Printable(data: seq<byte>, after: byte) {
    && data != []
    && (forall i | 0 <= i < |data| :: data[i] == 0 || IsText(data[i]))
    && (forall i {:trigger data[i]} | 0 <= i < |data| - 1 :: data[i] != 0 || data[i + 1] != 0)
    && (data[|data| - 1] == 0 || (data[|data| - 1] == 10 && after == 0))
  }

  method IsPrintableString(data: seq<byte>, after: byte) returns (r: bool)
    ensures r == Printable(data, after)
  {
    var len := |data|;
    if len == 0 {
      return false;
    }
    if data[len - 1] != 0 && data[len - 1] != 10 {
      return false;
    }
    var bytes := data + [after];
    var s := 0;
    while (bytes[s] == 0 || IsText(bytes[s])) && len > 0
      invariant 0 <= s <= |data| && len == |data| - s
      invariant forall i | 0 <= i < s :: data[i] == 0 || IsText(data[i])
      invariant forall i {:trigger data[i]} | 0 <= i < s && i < |data| - 1 :: data[i] != 0 || data[i + 1] != 0
      invariant s == |data| ==> data[s - 1] != 0
      decreases len
    {
      if bytes[s] == 0 {
        if len == 1 {
          return true;
        }
        if bytes[s + 1] == 0 {
          return false;
        }
      }
      s := s + 1;
      len := len - 1;
    }
    return !(bytes[s] != 0 || len != 0);
  }

  // ---------------------------------------------------------------- printing

  function Hex(v: nat, n: nat): (s: string)
    ensures |s| == n
    ensures forall i | 0 <= i < n :: IsXDigit(s[i]) && !IsX(s[i])
  {
    if n == 0 then "" else Hex(v / 16, n - 1) + [HexDigit(v % 16)]
  }

  function FirstNul(d: seq<byte>, j: nat): (e: nat)
    requires j <= |d|
    ensures j <= e <= |d| && (e < |d| ==> d[e] == 0)
    ensures forall i | j <= i < e :: d[i] != 0
    decreases |d| - j
  {
    if j == |d| || d[j] == 0 then j else FirstNul(d, j + 1)
  }

  function Piece(d: seq<byte>, j: nat): string
    requires j <= |d|
  {
    Chars(d[j..FirstNul(d, j)])
  }

  /** The offset behind the terminator of the string at `j`. */
  function Next(d: seq<byte>, j: nat): (n: nat)
    requires j < |d|
    ensures j < n <= |d|
  {
    var e := FirstNul(d, j);
    if e == |d| then e else e + 1
  }

  /** The strings that make up a value from offset `j` on, split at their terminators. */
  function Strings(d: seq<byte>, j: nat): seq<string>
    requires j <= |d|
    decreases |d| - j
  {
    if j == |d| then [] else [Piece(d, j)] + Strings(d, Next(d, j))
  }

  const SEPARATOR := "\", \""

  /** Every string led by a separator. */
  function Led(l: seq<string>): string {
    if l == [] then "" else SEPARATOR + l[0] + Led(l[1..])
  }

  function Joined(l: seq<string>): string {
    if l == [] then "" else l[0] + Led(l[1..])
  }

  /** A cell on the command line: a number, or `?` for "leave as it is". */
  datatype Cell = Num(v: nat) | Keep

  function CellWord(c: Cell): string {
    match c
    case Num(v) => "0x" + Hex(v, 8)
    case Keep => "?"
  }

  /** Every cell from the `k`-th on with the character that follows it. */
  function CellText(cells: seq<Cell>, seps: seq<char>, k: nat): string
    requires |seps| == |cells| && k <= |cells|
    decreases |cells| - k
  {
    if k == |cells| then "" else CellWord(cells[k]) + [seps[k]] + CellText(cells, seps, k + 1)
  }

  function ByteText(bs: seq<byte>, seps: seq<char>, k: nat): string
    requires |seps| == |bs| && k <= |bs|
    decreases |bs| - k
  {
    if k == |bs| then "" else Hex(bs[k], 2) + [seps[k]] + ByteText(bs, seps, k + 1)
  }

  /** Separators between `n` items, the last one closing the list. */
  function Seps(n: nat, gap: char, close: char): (s: seq<char>)
    ensures |s| == n && forall k | 0 <= k < n :: s[k] == if k < n - 1 then gap else close
  {
    seq(n, k => if k < n - 1 then gap else close)
  }

  function CellOf(data: seq<byte>, k: nat): Cell
    requires CELL * k + CELL <= |data|
  {
    Num(BigEndian(data[CELL * k..CELL * k + CELL]))
  }

  function Cells(data: seq<byte>): (r: seq<Cell>) {
    seq(|data| / CELL, k requires 0 <= k < |data| / CELL => CellOf(data, k))
  }

  function Terminated(data: seq<byte>, after: byte): seq<byte> {
    if data != [] && data[|data| - 1] != 0 then data + [after] else data
  }

  /** The text of a value: `addr` is how `%p` shows where it lies. */
  ghost function ValueText(data: seq<byte>, after: byte, addr: string): string {
    if data == [] then ""
    else if Printable(data, after) then "\"" + Joined(Strings(Terminated(data, after), 0)) + "\""
    else if |data| > CMD_FDT_MAX_DUMP then "* 0x" + addr + " [0x" + Hex(|data|, 8) + "]"
    else if |data| % CELL == 0 then "<" + CellText(Cells(data), Seps(|data| / CELL, ' ', '>'), 0)
    else "[" + ByteText(data, Seps(|data|, ' ', ']'), 0)
  }

  /** The quoted strings from offset `j` on, each after the first led by a separator. */
  function StringsTail(d: seq<byte>, j: nat): string
    requires j <= |d|
    decreases |d| - j
  {
    if j == |d| then "" else (if j > 0 then SEPARATOR else "") + Piece(d, j) + StringsTail(d, Next(d, j))
  }

  lemma LedStep(x: string, l: seq<string>)
    ensures Led([x] + l) == SEPARATOR + x + Led(l) && Joined([x] + l) == x + Led(l)
  {
    assert ([x] + l)[1..] == l;
  }

  lemma {:induction false} TailIsLed(d: seq<byte>, j: nat)
    requires 0 < j <= |d|
    ensures StringsTail(d, j) == Led(Strings(d, j))
    decreases |d| - j
  {
    if j < |d| {
      LedStep(Piece(d, j), Strings(d, Next(d, j)));
      TailIsLed(d, Next(d, j));
    }
  }

  lemma TailIsJoined(d: seq<byte>)
    ensures StringsTail(d, 0) == Joined(Strings(d, 0))
  {
    if d != [] {
      LedStep(Piece(d, 0), Strings(d, Next(d, 0)));
      TailIsLed(d, Next(d, 0));
      assert "" + Piece(d, 0) == Piece(d, 0);
    }
  }

  /** `strlen` finds the same terminator in a terminated value and in what follows it. */
  lemma {:induction false} NulWithin(d: seq<byte>, bytes: seq<byte>, j: nat)
    requires j < |d| && d[|d| - 1] == 0 && d <= bytes
    ensures FirstNul(d, j) == FirstNul(bytes, j) < |d|
    decreases |d| - j
  {
    if d[j] != 0 { NulWithin(d, bytes, j + 1); }
  }

  /** `puts(data)` and the step over its terminator. */
  lemma PieceWithin(d: seq<byte>, bytes: seq<byte>, j: nat)
    requires j < |d| && d[|d| - 1] == 0 && d <= bytes
    ensures Piece(bytes, j) == Piece(d, j) && Next(d, j) == FirstNul(bytes, j) + 1
  {
    NulWithin(d, bytes, j);
    assert bytes[j..FirstNul(bytes, j)] == d[j..FirstNul(d, j)];
  }

  lemma PiecePrinted(out: string, sep: string, d: seq<byte>, bytes: seq<byte>, j: nat)
    requires j < |d| && d[|d| - 1] == 0 && d <= bytes && sep == if j > 0 then SEPARATOR else ""
    ensures var e := FirstNul(bytes, j) + 1;
            e <= |d| && d[e - 1] == 0 && out + StringsTail(d, j) == out + sep + Piece(bytes, j) + StringsTail(d, e)
  {
    PieceWithin(d, bytes, j);
    SplitTail(out, sep, Piece(d, j), StringsTail(d, Next(d, j)));
  }

  lemma TerminatedWithin(data: seq<byte>, after: byte)
    requires Printable(data, after)
    ensures var d := Terminated(data, after);
            d <= data + [after] && d[|d| - 1] == 0 && |d| == if data[|data| - 1] == 0 then |data| else |data| + 1
  {
  }

  /** `out` and the strings from `j` on make up `goal`. */
  predicate SoFar(out: string, d: seq<byte>, j: nat, goal: string) {
    j <= |d| && out + StringsTail(d, j) == goal
  }

  lemma SoFarNext(out: string, sep: string, d: seq<byte>, bytes: seq<byte>, j: nat, goal: string)
    requires j < |d| && d[|d| - 1] == 0 && d <= bytes && sep == (if j > 0 then SEPARATOR else "")
    requires SoFar(out, d, j, goal)
    ensures var e := FirstNul(bytes, j) + 1; e <= |d| && d[e - 1] == 0 && SoFar(out + sep + Piece(bytes, j), d, e, goal)
  {
    PiecePrinted(out, sep, d, bytes, j);
  }

  /** One turn of the loop over the strings. */
  method PrintNext(before: string, bytes: seq<byte>, j: nat, ghost d: seq<byte>, ghost goal: string)
    returns (out: string, next: nat)
    requires j < |d| && d[|d| - 1] == 0 && d <= bytes && SoFar(before, d, j, goal)
    ensures j < next <= |d| && d[next - 1] == 0 && SoFar(out, d, next, goal)
  {
    var sep := if j > 0 then SEPARATOR else "";
    SoFarNext(before, sep, d, bytes, j, goal);
    out := before + sep + Piece(bytes, j);
    next := FirstNul(bytes, j) + 1;
  }

  /** The loop over the strings of `d`, the first `n` bytes of `bytes` with their terminator. */
  method PrintLoop(bytes: seq<byte>, n: nat, ghost d: seq<byte>) returns (out: string, j: nat)
    requires 0 < n <= |d| <= n + 1 && d <= bytes && d[|d| - 1] == 0 && (n < |d| ==> d[n - 1] != 0)
    ensures j == |d| && out == "\"" + StringsTail(d, 0)
  {
    ghost var goal := "\"" + StringsTail(d, 0);
    out, j := "\"", 0;
    while j < n
      invariant j <= |d| && (j == n ==> j == |d|)
      invariant SoFar(out, d, j, goal)
      decreases |d| - j
    {
      out, j := PrintNext(out, bytes, j, d, goal);
    }
  }

  method PrintStrings(data: seq<byte>, after: byte) returns (out: string, j: nat)
    requires Printable(data, after)
    ensures out == "\"" + Joined(Strings(Terminated(data, after), 0)) + "\""
    // the loop runs over every terminator: up to the end, or one past it for a trailing newline
    ensures j == if data[|data| - 1] == 0 then |data| else |data| + 1
  {
    ghost var d := Terminated(data, after);
    TerminatedWithin(data, after);
    out, j := PrintLoop(data + [after], |data|, d);
    TailIsJoined(d);
    out := out + "\"";
  }

  lemma SplitTail(a: string, b: string, c: string, d: string)
    ensures a + (b + c + d) == (a + b + c) + d
  {
  }

  lemma CellAt(data: seq<byte>, k: nat)
    requires k < |data| / CELL
    ensures CELL * k + CELL <= |data| && Cells(data)[k] == Num(BigEndian(data[CELL * k..CELL * k + CELL]))
  {
  }

  /** One more cell and what follows it. */
  lemma CellPrinted(out: string, cells: seq<Cell>, seps: seq<char>, k: nat)
    requires |seps| == |cells| && k < |cells|
    ensures out + CellText(cells, seps, k) == out + CellWord(cells[k]) + [seps[k]] + CellText(cells, seps, k + 1)
  {
    SplitTail(out, CellWord(cells[k]), [seps[k]], CellText(cells, seps, k + 1));
  }

  method PrintCells(data: seq<byte>) returns (out: string)
    requires data != [] && |data| % CELL == 0
    ensures out == "<" + CellText(Cells(data), Seps(|data| / CELL, ' ', '>'), 0)
  {
    var n := |data| / CELL;
    ghost var cells, seps := Cells(data), Seps(n, ' ', '>');
    ghost var goal := "<" + CellText(cells, seps, 0);
    out := "<";
    for j := 0 to n
      invariant j < n ==> out + CellText(cells, seps, j) == goal
      invariant j == n ==> out + ">" == goal
    {
      CellAt(data, j);
      CellPrinted(out, cells, seps, j);
      var v := BigEndian(data[CELL * j..CELL * j + CELL]);
      out := out + ("0x" + Hex(v, 8)) + (if j < n - 1 then " " else "");
    }
    out := out + ">";
  }

  method PrintBytes(data: seq<byte>) returns (out: string)
    requires data != []
    ensures out == "[" + ByteText(data, Seps(|data|, ' ', ']'), 0)
  {
    ghost var seps := Seps(|data|, ' ', ']');
    ghost var goal := "[" + ByteText(data, seps, 0);
    out := "[";
    for j := 0 to |data|
      invariant j < |data| ==> out + ByteText(data, seps, j) == goal
      invariant j == |data| ==> out + "]" == goal
    {
      out := out + Hex(data[j], 2) + (if j < |data| - 1 then " " else "");
    }
    out := out + "]";
  }

  /** `print_data`. */
  method PrintData(data: seq<byte>, after: byte, addr: string) returns (out: string)
    ensures out == ValueText(data, after, addr)
  {
    if |data| == 0 {
      return "";
    }
    var printable := IsPrintableString(data, after);
    if printable {
      var j;
      out, j := PrintStrings(data, after);
    } else if |data| > CMD_FDT_MAX_DUMP {
      out := "* 0x" + addr + " [0x" + Hex(|data|, 8) + "]";
    } else if |data| % CELL == 0 {
      out := PrintCells(data);
    } else {
      out := PrintBytes(data);
    }
  }
}
