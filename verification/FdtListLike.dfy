/**
  Strings that look like lists: a value whose first string starts with an
  opening bracket is printed as strings and parsed as a list. It does not come
  back, whatever it goes on with.
 */
module FdtListLike {
  import opened Arithmetic
  import opened Bytes
  import opened FdtRoundTrip
  import opened FdtValues
  import opened Strto

  /** Given back as arguments, the strings of a value are stored as the value. */
  predicate ComesBack(data: seq<byte>, buf: seq<byte>)
    requires data != [] && |data| <= |buf|
  {
    ParseProp(Strings(data, 0), buf) == Parsed(|data|, Overwrite(buf, 0, data))
  }

  lemma StringsAreText(data: seq<byte>)
    requires data != [] && data[|data| - 1] == 0
    ensures var t := Flat(Strings(data, 0)); |t| == |data| && t[0] == data[0] as char
  {
    FlatOfStrings(data, 0);
    assert data[0..] == data;
  }

  // ---------------------------------------------------------------- byte streams

  /** Every byte of a stream takes a character, and the closing bracket takes one. */
  lemma {:induction false} StreamIsShort(t: string, i: nat, buf: seq<byte>, len: nat)
    requires i <= |t|
    ensures var o := BytesFrom(t, i, buf, len); o.Parsed? ==> i < |t| && o.len <= len + (|t| - 1 - i)
    decreases |t| - i
  {
    if i < |t| && t[i] != ']' {
      var j := SkipSpaces(t, i);
      if j < |t| {
        if t[j] == NUL {
          StreamIsShort(t, j + 1, buf, len);
        } else if IsXDigit(t[j]) && len < |buf| {
          var n := Strtoul(t, j, 16);
          DigitAdvances(t, j);
          StreamIsShort(t, n.end, Overwrite(buf, len, [n.value % 256]), len + 1);
        }
      }
    }
  }

  lemma DigitAdvances(t: string, j: nat)
    requires j < |t| && IsXDigit(t[j])
    ensures j < Strtoul(t, j, 16).end
  {
  }

  /** Whatever the scratch buffer holds, a value that starts like a byte stream does not come back. */
  lemma StreamLikeFails(data: seq<byte>, buf: seq<byte>)
    requires data != [] && data[|data| - 1] == 0 && |data| <= |buf| && data[0] == '[' as int
    ensures !ComesBack(data, buf)
  {
    StringsAreText(data);
    StreamIsShort(Flat(Strings(data, 0)), 1, buf, 0);
  }

  // ---------------------------------------------------------------- cells

  lemma OneDigitMore(acc: nat, base: nat, digit: nat, m: nat) returns (more: nat)
    requires digit < base <= 16 && acc < Pow16(m)
    ensures more == acc * base + digit && more < Pow16(m + 1)
  {
    MulMono(0, base, acc);
    MulMono(base, 16, acc);
    more := acc * base + digit;
  }

  lemma {:induction false} DigitsAreSmall(t: string, i: nat, base: nat, acc: nat, m: nat, r: Number)
    requires base <= 16 && acc < Pow16(m) && r == Digits(t, i, base, acc)
    ensures r.value < Pow16(m + (r.end - i))
    decreases |t| - i
  {
    if i < |t| && IsXDigit(t[i]) && DigitValue(t[i]) < base {
      var more := OneDigitMore(acc, base, DigitValue(t[i]), m);
      DigitsAreSmall(t, i + 1, base, more, m + 1, r);
    }
  }

  lemma {:induction false} Pow16Grows(m: nat, n: nat)
    requires m <= n
    ensures Pow16(m) <= Pow16(n)
  {
    if m < n { Pow16Grows(m, n - 1); }
  }

  /** A number of at most four characters fills only the lower two bytes of its cell. */
  lemma ShortNumberHasZeros(t: string, i: nat)
    requires i <= |t| && Strtoul(t, i, 0).end <= i + 4
    ensures var b := BigEndianBytes(Strtoul(t, i, 0).value, CELL); b[0] == 0 && b[1] == 0
  {
    var radix := Radix(t, i, 0);
    var start := if radix == 16 && CharAt(t, i) == '0' && IsX(CharAt(t, i + 1)) then i + 2 else i;
    var r := Strtoul(t, i, 0);
    DigitsAreSmall(t, start, radix, 0, 0, r);
    Pow16Grows(r.end - start, 4);
    SmallIsZero(r.value);
  }

  lemma SmallIsZero(v: nat)
    requires v < Pow16(4)
    ensures BigEndianBytes(v, CELL)[0] == 0 && BigEndianBytes(v, CELL)[1] == 0
  {
    assert Pow16(4) == 65536;
    assert BigEndianBytes(v, 4) == BigEndianBytes(v / 256, 3) + [v % 256];
    assert BigEndianBytes(v / 256, 3) == BigEndianBytes(v / 256 / 256, 2) + [v / 256 % 256];
    assert v / 256 / 256 == 0;
    assert BigEndianBytes(0, 2) == [0, 0];
  }

  /** Bytes before the cursor are not touched any more. */
  lemma {:induction false} CellsKeepEarlier(t: string, i: nat, buf: seq<byte>, len: nat)
    requires i <= |t| && len <= |buf|
    ensures var o := CellsFrom(t, i, buf, len);
            o.Parsed? ==> |o.buf| == |buf| && len <= o.len <= |buf| && o.buf[..len] == buf[..len]
    decreases |t| - i
  {
    if i < |t| && t[i] != '>' {
      if t[i] == NUL {
        CellsKeepEarlier(t, i + 1, buf, len);
      } else if len + CELL <= |buf| {
        var n := Strtoul(t, i, 0);
        if t[i] == '?' {
          CellsKeepEarlier(t, SkipSpaces(t, i + 1), buf, len + CELL);
          KeptPrefix(CellsFrom(t, SkipSpaces(t, i + 1), buf, len + CELL), buf, buf, len);
        } else if n.end > i {
          var buf' := Overwrite(buf, len, BigEndianBytes(n.value, CELL));
          CellsKeepEarlier(t, SkipSpaces(t, n.end), buf', len + CELL);
          KeptPrefix(CellsFrom(t, SkipSpaces(t, n.end), buf', len + CELL), buf', buf, len);
        }
      }
    }
  }

  lemma KeptPrefix(o: Outcome, buf': seq<byte>, buf: seq<byte>, len: nat)
    requires len + CELL <= |buf| == |buf'| && buf'[..len] == buf[..len]
    ensures o.Parsed? && |o.buf| == |buf| && o.buf[..len + CELL] == buf'[..len + CELL] ==> o.buf[..len] == buf[..len]
  {
    if o.Parsed? && |o.buf| == |buf| && o.buf[..len + CELL] == buf'[..len + CELL] {
      assert o.buf[..len] == o.buf[..len + CELL][..len] == buf'[..len + CELL][..len] == buf'[..len];
    }
  }

  predicate ZeroFrom(buf: seq<byte>, len: nat) {
    forall k | len <= k < |buf| :: buf[k] == 0
  }

  predicate NoZeroPair(buf: seq<byte>, lo: nat, hi: nat) {
    forall k {:trigger buf[k]} | lo <= k < hi - 1 && k + 1 < |buf| :: buf[k] != 0 || buf[k + 1] != 0
  }

  /** On a cleared buffer, cells without two zeros in a row take five characters for every four bytes. */
  lemma {:induction false} CellsAreShort(t: string, i: nat, buf: seq<byte>, len: nat)
    requires i <= |t| && len <= |buf| && ZeroFrom(buf, len)
    ensures var o := CellsFrom(t, i, buf, len);
            o.Parsed? && NoZeroPair(o.buf, len, o.len) ==> 5 * (o.len - len) <= 4 * (|t| - i)
    decreases |t| - i
  {
    if i < |t| && t[i] != '>' {
      if t[i] == NUL {
        CellsAreShort(t, i + 1, buf, len);
      } else if len + CELL <= |buf| {
        CellIsShort(t, i, buf, len);
      }
    }
  }

  lemma CellIsShort(t: string, i: nat, buf: seq<byte>, len: nat)
    requires i < |t| && t[i] != '>' && t[i] != NUL && len + CELL <= |buf| && ZeroFrom(buf, len)
    ensures var o := CellsFrom(t, i, buf, len);
            o.Parsed? && NoZeroPair(o.buf, len, o.len) ==> 5 * (o.len - len) <= 4 * (|t| - i)
    decreases |t| - i, 0
  {
    var o, n := CellsFrom(t, i, buf, len), Strtoul(t, i, 0);
    var bytes := if t[i] == '?' then buf[len..len + CELL] else BigEndianBytes(n.value, CELL);
    var buf' := Overwrite(buf, len, bytes);
    var next := SkipSpaces(t, if t[i] == '?' then i + 1 else n.end);
    assert t[i] == '?' ==> buf' == buf;
    if o.Parsed? && NoZeroPair(o.buf, len, o.len) {
      assert o == CellsFrom(t, next, buf', len + CELL);
      CellsKeepEarlier(t, next, buf', len + CELL);
      CellStays(o.buf, buf', len, bytes);
      assert o.buf[len] != 0 || o.buf[len + 1] != 0;
      if n.end <= i + 4 && t[i] != '?' { ShortNumberHasZeros(t, i); }
      CellsAreShort(t, next, buf', len + CELL);
    }
  }

  lemma CellStays(out: seq<byte>, buf': seq<byte>, len: nat, bytes: seq<byte>)
    requires |bytes| == CELL && len + CELL <= |buf'| == |out| && out[..len + CELL] == buf'[..len + CELL]
    requires buf'[len..len + CELL] == bytes
    ensures out[len] == bytes[0] && out[len + 1] == bytes[1]
  {
    assert out[..len + CELL][len] == buf'[..len + CELL][len] == buf'[len..len + CELL][0];
    assert out[..len + CELL][len + 1] == buf'[..len + CELL][len + 1] == buf'[len..len + CELL][1];
  }

  /** On a cleared scratch buffer a printable value that starts like a cell array does not come back. */
  lemma CellLikeFails(data: seq<byte>, after: byte, buf: seq<byte>)
    requires Printable(data, after) && data[|data| - 1] == 0 && data[0] == '<' as int
    requires |data| <= |buf| && ZeroFrom(buf, 0)
    ensures !ComesBack(data, buf)
  {
    StringsAreText(data);
    CellsAreShort(Flat(Strings(data, 0)), 1, buf, 0);
    var back := Overwrite(buf, 0, data);
    assert forall k | 0 <= k < |data| :: back[k] == data[k];
    assert NoZeroPair(back, 0, |data|);
  }

  /**
    The exact condition for the strings of a value to come back whatever the
    scratch buffer holds: the first one does not start like a list.
   */
  lemma StringsComeBackIff(data: seq<byte>, after: byte)
    requires Printable(data, after) && data[|data| - 1] == 0
    ensures (forall buf: seq<byte> | |buf| >= |data| :: ComesBack(data, buf)) <==>
            data[0] != '<' as int && data[0] != '[' as int
  {
    if data[0] != '<' as int && data[0] != '[' as int {
      forall buf: seq<byte> | |buf| >= |data| ensures ComesBack(data, buf) {
        StringsRoundTrip(data, after, buf);
      }
    } else {
      var buf := seq(|data|, _ => 0);
      if data[0] == '[' as int {
        StreamLikeFails(data, buf);
      } else {
        CellLikeFails(data, after, buf);
      }
      assert !ComesBack(data, buf);
    }
  }
}
