/** Bytes, 32-bit words and the character classes of U-Boot's `ctype` table. */
module Bytes {

  type byte = x: int | 0 <= x < 0x100

  type word = x: int | 0 <= x < 0x1_0000_0000

  const CELL: nat := 4

  /** The number a big-endian byte string denotes (`fdt32_to_cpu` on four bytes). */
  function BigEndian(b: seq<byte>): nat {
    if b == [] then 0 else BigEndian(b[..|b| - 1]) * 256 + b[|b| - 1]
  }

  /** The low `n` bytes of `v`, most significant first (`cpu_to_fdt32` for `n == CELL`). */
  function BigEndianBytes(v: nat, n: nat): (b: seq<byte>)
    ensures |b| == n
  {
    if n == 0 then [] else BigEndianBytes(v / 256, n - 1) + [v % 256]
  }

  function Pow256(n: nat): nat {
    if n == 0 then 1 else 256 * Pow256(n - 1)
  }

  lemma {:induction false} BigEndianRoundTrip(b: seq<byte>)
    ensures BigEndianBytes(BigEndian(b), |b|) == b
    ensures BigEndian(b) < Pow256(|b|)
  {
    if b != [] {
      var head, last := b[..|b| - 1], b[|b| - 1];
      BigEndianRoundTrip(head);
      assert b == head + [last];
    }
  }

  predicate IsDigit(c: char) { '0' <= c <= '9' }

  predicate IsXDigit(c: char) { IsDigit(c) || 'a' <= c <= 'f' || 'A' <= c <= 'F' }

  function DigitValue(c: char): (v: nat)
    requires IsXDigit(c)
    ensures v < 16
  {
    if IsDigit(c) then c as int - '0' as int
    else if 'a' <= c then c as int - 'a' as int + 10
    else c as int - 'A' as int + 10
  }

  function HexDigit(v: nat): (c: char)
    requires v < 16
    ensures IsXDigit(c) && DigitValue(c) == v && c != 'x' && c != 'X'
  {
    if v < 10 then ('0' as int + v) as char else ('a' as int + v - 10) as char
  }

  /** `isprint(c) || isspace(c)` for the table in lib/ctype.c. */
  predicate IsText(b: byte) {
    9 <= b <= 13 || 32 <= b <= 126 || 160 <= b
  }
}
