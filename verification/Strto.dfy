/** Numbers in C strings, as U-Boot's `simple_strtoul` reads them. */
module Strto {
  import opened Bytes

  const NUL: char := '\0'

  function CharAt(t: string, i: nat): char {
    if i < |t| then t[i] else NUL
  }

  datatype Number = Number(value: nat, end: nat)

  predicate IsX(c: char) { c == 'x' || c == 'X' }

  /** The radix of a number at `i`, as `simple_strtoul` settles it. */
  function Radix(t: string, i: nat, base: nat): nat {
    if base != 0 then base
    else if CharAt(t, i) != '0' then 10
    else if IsX(CharAt(t, i + 1)) && IsXDigit(CharAt(t, i + 2)) then 16
    else 8
  }

  function Digits(t: string, i: nat, base: nat, acc: nat): (r: Number)
    ensures i <= r.end && (i <= |t| ==> r.end <= |t|)
    decreases |t| - i
  {
    if i < |t| && IsXDigit(t[i]) && DigitValue(t[i]) < base
    then Digits(t, i + 1, base, acc * base + DigitValue(t[i]))
    else Number(acc, i)
  }

  /** `simple_strtoul` at offset `i`, before the value is cut to the width of a word. */
  function Strtoul(t: string, i: nat, base: nat): (r: Number)
    requires i <= |t|
    ensures i <= r.end <= |t|
  {
    var radix := Radix(t, i, base);
    var hex := radix == 16 && CharAt(t, i) == '0' && IsX(CharAt(t, i + 1));
    Digits(t, if hex then i + 2 else i, radix, 0)
  }
}
