/**
  Numerals: what strings of digits denote, said without the parser, and the
  proof that `simple_strtoul` reads every numeral of C as the number it denotes.
 */
module Numerals {
  import opened Arithmetic
  import opened Bytes
  import opened Strto

  /** `c` is a digit of value `d`: decimal digits, then letters of either case. */
  predicate IsDigitFor(c: char, d: int) {
    || (0 <= d < 10 && c as int == 48 + d)
    || (10 <= d < 16 && (c as int == 97 + d - 10 || c as int == 65 + d - 10))
  }

  /** `s` is a numeral of `v`, most significant digit first; leading zeros do not matter. */
  predicate Denotes(s: string, base: nat, v: nat)
    requires base > 0
  {
    if s == "" then v == 0 else IsDigitFor(s[|s| - 1], v % base) && Denotes(s[..|s| - 1], base, v / base)
  }

  lemma SameNumber(v: nat, w: nat, base: nat)
    requires base > 0 && v / base == w / base && v % base == w % base
    ensures v == w
  {
    var _, _ := Split(v, base);
    var _, _ := Split(w, base);
  }

  lemma SameDigit(c: char, d: int, e: int)
    requires IsDigitFor(c, d) && IsDigitFor(c, e)
    ensures d == e
  {
  }

  /** A numeral denotes one number. */
  lemma {:induction false} OneValue(s: string, base: nat, v: nat, w: nat)
    requires 0 < base <= 16 && Denotes(s, base, v) && Denotes(s, base, w)
    ensures v == w
    decreases |s|
  {
    if s != "" {
      var v', d := Split(v, base);
      var w', e := Split(w, base);
      OneValue(s[..|s| - 1], base, v', w');
      SameDigit(s[|s| - 1], d, e);
      SameNumber(v, w, base);
    }
  }

  /** `%d` of a number that is not negative. */
  function Decimal(n: nat): (s: string)
    ensures n < 100 ==> |s| <= 2
  {
    var digit := ['0' + (n % 10) as char];
    if n < 10 then digit else Decimal(n / 10) + digit
  }

  /** It is a decimal numeral of the number, without leading zeros. */
  lemma {:induction false} DecimalDenotes(n: nat)
    ensures Denotes(Decimal(n), 10, n) && Decimal(n) != "" && (n > 0 ==> Decimal(n)[0] != '0')
  {
    if n >= 10 {
      DecimalDenotes(n / 10);
      assert Decimal(n)[..|Decimal(n)| - 1] == Decimal(n / 10);
    }
  }

  // ---------------------------------------------------------------- reading numerals

  /** The text `w` stands at offset `i`. */
  predicate TextAt(t: string, i: nat, w: string) {
    i + |w| <= |t| && t[i..i + |w|] == w
  }

  lemma TextAtSplit(t: string, i: nat, u: string, w: string)
    requires TextAt(t, i, u + w)
    ensures TextAt(t, i, u) && TextAt(t, i + |u|, w)
  {
    assert t[i..i + |u|] == (u + w)[..|u|];
    assert t[i + |u|..i + |u| + |w|] == (u + w)[|u|..];
  }

  lemma TextAtIndex(t: string, i: nat, w: string, k: nat)
    requires TextAt(t, i, w) && k < |w|
    ensures t[i + k] == w[k]
  {
    assert t[i + k] == t[i..i + |w|][k];
  }

  lemma DigitForIs(c: char, d: nat)
    requires IsDigitFor(c, d)
    ensures IsXDigit(c) && DigitValue(c) == d
  {
  }

  /** No digit of `base` stands at `i`. */
  ghost predicate Stops(t: string, i: nat, base: nat) {
    forall d | 0 <= d < base :: !IsDigitFor(CharAt(t, i), d)
  }

  lemma StopsReading(t: string, i: nat, base: nat, acc: nat)
    requires Stops(t, i, base)
    ensures Digits(t, i, base, acc) == Number(acc, i)
  {
    if i < |t| && IsXDigit(t[i]) && DigitValue(t[i]) < base {
      assert IsDigitFor(CharAt(t, i), DigitValue(t[i]));
    }
  }

  lemma DigitStep(t: string, i: nat, base: nat, acc: nat, d: nat, more: nat)
    requires i < |t| && IsDigitFor(t[i], d) && d < base && more == acc * base + d
    ensures Digits(t, i, base, acc) == Digits(t, i + 1, base, more)
  {
    DigitForIs(t[i], d);
  }

  lemma {:induction false} DigitsOfNumeral(t: string, i: nat, s: string, base: nat, v: nat)
    requires 2 <= base <= 16 && TextAt(t, i, s) && Denotes(s, base, v)
    ensures Digits(t, i, base, 0) == Digits(t, i + |s|, base, v)
    decreases |s|
  {
    if s != "" {
      var head, last := s[..|s| - 1], s[|s| - 1];
      assert s == head + [last];
      TextAtSplit(t, i, head, [last]);
      TextAtIndex(t, i, s, |s| - 1);
      var q, d := Split(v, base);
      DigitsOfNumeral(t, i, head, base, q);
      DigitStep(t, i + |head|, base, q, d, v);
    }
  }

  lemma NumeralRead(t: string, i: nat, s: string, base: nat, v: nat)
    requires 2 <= base <= 16 && TextAt(t, i, s) && Denotes(s, base, v) && Stops(t, i + |s|, base)
    ensures Digits(t, i, base, 0) == Number(v, i + |s|)
  {
    DigitsOfNumeral(t, i, s, base, v);
    StopsReading(t, i + |s|, base, v);
  }

  /** The numerals of C: decimal without a leading zero, octal with one, hexadecimal behind `0x`. */
  predicate CNumeral(w: string, v: nat) {
    || (w != "" && w[0] != '0' && Denotes(w, 10, v))
    || (w != "" && w[0] == '0' && Denotes(w, 8, v))
    || (|w| > 2 && w[0] == '0' && (w[1] == 'x' || w[1] == 'X') && Denotes(w[2..], 16, v))
  }

  lemma DecimalRead(t: string, i: nat, w: string, v: nat)
    requires TextAt(t, i, w) && w != "" && w[0] != '0' && Denotes(w, 10, v) && Stops(t, i + |w|, 10)
    ensures Strtoul(t, i, 0) == Number(v, i + |w|)
  {
    TextAtIndex(t, i, w, 0);
    NumeralRead(t, i, w, 10, v);
  }

  /** Every character of a numeral is a digit. */
  lemma {:induction false} DigitAt(s: string, base: nat, v: nat, k: nat) returns (d: nat)
    requires 0 < base <= 16 && Denotes(s, base, v) && k < |s|
    ensures d < base && IsDigitFor(s[k], d)
    decreases |s|
  {
    var q, last := Split(v, base);
    if k < |s| - 1 {
      d := DigitAt(s[..|s| - 1], base, q, k);
    } else {
      d := last;
    }
  }

  /** `0x` and a digit behind a lone `0` would make it hexadecimal. */
  lemma OctalRead(t: string, i: nat, w: string, v: nat)
    requires TextAt(t, i, w) && w != "" && w[0] == '0' && Denotes(w, 8, v) && Stops(t, i + |w|, 8)
    requires w == "0" ==> !(IsX(CharAt(t, i + 1)) && IsXDigit(CharAt(t, i + 2)))
    ensures Strtoul(t, i, 0) == Number(v, i + |w|)
  {
    TextAtIndex(t, i, w, 0);
    if |w| > 1 {
      TextAtIndex(t, i, w, 1);
      var _ := DigitAt(w, 8, v, 1);
    }
    NumeralRead(t, i, w, 8, v);
  }

  lemma HexRead(t: string, i: nat, w: string, v: nat)
    requires TextAt(t, i, w) && |w| > 2 && w[0] == '0' && IsX(w[1]) && Denotes(w[2..], 16, v)
    requires Stops(t, i + |w|, 16)
    ensures Strtoul(t, i, 0) == Number(v, i + |w|)
  {
    assert w == w[..2] + w[2..];
    TextAtSplit(t, i, w[..2], w[2..]);
    TextAtIndex(t, i, w, 0);
    TextAtIndex(t, i, w, 1);
    TextAtIndex(t, i, w, 2);
    var _ := DigitAt(w[2..], 16, v, 0);
    NumeralRead(t, i + 2, w[2..], 16, v);
  }

  lemma NoDigitStops(t: string, i: nat)
    requires !IsXDigit(CharAt(t, i))
    ensures Stops(t, i, 8) && Stops(t, i, 10) && Stops(t, i, 16)
  {
  }

  /** Every numeral of C that no letter or digit follows is read as the number it denotes. */
  lemma CNumeralRead(t: string, i: nat, w: string, v: nat)
    requires TextAt(t, i, w) && CNumeral(w, v)
    requires var c := CharAt(t, i + |w|); !IsXDigit(c) && !IsX(c)
    ensures Strtoul(t, i, 0) == Number(v, i + |w|)
  {
    NoDigitStops(t, i + |w|);
    if w[0] != '0' {
      DecimalRead(t, i, w, v);
    } else if Denotes(w, 8, v) {
      OctalRead(t, i, w, v);
    } else {
      HexRead(t, i, w, v);
    }
  }

  /** Nothing is read exactly where no decimal digit stands. */
  lemma NothingRead(t: string, i: nat)
    requires i <= |t|
    ensures Strtoul(t, i, 0).end == i <==> Stops(t, i, 10)
  {
    if Stops(t, i, 10) {
      assert !IsDigitFor('0', 0) || CharAt(t, i) != '0';
      StopsReading(t, i, 10, 0);
    } else {
      var d :| 0 <= d < 10 && IsDigitFor(CharAt(t, i), d);
      DigitForIs(t[i], d);
    }
  }

  lemma FirstOfCNumeral(w: string, v: nat)
    requires CNumeral(w, v)
    ensures w != "" && IsDigit(w[0])
  {
    if w[0] != '0' { var _ := DigitAt(w, 10, v, 0); }
  }

  // ---------------------------------------------------------------- what was read is a numeral

  lemma DenotesMore(s: string, base: nat, acc: nat, c: char, d: nat, v: nat)
    requires d < base && Denotes(s, base, acc) && IsDigitFor(c, d) && v == acc * base + d
    ensures Denotes(s + [c], base, v)
  {
    DivModUnique(v, base, acc, d);
    assert (s + [c])[..|s|] == s;
  }

  /** The digits that were read are a numeral of the result. */
  lemma {:induction false} DigitsDenote(t: string, i: nat, base: nat, acc: nat, r: Number)
    requires i <= |t| && 0 < base <= 16 && Denotes(t[..i], base, acc) && r == Digits(t, i, base, acc)
    ensures r.end <= |t| && Denotes(t[..r.end], base, r.value)
    decreases |t| - i
  {
    if i < |t| && IsXDigit(t[i]) && DigitValue(t[i]) < base {
      var d := DigitValue(t[i]);
      var more := acc * base + d;
      DigitStep(t, i, base, acc, d, more);
      DenotesMore(t[..i], base, acc, t[i], d, more);
      assert t[..i + 1] == t[..i] + [t[i]];
      DigitsDenote(t, i + 1, base, more, r);
    }
  }
}
