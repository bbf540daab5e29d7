/** The words of an `ethsw` command as strings: how U-Boot reads keywords, numbers and Ethernet addresses. */
module EthswWords {
  import opened Bytes
  import opened EthswTables
  import opened EthswParser
  import opened Strto

  /** The comparison with every name in `keyword[]`. */
  function KeyOf(w: string): Key {
    var j := IndexOfName(w);
    if 0 <= j < KEYWORD_COUNT && Name(j) == w then Keyword(j) else KeyEnd
  }

  /** `strict_strtoul` with radix 10: digits to the end, or to a final newline. */
  function NumberOf(w: string): Maybe<nat> {
    var n := Strtoul(w, 0, 10);
    if n.end == 0 then Nothing
    else if n.end == |w| || (n.end + 1 == |w| && w[n.end] == '\n') then Just(n.value)
    else Nothing
  }

  predicate HexPrefix(s: string, cur: nat) {
    CharAt(s, cur) == '0' && IsX(CharAt(s, cur + 1))
  }

  /** `skip_num` for at most two hexadecimal digits. */
  function SkipNum(s: string, cur: nat): nat {
    var c := if HexPrefix(s, cur) then cur + 2 else cur;
    if !IsXDigit(CharAt(s, c)) then c else if !IsXDigit(CharAt(s, c + 1)) then c + 1 else c + 2
  }

  /** `eth_validate_ethaddr_str` from the `i`-th of six bytes on. */
  predicate ValidFrom(s: string, cur: nat, i: nat)
    requires i < 6
    decreases 6 - i
  {
    var end := SkipNum(s, cur);
    && cur != end && !(cur + 2 == end && HexPrefix(s, cur))
    && if i < 5 then CharAt(s, end) == ':' && ValidFrom(s, end + 1, i + 1) else CharAt(s, end) == NUL
  }

  /** `string_to_enetaddr` from the `i`-th byte on, in a text of `size` characters whose numbers `read` reads. */
  function BytesOf(read: nat -> Number, size: nat, at: nat, i: nat): seq<byte>
    requires i <= 6
    decreases 6 - i
  {
    if i == 6 then []
    else
      var n := read(at);
      [n.value % 256] + BytesOf(read, size, if n.end < size then n.end + 1 else n.end, i + 1)
  }

  /** The hexadecimal numbers in a text. */
  function HexIn(s: string): nat -> Number {
    (at: nat) => if at <= |s| then Strtoul(s, at, 16) else Number(0, at)
  }

  function AddressOf(w: string): Maybe<seq<byte>> {
    if ValidFrom(w, 0, 0) then Just(BytesOf(HexIn(w), |w|, 0, 0)) else Nothing
  }

  function StandardLexicon(): Lexicon {
    Lexicon(w => KeyOf(w), w => NumberOf(w), w => AddressOf(w))
  }

  lemma {:induction false} DigitsAre(t: string, i: nat, base: nat, acc: nat, k: nat)
    requires i <= k < Digits(t, i, base, acc).end && i <= |t|
    ensures k < |t| && IsXDigit(t[k]) && DigitValue(t[k]) < base
    decreases |t| - i
  {
    if i < k {
      var acc' := acc * base + DigitValue(t[i]);
      assert Digits(t, i, base, acc) == Digits(t, i + 1, base, acc');
      DigitsAre(t, i + 1, base, acc', k);
    }
  }

  /** An address has a colon within its first five characters; a number has none. */
  lemma AddressIsNoNumber(w: string)
    ensures NumberOf(w).Nothing? || AddressOf(w).Nothing?
  {
    if ValidFrom(w, 0, 0) && NumberOf(w).Just? {
      var e := SkipNum(w, 0);
      assert e < |w| && w[e] == ':';
      if e < Strtoul(w, 0, 10).end { DigitsAre(w, 0, 10, 0, e); }
    }
  }

  lemma KeywordIsNothingElse(w: string)
    requires KeyOf(w) != KeyEnd
    ensures KeyOf(w).Keyword? && KeyOf(w).id < KEYWORD_COUNT && NumberOf(w).Nothing? && AddressOf(w).Nothing?
  {
    assert !IsDigit(w[0]) && w[1] != ':' && w[2] != ':';
  }

  /** Everything proved for a good lexicon holds for the words U-Boot reads. */
  lemma StandardIsGood()
    ensures GoodLexicon(StandardLexicon())
  {
    var lex := StandardLexicon();
    forall w ensures lex.key(w) == KeyEnd || IsOnlyKeyword(lex, w) {
      if KeyOf(w) != KeyEnd { KeywordIsNothingElse(w); }
    }
    forall w ensures lex.number(w).Nothing? || lex.address(w).Nothing? {
      AddressIsNoNumber(w);
    }
  }
}
