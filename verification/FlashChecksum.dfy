/** The checksum of an ARM flash footer: the complement of a 32-bit sum with end-around carry. */
module FlashChecksum {
  import opened Arithmetic
  import opened Bytes

  /** One turn of the loop in `compute_crc`: a carry out of bit 31 is added back in. */
  function AddWord(sum: word, val: word): word {
    var bumped := if val > 0xFFFF_FFFF - sum then (sum + 1) % 0x1_0000_0000 else sum;
    (bumped + val) % 0x1_0000_0000
  }

  function Total(words: seq<word>): nat {
    if words == [] then 0 else Total(words[..|words| - 1]) + words[|words| - 1]
  }

  /** The sum of `total` in one's complement: 0 only for 0, and 0xFFFF_FFFF for its other multiples. */
  function Fold(total: nat): word {
    if total == 0 then 0 else (total - 1) % 0xFFFF_FFFF + 1
  }

  lemma AddWordIs(sum: word, val: word)
    ensures AddWord(sum, val) == if sum + val <= 0xFFFF_FFFF then sum + val else sum + val - 0xFFFF_FFFF
  {
  }

  lemma FoldIs(q: int, r: word)
    requires 0 <= q && 0 < r
    ensures Fold(q * 0xFFFF_FFFF + r) == r
  {
    DivModUnique(q * 0xFFFF_FFFF + r - 1, 0xFFFF_FFFF, q, r - 1);
  }

  lemma AddWordFolds(total: nat, val: word)
    ensures AddWord(Fold(total), val) == Fold(total + val)
  {
    var sum := Fold(total);
    AddWordIs(sum, val);
    if total == 0 {
      if val > 0 { FoldIs(0, val); }
    } else {
      var q, r := Split(total - 1, 0xFFFF_FFFF);
      if sum + val <= 0xFFFF_FFFF { FoldIs(q, sum + val); } else { FoldIs(q + 1, sum + val - 0xFFFF_FFFF); }
    }
  }

  function Checksum(words: seq<word>): word { 0xFFFF_FFFF - Fold(Total(words)) }

  /** The words a checksum of `len` bytes covers. */
  function Words(readl: nat -> word, start: nat, n: nat): (w: seq<word>)
    ensures |w| == n
  {
    seq(n, (i: nat) => readl(start + 4 * i))
  }

  /** `compute_crc`. The counter is a signed 32-bit `int`. */
  method ComputeCrc(readl: nat -> word, start: nat, len: nat) returns (crc: word)
    requires len < 0x8000_0000
    ensures len % 4 != 0 ==> crc == 0
    ensures len % 4 == 0 ==> crc == Checksum(Words(readl, start, len / 4))
  {
    var sum: word := 0;
    if len % 4 != 0 { return 0; }
    var i := 0;
    while i < len
      invariant 0 <= i <= len && i % 4 == 0
      invariant sum == Fold(Total(Words(readl, start, i / 4)))
    {
      var val := readl(start + i);
      ghost var before := Words(readl, start, i / 4);
      assert Words(readl, start, i / 4 + 1)[..i / 4] == before;
      AddWordFolds(Total(before), val);
      if val > 0xFFFF_FFFF - sum {
        sum := (sum + 1) % 0x1_0000_0000;
      }
      sum := (sum + val) % 0x1_0000_0000;
      i := i + 4;
    }
    crc := 0xFFFF_FFFF - sum;
  }

  // ---------------------------------------------------------------- order

  lemma {:induction false} TotalAppend(a: seq<word>, b: seq<word>)
    ensures Total(a + b) == Total(a) + Total(b)
  {
    if b == [] {
      assert a + b == a;
    } else {
      var most, last := b[..|b| - 1], b[|b| - 1];
      TotalAppend(a, most);
      assert (a + b)[..|a + b| - 1] == a + most;
    }
  }

  lemma TotalMiddle(a: seq<word>, x: word, b: seq<word>)
    ensures Total(a + [x] + b) == Total(a + b) + x
  {
    TotalAppend(a + [x], b);
    TotalAppend(a, [x]);
    TotalAppend(a, b);
  }

  lemma Around(words: seq<word>, k: nat)
    requires k < |words|
    ensures words == words[..k] + [words[k]] + words[k + 1..]
  {
  }

  lemma TotalAround(words: seq<word>, k: nat)
    requires k < |words|
    ensures Total(words) == Total(words[..k] + words[k + 1..]) + words[k]
  {
    Around(words, k);
    TotalMiddle(words[..k], words[k], words[k + 1..]);
  }

  lemma {:induction false} TotalOfPermutation(a: seq<word>, b: seq<word>)
    requires multiset(a) == multiset(b)
    ensures Total(a) == Total(b)
  {
    if a == [] {
      assert |multiset(b)| == 0;
    } else {
      var most, x := a[..|a| - 1], a[|a| - 1];
      assert a == most + [x];
      assert x in multiset(b);
      var k :| 0 <= k < |b| && b[k] == x;
      var rest := b[..k] + b[k + 1..];
      assert b == b[..k] + [x] + b[k + 1..];
      assert multiset(rest) == multiset(b) - multiset{x};
      TotalOfPermutation(most, rest);
      TotalAround(b, k);
    }
  }

  /** The order of the words does not matter. */
  lemma OrderDoesNotMatter(a: seq<word>, b: seq<word>)
    requires multiset(a) == multiset(b)
    ensures Checksum(a) == Checksum(b)
  {
    TotalOfPermutation(a, b);
  }

  // ---------------------------------------------------------------- the footer

  lemma TotalOfUpdate(words: seq<word>, k: nat, v: word)
    requires k < |words|
    ensures Total(words[k := v]) == Total(words) - words[k] + v
  {
    TotalAround(words, k);
    TotalAround(words[k := v], k);
    assert words[k := v][..k] + words[k := v][k + 1..] == words[..k] + words[k + 1..];
  }

  /** The checksum is 0 exactly for the positive multiples of 2^32 - 1. */
  lemma ZeroIff(words: seq<word>)
    ensures Checksum(words) == 0 <==> Total(words) > 0 && Total(words) % 0xFFFF_FFFF == 0
  {
  }

  /** Storing the checksum of the words with a zeroed slot into that slot makes the checksum 0. */
  lemma StoredChecksumCancels(words: seq<word>, k: nat)
    requires k < |words| && words[k] == 0
    ensures Checksum(words[k := Checksum(words)]) == 0
  {
    TotalOfUpdate(words, k, Checksum(words));
  }

  /** Of a footer whose checksum is 0, changing one word is noticed unless it turns 0 into 2^32 - 1 or back. */
  lemma ChangeIsNoticed(words: seq<word>, k: nat, v: word)
    requires k < |words| && Checksum(words) == 0
    ensures Checksum(words[k := v]) == 0 <==>
              || v == words[k]
              || (v == 0xFFFF_FFFF && words[k] == 0)
              || (v == 0 && words[k] == 0xFFFF_FFFF && Total(words) > 0xFFFF_FFFF)
  {
    TotalOfUpdate(words, k, v);
  }

  // ---------------------------------------------------------------- which addresses count

  /** Only the words at the addresses `start`, `start + 4` and so on count. */
  lemma OnlyTheseWords(readl: nat -> word, readl': nat -> word, start: nat, n: nat)
    requires forall i: nat | i < n :: readl(start + 4 * i) == readl'(start + 4 * i)
    ensures forall i: nat | i < n :: Words(readl, start, n)[i] == readl(start + 4 * i)
    ensures Checksum(Words(readl, start, n)) == Checksum(Words(readl', start, n))
  {
    assert Words(readl, start, n) == Words(readl', start, n);
  }

  /** The two words that count alike beside others. */
  predicate BothZero(x: word, y: word) {
    (x == 0 && y == 0xFFFF_FFFF) || (x == 0xFFFF_FFFF && y == 0)
  }

  lemma UpdateShows(words: seq<word>, k: nat, v: word)
    requires k < |words| && v != words[k] && !BothZero(words[k], v)
    ensures Checksum(words[k := v]) != Checksum(words)
  {
    TotalOfUpdate(words, k, v);
    TotalAround(words, k);
    FoldsDiffer(Total(words) - words[k], words[k], v);
  }

  lemma FoldsDiffer(rest: nat, x: word, y: word)
    requires x != y && !BothZero(x, y)
    ensures Fold(rest + x) != Fold(rest + y)
  {
  }

  /** And each of them counts: another value there is another checksum, unless it trades 0 for 2^32 - 1. */
  lemma EachWordCounts(readl: nat -> word, readl': nat -> word, start: nat, n: nat, k: nat)
    requires k < n && forall i: nat | i < n && i != k :: readl(start + 4 * i) == readl'(start + 4 * i)
    requires readl(start + 4 * k) != readl'(start + 4 * k)
    requires !BothZero(readl(start + 4 * k), readl'(start + 4 * k))
    ensures Checksum(Words(readl, start, n)) != Checksum(Words(readl', start, n))
  {
    var words := Words(readl, start, n);
    assert Words(readl', start, n) == words[k := readl'(start + 4 * k)];
    UpdateShows(words, k, readl'(start + 4 * k));
  }
}
