/**
  How much of a string value its text tells: the strings stand between quotes,
  but a quote inside a string is printed as it is.
 */
module FdtStrings {
  import opened Bytes
  import opened FdtRoundTrip
  import opened FdtValues
  import opened Strto

  const QUOTE: char := '\"'

  predicate QuoteFree(l: seq<string>) {
    forall i | 0 <= i < |l| :: QUOTE !in l[i]
  }

  /** Between two strings stand a quote, a comma, a space and a quote. */
  lemma JoinedMore(l: seq<string>)
    requires |l| > 1
    ensures Joined(l) == l[0] + ("\", \"" + Joined(l[1..]))
  {
    var rest := l[1..];
    assert Led(rest) == "\", \"" + rest[0] + Led(rest[1..]);
    assert "\", \"" + rest[0] + Led(rest[1..]) == "\", \"" + (rest[0] + Led(rest[1..]));
  }

  lemma JoinedOne(l: seq<string>)
    requires |l| == 1
    ensures Joined(l) == l[0]
  {
    assert l[1..] == [];
  }

  /** The text behind the first string. */
  function Rest(l: seq<string>): (r: string)
    requires l != []
    ensures r == "" || r[0] == QUOTE
  {
    if |l| == 1 then "" else "\", \"" + Joined(l[1..])
  }

  lemma JoinedIs(l: seq<string>)
    requires l != []
    ensures Joined(l) == l[0] + Rest(l)
  {
    if |l| == 1 { JoinedOne(l); } else { JoinedMore(l); }
  }

  lemma RestTells(l: seq<string>, m: seq<string>)
    requires l != [] && m != [] && Rest(l) == Rest(m)
    ensures (|l| == 1 <==> |m| == 1) && (|l| > 1 ==> Joined(l[1..]) == Joined(m[1..]))
  {
    if |l| > 1 && |m| > 1 {
      assert Joined(l[1..]) == Rest(l)[4..] == Rest(m)[4..] == Joined(m[1..]);
    }
  }

  lemma NotLonger(a: string, x: string, b: string, y: string)
    requires QUOTE !in b && a + x == b + y && (x == "" || x[0] == QUOTE)
    ensures |b| <= |a|
  {
    var t := a + x;
    assert |t| == |b| + |y|;
    if b != "" {
      var k := if |a| < |b| then |a| else |b| - 1;
      assert t[k] == b[k];
    }
  }

  /** The text up to the first quote is the first string. */
  lemma FirstString(a: string, x: string, b: string, y: string)
    requires QUOTE !in a && QUOTE !in b && a + x == b + y
    requires (x == "" || x[0] == QUOTE) && (y == "" || y[0] == QUOTE)
    ensures a == b && x == y
  {
    NotLonger(a, x, b, y);
    NotLonger(b, y, a, x);
    assert a == (a + x)[..|a|] == (b + y)[..|b|] == b;
    assert x == (a + x)[|a|..] == (b + y)[|b|..] == y;
  }

  /** Strings without quotes are told by their text. */
  lemma {:induction false} TextTellsStrings(l: seq<string>, m: seq<string>)
    requires l != [] && m != [] && QuoteFree(l) && QuoteFree(m) && Joined(l) == Joined(m)
    ensures l == m
    decreases |l|
  {
    JoinedIs(l);
    JoinedIs(m);
    FirstString(l[0], Rest(l), m[0], Rest(m));
    RestTells(l, m);
    if |l| > 1 {
      TextTellsStrings(l[1..], m[1..]);
      assert l == [l[0]] + l[1..] && m == [m[0]] + m[1..];
    }
  }

  /** With quotes they are not: every list prints like a single string, its own text. */
  lemma TextHidesStrings(l: seq<string>)
    ensures Joined([Joined(l)]) == Joined(l)
    ensures Joined(["a", "b"]) == "a\", \"b" == Joined(["a\", \"b"])
  {
    JoinedOne([Joined(l)]);
    JoinedOne(["a\", \"b"]);
    JoinedMore(["a", "b"]);
    assert ["a", "b"][1..] == ["b"];
    JoinedOne(["b"]);
    assert "a" + ("\", \"" + "b") == "a\", \"b";
  }

  lemma {:induction false} PiecesQuoteFree(d: seq<byte>, j: nat)
    requires j <= |d| && 34 !in d
    ensures QuoteFree(Strings(d, j))
    decreases |d| - j
  {
    if j < |d| {
      PiecesQuoteFree(d, Next(d, j));
      var piece := d[j..FirstNul(d, j)];
      assert forall k | 0 <= k < |piece| :: piece[k] == d[j + k] != 34;
    }
  }

  /** Two string values without the byte of a quote that print alike are the same value. */
  lemma TextTellsValue(d: seq<byte>, after: byte, addr: string, e: seq<byte>, after': byte, addr': string)
    requires Printable(d, after) && d[|d| - 1] == 0 && 34 !in d
    requires Printable(e, after') && e[|e| - 1] == 0 && 34 !in e
    requires ValueText(d, after, addr) == ValueText(e, after', addr')
    ensures d == e
  {
    var l, m := Strings(d, 0), Strings(e, 0);
    InQuotes(Joined(l), Joined(m));
    PiecesQuoteFree(d, 0);
    PiecesQuoteFree(e, 0);
    TextTellsStrings(l, m);
    FlatOfStrings(d, 0);
    FlatOfStrings(e, 0);
    assert d[0..] == d && e[0..] == e;
    CodesOfChars(d);
    CodesOfChars(e);
  }

  lemma InQuotes(s: string, t: string)
    requires "\"" + s + "\"" == "\"" + t + "\""
    ensures s == t
  {
    var x, y := "\"" + s + "\"", "\"" + t + "\"";
    assert s == x[1..|x| - 1] == y[1..|y| - 1] == t;
  }

  // ---------------------------------------------------------------- which form a value is printed in

  /** A text of visible characters and spaces is printed in quotes. */
  lemma VisibleText(s: string, after: byte, addr: string)
    requires s != "" && forall i | 0 <= i < |s| :: ' ' <= s[i] <= '~'
    ensures var d := Codes(s) + [0]; Printable(d, after) && ValueText(d, after, addr) == "\"" + s + "\""
  {
    var d := Codes(s) + [0];
    assert d[|s|] == 0 && forall i | 0 <= i < |s| :: d[i] == s[i] as int != 0;
    assert FirstNul(d, 0) == |s|;
    assert Chars(d[0..|s|]) == s;
    assert Strings(d, 0) == [s];
    JoinedOne([s]);
  }

  /** A value with a byte that is neither text nor a terminator is not. */
  lemma ControlBytes(data: seq<byte>, after: byte, i: nat)
    requires i < |data| && (1 <= data[i] <= 8 || 14 <= data[i] <= 31 || 127 <= data[i] <= 159)
    ensures !Printable(data, after)
  {
  }

  /** Other values are cells if whole words, bytes if not, and only an address if longer than 64 bytes. */
  lemma DumpForms(data: seq<byte>, after: byte, addr: string)
    requires data != [] && !Printable(data, after)
    ensures |data| > 64 ==> ValueText(data, after, addr) == "* 0x" + addr + " [0x" + Hex(|data|, 8) + "]"
    ensures |data| <= 64 ==> ValueText(data, after, addr)[..1] == if |data| % 4 == 0 then "<" else "["
  {
  }
}
