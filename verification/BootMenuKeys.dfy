/**
  The keys of the boot menu: escape sequences read by an automaton, a cursor
  they move, and a countdown that any key stops.
 */
module BootMenuKeys {

  // ---------------------------------------------------------------- key codes

  const ESC: char := '\U{1B}'
  const ENTER: char := '\r'

  datatype Key = KeyNone | KeyUp | KeyDown | KeySelect

  /** What the terminal sends for one key, escape sequences included. */
  datatype Token =
    | Plain(c: char)    // any character but ESC
    | Esc(c: char)      // ESC, then anything but '['
    | Csi(c: char)      // ESC '[', then anything but '1'
    | CsiOne(c: char)   // ESC '[' '1', then anything

  predicate WellFormed(t: Token) {
    match t
    case Plain(c) => c != ESC
    case Esc(c) => c != '['
    case Csi(c) => c != '1'
    case CsiOne(_) => true
  }

  /** The characters of an unfinished escape sequence; `esc` counts them. */
  function Pending(esc: nat): string
    requires esc <= 3
  {
    [ESC, '[', '1'][..esc]
  }

  /** How many characters of an escape sequence precede the last one of `t`. */
  function Lead(t: Token): (n: nat)
    ensures n <= 3
  {
    match t
    case Plain(_) => 0
    case Esc(_) => 1
    case Csi(_) => 2
    case CsiOne(_) => 3
  }

  function Text(t: Token): string { Pending(Lead(t)) + [t.c] }

  function Texts(ts: seq<Token>): string {
    if ts == [] then [] else Texts(ts[..|ts| - 1]) + Text(ts[|ts| - 1])
  }

  predicate AllWellFormed(ts: seq<Token>) {
    ts == [] || (AllWellFormed(ts[..|ts| - 1]) && WellFormed(ts[|ts| - 1]))
  }

  function Action(t: Token): Key {
    if Lead(t) < 2 then KeyNone
    else if t.c == 'A' then KeyUp
    else if t.c == 'B' then KeyDown
    else KeyNone
  }

  // ---------------------------------------------------------------- the automaton

  /** `*esc` after one more character. */
  function EscNext(esc: nat, c: char): (r: nat)
    requires esc <= 3
    ensures r <= 3
  {
    if esc < 3 && c == [ESC, '[', '1'][esc] then esc + 1 else 0
  }

  function TokenOf(esc: nat, c: char): (t: Token)
    requires esc <= 3
    ensures Lead(t) == esc && t.c == c
  {
    if esc == 0 then Plain(c) else if esc == 1 then Esc(c) else if esc == 2 then Csi(c) else CsiOne(c)
  }

  function EscAfter(s: string): (r: nat)
    ensures r <= 3
  {
    if s == [] then 0 else EscNext(EscAfter(s[..|s| - 1]), s[|s| - 1])
  }

  /** The keys the automaton has recognised in `s`. */
  function Tokens(s: string): seq<Token> {
    if s == [] then []
    else
      var before, c := s[..|s| - 1], s[|s| - 1];
      var esc := EscAfter(before);
      if EscNext(esc, c) == 0 then Tokens(before) + [TokenOf(esc, c)] else Tokens(before)
  }

  lemma TextsSnoc(ts: seq<Token>, t: Token)
    ensures Texts(ts + [t]) == Texts(ts) + Text(t)
    ensures AllWellFormed(ts + [t]) <==> AllWellFormed(ts) && WellFormed(t)
  {
    assert (ts + [t])[..|ts|] == ts;
  }

  lemma PendingSnoc(esc: nat, c: char)
    requires esc <= 3
    ensures EscNext(esc, c) == 0 ==> Pending(esc) + [c] == Text(TokenOf(esc, c)) && WellFormed(TokenOf(esc, c))
    ensures EscNext(esc, c) != 0 ==> Pending(esc) + [c] == Pending(EscNext(esc, c))
  {
  }

  lemma Regroup(text: string, pending: string, c: char)
    ensures text + pending + [c] == text + (pending + [c])
  {
  }

  /** Every input is a sequence of keys and at most one unfinished escape sequence. */
  lemma {:induction false} InputIsTokens(s: string)
    ensures Texts(Tokens(s)) + Pending(EscAfter(s)) == s
    ensures AllWellFormed(Tokens(s))
  {
    if s != [] {
      var before, c := s[..|s| - 1], s[|s| - 1];
      var esc, ts := EscAfter(before), Tokens(before);
      InputIsTokens(before);
      PendingSnoc(esc, c);
      Regroup(Texts(ts), Pending(esc), c);
      if EscNext(esc, c) == 0 {
        TextsSnoc(ts, TokenOf(esc, c));
      }
    }
  }

  /** One more character. */
  lemma Feed(s: string, c: char)
    ensures var esc := EscAfter(s);
            && EscAfter(s + [c]) == EscNext(esc, c)
            && Tokens(s + [c]) == if EscNext(esc, c) == 0 then Tokens(s) + [TokenOf(esc, c)] else Tokens(s)
  {
    assert (s + [c])[..|s|] == s;
  }

  lemma {:induction false} PendingFeeds(s: string, n: nat)
    requires n <= 3 && EscAfter(s) == 0
    ensures EscAfter(s + Pending(n)) == n && Tokens(s + Pending(n)) == Tokens(s)
  {
    if n == 0 {
      assert s + Pending(0) == s;
    } else {
      PendingFeeds(s, n - 1);
      var c := [ESC, '[', '1'][n - 1];
      PendingSnoc(n - 1, c);
      Regroup(s, Pending(n - 1), c);
      Feed(s + Pending(n - 1), c);
    }
  }

  lemma TokenIsItself(t: Token)
    requires WellFormed(t)
    ensures EscNext(Lead(t), t.c) == 0 && TokenOf(Lead(t), t.c) == t
  {
  }

  /** The decomposition is unique: the automaton finds the very keys that were pressed. */
  lemma {:induction false} TokensAreInput(ts: seq<Token>, esc: nat)
    requires esc <= 3 && AllWellFormed(ts)
    ensures Tokens(Texts(ts) + Pending(esc)) == ts && EscAfter(Texts(ts) + Pending(esc)) == esc
  {
    if ts != [] {
      var most, t := ts[..|ts| - 1], ts[|ts| - 1];
      TokensAreInput(most, Lead(t));
      Feed(Texts(most) + Pending(Lead(t)), t.c);
      Regroup(Texts(most), Pending(Lead(t)), t.c);
      TokenIsItself(t);
    }
    PendingFeeds(Texts(ts), esc);
  }

  // ---------------------------------------------------------------- the cursor

  function Move(active: int, count: int, key: Key): int {
    if key.KeyUp? && active > 0 then active - 1
    else if key.KeyDown? && active < count - 1 then active + 1
    else active
  }

  /** The cursor after the keys `ts`. */
  function Cursor(ts: seq<Token>, active: int, count: int): (r: int)
    ensures 0 <= active < count ==> 0 <= r < count
  {
    if ts == [] then active else Move(Cursor(ts[..|ts| - 1], active, count), count, Action(ts[|ts| - 1]))
  }

  lemma CursorSnoc(ts: seq<Token>, t: Token, active: int, count: int)
    ensures Cursor(ts + [t], active, count) == Move(Cursor(ts, active, count), count, Action(t))
  {
    assert (ts + [t])[..|ts|] == ts;
  }

  // ---------------------------------------------------------------- from characters to the cursor

  /** Where the characters `s` leave the cursor. */
  function CursorAfter(s: string, active: int, count: int): int {
    Cursor(Tokens(s), active, count)
  }

  /** Behind a finished input `keys` is finished, too, and leaves the cursor at `where`. */
  predicate Leaves(s: string, keys: string, active: int, count: int, where: int) {
    EscAfter(s + keys) == 0 && CursorAfter(s + keys, active, count) == where
  }

  /** A key: `n` characters of an escape sequence and the character that finishes it. */
  lemma KeyPressed(s: string, keys: string, n: nat, c: char, active: int, count: int)
    requires EscAfter(s) == 0 && n <= 3 && EscNext(n, c) == 0 && keys == Pending(n) + [c]
    ensures Leaves(s, keys, active, count, Move(CursorAfter(s, active, count), count, Action(TokenOf(n, c))))
  {
    PendingFeeds(s, n);
    Feed(s + Pending(n), c);
    Regroup(s, Pending(n), c);
    CursorSnoc(Tokens(s), TokenOf(n, c), active, count);
  }

  lemma UpKey(s: string, keys: string, n: nat, active: int, count: int, at: int)
    requires EscAfter(s) == 0 && 2 <= n <= 3 && keys == Pending(n) + ['A']
    requires at == CursorAfter(s, active, count) >= 0
    ensures Leaves(s, keys, active, count, if at == 0 then 0 else at - 1)
  {
    KeyPressed(s, keys, n, 'A', active, count);
  }

  lemma DownKey(s: string, keys: string, n: nat, active: int, count: int, at: int)
    requires EscAfter(s) == 0 && 2 <= n <= 3 && keys == Pending(n) + ['B']
    requires at == CursorAfter(s, active, count) < count
    ensures Leaves(s, keys, active, count, if at == count - 1 then at else at + 1)
  {
    KeyPressed(s, keys, n, 'B', active, count);
  }

  lemma OtherKey(s: string, keys: string, n: nat, c: char, active: int, count: int, at: int)
    requires EscAfter(s) == 0 && n <= 3 && EscNext(n, c) == 0 && (n >= 2 ==> c !in ['A', 'B'])
    requires keys == Pending(n) + [c] && at == CursorAfter(s, active, count)
    ensures Leaves(s, keys, active, count, at)
  {
    KeyPressed(s, keys, n, c, active, count);
  }

  /** The arrow keys, with and without the optional `1`, move the cursor by one entry and stop at both ends. */
  lemma ArrowsMove(s: string, active: int, count: int, at: int)
    requires EscAfter(s) == 0 && 0 <= active < count && at == CursorAfter(s, active, count)
    ensures 0 <= at < count
    ensures Leaves(s, "\U{1B}[A", active, count, if at == 0 then 0 else at - 1)
    ensures Leaves(s, "\U{1B}[1A", active, count, if at == 0 then 0 else at - 1)
    ensures Leaves(s, "\U{1B}[B", active, count, if at == count - 1 then at else at + 1)
    ensures Leaves(s, "\U{1B}[1B", active, count, if at == count - 1 then at else at + 1)
  {
    UpKey(s, "\U{1B}[A", 2, active, count, at);
    UpKey(s, "\U{1B}[1A", 3, active, count, at);
    DownKey(s, "\U{1B}[B", 2, active, count, at);
    DownKey(s, "\U{1B}[1B", 3, active, count, at);
  }

  /** A key that is no escape sequence, or ends one early, leaves the cursor where it is. */
  lemma PlainStays(s: string, c: char, active: int, count: int, at: int)
    requires EscAfter(s) == 0 && at == CursorAfter(s, active, count)
    ensures c != '\U{1B}' ==> Leaves(s, [c], active, count, at)
    ensures c != '[' ==> Leaves(s, ['\U{1B}', c], active, count, at)
  {
    if c != ESC { OtherKey(s, [c], 0, c, active, count, at); }
    if c != '[' { OtherKey(s, [ESC, c], 1, c, active, count, at); }
  }

  /** So does every escape sequence that does not end in `A` or `B`. */
  lemma OthersStay(s: string, c: char, active: int, count: int, at: int)
    requires EscAfter(s) == 0 && at == CursorAfter(s, active, count) && c !in ['A', 'B']
    ensures c != '1' ==> Leaves(s, ['\U{1B}', '[', c], active, count, at)
    ensures Leaves(s, ['\U{1B}', '[', '1', c], active, count, at)
  {
    if c != '1' { OtherKey(s, [ESC, '[', c], 2, c, active, count, at); }
    OtherKey(s, [ESC, '[', '1', c], 3, c, active, count, at);
  }

  /** An escape sequence that is not finished moves nothing. */
  lemma UnfinishedStays(s: string, p: string, active: int, count: int)
    requires EscAfter(s) == 0 && p in ["", "\U{1B}", "\U{1B}[", "\U{1B}[1"]
    ensures EscAfter(s + p) == |p| && CursorAfter(s + p, active, count) == CursorAfter(s, active, count)
  {
    assert p == Pending(|p|);
    PendingFeeds(s, |p|);
  }

  // ---------------------------------------------------------------- what a run must choose

  /** One call of `tstc`, with the character `getc` then returns. */
  datatype Poll = Quiet | Hit(c: char)

  function Keys(polls: seq<Poll>): string {
    if polls == [] then []
    else
      var before := Keys(polls[..|polls| - 1]);
      var p := polls[|polls| - 1];
      if p.Hit? then before + [p.c] else before
  }

  predicate Silent(polls: seq<Poll>, n: nat)
    requires n <= |polls|
  {
    forall j | 0 <= j < n :: polls[j].Quiet?
  }

  predicate TimesOut(delay: int, polls: seq<Poll>) {
    0 <= delay && 100 * delay <= |polls| && Silent(polls, 100 * delay)
  }

  datatype Outcome = Chosen(index: int) | Waiting(cursor: int)

  function FirstEnter(s: string): (n: nat)
    ensures n <= |s| && ENTER !in s[..n] && (n < |s| ==> s[n] == ENTER)
  {
    if s == [] then 0
    else
      var n := FirstEnter(s[..|s| - 1]);
      if n < |s| - 1 then assert s[..n] == s[..|s| - 1][..n]; n
      else if s[|s| - 1] == ENTER then |s| - 1
      else |s|
  }

  /** The keys before the first ENTER move the cursor, and ENTER chooses the entry under it. */
  function Decided(s: string, active: int, count: int): Outcome {
    var n := FirstEnter(s);
    var cursor := Cursor(Tokens(s[..n]), active, count);
    if n < |s| then Chosen(cursor) else Waiting(cursor)
  }

  /** A countdown no key interrupts chooses the default entry. */
  function Expected(delay: int, active: int, count: int, polls: seq<Poll>): Outcome {
    if TimesOut(delay, polls) then Chosen(active) else Decided(Keys(polls), active, count)
  }

  /** The countdown: 100 polls a second, all of them quiet, choose the default entry; a key among them stops it. */
  lemma Countdown(delay: int, active: int, count: int, polls: seq<Poll>)
    ensures 0 <= delay && 100 * delay <= |polls| && (forall j | 0 <= j < 100 * delay :: polls[j].Quiet?) ==>
              Expected(delay, active, count, polls) == Chosen(active)
    ensures delay < 0 || (exists j | 0 <= j < |polls| && j < 100 * delay :: polls[j].Hit?) ==>
              Expected(delay, active, count, polls) == Decided(Keys(polls), active, count)
  {
  }

  /** Carriage return, and nothing else, chooses the entry under the cursor, wherever it stands in the input. */
  lemma ReturnChooses(s: string, rest: string, active: int, count: int)
    requires '\r' !in s
    ensures Decided(s, active, count) == Waiting(CursorAfter(s, active, count))
    ensures Decided(s + "\r" + rest, active, count) == Chosen(CursorAfter(s, active, count))
  {
    var all := s + "\r" + rest;
    assert s[..|s|] == s && all[..|s|] == s;
    FirstEnterIs(s, |s|);
    FirstEnterIs(all, |s|);
  }

  lemma NextPoll(polls: seq<Poll>, p: nat)
    requires p < |polls|
    ensures Keys(polls[..p + 1]) == Keys(polls[..p]) + if polls[p].Hit? then [polls[p].c] else []
  {
    assert polls[..p + 1][..p] == polls[..p];
  }

  lemma {:induction false} KeysGrow(polls: seq<Poll>, p: nat, q: nat)
    requires p <= q <= |polls|
    ensures Keys(polls[..p]) <= Keys(polls[..q])
    decreases q - p
  {
    if p < q {
      NextPoll(polls, p);
      KeysGrow(polls, p + 1, q);
    }
  }

  lemma FirstEnterIs(s: string, n: nat)
    requires n <= |s| && ENTER !in s[..n] && (n < |s| ==> s[n] == ENTER)
    ensures FirstEnter(s) == n
  {
  }

  lemma EnterDecides(polls: seq<Poll>, p: nat, active: int, count: int)
    requires p < |polls| && polls[p] == Hit(ENTER) && ENTER !in Keys(polls[..p])
    ensures Decided(Keys(polls), active, count) == Chosen(Cursor(Tokens(Keys(polls[..p])), active, count))
  {
    var s := Keys(polls[..p]);
    NextPoll(polls, p);
    KeysGrow(polls, p + 1, |polls|);
    assert polls[..|polls|] == polls;
    var all := Keys(polls);
    assert s + [ENTER] <= all;
    assert all[..|s|] == s && all[|s|] == ENTER;
    FirstEnterIs(all, |s|);
  }

  lemma NoEnterWaits(polls: seq<Poll>, active: int, count: int)
    requires ENTER !in Keys(polls)
    ensures Decided(Keys(polls), active, count) == Waiting(Cursor(Tokens(Keys(polls)), active, count))
  {
    var s := Keys(polls);
    assert s[..|s|] == s;
    FirstEnterIs(s, |s|);
  }

  lemma {:induction false} SilentHasNoKeys(polls: seq<Poll>, n: nat)
    requires n <= |polls| && Silent(polls, n)
    ensures Keys(polls[..n]) == []
  {
    if n > 0 {
      SilentHasNoKeys(polls, n - 1);
      NextPoll(polls, n - 1);
    }
  }
}
