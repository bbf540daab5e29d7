/**
  The command parser of `ethsw`: a tokeniser that writes one keyword per word
  and leaves its writes behind even where a match fails, a greedy optional
  prefix, and an exact match against a table of commands.
 */
module EthswParser {
  import opened Bytes
  import opened EthswTables

  const ETHSW_MAX_CMD_PARAMS: nat := 20

  // ---------------------------------------------------------------- words

  datatype Maybe<T> = Nothing | Just(value: T)

  /**
    What a word can be taken for: the keyword it spells, a decimal number
    (`strict_strtoul`), an Ethernet address (`eth_validate_ethaddr_str`,
    `string_to_enetaddr`).
   */
  datatype Lexicon = Lexicon(
    key: string -> Key,
    number: string -> Maybe<nat>,
    address: string -> Maybe<seq<byte>>)

  predicate IsOnlyKeyword(lex: Lexicon, w: string) {
    lex.key(w).Keyword? && lex.key(w).id < KEYWORD_COUNT && lex.number(w).Nothing? && lex.address(w).Nothing?
  }

  /** A word is at most one of keyword, number and address. */
  ghost predicate GoodLexicon(lex: Lexicon) {
    && (forall w :: lex.key(w) == KeyEnd || IsOnlyKeyword(lex, w))
    && (forall w :: lex.number(w).Nothing? || lex.address(w).Nothing?)
  }

  predicate IsBroadcast(mac: seq<byte>) {
    forall k | 0 <= k < |mac| :: mac[k] == 0xFF
  }

  predicate IsNumber(lex: Lexicon, ws: seq<string>, k: nat) {
    k < |ws| && lex.number(ws[k]).Just?
  }

  /** An address the parser takes: valid and not the broadcast address. */
  predicate IsTarget(lex: Lexicon, ws: seq<string>, k: nat) {
    k < |ws| && lex.address(ws[k]).Just? && !IsBroadcast(lex.address(ws[k]).value)
  }

  /** Word `w` can stand where the tables have key `k`. */
  predicate Fits(lex: Lexicon, w: string, k: Key) {
    if k == ADD_DEL_MAC then lex.address(w).Just? && !IsBroadcast(lex.address(w).value)
    else if k.Parameter? then lex.number(w).Just?
    else k != KeyEnd && lex.key(w) == k
  }

  // ---------------------------------------------------------------- the tokeniser as a function

  /** `struct ethsw_command_def`; `mac` is Nothing while it is still the broadcast address. */
  datatype Parsed = Parsed(keys: seq<Key>, port: int, vid: int, aggr: int, mac: Maybe<seq<byte>>)

  const INITIAL: Parsed := Parsed(seq(ETHSW_MAX_CMD_PARAMS, _ => KeyEnd), -1, -1, -1, Nothing)

  function Put(st: Parsed, k: nat, key: Key): Parsed
    requires k < |st.keys|
  {
    st.(keys := st.keys[k := key])
  }

  /** The parser's state and its position behind a token. */
  datatype Step = Step(st: Parsed, next: nat)

  /** A keyword that takes the number behind it. */
  function TakeNumber(lex: Lexicon, ws: seq<string>, st: Parsed, i: nat, key: Key): Step
    requires i < |ws| <= |st.keys|
  {
    if !IsNumber(lex, ws, i + 1) then Step(st, i + 1)
    else
      var v := lex.number(ws[i + 1]).value;
      var st' := Put(st, i + 1, key);
      Step(if key == PORT_NO then st'.(port := v) else if key == AGGR_NO then st'.(aggr := v) else st'.(vid := v),
           i + 2)
  }

  /** `vlan <vid>`, or `vlan add <vid>` and `vlan del <vid>` as a whole. */
  function TakeVlan(lex: Lexicon, ws: seq<string>, st: Parsed, i: nat): Step
    requires i < |ws| <= |st.keys|
  {
    if IsNumber(lex, ws, i + 1) then TakeNumber(lex, ws, st, i, VLAN_NO)
    else if i + 1 < |ws| && (lex.key(ws[i + 1]) == ADD || lex.key(ws[i + 1]) == DEL) then
      var st' := Put(st, i + 1, lex.key(ws[i + 1]));
      if IsNumber(lex, ws, i + 2) then Step(Put(st', i + 2, ADD_DEL_NO).(vid := lex.number(ws[i + 2]).value), i + 3)
      else Step(st', i + 1)
    else Step(st, i + 1)
  }

  /** `add` and `del` note an address behind them, but do not step over it. */
  function TakeAddress(lex: Lexicon, ws: seq<string>, st: Parsed, i: nat): Step
    requires i < |ws| <= |st.keys|
  {
    if st.mac.Nothing? && IsTarget(lex, ws, i + 1) then
      Step(Put(st, i + 1, ADD_DEL_MAC).(mac := lex.address(ws[i + 1])), i + 1)
    else Step(st, i + 1)
  }

  /** What the token at word `i` does. */
  function Token(lex: Lexicon, ws: seq<string>, st: Parsed, i: nat): (r: Step)
    requires i < |ws| <= |st.keys|
    ensures i < r.next && |r.st.keys| == |st.keys|
  {
    var key := lex.key(ws[i]);
    if !key.Keyword? then Step(st, i + 1)
    else
      var st' := Put(st, i, key);
      if key == PORT then TakeNumber(lex, ws, st', i, PORT_NO)
      else if key == VLAN then TakeVlan(lex, ws, st', i)
      else if key == PVID then TakeNumber(lex, ws, st', i, PVID_NO)
      else if key == AGGR then TakeNumber(lex, ws, st', i, AGGR_NO)
      else if key == ADD || key == DEL then TakeAddress(lex, ws, st', i)
      else Step(st', i + 1)
  }

  /** All tokens from word `i` on. */
  function Tokens(lex: Lexicon, ws: seq<string>, st: Parsed, i: nat): (r: Parsed)
    requires |ws| <= |st.keys|
    ensures |r.keys| == |st.keys|
    decreases |ws| - i
  {
    if i >= |ws| then st else var t := Token(lex, ws, st, i); Tokens(lex, ws, t.st, t.next)
  }

  // ---------------------------------------------------------------- what the tokeniser writes

  /** Every key written so far is one its word fits, and words behind `n` have none. */
  predicate Sound(lex: Lexicon, ws: seq<string>, st: Parsed) {
    && |ws| <= |st.keys|
    && forall k | 0 <= k < |st.keys| :: st.keys[k] == KeyEnd || (k < |ws| && Fits(lex, ws[k], st.keys[k]))
  }

  lemma PutSound(lex: Lexicon, ws: seq<string>, st: Parsed, k: nat, key: Key)
    requires Sound(lex, ws, st) && k < |ws| && Fits(lex, ws[k], key)
    ensures Sound(lex, ws, Put(st, k, key))
  {
  }

  lemma TokenSound(lex: Lexicon, ws: seq<string>, st: Parsed, i: nat)
    requires GoodLexicon(lex) && i < |ws| && Sound(lex, ws, st)
    ensures Sound(lex, ws, Token(lex, ws, st, i).st)
  {
    var key := lex.key(ws[i]);
    if key.Keyword? {
      var st' := Put(st, i, key);
      PutSound(lex, ws, st, i, key);
      if key == VLAN && !IsNumber(lex, ws, i + 1) {
        if i + 1 < |ws| && (lex.key(ws[i + 1]) == ADD || lex.key(ws[i + 1]) == DEL) {
          PutSound(lex, ws, st', i + 1, lex.key(ws[i + 1]));
          if IsNumber(lex, ws, i + 2) { PutSound(lex, ws, Put(st', i + 1, lex.key(ws[i + 1])), i + 2, ADD_DEL_NO); }
        }
      } else if IsNumber(lex, ws, i + 1) {
        PutSound(lex, ws, st', i + 1,
                 if key == PORT then PORT_NO else if key == VLAN then VLAN_NO
                 else if key == PVID then PVID_NO else AGGR_NO);
      } else if IsTarget(lex, ws, i + 1) {
        PutSound(lex, ws, st', i + 1, ADD_DEL_MAC);
      }
    }
  }

  /** Failed matches leave keys behind, but never one that the word does not fit, and none behind the last word. */
  lemma {:induction false} TokensSound(lex: Lexicon, ws: seq<string>, st: Parsed, i: nat)
    requires GoodLexicon(lex) && Sound(lex, ws, st)
    ensures Sound(lex, ws, Tokens(lex, ws, st, i))
    decreases |ws| - i
  {
    if i < |ws| {
      TokenSound(lex, ws, st, i);
      TokensSound(lex, ws, Token(lex, ws, st, i).st, Token(lex, ws, st, i).next);
    }
  }

  /** The words from the first on fit the keys `ks`. */
  predicate Spells(lex: Lexicon, ws: seq<string>, ks: seq<Key>) {
    |ws| == |ks| + 1 && forall k | 0 <= k < |ks| :: Fits(lex, ws[k + 1], ks[k])
  }

  /** At most one address in a command. */
  predicate OneAddress(ks: seq<Key>) {
    forall k, l | 0 <= k < l < |ks| :: !(ks[k] == ADD_DEL_MAC && ks[l] == ADD_DEL_MAC)
  }

  /** Before word `i` all keys are written, behind it some may be; none is wrong. */
  ghost predicate Written(ks: seq<Key>, st: Parsed, i: nat) {
    && |ks| < |st.keys|
    && forall k | 1 <= k <= |ks| :: st.keys[k] == ks[k - 1] || (k >= i && st.keys[k] == KeyEnd)
  }

  lemma PutWritten(ks: seq<Key>, st: Parsed, i: nat, key: Key)
    requires 0 < i <= |ks| && Written(ks, st, i) && key == ks[i - 1]
    ensures Written(ks, Put(st, i, key), i + 1)
  {
  }

  /** Where a token can start: not inside a `vlan add <vid>`, and not at a number. */
  predicate Starts(ks: seq<Key>, st: Parsed, i: nat)
    requires 0 < i && |ks| < |st.keys|
  {
    i <= |ks| ==>
      || (ks[i - 1].Keyword? && (i < |ks| && ks[i] == ADD_DEL_NO ==> ks[i - 1] == VLAN))
      || (ks[i - 1] == ADD_DEL_MAC && st.keys[i] == ADD_DEL_MAC)
  }

  predicate AddressLeft(ks: seq<Key>, st: Parsed, i: nat) {
    st.mac.Nothing? || forall k | i <= k < |ks| :: ks[k] != ADD_DEL_MAC
  }

  /** The tokeniser stands before word `i` (key `i - 1`), and has written what it should so far. */
  ghost predicate Boundary(ks: seq<Key>, st: Parsed, i: nat) {
    0 < i <= |ks| + 1 <= |st.keys| && Written(ks, st, i) && Starts(ks, st, i) && AddressLeft(ks, st, i)
  }

  /** A word that fits a parameter is no keyword, and a word that fits a keyword is nothing else. */
  lemma FitsOne(lex: Lexicon, w: string, k: Key)
    requires GoodLexicon(lex) && Fits(lex, w, k)
    ensures k.Keyword? ==> lex.key(w) == k && lex.number(w).Nothing? && lex.address(w).Nothing?
    ensures k == ADD_DEL_MAC ==> lex.key(w) == KeyEnd && lex.number(w).Nothing?
    ensures k.Parameter? && k != ADD_DEL_MAC ==> lex.key(w) == KeyEnd && lex.number(w).Just? && lex.address(w).Nothing?
  {
  }

  /** What a token may rely on about the words `i` to `i + 3`. */
  ghost predicate Ahead(lex: Lexicon, ws: seq<string>, ks: seq<Key>, i: nat) {
    && |ws| == |ks| + 1 && 0 < i <= |ks|
    && (forall k | i <= k <= i + 3 && k <= |ks| :: Alone(lex, ws[k], ks[k - 1]))
    && (forall k | i <= k <= i + 3 && k < |ks| :: TakenAt(ks, k))
  }

  /** `w` is exactly what `k` asks for. */
  predicate Alone(lex: Lexicon, w: string, k: Key) {
    && k != KeyEnd
    && (k.Keyword? ==> lex.key(w) == k && lex.number(w).Nothing? && lex.address(w).Nothing?)
    && (k == ADD_DEL_MAC ==> lex.key(w) == KeyEnd && lex.number(w).Nothing? && Fits(lex, w, k))
    && (k.Parameter? && k != ADD_DEL_MAC ==> lex.key(w) == KeyEnd && lex.number(w).Just? && lex.address(w).Nothing?)
  }

  lemma NumberSpells(lex: Lexicon, ws: seq<string>, ks: seq<Key>, st: Parsed, i: nat, key: Key)
    requires Ahead(lex, ws, ks, i) && Boundary(ks, st, i)
    requires || (ks[i - 1] == PORT && key == PORT_NO)
             || (ks[i - 1] == PVID && key == PVID_NO)
             || (ks[i - 1] == AGGR && key == AGGR_NO)
    ensures var t := TakeNumber(lex, ws, Put(st, i, ks[i - 1]), i, key); Boundary(ks, t.st, t.next)
  {
    var st' := Put(st, i, ks[i - 1]);
    PutWritten(ks, st, i, ks[i - 1]);
    if i < |ks| {
      assert TakenAt(ks, i) && Alone(lex, ws[i + 1], ks[i]);
      if i + 1 < |ks| { assert TakenAt(ks, i + 1) && Alone(lex, ws[i + 2], ks[i + 1]); }
      if i + 2 < |ks| { assert TakenAt(ks, i + 2); }
      if ks[i] == key { PutWritten(ks, st', i + 1, key); }
    }
  }

  lemma VlanSpells(lex: Lexicon, ws: seq<string>, ks: seq<Key>, st: Parsed, i: nat)
    requires Ahead(lex, ws, ks, i) && Boundary(ks, st, i) && ks[i - 1] == VLAN
    ensures var t := TakeVlan(lex, ws, Put(st, i, ks[i - 1]), i); Boundary(ks, t.st, t.next)
  {
    var st' := Put(st, i, ks[i - 1]);
    PutWritten(ks, st, i, ks[i - 1]);
    if i < |ks| {
      assert TakenAt(ks, i) && Alone(lex, ws[i + 1], ks[i]);
      if i + 1 < |ks| { assert TakenAt(ks, i + 1) && Alone(lex, ws[i + 2], ks[i + 1]); }
      if i + 2 < |ks| { assert TakenAt(ks, i + 2) && Alone(lex, ws[i + 3], ks[i + 2]); }
      if i + 3 < |ks| { assert TakenAt(ks, i + 3); }
      if ks[i] == VLAN_NO || ks[i] == ADD || ks[i] == DEL {
        PutWritten(ks, st', i + 1, ks[i]);
        if i + 1 < |ks| && ks[i + 1] == ADD_DEL_NO { PutWritten(ks, Put(st', i + 1, ks[i]), i + 2, ADD_DEL_NO); }
      }
    }
  }

  lemma AddressSpells(lex: Lexicon, ws: seq<string>, ks: seq<Key>, st: Parsed, i: nat)
    requires Ahead(lex, ws, ks, i) && Boundary(ks, st, i) && (ks[i - 1] == ADD || ks[i - 1] == DEL) && OneAddress(ks)
    ensures var t := TakeAddress(lex, ws, Put(st, i, ks[i - 1]), i); Boundary(ks, t.st, t.next)
  {
    var st' := Put(st, i, ks[i - 1]);
    PutWritten(ks, st, i, ks[i - 1]);
    if i < |ks| {
      assert TakenAt(ks, i) && Alone(lex, ws[i + 1], ks[i]);
      if i + 1 < |ks| { assert TakenAt(ks, i + 1); }
      if ks[i] == ADD_DEL_MAC {
        PutWritten(ks, st', i + 1, ADD_DEL_MAC);
        assert forall k | i + 1 <= k < |ks| :: ks[k] != ADD_DEL_MAC;
      }
    }
  }

  lemma TokenSpells(lex: Lexicon, ws: seq<string>, ks: seq<Key>, st: Parsed, i: nat)
    requires Ahead(lex, ws, ks, i) && Boundary(ks, st, i) && OneAddress(ks)
    ensures var t := Token(lex, ws, st, i); Boundary(ks, t.st, t.next)
  {
    var key := ks[i - 1];
    assert Alone(lex, ws[i], key);
    if key == PORT {
      NumberSpells(lex, ws, ks, st, i, PORT_NO);
    } else if key == VLAN {
      VlanSpells(lex, ws, ks, st, i);
    } else if key == PVID {
      NumberSpells(lex, ws, ks, st, i, PVID_NO);
    } else if key == AGGR {
      NumberSpells(lex, ws, ks, st, i, AGGR_NO);
    } else if key == ADD || key == DEL {
      AddressSpells(lex, ws, ks, st, i);
    } else {
      PlainSpells(lex, ws, ks, st, i);
    }
  }

  /** A keyword that takes nothing, or the address a token before has noted. */
  lemma PlainSpells(lex: Lexicon, ws: seq<string>, ks: seq<Key>, st: Parsed, i: nat)
    requires Ahead(lex, ws, ks, i) && Boundary(ks, st, i)
    requires ks[i - 1] !in [PORT, VLAN, PVID, AGGR, ADD, DEL]
    ensures Boundary(ks, if ks[i - 1].Keyword? then Put(st, i, ks[i - 1]) else st, i + 1)
  {
    if ks[i - 1].Keyword? { PutWritten(ks, st, i, ks[i - 1]); }
    if i < |ks| { assert TakenAt(ks, i) && Alone(lex, ws[i + 1], ks[i]); }
    if i + 1 < |ks| { assert TakenAt(ks, i + 1); }
  }

  /** Words that spell a well-introduced key sequence are tokenised to exactly that sequence. */
  lemma {:induction false} TokensSpell(lex: Lexicon, ws: seq<string>, ks: seq<Key>, st: Parsed, i: nat)
    requires GoodLexicon(lex) && Spells(lex, ws, ks) && Introduced(ks) && OneAddress(ks) && Boundary(ks, st, i)
    ensures Tokens(lex, ws, st, i).keys[1..|ws|] == ks
    decreases |ws| - i
  {
    if i < |ws| {
      forall k | i <= k <= i + 3 && k <= |ks| ensures Alone(lex, ws[k], ks[k - 1]) {
        assert Fits(lex, ws[k - 1 + 1], ks[k - 1]);
        FitsOne(lex, ws[k], ks[k - 1]);
      }
      TokenSpells(lex, ws, ks, st, i);
      TokensSpell(lex, ws, ks, Token(lex, ws, st, i).st, Token(lex, ws, st, i).next);
    }
  }

  // ---------------------------------------------------------------- the values of the parameters

  /** Where a number on the command line is kept. */
  datatype Slot = PortSlot | VidSlot | AggrSlot

  predicate InSlot(slot: Slot, key: Key) {
    match slot
    case PortSlot => key == PORT_NO
    case VidSlot => key == VLAN_NO || key == PVID_NO || key == ADD_DEL_NO
    case AggrSlot => key == AGGR_NO
  }

  function SlotValue(st: Parsed, slot: Slot): int {
    match slot
    case PortSlot => st.port
    case VidSlot => st.vid
    case AggrSlot => st.aggr
  }

  /** The number of the last word before `n` whose key belongs to the slot; -1 if there is none. */
  function LastNumber(lex: Lexicon, ws: seq<string>, keys: seq<Key>, slot: Slot, n: nat): int
    requires n <= |ws| <= |keys|
  {
    if n <= 1 then -1
    else if InSlot(slot, keys[n - 1]) && lex.number(ws[n - 1]).Just? then lex.number(ws[n - 1]).value
    else LastNumber(lex, ws, keys, slot, n - 1)
  }

  lemma {:induction false} LastNumberAgrees(lex: Lexicon, ws: seq<string>, keys: seq<Key>, keys': seq<Key>, slot: Slot,
                                            n: nat)
    requires n <= |ws| <= |keys| && |ws| <= |keys'| && forall k | 1 <= k < n :: keys[k] == keys'[k]
    ensures LastNumber(lex, ws, keys, slot, n) == LastNumber(lex, ws, keys', slot, n)
  {
    if n > 1 { LastNumberAgrees(lex, ws, keys, keys', slot, n - 1); }
  }

  /** The slot holds the last number so far, and no number key is written ahead. */
  predicate ValuesOk(lex: Lexicon, ws: seq<string>, st: Parsed, slot: Slot, i: nat) {
    && 1 <= i <= |ws| <= |st.keys| && SlotValue(st, slot) == LastNumber(lex, ws, st.keys, slot, i)
    && forall k | i <= k < |st.keys| :: !InSlot(slot, st.keys[k])
  }

  /** A key is written at `i`; if it belongs to the slot, the slot takes the number of the word. */
  lemma PutValue(lex: Lexicon, ws: seq<string>, st: Parsed, st': Parsed, slot: Slot, i: nat, key: Key)
    requires i < |ws| && ValuesOk(lex, ws, st, slot, i) && st'.keys == st.keys[i := key]
    requires if InSlot(slot, key) then lex.number(ws[i]).Just? && SlotValue(st', slot) == lex.number(ws[i]).value
             else SlotValue(st', slot) == SlotValue(st, slot)
    ensures ValuesOk(lex, ws, st', slot, i + 1)
  {
    LastNumberAgrees(lex, ws, st.keys, st'.keys, slot, i);
  }

  /** A key is written at or behind `i` that does not belong to the slot. */
  lemma PutAhead(lex: Lexicon, ws: seq<string>, st: Parsed, st': Parsed, slot: Slot, i: nat, k: nat, key: Key)
    requires i <= k < |ws| && ValuesOk(lex, ws, st, slot, i) && st'.keys == st.keys[k := key]
    requires !InSlot(slot, key) && SlotValue(st', slot) == SlotValue(st, slot)
    ensures ValuesOk(lex, ws, st', slot, i)
  {
    LastNumberAgrees(lex, ws, st.keys, st'.keys, slot, i);
  }

  lemma NumberValues(lex: Lexicon, ws: seq<string>, st: Parsed, slot: Slot, i: nat, key: Key)
    requires i < |ws| && ValuesOk(lex, ws, st, slot, i + 1)
    requires key == PORT_NO || key == VLAN_NO || key == PVID_NO || key == AGGR_NO
    ensures var t := TakeNumber(lex, ws, st, i, key); ValuesOk(lex, ws, t.st, slot, t.next)
  {
    if IsNumber(lex, ws, i + 1) { PutValue(lex, ws, st, TakeNumber(lex, ws, st, i, key).st, slot, i + 1, key); }
  }

  lemma VlanValues(lex: Lexicon, ws: seq<string>, st: Parsed, slot: Slot, i: nat)
    requires i < |ws| && ValuesOk(lex, ws, st, slot, i + 1)
    ensures var t := TakeVlan(lex, ws, st, i); ValuesOk(lex, ws, t.st, slot, t.next)
  {
    if IsNumber(lex, ws, i + 1) {
      NumberValues(lex, ws, st, slot, i, VLAN_NO);
    } else if i + 1 < |ws| && (lex.key(ws[i + 1]) == ADD || lex.key(ws[i + 1]) == DEL) {
      var key := lex.key(ws[i + 1]);
      var st' := Put(st, i + 1, key);
      if IsNumber(lex, ws, i + 2) {
        PutValue(lex, ws, st, st', slot, i + 1, key);
        PutValue(lex, ws, st', TakeVlan(lex, ws, st, i).st, slot, i + 2, ADD_DEL_NO);
      } else {
        PutAhead(lex, ws, st, st', slot, i + 1, i + 1, key);
      }
    }
  }

  lemma TokenValues(lex: Lexicon, ws: seq<string>, st: Parsed, slot: Slot, i: nat)
    requires i < |ws| && ValuesOk(lex, ws, st, slot, i)
    ensures var t := Token(lex, ws, st, i); ValuesOk(lex, ws, t.st, slot, t.next)
  {
    var key := lex.key(ws[i]);
    if !key.Keyword? {
      PutValue(lex, ws, st, st, slot, i, st.keys[i]);
    } else {
      var st' := Put(st, i, key);
      PutValue(lex, ws, st, st', slot, i, key);
      if key == PORT || key == PVID || key == AGGR {
        NumberValues(lex, ws, st', slot, i, if key == PORT then PORT_NO else if key == PVID then PVID_NO else AGGR_NO);
      } else if key == VLAN {
        VlanValues(lex, ws, st', slot, i);
      } else if (key == ADD || key == DEL) && st'.mac.Nothing? && IsTarget(lex, ws, i + 1) {
        PutAhead(lex, ws, st', TakeAddress(lex, ws, st', i).st, slot, i + 1, i + 1, ADD_DEL_MAC);
      }
    }
  }

  /** After the last word each slot holds the number of the last parameter that belongs to it. */
  lemma {:induction false} TokensValues(lex: Lexicon, ws: seq<string>, st: Parsed, slot: Slot, i: nat)
    requires ValuesOk(lex, ws, st, slot, i)
    ensures var r := Tokens(lex, ws, st, i); SlotValue(r, slot) == LastNumber(lex, ws, r.keys, slot, |ws|)
    decreases |ws| - i
  {
    if i < |ws| {
      TokenValues(lex, ws, st, slot, i);
      TokensValues(lex, ws, Token(lex, ws, st, i).st, slot, Token(lex, ws, st, i).next);
    }
  }

  /** The stored address is that of the words keyed as address, and it is there if and only if such a word is. */
  ghost predicate AddressOk(lex: Lexicon, ws: seq<string>, st: Parsed) {
    && Sound(lex, ws, st)
    && (forall k | 0 <= k < |st.keys| && st.keys[k] == ADD_DEL_MAC :: st.mac == lex.address(ws[k]))
    && (st.mac.Just? ==> ADD_DEL_MAC in st.keys)
  }

  /** No other key is ever written over that of an address. */
  lemma PutKeepsAddress(lex: Lexicon, ws: seq<string>, st: Parsed, st': Parsed, k: nat, key: Key)
    requires GoodLexicon(lex) && AddressOk(lex, ws, st) && k < |ws| && Fits(lex, ws[k], key) && key != ADD_DEL_MAC
    requires st'.keys == st.keys[k := key] && st'.mac == st.mac
    ensures AddressOk(lex, ws, st')
  {
    if st.mac.Just? {
      var j :| 0 <= j < |st.keys| && st.keys[j] == ADD_DEL_MAC;
      assert j != k;
      assert st'.keys[j] == ADD_DEL_MAC;
    }
  }

  lemma PutAddress(lex: Lexicon, ws: seq<string>, st: Parsed, k: nat)
    requires AddressOk(lex, ws, st) && st.mac.Nothing? && IsTarget(lex, ws, k)
    ensures AddressOk(lex, ws, Put(st, k, ADD_DEL_MAC).(mac := lex.address(ws[k])))
  {
    assert forall j | 0 <= j < |st.keys| :: st.keys[j] == ADD_DEL_MAC ==> lex.address(ws[j]).Just?;
    assert st.keys[k := ADD_DEL_MAC][k] == ADD_DEL_MAC;
  }

  lemma TokenAddress(lex: Lexicon, ws: seq<string>, st: Parsed, i: nat)
    requires GoodLexicon(lex) && i < |ws| && AddressOk(lex, ws, st)
    ensures AddressOk(lex, ws, Token(lex, ws, st, i).st)
  {
    var t, key := Token(lex, ws, st, i), lex.key(ws[i]);
    if key.Keyword? {
      var st' := Put(st, i, key);
      PutKeepsAddress(lex, ws, st, st', i, key);
      if t.next == i + 3 {
        var st'' := Put(st', i + 1, lex.key(ws[i + 1]));
        PutKeepsAddress(lex, ws, st', st'', i + 1, lex.key(ws[i + 1]));
        PutKeepsAddress(lex, ws, st'', t.st, i + 2, ADD_DEL_NO);
      } else if t.next == i + 2 {
        PutKeepsAddress(lex, ws, st', t.st, i + 1, t.st.keys[i + 1]);
      } else if (key == ADD || key == DEL) && st'.mac.Nothing? && IsTarget(lex, ws, i + 1) {
        PutAddress(lex, ws, st', i + 1);
      } else if key == VLAN && i + 1 < |ws| && (lex.key(ws[i + 1]) == ADD || lex.key(ws[i + 1]) == DEL) {
        PutKeepsAddress(lex, ws, st', t.st, i + 1, lex.key(ws[i + 1]));
      }
    }
  }

  /** The address that is kept is that of the word taken for one. */
  lemma {:induction false} TokensAddress(lex: Lexicon, ws: seq<string>, st: Parsed, i: nat)
    requires GoodLexicon(lex) && AddressOk(lex, ws, st)
    ensures AddressOk(lex, ws, Tokens(lex, ws, st, i))
    decreases |ws| - i
  {
    if i < |ws| {
      TokenAddress(lex, ws, st, i);
      TokensAddress(lex, ws, Token(lex, ws, st, i).st, Token(lex, ws, st, i).next);
    }
  }

  /** What a row's function is called with. */
  datatype Arguments = Arguments(port: int, vid: int, aggr: int, mac: Maybe<seq<byte>>)

  /** The address of the last word before `n` that is keyed as one. */
  function LastAddress(lex: Lexicon, ws: seq<string>, keys: seq<Key>, n: nat): Maybe<seq<byte>>
    requires n <= |ws| <= |keys|
  {
    if n <= 1 then Nothing
    else if keys[n - 1] == ADD_DEL_MAC then lex.address(ws[n - 1])
    else LastAddress(lex, ws, keys, n - 1)
  }

  /** The arguments that words spelling the keys `ks` give. */
  function ArgumentsOf(lex: Lexicon, ws: seq<string>, ks: seq<Key>): Arguments
    requires |ws| == |ks| + 1
  {
    var keys := [KeyEnd] + ks;
    Arguments(LastNumber(lex, ws, keys, PortSlot, |ws|), LastNumber(lex, ws, keys, VidSlot, |ws|),
              LastNumber(lex, ws, keys, AggrSlot, |ws|), LastAddress(lex, ws, keys, |ws|))
  }

  lemma {:induction false} LastAddressIs(lex: Lexicon, ws: seq<string>, keys: seq<Key>, n: nat, mac: Maybe<seq<byte>>)
    requires n <= |ws| <= |keys|
    requires forall k | 1 <= k < n && keys[k] == ADD_DEL_MAC :: lex.address(ws[k]) == mac
    ensures LastAddress(lex, ws, keys, n) == if exists k :: 1 <= k < n && keys[k] == ADD_DEL_MAC then mac else Nothing
  {
    if n > 1 { LastAddressIs(lex, ws, keys, n - 1, mac); }
  }

  /** The first word, the name of the command, gets no key. */
  lemma {:induction false} FirstWordHasNoKey(lex: Lexicon, ws: seq<string>, st: Parsed, i: nat)
    requires 0 < |ws| <= |st.keys| && i > 0 && st.keys[0] == KeyEnd
    ensures Tokens(lex, ws, st, i).keys[0] == KeyEnd
    decreases |ws| - i
  {
    if i < |ws| { FirstWordHasNoKey(lex, ws, Token(lex, ws, st, i).st, Token(lex, ws, st, i).next); }
  }

  lemma NumberKept(lex: Lexicon, ws: seq<string>, r: Parsed, ks: seq<Key>, slot: Slot)
    requires 0 < |ws| <= |r.keys| && r.keys[1..|ws|] == ks
    requires SlotValue(r, slot) == LastNumber(lex, ws, r.keys, slot, |ws|)
    ensures SlotValue(r, slot) == LastNumber(lex, ws, [KeyEnd] + ks, slot, |ws|)
  {
    assert forall k | 1 <= k < |ws| :: ([KeyEnd] + ks)[k] == r.keys[1..|ws|][k - 1] == r.keys[k];
    LastNumberAgrees(lex, ws, r.keys, [KeyEnd] + ks, slot, |ws|);
  }

  /** The values the tokeniser keeps are the arguments of the keys it writes. */
  lemma ArgumentsKept(lex: Lexicon, ws: seq<string>, ks: seq<Key>)
    requires GoodLexicon(lex) && 0 < |ws| < ETHSW_MAX_CMD_PARAMS
    requires Tokens(lex, ws, INITIAL, 1).keys[1..|ws|] == ks
    ensures var r := Tokens(lex, ws, INITIAL, 1); Arguments(r.port, r.vid, r.aggr, r.mac) == ArgumentsOf(lex, ws, ks)
  {
    var r := Tokens(lex, ws, INITIAL, 1);
    TokensValues(lex, ws, INITIAL, PortSlot, 1);
    TokensValues(lex, ws, INITIAL, VidSlot, 1);
    TokensValues(lex, ws, INITIAL, AggrSlot, 1);
    TokensAddress(lex, ws, INITIAL, 1);
    FirstWordHasNoKey(lex, ws, INITIAL, 1);
    AllKept(lex, ws, r, ks);
  }

  lemma AllKept(lex: Lexicon, ws: seq<string>, r: Parsed, ks: seq<Key>)
    requires 0 < |ws| <= |r.keys| && r.keys[1..|ws|] == ks && AddressOk(lex, ws, r) && r.keys[0] == KeyEnd
    requires forall slot: Slot :: SlotValue(r, slot) == LastNumber(lex, ws, r.keys, slot, |ws|)
    ensures Arguments(r.port, r.vid, r.aggr, r.mac) == ArgumentsOf(lex, ws, ks)
  {
    NumberKept(lex, ws, r, ks, PortSlot);
    NumberKept(lex, ws, r, ks, VidSlot);
    NumberKept(lex, ws, r, ks, AggrSlot);
    assert forall k | 1 <= k < |ws| :: ([KeyEnd] + ks)[k] == r.keys[1..|ws|][k - 1] == r.keys[k];
    AddressKept(lex, ws, r, [KeyEnd] + ks);
  }

  lemma AddressKept(lex: Lexicon, ws: seq<string>, r: Parsed, keys: seq<Key>)
    requires 0 < |ws| && AddressOk(lex, ws, r) && r.keys[0] == KeyEnd
    requires |keys| == |ws| && forall k | 1 <= k < |ws| :: keys[k] == r.keys[k]
    ensures r.mac == LastAddress(lex, ws, keys, |ws|)
  {
    LastAddressIs(lex, ws, keys, |ws|, r.mac);
    if r.mac.Just? {
      var k :| 0 <= k < |r.keys| && r.keys[k] == ADD_DEL_MAC;
      assert 1 <= k < |ws| && keys[k] == ADD_DEL_MAC;
    }
  }

  // ---------------------------------------------------------------- from keys to a row

  /** Length of the longest optional prefix of `keys` among the first `n` of the table. */
  function LongestPrefix(keys: seq<Key>, n: nat): (r: nat)
    requires n <= 3
    ensures r <= |keys|
  {
    if n == 0 then 0
    else
      var best := LongestPrefix(keys, n - 1);
      if Prefix(n - 1) <= keys && |Prefix(n - 1)| > best then |Prefix(n - 1)| else best
  }

  /** The command that `keys` select: after the longest optional prefix, exactly one row. */
  function Resolve(keys: seq<Key>): (r: Maybe<nat>)
    ensures r.Just? ==> r.value < ROWS
  {
    FirstRow(keys[LongestPrefix(keys, 3)..], 0)
  }

  function FirstRow(ks: seq<Key>, i: nat): (r: Maybe<nat>)
    requires i <= ROWS
    ensures r.Just? ==> i <= r.value < ROWS && Row(r.value).Keys() == ks
    decreases ROWS - i
  {
    if i == ROWS then Nothing else if Row(i).Keys() == ks then Just(i) else FirstRow(ks, i + 1)
  }

  /** No two rows have the same keywords, so the first match is the only one. */
  lemma {:induction false} FirstRowIsTheRow(i: nat, row: nat)
    requires i <= row < ROWS
    ensures FirstRow(Row(row).Keys(), i) == Just(row)
    decreases row - i
  {
    if i < row {
      if Row(i).Keys() == Row(row).Keys() { KeysTellRows(i, row); }
      FirstRowIsTheRow(i + 1, row);
    }
  }

  lemma KeysTellRows(i: nat, j: nat)
    requires i < ROWS && j < ROWS && Row(i).Keys() == Row(j).Keys()
    ensures i == j
  {
    var p, q := Row(i), Row(j);
    assert |p.Keys()| == |q.Keys()|;
    assert p.Keys()[0] == q.Keys()[0];
    if |p.Keys()| > 1 { assert p.Keys()[1] == q.Keys()[1]; }
    if |p.Keys()| > 2 { assert p.Keys()[2] == q.Keys()[2]; }
    assert p == q;
  }

  /** The optional part of a command: nothing, a port, a VLAN, or both. */
  function OptionalPart(o: nat): seq<Key>
    requires o <= 3
  {
    if o == 3 then [] else Prefix(o)
  }

  /** The greedy prefix is the right one: no row can be mistaken for more of it. */
  lemma PrefixIsRight(o: nat, row: nat)
    requires o <= 3 && row < ROWS
    ensures LongestPrefix(OptionalPart(o) + Row(row).Keys(), 3) == |OptionalPart(o)|
  {
    var ks := Row(row).Keys();
    var keys := OptionalPart(o) + ks;
    assert GoodRow(Row(row)) && ks[0].Keyword? && ks[0] != PORT && (|ks| > 1 ==> ks[1] != VLAN_NO);
    assert keys[|OptionalPart(o)|] == ks[0];
    assert |ks| > 1 ==> keys[|OptionalPart(o)| + 1] == ks[1];
    assert LongestPrefix(keys, 1) == if Prefix(0) <= keys then 2 else 0;
    assert LongestPrefix(keys, 2) == if Prefix(0) <= keys || Prefix(1) <= keys then 2 else 0;
    assert LongestPrefix(keys, 3) ==
           if Prefix(2) <= keys then 4 else if Prefix(0) <= keys || Prefix(1) <= keys then 2 else 0;
    assert forall q | 0 <= q < 3 && Prefix(q) <= keys :: keys[0] == Prefix(q)[0] && keys[1] == Prefix(q)[1];
    if o < 3 { assert Prefix(o) <= keys; }
    if Prefix(2) <= keys { assert keys[2] == VLAN && keys[3] == VLAN_NO; }
  }

  /** A key sequence selects a row exactly when it is an optional part followed by the keywords of that row. */
  lemma ResolveIff(keys: seq<Key>, row: nat)
    requires row < ROWS
    ensures Resolve(keys) == Just(row) <==> exists o: nat :: o <= 3 && keys == OptionalPart(o) + Row(row).Keys()
  {
    if Resolve(keys) == Just(row) {
      var b := LongestPrefix(keys, 3);
      var o := PrefixTaken(keys, 3);
      assert keys == keys[..b] + keys[b..];
      assert keys == OptionalPart(o) + Row(row).Keys();
    }
    if o: nat :| o <= 3 && keys == OptionalPart(o) + Row(row).Keys() {
      PrefixIsRight(o, row);
      assert keys[|OptionalPart(o)|..] == Row(row).Keys();
      FirstRowIsTheRow(0, row);
    }
  }

  lemma {:induction false} PrefixTaken(keys: seq<Key>, n: nat) returns (o: nat)
    requires n <= 3
    ensures o <= 3 && keys[..LongestPrefix(keys, n)] == OptionalPart(o)
  {
    if n == 0 {
      o := 3;
    } else {
      o := PrefixTaken(keys, n - 1);
      if LongestPrefix(keys, n) != LongestPrefix(keys, n - 1) {
        o := n - 1;
      }
    }
  }

  /** Optional parts and rows are well introduced, with at most one address. */
  lemma CommandsAreIntroduced(o: nat, row: nat)
    requires o <= 3 && row < ROWS
    ensures var ks := OptionalPart(o) + Row(row).Keys(); Introduced(ks) && OneAddress(ks)
  {
    var pre, p := OptionalPart(o), Row(row);
    var ks := pre + p.Keys();
    var n := |pre|;
    assert GoodRow(p) && ks[n] == p.a;
    assert forall k | 0 <= k < n :: ks[k] == pre[k];
    assert !p.One? ==> ks[n + 1] == p.b;
    assert p.Three? ==> ks[n + 2] == p.c;
    forall k | 0 <= k < |ks| ensures TakenAt(ks, k) {
      if k < n { assert TakenAt(pre, k); }
    }
    assert forall k | 0 <= k < |ks| :: ks[k] == ADD_DEL_MAC ==> k == n + 2;
  }

  // ---------------------------------------------------------------- the parser's loops

  datatype Outcome = Usage | NotAvailable | Run(row: nat)

  class CommandDef {
    const lex: Lexicon
    var keys: seq<Key>
    var port: int
    var vid: int
    var aggr: int
    var mac: Maybe<seq<byte>>
    var row: Maybe<nat>

    /** `command_def_init`. */
    constructor (lexicon: Lexicon)
      ensures lex == lexicon && State() == INITIAL && row == Nothing
    {
      lex := lexicon;
      keys := seq(ETHSW_MAX_CMD_PARAMS, _ => KeyEnd);
      port, vid, aggr, mac, row := -1, -1, -1, Nothing, Nothing;
    }

    function State(): Parsed
      reads this
    {
      Parsed(keys, port, vid, aggr, mac)
    }

    ghost predicate Valid(ws: seq<string>)
      reads this
    {
      |ws| <= |keys|
    }

    /** Writes the key if the word spells it; every write stays below the number of words. */
    method MatchGen(j: nat, ws: seq<string>, i: nat) returns (matched: bool)
      requires Valid(ws) && i < |ws|
      modifies this`keys
      ensures matched == (lex.key(ws[i]) == Keyword(j))
      ensures State() == if matched then Put(old(State()), i, Keyword(j)) else old(State())
    {
      matched := lex.key(ws[i]) == Keyword(j);
      if matched {
        keys := keys[i := Keyword(j)];
      }
    }

    /** `keyword_match_port`: without a number the key stays, but the match fails. */
    method MatchPort(ws: seq<string>, i: nat) returns (matched: bool, last: nat)
      requires Valid(ws) && i < |ws|
      modifies this
      ensures Matched(PORT.id, ws, i, old(State()), matched, last) && row == old(row)
    {
      last := i;
      matched := MatchGen(PORT.id, ws, i);
      if !matched {
        return;
      }
      if i + 1 >= |ws| {
        return false, i;
      }
      var n := lex.number(ws[i + 1]);
      if n.Just? {
        port := n.value;
        keys := keys[i + 1 := PORT_NO];
        return true, i + 1;
      }
      return false, i;
    }

    /** `keyword_match_vlan`. */
    method MatchVlan(ws: seq<string>, i: nat) returns (matched: bool, last: nat)
      requires Valid(ws) && i < |ws|
      modifies this
      ensures Matched(VLAN.id, ws, i, old(State()), matched, last) && row == old(row)
    {
      last := i;
      matched := MatchGen(VLAN.id, ws, i);
      if !matched {
        return;
      }
      if i + 1 >= |ws| {
        return false, i;
      }
      var n := lex.number(ws[i + 1]);
      if n.Just? {
        vid := n.value;
        keys := keys[i + 1 := VLAN_NO];
        return true, i + 1;
      }
      var add := MatchGen(ADD.id, ws, i + 1);
      if !add {
        var del := MatchGen(DEL.id, ws, i + 1);
        if !del {
          return false, i;
        }
      }
      if i + 2 >= |ws| {
        return false, i;
      }
      n := lex.number(ws[i + 2]);
      if n.Just? {
        vid := n.value;
        keys := keys[i + 2 := ADD_DEL_NO];
        return true, i + 2;
      }
      return false, i;
    }

    /** `keyword_match_pvid` and `keyword_match_aggr`: the number is optional. */
    method MatchOptionalNumber(j: nat, ws: seq<string>, i: nat) returns (matched: bool, last: nat)
      requires Valid(ws) && i < |ws| && (j == PVID.id || j == AGGR.id)
      modifies this
      ensures Matched(j, ws, i, old(State()), matched, last) && row == old(row)
    {
      last := i;
      matched := MatchGen(j, ws, i);
      if !matched || i + 1 >= |ws| {
        return;
      }
      var n := lex.number(ws[i + 1]);
      if n.Just? {
        if j == PVID.id {
          vid := n.value;
          keys := keys[i + 1 := PVID_NO];
        } else {
          aggr := n.value;
          keys := keys[i + 1 := AGGR_NO];
        }
        last := i + 1;
      }
    }

    /** `keyword_match_mac_addr`. */
    method MatchAddress(j: nat, ws: seq<string>, i: nat) returns (matched: bool, last: nat)
      requires Valid(ws) && i < |ws| && (j == ADD.id || j == DEL.id)
      modifies this
      ensures Matched(j, ws, i, old(State()), matched, last) && row == old(row)
    {
      last := i;
      matched := MatchGen(j, ws, i);
      if !matched || i + 1 >= |ws| || mac.Just? {
        return;
      }
      var a := lex.address(ws[i + 1]);
      if a.Nothing? || IsBroadcast(a.value) {
        return false, i;
      }
      mac := a;
      keys := keys[i + 1 := ADD_DEL_MAC];
    }

    /** What a match function leaves behind, compared with the token at word `i`. */
    ghost predicate Matched(j: nat, ws: seq<string>, i: nat, before: Parsed, matched: bool, last: nat)
      requires i < |ws| <= |before.keys|
      reads this
    {
      if lex.key(ws[i]) == Keyword(j) then
        Step(State(), last + 1) == Token(lex, ws, before, i) && (!matched ==> last == i)
      else
        State() == before && !matched && last == i
    }

    /** The call through `keyword[j].match`. */
    method Match(j: nat, ws: seq<string>, i: nat) returns (matched: bool, last: nat)
      requires Valid(ws) && i < |ws| && j < KEYWORD_COUNT
      modifies this
      ensures Matched(j, ws, i, old(State()), matched, last) && row == old(row)
    {
      if j == PORT.id {
        matched, last := MatchPort(ws, i);
      } else if j == VLAN.id {
        matched, last := MatchVlan(ws, i);
      } else if j == PVID.id || j == AGGR.id {
        matched, last := MatchOptionalNumber(j, ws, i);
      } else if j == ADD.id || j == DEL.id {
        matched, last := MatchAddress(j, ws, i);
      } else {
        matched := MatchGen(j, ws, i);
        last := i;
      }
    }

    /** The inner loop of `keywords_find`: the first match function that succeeds ends it. */
    method MatchWord(ws: seq<string>, i: nat) returns (last: nat)
      requires Valid(ws) && i < |ws| && GoodLexicon(lex)
      modifies this
      ensures Step(State(), last + 1) == Token(lex, ws, old(State()), i) && row == old(row)
    {
      last := i;
      ghost var key := lex.key(ws[i]);
      for j := 0 to KEYWORD_COUNT
        invariant Valid(ws) && last == i && row == old(row)
        invariant if key.Keyword? && key.id < j then Step(State(), i + 1) == Token(lex, ws, old(State()), i)
                  else State() == old(State())
      {
        var matched;
        matched, last := Match(j, ws, i);
        if matched {
          return;
        }
      }
    }

    /** How far the keys from `at` on agree with a table entry. */
    method CountMatches(at: nat, nr: nat, ks: seq<Key>) returns (matched: nat)
      requires at <= nr <= |keys|
      ensures matched <= |ks| && at + matched <= nr
      ensures matched == |ks| <==> ks <= keys[at..nr]
      ensures matched == |ks| && at + matched == nr <==> ks == keys[at..nr]
    {
      matched := 0;
      while at + matched < nr && matched < |ks| && keys[at + matched] == ks[matched]
        invariant matched <= |ks| && at + matched <= nr
        invariant forall k | 0 <= k < matched :: keys[at..nr][k] == ks[k]
      {
        matched := matched + 1;
      }
      assert matched < |ks| && at + matched < nr ==> keys[at..nr][matched] != ks[matched];
    }

    /** `cmd_keywords_opt_check`: steps over the longest optional prefix. */
    method OptCheck(nr: nat, at: nat) returns (max: nat)
      requires at <= nr <= |keys|
      ensures max == at + LongestPrefix(keys[at..nr], 3)
    {
      max := at;
      for i := 0 to 3
        invariant max == at + LongestPrefix(keys[at..nr], i)
      {
        var matched := CountMatches(at, nr, Prefix(i));
        if matched == |Prefix(i)| && at + matched > max {
          max := at + matched;
        }
      }
    }

    /** `cmd_keywords_check`: the first row that is all of the rest. */
    method Check(nr: nat, at: nat) returns (end: nat)
      requires at <= nr <= |keys| && row == Nothing
      modifies this`row
      ensures row == FirstRow(keys[at..nr], 0)
      ensures end == if row.Just? then nr else at
    {
      for i := 0 to ROWS
        invariant row == Nothing && FirstRow(keys[at..nr], 0) == FirstRow(keys[at..nr], i)
      {
        var ks := Row(i).Keys();
        var matched := CountMatches(at, nr, ks);
        if matched > 0 && at + matched == nr && matched == |ks| {
          row := Just(i);
          return at + matched;
        }
      }
      return at;
    }

    /** The first loop of `keywords_find`. */
    method Tokenise(ws: seq<string>)
      requires Valid(ws) && GoodLexicon(lex)
      modifies this
      ensures State() == Tokens(lex, ws, old(State()), 1) && row == old(row)
    {
      var i: nat := 1;
      while i < |ws|
        invariant Valid(ws) && row == old(row)
        invariant Tokens(lex, ws, State(), i) == Tokens(lex, ws, old(State()), 1)
        decreases |ws| - i
      {
        var last := MatchWord(ws, i);
        i := last + 1;
      }
    }

    /** Whether some word got no key. */
    method LacksKey(nr: nat) returns (lacks: bool)
      requires 1 <= nr <= |keys|
      ensures lacks == (KeyEnd in keys[1..nr])
    {
      lacks := false;
      for k := 1 to nr
        invariant lacks == (KeyEnd in keys[1..k])
      {
        assert keys[1..k + 1] == keys[1..k] + [keys[k]];
        if keys[k] == KeyEnd {
          lacks := true;
        }
      }
    }

    /** The rest of `keywords_find`; `driver` tells which rows the switch driver has a function for. */
    method Select(nr: nat, driver: set<nat>) returns (r: Outcome)
      requires 1 < nr <= |keys| && row == Nothing
      modifies this`row
      ensures r == Verdict(Resolve(keys[1..nr]), driver)
    {
      var lacks := LacksKey(nr);
      var at := OptCheck(nr, 1);
      assert keys[1..nr][at - 1..] == keys[at..nr];
      if at == nr {
        EmptyIsNoRow();
        return Usage;
      }
      var end := Check(nr, at);
      if end != nr {
        return Usage;
      }
      if row.value !in driver && !PrintsHelp(row.value) {
        return NotAvailable;
      }
      NothingMissing(keys[1..nr], row.value);
      return if lacks then Usage else Run(row.value);
    }
  }

  function Verdict(row: Maybe<nat>, driver: set<nat>): Outcome {
    match row
    case Nothing => Usage
    case Just(i) => if i in driver || PrintsHelp(i) then Run(i) else NotAvailable
  }

  lemma EmptyIsNoRow()
    ensures FirstRow([], 0) == Nothing
  {
    match FirstRow([], 0)
    case Nothing =>
    case Just(i) => RowHasKeys(i);
  }

  lemma RowHasKeys(row: nat)
    requires row < ROWS
    ensures Row(row).Keys() != [] && KeyEnd !in Row(row).Keys()
  {
    assert GoodRow(Row(row));
  }

  /** A command that selects a row has a key for every word. */
  lemma NothingMissing(keys: seq<Key>, row: nat)
    requires row < ROWS && Resolve(keys) == Just(row)
    ensures KeyEnd !in keys
  {
    ResolveIff(keys, row);
    var o: nat :| o <= 3 && keys == OptionalPart(o) + Row(row).Keys();
    RowHasKeys(row);
    assert KeyEnd !in OptionalPart(o);
  }

  // ---------------------------------------------------------------- the command language

  /** The words are `ethsw`, an optional part and the words of row `row`. */
  ghost predicate IsCommand(lex: Lexicon, ws: seq<string>, row: nat)
    requires row < ROWS
  {
    exists o: nat :: o <= 3 && Spells(lex, ws, OptionalPart(o) + Row(row).Keys())
  }

  /** Words that are optional part `o` and row `row` are tokenised to the arguments they spell. */
  lemma CommandArguments(lex: Lexicon, ws: seq<string>, o: nat, row: nat)
    requires GoodLexicon(lex) && 1 < |ws| < ETHSW_MAX_CMD_PARAMS && o <= 3 && row < ROWS
    requires Spells(lex, ws, OptionalPart(o) + Row(row).Keys())
    ensures var r := Tokens(lex, ws, INITIAL, 1);
            Arguments(r.port, r.vid, r.aggr, r.mac) == ArgumentsOf(lex, ws, OptionalPart(o) + Row(row).Keys())
  {
    CommandsAreIntroduced(o, row);
    CommandStarts(o, row);
    TokensSpell(lex, ws, OptionalPart(o) + Row(row).Keys(), INITIAL, 1);
    ArgumentsKept(lex, ws, OptionalPart(o) + Row(row).Keys());
  }

  /** Tokeniser and tables together accept exactly the command language, and pick the right row. */
  lemma LanguageIff(lex: Lexicon, ws: seq<string>, row: nat)
    requires GoodLexicon(lex) && 1 < |ws| < ETHSW_MAX_CMD_PARAMS && row < ROWS
    ensures Resolve(Tokens(lex, ws, INITIAL, 1).keys[1..|ws|]) == Just(row) <==> IsCommand(lex, ws, row)
  {
    var keys := Tokens(lex, ws, INITIAL, 1).keys;
    ResolveIff(keys[1..|ws|], row);
    if o: nat :| o <= 3 && keys[1..|ws|] == OptionalPart(o) + Row(row).Keys() {
      var ks := OptionalPart(o) + Row(row).Keys();
      TokensSound(lex, ws, INITIAL, 1);
      NothingMissing(keys[1..|ws|], row);
      forall k | 0 <= k < |ks| ensures Fits(lex, ws[k + 1], ks[k]) {
        assert keys[1..|ws|][k] == keys[k + 1];
      }
      assert Spells(lex, ws, ks);
    }
    if o: nat :| o <= 3 && Spells(lex, ws, OptionalPart(o) + Row(row).Keys()) {
      CommandsAreIntroduced(o, row);
      CommandStarts(o, row);
      TokensSpell(lex, ws, OptionalPart(o) + Row(row).Keys(), INITIAL, 1);
    }
  }

  lemma CommandStarts(o: nat, row: nat)
    requires o <= 3 && row < ROWS && |OptionalPart(o) + Row(row).Keys()| + 1 < ETHSW_MAX_CMD_PARAMS
    ensures Boundary(OptionalPart(o) + Row(row).Keys(), INITIAL, 1)
  {
    var pre, p := OptionalPart(o), Row(row);
    var ks := pre + p.Keys();
    assert GoodRow(p) && ks[|pre|] == p.a && (!p.One? ==> ks[|pre| + 1] == p.b);
  }

  /**
    `do_ethsw`: a command line runs row `row` exactly when it is a command of
    that row whose function is there, with the arguments its words spell.
   */
  method DoEthsw(lex: Lexicon, ws: seq<string>, driver: set<nat>) returns (r: Outcome, args: Arguments)
    requires GoodLexicon(lex) && |ws| > 0
    ensures |ws| == 1 || |ws| >= 20 ==> r == Usage
    ensures 1 < |ws| < 20 ==>
              forall row | 0 <= row < ROWS ::
                && (r == Run(row) <==> IsCommand(lex, ws, row) && (row in driver || PrintsHelp(row)))
                && (IsCommand(lex, ws, row) && row !in driver && !PrintsHelp(row) ==> r == NotAvailable)
                && (r == Usage ==> !IsCommand(lex, ws, row))
    ensures r == NotAvailable ==> exists row :: 0 <= row < ROWS && IsCommand(lex, ws, row) && row !in driver
    ensures forall o: nat | r.Run? && o <= 3 && r.row < ROWS && Spells(lex, ws, OptionalPart(o) + Row(r.row).Keys()) ::
              args == ArgumentsOf(lex, ws, OptionalPart(o) + Row(r.row).Keys())
  {
    args := Arguments(-1, -1, -1, Nothing);
    if |ws| == 1 || |ws| >= ETHSW_MAX_CMD_PARAMS {
      return Usage, args;
    }
    var def := new CommandDef(lex);
    def.Tokenise(ws);
    args := Arguments(def.port, def.vid, def.aggr, def.mac);
    r := def.Select(|ws|, driver);
    if r.Run? && r.row < ROWS {
      forall o: nat | o <= 3 && Spells(lex, ws, OptionalPart(o) + Row(r.row).Keys())
        ensures args == ArgumentsOf(lex, ws, OptionalPart(o) + Row(r.row).Keys())
      {
        CommandArguments(lex, ws, o, r.row);
      }
    }
    forall row | 0 <= row < ROWS
      ensures Resolve(Tokens(lex, ws, INITIAL, 1).keys[1..|ws|]) == Just(row) <==> IsCommand(lex, ws, row)
    {
      LanguageIff(lex, ws, row);
    }
  }
}
