/** A run of the boot menu: from the first poll of the keyboard to the entry that is chosen. */
module BootMenuRun {
  import opened BootMenuKeys
  import opened BootMenuList
  import opened Numerals

  /** `tstc` answers from `polls`, one after the other. */
  class Console {
    const polls: seq<Poll>
    var pos: nat

    constructor (polls: seq<Poll>)
      ensures this.polls == polls && pos == 0
    {
      this.polls, pos := polls, 0;
    }
  }

  /** The keys the console has delivered. */
  ghost function Read(con: Console): string
    requires con.pos <= |con.polls|
    reads con
  {
    Keys(con.polls[..con.pos])
  }

  /** Wait for a key; `None` if none comes. */
  method Getc(con: Console) returns (c: Option<char>)
    requires con.pos <= |con.polls|
    modifies con
    ensures old(con.pos) <= con.pos <= |con.polls|
    ensures c.Some? ==> old(con.pos) < con.pos && con.polls[con.pos - 1] == Hit(c.value)
    ensures c.Some? ==> Keys(con.polls[..con.pos - 1]) == old(Read(con)) && Read(con) == old(Read(con)) + [c.value]
    ensures c.None? ==> con.pos == |con.polls| && Read(con) == old(Read(con))
  {
    while con.pos < |con.polls|
      invariant old(con.pos) <= con.pos <= |con.polls| && Read(con) == old(Read(con))
    {
      NextPoll(con.polls, con.pos);
      con.pos := con.pos + 1;
      if con.polls[con.pos - 1].Hit? {
        return Some(con.polls[con.pos - 1].c);
      }
    }
    c := None;
  }

  /** The key that character `c` completes when `esc` characters of an escape sequence precede it. */
  function KeyFor(esc: nat, c: char): Key
    requires esc <= 3
  {
    if c == ENTER then KeySelect
    else if EscNext(esc, c) == 0 then Action(TokenOf(esc, c))
    else KeyNone
  }

  /** `bootmenu_loop` once it has a character. */
  method Switch(c: char, key: Key, esc: nat) returns (key': Key, esc': nat)
    requires esc <= 3 && key.KeyNone?
    ensures esc' == EscNext(esc, c) && key' == KeyFor(esc, c)
  {
    key', esc' := key, esc;
    if esc == 0 {
      if c == ESC { esc', key' := 1, KeyNone; }
    } else if esc == 1 {
      if c == '[' { esc', key' := 2, KeyNone; } else { esc' := 0; }
    } else if esc == 2 && c == '1' {
      esc', key' := 3, KeyNone;
    } else {
      esc' := 0;
      if c == 'A' { key' := KeyUp; } else if c == 'B' { key' := KeyDown; } else { key' := KeyNone; }
    }
    if c == ENTER { key' := KeySelect; }
  }

  method BootmenuLoop(con: Console, key: Key, esc: nat) returns (key': Key, esc': nat, waiting: bool)
    requires esc <= 3 && key.KeyNone? && con.pos <= |con.polls|
    modifies con
    ensures old(con.pos) <= con.pos <= |con.polls|
    ensures waiting ==> con.pos == |con.polls| && Read(con) == old(Read(con))
    ensures !waiting ==>
              && old(con.pos) < con.pos && con.polls[con.pos - 1].Hit?
              && Keys(con.polls[..con.pos - 1]) == old(Read(con))
              && var c := con.polls[con.pos - 1].c;
                 Read(con) == old(Read(con)) + [c] && esc' == EscNext(esc, c) && key' == KeyFor(esc, c)
  {
    var c := Getc(con);
    if c.None? { return key, esc, true; }
    key', esc' := Switch(c.value, key, esc);
    waiting := false;
  }

  /** One second of the countdown: a hundred polls, or fewer if a key comes. */
  method CountSecond(con: Console, ghost n: nat) returns (c: Option<char>, waiting: bool)
    requires con.pos == 100 * n <= |con.polls| && Silent(con.polls, con.pos)
    modifies con
    ensures con.pos <= |con.polls|
    ensures waiting ==> con.pos == |con.polls| < 100 * (n + 1) && Silent(con.polls, con.pos)
    ensures !waiting && c.Some? ==>
              && 0 < con.pos <= 100 * (n + 1) && con.polls[con.pos - 1] == Hit(c.value)
              && Silent(con.polls, con.pos - 1)
    ensures !waiting && c.None? ==> con.pos == 100 * (n + 1) && Silent(con.polls, con.pos)
  {
    var i := 0;
    while i < 100
      invariant 0 <= i <= 100 && con.pos == 100 * n + i <= |con.polls| && Silent(con.polls, con.pos)
    {
      if con.pos == |con.polls| { return None, true; }
      con.pos := con.pos + 1;
      if con.polls[con.pos - 1].Hit? { return Some(con.polls[con.pos - 1].c), false; }
      i := i + 1;
    }
    return None, false;
  }

  method AutobootLoop(con: Console, menu: Menu) returns (key: Key, esc: nat, waiting: bool)
    requires con.pos == 0 && menu.delay >= 0
    modifies con, menu`delay
    ensures con.pos <= |con.polls|
    ensures waiting ==> con.pos == |con.polls| && Silent(con.polls, con.pos) && !TimesOut(old(menu.delay), con.polls)
    ensures !waiting && menu.delay >= 0 ==> key.KeySelect? && TimesOut(old(menu.delay), con.polls)
    ensures !waiting && menu.delay < 0 ==>
              && 0 < con.pos && con.polls[con.pos - 1].Hit?
              && Silent(con.polls, con.pos - 1) && !TimesOut(old(menu.delay), con.polls)
              && var c := con.polls[con.pos - 1].c; esc == EscNext(0, c) && key == KeyFor(0, c)
  {
    key, esc, waiting := KeyNone, 0, false;
    ghost var n: nat := 0;
    while menu.delay > 0
      invariant 0 <= n && menu.delay == old(menu.delay) - n >= 0
      invariant con.pos == 100 * n <= |con.polls| && Silent(con.polls, con.pos)
      decreases menu.delay
    {
      var c;
      c, waiting := CountSecond(con, n);
      if waiting { return; }
      if c.Some? {
        menu.delay := -1;
        if c.value == ESC { esc := 1; } else if c.value == ENTER { key := KeySelect; }
        assert !con.polls[con.pos - 1].Quiet?;
        return;
      }
      menu.delay := menu.delay - 1;
      n := n + 1;
    }
    key := KeySelect;
  }

  // ---------------------------------------------------------------- choosing

  /** A run that began with `delay0` and `active0` is still undecided. */
  ghost predicate Running(con: Console, menu: Menu, delay0: int, active0: int)
    reads con, menu
  {
    && con.pos <= |con.polls| && ENTER !in Read(con)
    && menu.active == Cursor(Tokens(Read(con)), active0, menu.count)
    && (if menu.delay >= 0 then menu.delay == delay0 && con.pos == 0 else !TimesOut(delay0, con.polls))
  }

  lemma MovedByKey(ts: seq<Token>, ts': seq<Token>, esc: nat, c: char, active: int, count: int)
    requires esc <= 3 && c != ENTER && ts' == if EscNext(esc, c) == 0 then ts + [TokenOf(esc, c)] else ts
    ensures Cursor(ts', active, count) == Move(Cursor(ts, active, count), count, KeyFor(esc, c))
    ensures !KeyFor(esc, c).KeySelect? && (KeyFor(esc, c) != KeyNone ==> EscNext(esc, c) == 0)
  {
    if EscNext(esc, c) == 0 { CursorSnoc(ts, TokenOf(esc, c), active, count); }
  }

  /** One more character that is not ENTER moves the cursor as its key says. */
  lemma CursorFollows(s: string, c: char, active: int, count: int)
    requires c != ENTER && ENTER !in s
    ensures var key := KeyFor(EscAfter(s), c);
            && Cursor(Tokens(s + [c]), active, count) == Move(Cursor(Tokens(s), active, count), count, key)
            && (key != KeyNone ==> EscAfter(s + [c]) == 0)
            && EscAfter(s + [c]) == EscNext(EscAfter(s), c)
            && ENTER !in s + [c] && !key.KeySelect?
  {
    Feed(s, c);
    MovedByKey(Tokens(s), Tokens(s + [c]), EscAfter(s), c, active, count);
  }

  /** What one turn of the loop in `ChoiceEntry` leaves: a key for the cursor, a choice, or nothing more to read. */
  ghost predicate Turned(con: Console, menu: Menu, was: string, key: Key, esc: nat, waiting: bool, delay0: int,
                         active0: int)
    requires con.pos <= |con.polls|
    reads con, menu
  {
    var cursor := Cursor(Tokens(was), active0, menu.count);
    if waiting then
      Expected(delay0, active0, menu.count, con.polls) == Waiting(cursor)
    else if key.KeySelect? then
      Expected(delay0, active0, menu.count, con.polls) == Chosen(cursor)
    else
      && esc == EscAfter(Read(con)) && (key != KeyNone ==> esc == 0)
      && ENTER !in Read(con) && Cursor(Tokens(Read(con)), active0, menu.count) == Move(cursor, menu.count, key)
      && menu.delay < 0 && !TimesOut(delay0, con.polls)
  }

  lemma KeyTurns(con: Console, menu: Menu, was: string, key: Key, esc: nat, delay0: int, active0: int)
    requires 0 < con.pos <= |con.polls| && con.polls[con.pos - 1].Hit?
    requires was == Keys(con.polls[..con.pos - 1]) && ENTER !in was && menu.delay < 0 && !TimesOut(delay0, con.polls)
    requires var c := con.polls[con.pos - 1].c; esc == EscNext(EscAfter(was), c) && key == KeyFor(EscAfter(was), c)
    ensures Turned(con, menu, was, key, esc, false, delay0, active0)
  {
    var c := con.polls[con.pos - 1].c;
    NextPoll(con.polls, con.pos - 1);
    if c == ENTER {
      EnterDecides(con.polls, con.pos - 1, active0, menu.count);
    } else {
      CursorFollows(was, c, active0, menu.count);
    }
  }

  lemma SilenceTurns(con: Console, menu: Menu, was: string, key: Key, esc: nat, delay0: int, active0: int)
    requires con.pos == |con.polls| && was == Read(con) && ENTER !in was && !TimesOut(delay0, con.polls)
    ensures Turned(con, menu, was, key, esc, true, delay0, active0)
  {
    assert con.polls[..con.pos] == con.polls;
    NoEnterWaits(con.polls, active0, menu.count);
  }

  /** The body of the loop in `bootmenu_choice_entry`, up to the switch on the key. */
  method NextKey(con: Console, menu: Menu, key: Key, esc: nat, ghost delay0: int, ghost active0: int)
    returns (key': Key, esc': nat, waiting: bool)
    requires Running(con, menu, delay0, active0) && key.KeyNone? && esc == EscAfter(Read(con))
    modifies con, menu`delay
    ensures old(con.pos) <= con.pos <= |con.polls|
    ensures !waiting && !key'.KeySelect? ==> old(con.pos) < con.pos
    ensures Turned(con, menu, old(Read(con)), key', esc', waiting, delay0, active0)
  {
    ghost var was := Read(con);
    if menu.delay >= 0 {
      key', esc', waiting := AutobootLoop(con, menu);
      if waiting {
        SilentHasNoKeys(con.polls, con.pos);
        SilenceTurns(con, menu, was, key', esc', delay0, active0);
      } else if menu.delay < 0 {
        SilentHasNoKeys(con.polls, con.pos - 1);
        KeyTurns(con, menu, was, key', esc', delay0, active0);
      }
    } else {
      key', esc', waiting := BootmenuLoop(con, key, esc);
      if waiting {
        SilenceTurns(con, menu, was, key', esc', delay0, active0);
      } else {
        KeyTurns(con, menu, was, key', esc', delay0, active0);
      }
    }
  }

  /** Walk to the entry under the cursor. */
  method ActiveKey(menu: Menu) returns (key: string)
    requires menu.Valid()
    ensures key == menu.entries[menu.active].key
  {
    var iter, i := menu.first, 0;
    while i < menu.active
      invariant 0 <= i <= menu.active && iter == menu.entries[i]
    {
      NextIs(menu.first, menu.entries, i);
      iter := iter.next;
      i := i + 1;
    }
    key := iter.key;
  }

  /** `bootmenu_choice_entry`: a moved cursor is reported as `None`, and the menu is drawn again. */
  method ChoiceEntry(con: Console, menu: Menu, ghost delay0: int, ghost active0: int)
    returns (choice: Option<string>, waiting: bool)
    requires menu.Valid() && Running(con, menu, delay0, active0) && EscAfter(Read(con)) == 0
    modifies con, menu`delay, menu`active
    ensures menu.Valid() && old(con.pos) <= con.pos <= |con.polls|
    ensures waiting ==> Expected(delay0, active0, menu.count, con.polls) == Waiting(menu.active)
    ensures !waiting && choice.Some? ==>
              && choice.value == menu.entries[menu.active].key
              && Expected(delay0, active0, menu.count, con.polls) == Chosen(menu.active)
    ensures !waiting && choice.None? ==>
              old(con.pos) < con.pos && Running(con, menu, delay0, active0) && EscAfter(Read(con)) == 0
  {
    var key, esc := KeyNone, 0;
    choice := None;
    while true
      invariant menu.Valid() && Running(con, menu, delay0, active0) && key.KeyNone? && esc == EscAfter(Read(con))
      invariant old(con.pos) <= con.pos
      decreases |con.polls| - con.pos
    {
      key, esc, waiting := NextKey(con, menu, key, esc, delay0, active0);
      if waiting { return; }
      if key.KeyUp? {
        if menu.active > 0 { menu.active := menu.active - 1; }
        return;
      } else if key.KeyDown? {
        if menu.active < menu.count - 1 { menu.active := menu.active + 1; }
        return;
      } else if key.KeySelect? {
        var k := ActiveKey(menu);
        return Some(k), false;
      }
    }
  }

  // ---------------------------------------------------------------- the menu library

  /** The first item with the key. */
  method MenuItemByKey(items: seq<Entry>, key: string) returns (item: Entry?)
    ensures item == null ==> forall i | 0 <= i < |items| :: items[i].key != key
    ensures item != null ==>
              exists i | 0 <= i < |items| ::
                item == items[i] && item.key == key && forall j | 0 <= j < i :: items[j].key != key
  {
    for i := 0 to |items|
      invariant forall j | 0 <= j < i :: items[j].key != key
    {
      if items[i].key == key { return items[i]; }
    }
    item := null;
  }

  lemma KeysAreDistinct(first: Entry?, es: seq<Entry>, i: nat, j: nat)
    requires Linked(first, es) && i < |es| && j < |es| && es[i].key == es[j].key
    ensures i == j
  {
    DecimalDenotes(i);
    DecimalDenotes(j);
    OneValue(Decimal(i), 10, i, j);
  }

  /** `menu_interactive_choice` on the boot menu. */
  method InteractiveChoice(con: Console, menu: Menu, items: seq<Entry>) returns (choice: Entry?)
    requires menu.Valid() && items == menu.entries && con.pos == 0
    modifies con, menu`delay, menu`active
    ensures menu.Valid()
    ensures choice == null ==>
              Expected(old(menu.delay), old(menu.active), menu.count, con.polls) == Waiting(menu.active)
    ensures choice != null ==>
              && choice == menu.entries[menu.active]
              && Expected(old(menu.delay), old(menu.active), menu.count, con.polls) == Chosen(menu.active)
  {
    choice := null;
    ghost var delay0, active0 := menu.delay, menu.active;
    while choice == null
      invariant menu.Valid() && items == menu.entries && con.pos <= |con.polls|
      invariant choice == null ==> Running(con, menu, delay0, active0) && EscAfter(Read(con)) == 0
      invariant choice != null ==>
                  && choice == items[menu.active]
                  && Expected(delay0, active0, menu.count, con.polls) == Chosen(menu.active)
      decreases choice == null, |con.polls| - con.pos
    {
      var key, waiting := ChoiceEntry(con, menu, delay0, active0);
      if waiting { return null; }
      if key.Some? {
        choice := MenuItemByKey(items, key.value);
        assert items[menu.active].key == key.value;
        ghost var i: nat :| i < |items| && choice == items[i];
        KeysAreDistinct(menu.first, items, i, menu.active);
      }
    }
  }

  // ---------------------------------------------------------------- the command

  /** The command of entry `k`: what follows the first '=' of its option, and nothing for the console. */
  function CommandOf(env: Environment, k: nat): string {
    if k < Taken(env, 0) then
      assert IsEntry(env, k);
      var option := env(k).value;
      assert option[..|option|] == option;
      option[Separator(option) + 1..]
    else ""
  }

  lemma SeparatorIs(title: string, command: string)
    requires '=' !in title
    ensures Separator(title + "=" + command) == |title|
  {
    var s := title + "=" + command;
    var n := Separator(s);
    assert s[|title|] == '=';
  }

  lemma CommandIs(first: Entry?, es: seq<Entry>, env: Environment, k: nat)
    requires Complete(first, es, env) && k < |es|
    ensures es[k].command == CommandOf(env, k)
  {
    if k < Taken(env, 0) {
      assert FromOption(es[k], env, k);
      SeparatorIs(es[k].title, es[k].command);
    }
  }

  datatype Shown = NoMenu | Waits | Runs(command: string)

  /** A decided run runs the command of the entry it chose; an undecided one waits. */
  predicate ShowsAs(env: Environment, o: Outcome, shown: Shown) {
    if o.Chosen? then 0 <= o.index <= Taken(env, 0) && shown == Runs(CommandOf(env, o.index)) else shown.Waits?
  }

  /** The list the menu library keeps: one item for each entry. */
  method MenuItems(menu: Menu) returns (items: seq<Entry>)
    requires menu.Valid()
    ensures items == menu.entries
  {
    items := [];
    var iter := menu.first;
    ghost var i := 0;
    while iter != null
      invariant 0 <= i <= menu.count && items == menu.entries[..i]
      invariant iter == if i < menu.count then menu.entries[i] else null
      decreases menu.count - i
    {
      NextIs(menu.first, menu.entries, i);
      items := items + [iter];
      iter := iter.next;
      i := i + 1;
    }
  }

  /** `menu_get_choice`: a menu of one entry does not ask. */
  function Selected(env: Environment, default: Option<int>, delay: int, polls: seq<Poll>): Outcome {
    var count := Taken(env, 0) + 1;
    var active := if default.Some? && 0 <= default.value < count then default.value else 0;
    if count == 1 then Chosen(0) else Expected(delay, active, count, polls)
  }

  method GetChoice(con: Console, menu: Menu) returns (choice: Entry?)
    requires menu.Valid() && con.pos == 0
    modifies con, menu`delay, menu`active
    ensures menu.Valid()
    ensures var o := if menu.count == 1 then Chosen(0)
                     else Expected(old(menu.delay), old(menu.active), menu.count, con.polls);
            if choice == null then o == Waiting(menu.active)
            else o.Chosen? && 0 <= o.index < menu.count && choice == menu.entries[o.index]
  {
    var items := MenuItems(menu);
    if |items| == 1 {
      choice := items[0];
    } else {
      choice := InteractiveChoice(con, menu, items);
    }
  }

  /** `bootmenu_show` with a delay other than 0. */
  method ShowMenu(con: Console, heap: Heap, env: Environment, default: Option<int>, delay: int) returns (shown: Shown)
    requires con.pos == 0
    modifies con, heap
    ensures shown.NoMenu? <==> !Allowed(heap.allows, old(heap.calls), 1 + 3 * (Taken(env, 0) + 1))
    ensures !shown.NoMenu? ==>
              var o := Selected(env, default, delay, con.polls);
              ShowsAs(env, o, shown)
    ensures !shown.Waits? ==> heap.live == old(heap.live)
  {
    var menu := Create(heap, env, default, delay);
    if menu == null { return NoMenu; }
    var choice := GetChoice(con, menu);
    if choice == null { return Waits; }
    ghost var o := Selected(env, default, delay, con.polls);
    CommandIs(menu.first, menu.entries, env, o.index);
    shown := Runs(choice.command);
    heap.Destroy(menu.first, menu.entries);
  }

  /** A delay of 0 runs the first option without a menu. */
  method Show(con: Console, heap: Heap, env: Environment, default: Option<int>, delay: int) returns (shown: Shown)
    requires con.pos == 0
    modifies con, heap
    ensures delay == 0 ==> shown == if IsEntry(env, 0) then Runs(CommandOf(env, 0)) else NoMenu
    ensures delay != 0 ==>
              && (shown.NoMenu? <==> !Allowed(heap.allows, old(heap.calls), 1 + 3 * (Taken(env, 0) + 1)))
              && (!shown.NoMenu? ==>
                    var o := Selected(env, default, delay, con.polls);
                    ShowsAs(env, o, shown))
    ensures !shown.Waits? ==> heap.live == old(heap.live)
  {
    if delay == 0 {
      if env(0).None? { return NoMenu; }
      var option := env(0).value;
      var sep := Separator(option);
      if sep == |option| { return NoMenu; }
      assert option[sep] == '=';
      return Runs(option[sep + 1..]);
    }
    shown := ShowMenu(con, heap, env, default, delay);
  }
}
