/** The entries of the boot menu: a linked list built from the environment. */
module BootMenuList {
  import opened Numerals

  // ---------------------------------------------------------------- entries

  datatype Option<+T> = None | Some(value: T)

  const MAX_COUNT: nat := 99

  class Entry {
    const num: nat
    const key: string
    const title: string
    const command: string
    var next: Entry?

    constructor (num: nat, title: string, command: string)
      ensures this.num == num && key == Decimal(num) && this.title == title && this.command == command && next == null
    {
      this.num, key, this.title, this.command, next := num, Decimal(num), title, command, null;
    }
  }

  /** The nodes `es` are numbered in order, carry their number as key and are linked from `first` to null. */
  ghost predicate Linked(first: Entry?, es: seq<Entry>)
    reads es
  {
    && (first == if es == [] then null else es[0])
    && (forall i | 0 <= i < |es| :: es[i].num == i && es[i].key == Decimal(i))
    && (forall i {:trigger es[i].next} | 0 <= i < |es| :: es[i].next == if i + 1 < |es| then es[i + 1] else null)
  }

  lemma NextIs(first: Entry?, es: seq<Entry>, i: nat)
    requires Linked(first, es) && i < |es|
    ensures es[i].next == if i + 1 < |es| then es[i + 1] else null
  {
  }

  /** A position of '=' in `s`, or its length. */
  function Separator(s: string): (n: nat)
    ensures n <= |s| && '=' !in s[..n] && (n < |s| ==> s[n] == '=')
  {
    if s == [] then 0
    else if s[0] == '=' then 0
    else 1 + Separator(s[1..])
  }

  type Environment = nat -> Option<string>

  predicate IsEntry(env: Environment, n: nat) {
    env(n).Some? && '=' in env(n).value
  }

  /** How many options are taken: they are numbered without a gap and at most 98. */
  function Taken(env: Environment, n: nat): (m: nat)
    requires n <= 98
    ensures n <= m <= 98
    ensures forall i | n <= i < m :: IsEntry(env, i)
    ensures m < 98 ==> !IsEntry(env, m)
    decreases MAX_COUNT - n
  {
    if n < MAX_COUNT - 1 && IsEntry(env, n) then Taken(env, n + 1) else n
  }

  // ---------------------------------------------------------------- building the list

  ghost predicate Allowed(allows: nat -> bool, start: nat, n: nat) {
    forall j: nat | start <= j < start + n :: allows(j)
  }

  /** `malloc` and `free`: call number `j` succeeds if `allows(j)`; `live` counts the blocks not yet freed. */
  class Heap {
    const allows: nat -> bool
    var calls: nat
    var live: int

    constructor (allows: nat -> bool)
      ensures this.allows == allows && calls == 0 && live == 0
    {
      this.allows, calls, live := allows, 0, 0;
    }

    method Malloc() returns (ok: bool)
      modifies this
      ensures ok == allows(old(calls)) && calls == old(calls) + 1 && live == old(live) + if ok then 1 else 0
    {
      ok := allows(calls);
      calls := calls + 1;
      if ok { live := live + 1; }
    }

    method Free()
      modifies this
      ensures calls == old(calls) && live == old(live) - 1
    {
      live := live - 1;
    }

    /** Allocate an entry, its title and its command, or nothing. */
    method NewEntry(num: nat, title: string, command: string) returns (e: Entry?)
      modifies this
      ensures e != null <==> Allowed(allows, old(calls), 3)
      ensures e == null ==> live == old(live)
      ensures e != null ==>
                && calls == old(calls) + 3 && live == old(live) + 3 && fresh(e)
                && e.num == num && e.key == Decimal(num) && e.title == title && e.command == command && e.next == null
    {
      var ok := Malloc();
      if !ok { return null; }
      ok := Malloc();
      if !ok { Free(); return null; }
      ok := Malloc();
      if !ok { Free(); Free(); return null; }
      e := new Entry(num, title, command);
    }

    /** `bootmenu_destroy`. */
    method Destroy(first: Entry?, ghost es: seq<Entry>)
      requires Linked(first, es)
      modifies this
      ensures calls == old(calls) && live == old(live) - 3 * |es| - 1
    {
      var iter := first;
      ghost var i := 0;
      while iter != null
        invariant 0 <= i <= |es| && iter == (if i < |es| then es[i] else null)
        invariant calls == old(calls) && live == old(live) - 3 * i
        decreases |es| - i
      {
        NextIs(first, es, i);
        var next := iter.next;
        Free();
        Free();
        Free();
        iter := next;
        i := i + 1;
      }
      Free();
    }
  }

  /** Entry `i` of the menu made from `env`: the option split at its first '=', and the console at the end. */
  ghost predicate FromOption(e: Entry, env: Environment, i: nat) {
    IsEntry(env, i) && env(i).value == e.title + "=" + e.command && '=' !in e.title
  }

  predicate IsConsole(e: Entry) {
    e.title == "U-Boot console" && e.command == ""
  }

  class Menu {
    var delay: int
    var active: int
    var count: int
    var first: Entry?
    ghost var entries: seq<Entry>

    ghost predicate Valid()
      reads this, entries
    {
      Linked(first, entries) && count == |entries| && 1 <= count <= MAX_COUNT && 0 <= active < count
    }

    constructor (delay: int, active: int)
      ensures this.delay == delay && this.active == active && first == null && entries == [] && count == 0
    {
      this.delay, this.active, first, entries, count := delay, active, null, [], 0;
    }

    method Append(iter: Entry?, e: Entry)
      requires Linked(first, entries) && iter == (if entries == [] then null else entries[|entries| - 1])
      requires e.num == |entries| && e.key == Decimal(e.num) && e.next == null && e !in entries
      modifies this, iter
      ensures Linked(first, entries) && entries == old(entries) + [e]
      ensures delay == old(delay) && active == old(active) && count == old(count)
    {
      if iter == null {
        first := e;
      } else {
        iter.next := e;
      }
      entries := entries + [e];
    }

    /** The end of `bootmenu_create`: a default outside the menu becomes the first entry. */
    method SetCount(n: nat)
      requires Linked(first, entries) && n == |entries| && 1 <= n <= MAX_COUNT
      modifies this
      ensures Valid() && first == old(first) && entries == old(entries) && delay == old(delay)
      ensures active == if 0 <= old(active) < n then old(active) else 0
    {
      count := n;
      if active >= count || active < 0 {
        active := 0;
      }
    }
  }

  /** The first `i` options are in the list, and `iter` is its last node. */
  ghost predicate Built(menu: Menu, iter: Entry?, env: Environment, i: nat)
    reads menu, menu.entries
  {
    && |menu.entries| == i && Linked(menu.first, menu.entries)
    && (iter == if i == 0 then null else menu.entries[i - 1])
    && forall j: nat | j < i :: FromOption(menu.entries[j], env, j)
  }

  /** Add a node at the end, or free everything. */
  method AddEntry(heap: Heap, menu: Menu, iter: Entry?, num: nat, title: string, command: string) returns (e: Entry?)
    requires num == |menu.entries|
    requires Linked(menu.first, menu.entries)
    requires iter == (if menu.entries == [] then null else menu.entries[|menu.entries| - 1])
    modifies heap, menu, iter
    ensures e != null <==> Allowed(heap.allows, old(heap.calls), 3)
    ensures e == null ==> heap.live == old(heap.live) - 3 * |old(menu.entries)| - 1
    ensures e != null ==>
              && fresh(e) && e.title == title && e.command == command
              && Linked(menu.first, menu.entries) && menu.entries == old(menu.entries) + [e]
              && heap.calls == old(heap.calls) + 3 && heap.live == old(heap.live) + 3
    ensures menu.delay == old(menu.delay) && menu.active == old(menu.active)
  {
    e := heap.NewEntry(num, title, command);
    if e == null {
      heap.Destroy(menu.first, menu.entries);
    } else {
      menu.Append(iter, e);
    }
  }

  lemma SplitAt(s: string, n: nat)
    requires n < |s| && s[n] == '='
    ensures s == s[..n] + "=" + s[n + 1..]
  {
  }

  lemma AllowedMore(allows: nat -> bool, start: nat, m: nat, n: nat)
    ensures Allowed(allows, start, m) && Allowed(allows, start + m, n) ==> Allowed(allows, start, m + n)
  {
  }

  lemma AllowedFirst(allows: nat -> bool, start: nat, n: nat)
    ensures Allowed(allows, start, 1 + n) <==> allows(start) && Allowed(allows, start + 1, n)
  {
    AllowedMore(allows, start, 1, n);
  }

  lemma NotAllowed(allows: nat -> bool, start: nat, m: nat, n: nat, total: nat)
    requires !Allowed(allows, start + m, n) && m + n <= total
    ensures !Allowed(allows, start, total)
  {
    var j: nat :| start + m <= j < start + m + n && !allows(j);
  }

  lemma BuiltMore(menu: Menu, e: Entry, env: Environment, i: nat, option: string)
    requires |menu.entries| == i + 1 && menu.entries[i] == e && Linked(menu.first, menu.entries)
    requires forall j: nat | j < i :: FromOption(menu.entries[j], env, j)
    requires env(i) == Some(option) && Separator(option) < |option|
    requires e.title == option[..Separator(option)] && e.command == option[Separator(option) + 1..]
    ensures Built(menu, e, env, i + 1) && IsEntry(env, i)
  {
    SplitAt(option, Separator(option));
  }

  /** One turn of the loop over the options. */
  method AddOption(heap: Heap, menu: Menu, iter: Entry?, env: Environment, i: nat) returns (e: Entry?)
    requires Built(menu, iter, env, i) && env(i).Some? && Separator(env(i).value) < |env(i).value|
    modifies heap, menu, iter
    ensures e != null <==> Allowed(heap.allows, old(heap.calls), 3)
    ensures e == null ==> heap.live == old(heap.live) - 3 * i - 1
    ensures e != null ==>
              && fresh(e) && Built(menu, e, env, i + 1) && IsEntry(env, i) && menu.entries == old(menu.entries) + [e]
              && heap.calls == old(heap.calls) + 3 && heap.live == old(heap.live) + 3
    ensures menu.delay == old(menu.delay) && menu.active == old(menu.active)
  {
    var option := env(i).value;
    var sep := Separator(option);
    e := AddEntry(heap, menu, iter, i, option[..sep], option[sep + 1..]);
    if e != null { BuiltMore(menu, e, env, i, option); }
  }

  /** The loop over the options: all of them are added, or everything is freed. */
  method AddOptions(heap: Heap, menu: Menu, env: Environment) returns (ok: bool, i: nat, iter: Entry?)
    requires menu.entries == [] && menu.first == null
    modifies heap, menu
    ensures ok <==> Allowed(heap.allows, old(heap.calls), 3 * Taken(env, 0))
    ensures !ok ==> heap.live == old(heap.live) - 1
    ensures ok ==>
              && i == Taken(env, 0) && Built(menu, iter, env, i)
              && (forall e | e in menu.entries :: fresh(e)) && (iter != null ==> fresh(iter))
              && heap.calls == old(heap.calls) + 3 * i && heap.live == old(heap.live) + 3 * i
    ensures menu.delay == old(menu.delay) && menu.active == old(menu.active)
  {
    i, iter := 0, null;
    ghost var start := heap.calls;
    while i < MAX_COUNT - 1 && env(i).Some?
      invariant i <= MAX_COUNT - 1 && Taken(env, i) == Taken(env, 0)
      invariant Built(menu, iter, env, i) && (iter != null ==> fresh(iter))
      invariant forall e | e in menu.entries :: fresh(e)
      invariant heap.calls == start + 3 * i && heap.live == old(heap.live) + 3 * i
      invariant Allowed(heap.allows, start, 3 * i)
      invariant menu.delay == old(menu.delay) && menu.active == old(menu.active)
    {
      if Separator(env(i).value) == |env(i).value| { break; }
      iter := AddOption(heap, menu, iter, env, i);
      if iter == null {
        NotAllowed(heap.allows, start, 3 * i, 3, 3 * Taken(env, 0));
        return false, i, iter;
      }
      AllowedMore(heap.allows, start, 3 * i, 3);
      i := i + 1;
    }
    ok := true;
  }

  /** The list holds every option taken from `env`, in order, and the console. */
  ghost predicate Complete(first: Entry?, es: seq<Entry>, env: Environment)
    reads es
  {
    && |es| == Taken(env, 0) + 1 && Linked(first, es)
    && (forall i: nat | i < Taken(env, 0) :: FromOption(es[i], env, i))
    && IsConsole(es[Taken(env, 0)])
  }

  /** Fill an empty menu. */
  method AddEntries(heap: Heap, menu: Menu, env: Environment) returns (ok: bool, count: nat)
    requires menu.entries == [] && menu.first == null
    modifies heap, menu
    ensures ok <==> Allowed(heap.allows, old(heap.calls), 3 * (Taken(env, 0) + 1))
    ensures !ok ==> heap.live == old(heap.live) - 1
    ensures ok ==>
              && count == Taken(env, 0) + 1 && heap.live == old(heap.live) + 3 * count
              && Complete(menu.first, menu.entries, env) && (forall e | e in menu.entries :: fresh(e))
    ensures menu.delay == old(menu.delay) && menu.active == old(menu.active)
  {
    ghost var start, taken: nat := heap.calls, Taken(env, 0);
    var iter;
    ok, count, iter := AddOptions(heap, menu, env);
    if !ok {
      NotAllowed(heap.allows, start, 0, 3 * taken, 3 * (taken + 1));
      return;
    }
    iter := AddEntry(heap, menu, iter, count, "U-Boot console", "");
    if iter == null {
      NotAllowed(heap.allows, start, 3 * taken, 3, 3 * (taken + 1));
      return false, count;
    }
    AllowedMore(heap.allows, start, 3 * taken, 3);
    count := count + 1;
  }

  /** `bootmenu_create`; `default` is the number in `bootmenu_default`, if that is set. */
  method Create(heap: Heap, env: Environment, default: Option<int>, delay: int) returns (menu: Menu?)
    modifies heap
    ensures menu != null <==> Allowed(heap.allows, old(heap.calls), 1 + 3 * (Taken(env, 0) + 1))
    ensures menu == null ==> heap.live == old(heap.live)
    ensures menu != null ==>
              && fresh(menu) && menu.Valid() && menu.delay == delay
              && Complete(menu.first, menu.entries, env) && (forall e | e in menu.entries :: fresh(e))
              && heap.live == old(heap.live) + 1 + 3 * menu.count
              && menu.active == if default.Some? && 0 <= default.value < menu.count then default.value else 0
  {
    AllowedFirst(heap.allows, heap.calls, 3 * (Taken(env, 0) + 1));
    var ok := heap.Malloc();
    if !ok { return null; }
    menu := new Menu(delay, if default.Some? then default.value else 0);
    var count;
    ok, count := AddEntries(heap, menu, env);
    if !ok { return null; }
    menu.SetCount(count);
  }
}
