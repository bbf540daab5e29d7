/**
  The device enumeration protocol of the U-Boot API.

  A caller holds a `device_info` whose cookie is a hint for the next call; the
  storage layer keeps two flags per storage group. One enumeration therefore
  has its state split over two places, and a scan changes the cookie while it
  is still being read.
 */
module DeviceEnumeration {

  // ---------------------------------------------------------------- board

  /** A cookie is the address of a device descriptor; 0 is the null pointer. */
  type Cookie = nat

  const NULL: Cookie := 0
  const ENUM_MAX: nat := 5

  const DEV_TYP_NET := 0x0001
  const DEV_TYP_STOR := 0x0002
  const DEV_STA_CLOSED := 0
  const DEV_STA_OPEN := 1

  const API_EINVAL := 1
  const API_ENODEV := 2
  const API_EBUSY := 4
  const API_EIO := 5

  /** `slots[i]` is what `blk_get_dev(name, i)` returns for `i < max_dev`. */
  datatype Group = Group(configured: bool, slots: seq<Cookie>)

  /** `dev_enum_net` is compiled out, or reports the current interface. */
  datatype Network = NotBuilt | Interface(eth: Cookie, initOk: bool)

  datatype Board = Board(groups: seq<Group>, network: Network, active: set<Cookie>)

  /** Cookie `c` is device `i` of storage group `g`. */
  predicate At(b: Board, c: Cookie, g: nat, i: nat) {
    g < |b.groups| && i < |b.groups[g].slots| && b.groups[g].slots[i] == c
  }

  predicate InGroup(b: Board, c: Cookie, g: nat) {
    g < |b.groups| && c in b.groups[g].slots
  }

  function NetCookie(b: Board): Cookie {
    if b.network.Interface? then b.network.eth else NULL
  }

  predicate AtBoth(b: Board, c: Cookie, g: nat, i: nat, h: nat, j: nat) {
    c != NULL && At(b, c, g, i) && At(b, c, h, j)
  }

  /** Descriptors have pairwise different addresses and the network device is none of them. */
  ghost predicate ValidBoard(b: Board) {
    && |b.groups| == ENUM_MAX
    && (forall g | 0 <= g < ENUM_MAX :: !b.groups[g].configured ==> b.groups[g].slots == [])
    && (forall c, g, i, h, j | AtBoth(b, c, g, i, h, j) :: g == h && i == j)
    && (forall g, i | At(b, NetCookie(b), g, i) :: NetCookie(b) == NULL)
  }

  /** The "external" type that `dev_stor_init` gives each group: ide, usb, scsi, mmc, sata. */
  function GroupType(g: nat): int
    requires g < ENUM_MAX
  {
    DEV_TYP_STOR + [0x10, 0x40, 0x20, 0x80, 0x100][g]
  }

  predicate HasBit(typ: int, bit: int)
    requires bit > 0
  {
    (typ / bit) % 2 == 1
  }

  /** Every group has the bit of storage (2), not that of the network (1), and the bit of its own kind alone. */
  lemma KindOfGroup(g: nat, bit: int)
    requires g < 5 && bit in {0x10, 0x20, 0x40, 0x80, 0x100}
    ensures HasBit(GroupType(g), 2) && !HasBit(GroupType(g), 1)
    ensures HasBit(GroupType(g), bit) <==>
            || (g == 0 && bit == 0x10) || (g == 1 && bit == 0x40) || (g == 2 && bit == 0x20)
            || (g == 3 && bit == 0x80) || (g == 4 && bit == 0x100)
  {
    var typ := [0x12, 0x42, 0x22, 0x82, 0x102][g];
    assert GroupType(g) == typ && typ / 2 == [0x9, 0x21, 0x11, 0x41, 0x81][g];
  }

  // ---------------------------------------------------------------- what a run must return

  /** The devices of one group from index `i` on, up to the first inactive one. */
  function ActiveFrom(b: Board, slots: seq<Cookie>, i: nat): seq<Cookie>
    decreases |slots| - i
  {
    if i >= |slots| then []
    else if slots[i] == NULL then ActiveFrom(b, slots, i + 1)
    else if slots[i] !in b.active then []
    else [slots[i]] + ActiveFrom(b, slots, i + 1)
  }

  function GroupsFrom(b: Board, g: nat): seq<Cookie>
    requires |b.groups| == ENUM_MAX
    decreases ENUM_MAX - g
  {
    if g >= ENUM_MAX then [] else ActiveFrom(b, b.groups[g].slots, 0) + GroupsFrom(b, g + 1)
  }

  /** Everything one enumeration returns before the closing null. */
  function Expected(b: Board): seq<Cookie>
    requires |b.groups| == ENUM_MAX
  {
    (if NetCookie(b) == NULL then [] else [NetCookie(b)]) + GroupsFrom(b, 0)
  }

  predicate Somewhere(b: Board, c: Cookie) {
    exists g, i | 0 <= g < |b.groups| && 0 <= i < |b.groups[g].slots| :: At(b, c, g, i)
  }

  /** Group and index of a storage device. */
  ghost function Position(b: Board, c: Cookie): (p: (nat, nat))
    requires Somewhere(b, c)
    ensures At(b, c, p.0, p.1)
  {
    var g: nat, i: nat :| At(b, c, g, i);
    (g, i)
  }

  /** The devices behind device `i` of group `g`. */
  function Behind(b: Board, g: nat, i: nat): seq<Cookie>
    requires |b.groups| == ENUM_MAX && g < ENUM_MAX
  {
    ActiveFrom(b, b.groups[g].slots, i + 1) + GroupsFrom(b, g + 1)
  }

  /** What is still to come when the caller holds cookie `c`. */
  ghost function Remaining(b: Board, c: Cookie): seq<Cookie>
    requires |b.groups| == ENUM_MAX
  {
    if c == NULL then Expected(b)
    else if c == NetCookie(b) then GroupsFrom(b, 0)
    else if Somewhere(b, c) then
      var p := Position(b, c);
      Behind(b, p.0, p.1)
    else []
  }

  /** The flags agree with a run that last returned device `c` of group `g`. */
  ghost predicate FlagsAt(started: seq<bool>, ended: seq<bool>, g: nat) {
    && |started| == |ended| == ENUM_MAX && g < ENUM_MAX
    && started[g] && !ended[g]
    && (forall h | 0 <= h < g :: started[h])
    && (forall h | g < h < ENUM_MAX :: !started[h] && !ended[h])
  }

  ghost predicate FlagsClear(started: seq<bool>, ended: seq<bool>) {
    |started| == |ended| == ENUM_MAX && forall h | 0 <= h < ENUM_MAX :: !started[h] && !ended[h]
  }

  /** The joint state of caller and storage layer between two calls of one run. */
  ghost predicate MidRun(b: Board, started: seq<bool>, ended: seq<bool>, c: Cookie) {
    || c == NULL
    || (c == NetCookie(b) && FlagsClear(started, ended))
    || (c in b.active && exists g, i :: At(b, c, g, i) && FlagsAt(started, ended, g))
  }

  // ---------------------------------------------------------------- the storage layer

  class DeviceInfo {
    var cookie: Cookie
    var typ: int
    var state: int

    constructor (c: Cookie)
      ensures cookie == c && typ == 0 && state == DEV_STA_CLOSED
    {
      cookie, typ, state := c, 0, DEV_STA_CLOSED;
    }
  }

  /** The least present index at or after `i`, or the group size. */
  function FirstPresent(slots: seq<Cookie>, i: nat): (j: nat)
    requires i <= |slots|
    ensures i <= j <= |slots|
    ensures j < |slots| ==> slots[j] != NULL
    ensures forall k | i <= k < j :: slots[k] == NULL
    decreases |slots| - i
  {
    if i == |slots| || slots[i] != NULL then i else FirstPresent(slots, i + 1)
  }

  /** Where a scan of a group starts when the caller holds `c`: just after `c`, or at the front. */
  function ScanFrom(slots: seq<Cookie>, c: Cookie): (r: nat)
    ensures r <= |slots|
    ensures if c != NULL && c in slots then 0 < r && slots[r - 1] == c && c !in slots[..r - 1] else r == 0
  {
    if c == NULL || c !in slots then 0
    else if slots[0] == c then 1
    else
      assert slots == [slots[0]] + slots[1..];
      1 + ScanFrom(slots[1..], c)
  }

  lemma {:induction false} ActiveFromNext(b: Board, slots: seq<Cookie>, i: nat)
    requires i <= |slots|
    ensures var j := FirstPresent(slots, i);
            ActiveFrom(b, slots, i) ==
            if j < |slots| && slots[j] in b.active then [slots[j]] + ActiveFrom(b, slots, j + 1) else []
    decreases |slots| - i
  {
    if i < |slots| && slots[i] == NULL { ActiveFromNext(b, slots, i + 1); }
  }

  lemma PositionIs(b: Board, c: Cookie, g: nat, i: nat)
    requires ValidBoard(b) && c != NULL && At(b, c, g, i)
    ensures c != NetCookie(b) && Somewhere(b, c) && Position(b, c) == (g, i)
  {
    var p := Position(b, c);
    assert AtBoth(b, c, g, i, p.0, p.1);
  }

  lemma RemainingIs(b: Board, c: Cookie, g: nat, i: nat)
    requires |b.groups| == ENUM_MAX && g < ENUM_MAX && c != NULL && c != NetCookie(b)
    requires Somewhere(b, c) && Position(b, c) == (g, i)
    ensures Remaining(b, c) == Behind(b, g, i)
  {
  }

  lemma RemainingAt(b: Board, c: Cookie, g: nat, i: nat)
    requires ValidBoard(b) && c != NULL && At(b, c, g, i)
    ensures c != NetCookie(b)
    ensures Remaining(b, c) == ActiveFrom(b, b.groups[g].slots, i + 1) + GroupsFrom(b, g + 1)
  {
    PositionIs(b, c, g, i);
    RemainingIs(b, c, g, i);
  }

  /** `typ` and `c` describe an active storage device. */
  ghost predicate OpenableStorage(b: Board, c: Cookie, typ: int) {
    c != NULL && c in b.active && exists g: nat, i: nat :: At(b, c, g, i) && g < ENUM_MAX && typ == GroupType(g)
  }

  lemma GroupIsUnique(b: Board, c: Cookie, g: nat, h: nat)
    requires ValidBoard(b) && c != NULL && g <= ENUM_MAX
    requires g < ENUM_MAX ==> InGroup(b, c, g)
    requires forall k | 0 <= k < g :: !InGroup(b, c, k)
    ensures h < ENUM_MAX ==> (h == g <==> InGroup(b, c, h))
  {
    if g < ENUM_MAX && InGroup(b, c, h) {
      var i :| 0 <= i < |b.groups[g].slots| && b.groups[g].slots[i] == c;
      var j :| 0 <= j < |b.groups[h].slots| && b.groups[h].slots[j] == c;
      assert AtBoth(b, c, g, i, h, j);
    }
  }

  lemma OnlyInGroup(b: Board, c: Cookie, g: nat, i: nat)
    requires ValidBoard(b) && c != NULL && At(b, c, g, i)
    ensures forall h: nat | h != g :: !InGroup(b, c, h)
  {
    forall h: nat | h != g ensures !InGroup(b, c, h) {
      if InGroup(b, c, h) {
        var j :| 0 <= j < |b.groups[h].slots| && b.groups[h].slots[j] == c;
        assert AtBoth(b, c, g, i, h, j);
      }
    }
  }

  lemma NetworkInNoGroup(b: Board, h: nat)
    requires ValidBoard(b) && NetCookie(b) != NULL
    ensures !InGroup(b, NetCookie(b), h)
  {
    if InGroup(b, NetCookie(b), h) {
      var j :| 0 <= j < |b.groups[h].slots| && b.groups[h].slots[j] == NetCookie(b);
      assert At(b, NetCookie(b), h, j);
    }
  }

  /** Opening `c` as a network device: only the current interface opens, and only if it can be initialised. */
  predicate OpensNet(b: Board, c: Cookie, err: int) {
    && (err == 0 <==> b.network == Interface(c, true))
    && (err == API_EIO <==> b.network == Interface(c, false))
    && err in {0, API_EIO, API_ENODEV}
  }

  /** The network device comes first. */
  lemma NetworkFirst(b: Board, started: seq<bool>, ended: seq<bool>)
    requires ValidBoard(b) && NetCookie(b) != NULL && FlagsClear(started, ended)
    ensures Expected(b) != [] && Expected(b)[0] == NetCookie(b)
    ensures MidRun(b, started, ended, NetCookie(b)) && Remaining(b, NetCookie(b)) == Expected(b)[1..]
  {
  }

  /** Mid-scan: the group of the last returned device is still ahead. */
  ghost predicate Waiting(b: Board, started: seq<bool>, ended: seq<bool>, c: Cookie, g: nat, i: nat) {
    c != NULL && At(b, c, g, i) && FlagsAt(started, ended, g)
  }

  /** Mid-scan: the groups from `g` on have not been looked at in this run. */
  ghost predicate Fresh(b: Board, started: seq<bool>, ended: seq<bool>, c: Cookie, g: nat) {
    && |started| == |ended| == ENUM_MAX
    && (forall h | 0 <= h < g && h < ENUM_MAX :: started[h])
    && (forall h | g <= h < ENUM_MAX :: !started[h] && !ended[h])
    && (c == NULL || forall h | g <= h < ENUM_MAX :: !InGroup(b, c, h))
  }

  /** What the scan still has to find, phase by phase. */
  ghost predicate Phase(b: Board, started: seq<bool>, ended: seq<bool>, c: Cookie, scan: nat, g: nat, i: nat,
                        rest: seq<Cookie>)
    requires ValidBoard(b) && scan <= ENUM_MAX
  {
    || (Waiting(b, started, ended, c, g, i) && scan <= g &&
        rest == ActiveFrom(b, b.groups[g].slots, i + 1) + GroupsFrom(b, g + 1))
    || (Fresh(b, started, ended, c, scan) && rest == GroupsFrom(b, scan))
  }

  lemma PhaseEntered(b: Board, started: seq<bool>, ended: seq<bool>, c: Cookie, rest: seq<Cookie>)
    returns (g: nat, i: nat)
    requires ValidBoard(b)
    requires if c == NULL then FlagsClear(started, ended) && rest == GroupsFrom(b, 0)
             else MidRun(b, started, ended, c) && rest == Remaining(b, c)
    ensures Phase(b, started, ended, c, 0, g, i, rest)
  {
    g, i := 0, 0;
    if c == NULL {
    } else if c == NetCookie(b) && FlagsClear(started, ended) {
      forall h: nat ensures !InGroup(b, c, h) { NetworkInNoGroup(b, h); }
    } else {
      g, i :| At(b, c, g, i) && FlagsAt(started, ended, g);
      RemainingAt(b, c, g, i);
    }
  }

  /**
    One group's turn in a scan, from flags and cookie before to flags and
    cookie after. The group is scanned when the run starts over, when the
    cookie is one of its own devices and it has not ended, or when it has not
    been started; otherwise it is closed and the cookie stays.
   */
  ghost predicate GroupTurn(b: Board, g: nat, started: seq<bool>, ended: seq<bool>, c: Cookie,
                            started': seq<bool>, ended': seq<bool>, c': Cookie, found: bool)
    requires ValidBoard(b) && g < ENUM_MAX && |started| == |ended| == |started'| == |ended'| == ENUM_MAX
  {
    var slots := b.groups[g].slots;
    var j := FirstPresent(slots, ScanFrom(slots, c));
    var own := InGroup(b, c, g);
    var scans := c == NULL || (!ended[g] && (own || !started[g]));
    && started' == started[g := started[g] || (scans && (c == NULL || !own))]
    && (if scans && b.groups[g].configured then
          && c' == (if j < |slots| then slots[j] else NULL)
          && found == (j < |slots| && slots[j] in b.active)
          && ended' == ended[g := j >= |slots|]
        else
          !found && ended' == ended[g := true] && c' == c)
  }

  /** A hit in group `g` leaves the joint state in the middle of the run again. */
  lemma HitKeepsRun(b: Board, started: seq<bool>, ended: seq<bool>, c: Cookie, g: nat, j: nat, rest: seq<Cookie>)
    requires ValidBoard(b) && c != NULL && c in b.active && At(b, c, g, j) && FlagsAt(started, ended, g)
    requires rest == [c] + (ActiveFrom(b, b.groups[g].slots, j + 1) + GroupsFrom(b, g + 1))
    ensures rest != [] && rest[0] == c && MidRun(b, started, ended, c) && Remaining(b, c) == rest[1..]
  {
    RemainingAt(b, c, g, j);
  }

  lemma HeadFirst<T>(x: T, s: seq<T>, t: seq<T>)
    ensures ([x] + s) + t == [x] + (s + t)
  {
  }

  lemma ShiftHead<T>(s: seq<T>, t: seq<T>)
    requires t != []
    ensures s + t == (s + [t[0]]) + t[1..]
  {
  }

  /** The group's own device index is where its scan resumes. */
  lemma ScanResumes(b: Board, c: Cookie, g: nat, i: nat)
    requires ValidBoard(b) && c != NULL && At(b, c, g, i)
    ensures InGroup(b, c, g) && ScanFrom(b.groups[g].slots, c) == i + 1
  {
    assert AtBoth(b, c, g, i, g, ScanFrom(b.groups[g].slots, c) - 1);
  }

  /**
    A group's turn moves the scan's phase on by one group, or hits the head of
    what is left. `from` is the index its scan starts at.
   */
  lemma TurnAdvances(b: Board, g: nat, started: seq<bool>, ended: seq<bool>, c: Cookie,
                     started': seq<bool>, ended': seq<bool>, c': Cookie, found: bool,
                     g0: nat, i0: nat, rest: seq<Cookie>)
    requires ValidBoard(b) && g < ENUM_MAX && |started| == |ended| == |started'| == |ended'| == ENUM_MAX
    requires GroupTurn(b, g, started, ended, c, started', ended', c', found)
    requires Phase(b, started, ended, c, g, g0, i0, rest)
    ensures !found ==> Phase(b, started', ended', c', g + 1, g0, i0, rest)
    ensures found ==> && rest != [] && rest[0] == c' && MidRun(b, started', ended', c')
                      && Remaining(b, c') == rest[1..]
  {
    var slots := b.groups[g].slots;
    if Waiting(b, started, ended, c, g0, i0) && g < g0 {
      OnlyInGroup(b, c, g0, i0);
      assert !found && Waiting(b, started', ended', c', g0, i0);
    } else {
      var from := ScanFrom(slots, c);
      if Waiting(b, started, ended, c, g0, i0) && g == g0 {
        ScanResumes(b, c, g, i0);
        OnlyInGroup(b, c, g, i0);
      } else {
        assert Fresh(b, started, ended, c, g) && from == 0;
      }
      assert rest == ActiveFrom(b, slots, from) + GroupsFrom(b, g + 1);
      ScannedTurn(b, g, started, ended, c, started', ended', c', found, from, rest);
    }
  }

  lemma HitFlags(b: Board, g: nat, started: seq<bool>, ended: seq<bool>, c: Cookie,
                 started': seq<bool>, ended': seq<bool>, c': Cookie)
    requires ValidBoard(b) && g < ENUM_MAX && |started| == |ended| == |started'| == |ended'| == ENUM_MAX
    requires GroupTurn(b, g, started, ended, c, started', ended', c', true)
    requires (forall h | 0 <= h < g :: started[h]) && (forall h | g < h < ENUM_MAX :: !started[h] && !ended[h])
    requires c == NULL || !InGroup(b, c, g) || started[g]
    ensures FlagsAt(started', ended', g)
    ensures var slots := b.groups[g].slots;
            At(b, c', g, FirstPresent(slots, ScanFrom(slots, c))) && c' != NULL && c' in b.active
  {
  }

  lemma HitRest(b: Board, slots: seq<Cookie>, from: nat, j: nat, more: seq<Cookie>)
    requires from <= |slots| && j == FirstPresent(slots, from) < |slots| && slots[j] in b.active
    ensures ActiveFrom(b, slots, from) + more == [slots[j]] + (ActiveFrom(b, slots, j + 1) + more)
  {
    ActiveFromNext(b, slots, from);
    HeadFirst(slots[j], ActiveFrom(b, slots, j + 1), more);
  }

  /** A scanned group that hands out a device hands out the next one of the run. */
  lemma ScannedHit(b: Board, g: nat, started: seq<bool>, ended: seq<bool>, c: Cookie,
                   started': seq<bool>, ended': seq<bool>, c': Cookie, from: nat, rest: seq<Cookie>)
    requires ValidBoard(b) && g < ENUM_MAX && |started| == |ended| == |started'| == |ended'| == ENUM_MAX
    requires GroupTurn(b, g, started, ended, c, started', ended', c', true)
    requires from == ScanFrom(b.groups[g].slots, c)
    requires (forall h | 0 <= h < g :: started[h]) && (forall h | g < h < ENUM_MAX :: !started[h] && !ended[h])
    requires c == NULL || !InGroup(b, c, g) || started[g]
    requires rest == ActiveFrom(b, b.groups[g].slots, from) + GroupsFrom(b, g + 1)
    ensures rest != [] && rest[0] == c' && MidRun(b, started', ended', c') && Remaining(b, c') == rest[1..]
  {
    var slots := b.groups[g].slots;
    var j := FirstPresent(slots, from);
    HitFlags(b, g, started, ended, c, started', ended', c');
    HitRest(b, slots, from, j, GroupsFrom(b, g + 1));
    HitKeepsRun(b, started', ended', c', g, j, rest);
  }

  lemma ScannedTurn(b: Board, g: nat, started: seq<bool>, ended: seq<bool>, c: Cookie,
                    started': seq<bool>, ended': seq<bool>, c': Cookie, found: bool,
                    from: nat, rest: seq<Cookie>)
    requires ValidBoard(b) && g < ENUM_MAX && |started| == |ended| == |started'| == |ended'| == ENUM_MAX
    requires GroupTurn(b, g, started, ended, c, started', ended', c', found)
    requires from == ScanFrom(b.groups[g].slots, c)
    requires c == NULL || (!ended[g] && (InGroup(b, c, g) || !started[g]))
    requires (forall h | 0 <= h < g :: started[h]) && (forall h | g < h < ENUM_MAX :: !started[h] && !ended[h])
    requires c == NULL || !InGroup(b, c, g) || started[g]
    requires c == NULL || forall h | g < h < ENUM_MAX :: !InGroup(b, c, h)
    requires rest == ActiveFrom(b, b.groups[g].slots, from) + GroupsFrom(b, g + 1)
    ensures !found ==> Fresh(b, started', ended', c', g + 1) && rest == GroupsFrom(b, g + 1)
    ensures found ==> && rest != [] && rest[0] == c' && MidRun(b, started', ended', c')
                      && Remaining(b, c') == rest[1..]
  {
    if found {
      ScannedHit(b, g, started, ended, c, started', ended', c', from, rest);
    } else {
      var slots := b.groups[g].slots;
      var j := FirstPresent(slots, from);
      ActiveFromNext(b, slots, from);
      if j < |slots| { OnlyInGroup(b, slots[j], g, j); }
    }
  }

  class Storage {
    const board: Board
    var started: seq<bool>
    var ended: seq<bool>

    ghost predicate Valid()
      reads this
    {
      ValidBoard(board) && |started| == |ended| == ENUM_MAX
    }

    constructor (b: Board)
      requires ValidBoard(b)
      ensures Valid() && board == b && FlagsClear(started, ended)
    {
      board := b;
      started, ended := seq(ENUM_MAX, _ => false), seq(ENUM_MAX, _ => false);
    }

    method DevEnumReset()
      requires Valid()
      modifies this
      ensures Valid() && FlagsClear(started, ended)
    {
      for i := 0 to ENUM_MAX
        invariant Valid()
        invariant forall h | 0 <= h < i :: !started[h] && !ended[h]
      {
        started, ended := started[i := false], ended[i := false];
      }
    }

    /** `more` is the caller's variable: an unconfigured group leaves it alone. */
    method DevStorGet(group: nat, moreIn: bool, di: DeviceInfo)
      returns (found: bool, more: bool)
      requires Valid() && group < ENUM_MAX
      modifies di
      ensures di.state == old(di.state)
      ensures !board.groups[group].configured ==>
                !found && more == moreIn && di.cookie == old(di.cookie) && di.typ == old(di.typ)
      ensures board.groups[group].configured ==>
                var slots := board.groups[group].slots;
                var j := FirstPresent(slots, ScanFrom(slots, old(di.cookie)));
                && more == (j < |slots|)
                && di.cookie == (if more then slots[j] else NULL)
                && found == (more && slots[j] in board.active)
                && di.typ == (if more then GroupType(group) else old(di.typ))
    {
      if !board.groups[group].configured {
        return false, moreIn;
      }
      var slots := board.groups[group].slots;
      found, more := false, moreIn;
      var i := 0;
      if di.cookie != NULL {
        var foundLast := false;
        while i < |slots|
          invariant 0 <= i <= |slots|
          invariant !foundLast && di.cookie !in slots[..i]
        {
          if di.cookie == slots[i] {
            i := i + 1;
            foundLast := true;
            break;
          }
          i := i + 1;
        }
        if !foundLast {
          i := 0;
        }
      }
      ghost var from := i;
      assert from == ScanFrom(slots, di.cookie);
      while i < |slots|
        invariant from <= i <= |slots|
        invariant !found && FirstPresent(slots, i) == FirstPresent(slots, from)
        invariant di.typ == old(di.typ) && di.state == old(di.state)
      {
        di.cookie := slots[i];
        if di.cookie != NULL {
          found := true;
          break;
        }
        i := i + 1;
      }
      more := i != |slots|;
      if found {
        di.typ := GroupType(group);
        if di.cookie !in board.active {
          found := false;
        }
      } else {
        di.cookie := NULL;
      }
    }

    /** The first group holding `c`, in scan order; `ENUM_MAX` when no group does. */
    method DevStorType(c: Cookie) returns (r: nat)
      requires Valid()
      ensures r <= ENUM_MAX
      ensures r < ENUM_MAX ==> InGroup(board, c, r)
      ensures forall g | 0 <= g < r :: !InGroup(board, c, g)
    {
      for g := 0 to ENUM_MAX
        invariant forall h | 0 <= h < g :: !InGroup(board, c, h)
      {
        var slots := board.groups[g].slots;
        for j := 0 to |slots|
          invariant c !in slots[..j]
        {
          if c == slots[j] {
            return g;
          }
        }
      }
      return ENUM_MAX;
    }

    method DevEnumStor(group: nat, di: DeviceInfo) returns (found: bool)
      requires Valid() && group < ENUM_MAX
      modifies this, di
      ensures Valid() && di.state == old(di.state)
      ensures GroupTurn(board, group, old(started), old(ended), old(di.cookie), started, ended, di.cookie, found)
      ensures found ==> di.typ == GroupType(group)
    {
      var more := false;
      var own := false;
      if di.cookie == NULL {
        found, more := DevStorGet(group, more, di);
        started := started[group := true];
      } else {
        var t := DevStorType(di.cookie);
        own := t == group;
        assert own == InGroup(board, di.cookie, group) by {
          GroupIsUnique(board, di.cookie, t, group);
        }
        if own {
          if ended[group] {
            return false;
          }
          found, more := DevStorGet(group, more, di);
        } else {
          if ended[group] {
            return false;
          }
          if !started[group] {
            started := started[group := true];
            found, more := DevStorGet(group, more, di);
          } else {
            found, more := false, false;
          }
        }
      }
      ended := ended[group := !more];
    }

    /** The caller holds the head of `rest`, and the run goes on with its tail; null when `rest` is empty. */
    ghost predicate Holds(c: Cookie, rest: seq<Cookie>)
      requires Valid()
      reads this
    {
      if rest == [] then c == NULL
      else c == rest[0] && c != NULL && MidRun(board, started, ended, c) && Remaining(board, c) == rest[1..]
    }

    /** The loop over the groups; in a run, `rest` is what is still to come. */
    method ScanGroups(di: DeviceInfo, ghost run: bool, ghost rest: seq<Cookie>, ghost g0: nat, ghost i0: nat)
      returns (found: bool)
      requires Valid() && (run ==> Phase(board, started, ended, di.cookie, 0, g0, i0, rest))
      modifies this, di
      ensures Valid() && di.state == old(di.state)
      ensures found ==> OpenableStorage(board, di.cookie, di.typ)
      ensures run ==> Holds(if found then di.cookie else NULL, rest)
    {
      for g := 0 to ENUM_MAX
        invariant Valid() && di.state == old(di.state)
        invariant run ==> Phase(board, started, ended, di.cookie, g, g0, i0, rest)
      {
        ghost var st, en, c := started, ended, di.cookie;
        found := DevEnumStor(g, di);
        if run {
          TurnAdvances(board, g, st, en, c, started, ended, di.cookie, found, g0, i0, rest);
        }
        if found {
          ghost var slots := board.groups[g].slots;
          assert At(board, di.cookie, g, FirstPresent(slots, ScanFrom(slots, c)));
          return;
        }
      }
      return false;
    }

    /** Whatever the flags and the cookie are, a hit is an active storage device. */
    method DevEnumStorage(di: DeviceInfo) returns (found: bool)
      requires Valid()
      modifies this, di
      ensures Valid() && di.state == old(di.state)
      ensures found ==> OpenableStorage(board, di.cookie, di.typ)
      // at the head of a run, or in the middle of one, the scan finds exactly the next device
      ensures old(di.cookie == NULL && FlagsClear(started, ended)) ==>
                Holds(if found then di.cookie else NULL, GroupsFrom(board, 0))
      ensures old(di.cookie != NULL && MidRun(board, started, ended, di.cookie)) ==>
                Holds(if found then di.cookie else NULL, Remaining(board, old(di.cookie)))
    {
      ghost var c0 := di.cookie;
      ghost var run := (c0 == NULL && FlagsClear(started, ended)) || (c0 != NULL && MidRun(board, started, ended, c0));
      ghost var rest := if c0 == NULL then GroupsFrom(board, 0) else Remaining(board, c0);
      ghost var g0: nat, i0: nat := 0, 0;
      if run {
        g0, i0 := PhaseEntered(board, started, ended, c0, rest);
      }
      found := ScanGroups(di, run, rest, g0, i0);
    }

    /** The end of `API_dev_enum`: no further device is reported as a null cookie. */
    method NextStorage(di: DeviceInfo)
      requires Valid()
      modifies this, di
      ensures Valid() && di.state == old(di.state)
      ensures di.cookie != NULL ==> OpenableStorage(board, di.cookie, di.typ)
      ensures old(di.cookie == NULL && FlagsClear(started, ended)) ==> Holds(di.cookie, GroupsFrom(board, 0))
      ensures old(di.cookie != NULL && MidRun(board, started, ended, di.cookie)) ==>
                Holds(di.cookie, Remaining(board, old(di.cookie)))
    {
      var found := DevEnumStorage(di);
      if !found {
        di.cookie := NULL;
      }
    }

    /** Requires a non-null cookie: with a gap in a group, the original would follow the null pointer. */
    method DevStorIsValid(group: nat, c: Cookie) returns (r: bool)
      requires Valid() && group < ENUM_MAX && c != NULL
      ensures r == (InGroup(board, c, group) && c in board.active)
    {
      var slots := board.groups[group].slots;
      for i := 0 to |slots|
        invariant c in board.active ==> c !in slots[..i]
      {
        if c == slots[i] && c in board.active {
          return true;
        }
      }
      return false;
    }

    method DevOpenStor(c: Cookie) returns (err: int)
      requires Valid() && c != NULL
      ensures err == 0 || err == API_ENODEV
      ensures err == 0 <==> c in board.active && exists g: nat :: InGroup(board, c, g)
    {
      var t := DevStorType(c);
      if t == ENUM_MAX {
        assert forall g: nat :: !InGroup(board, c, g);
        return API_ENODEV;
      }
      forall g: nat ensures InGroup(board, c, g) ==> g == t {
        GroupIsUnique(board, c, t, g);
      }
      var valid := DevStorIsValid(t, c);
      return if valid then 0 else API_ENODEV;
    }

    /** `dev_enum_net`: the type is set even when there is no interface. */
    method DevEnumNet(di: DeviceInfo) returns (found: bool)
      modifies di
      ensures di.state == old(di.state)
      ensures found == (NetCookie(board) != NULL)
      ensures board.network.Interface? ==> di.cookie == NetCookie(board) && di.typ == DEV_TYP_NET
      ensures board.network.NotBuilt? ==> di.cookie == old(di.cookie) && di.typ == old(di.typ)
    {
      if board.network.NotBuilt? {
        return false;
      }
      di.typ := DEV_TYP_NET;
      di.cookie := board.network.eth;
      return di.cookie != NULL;
    }

    /**
      One enumeration call. Whatever state it is called in, it hands out the
      network device, an active storage device, or null. In a run it hands out
      exactly the next device of that run, and null after the last.
     */
    method ApiDevEnum(di: DeviceInfo?) returns (err: int)
      requires Valid()
      modifies this, di
      ensures Valid()
      ensures di == null ==> err == API_EINVAL && started == old(started) && ended == old(ended)
      ensures di != null ==>
                && err == 0 && di.state == old(di.state)
                && (di.cookie != NULL ==> || (di.cookie == NetCookie(board) && di.typ == DEV_TYP_NET)
                                          || OpenableStorage(board, di.cookie, di.typ))
                && (old(MidRun(board, started, ended, di.cookie)) ==>
                      Holds(di.cookie, Remaining(board, old(di.cookie))))
    {
      if di == null {
        return API_EINVAL;
      }
      if di.cookie == NULL {
        DevEnumReset();
        var net := DevEnumNet(di);
        if net {
          NetworkFirst(board, started, ended);
          return 0;
        }
        assert Expected(board) == GroupsFrom(board, 0);
      }
      NextStorage(di);
      return 0;
    }

    method DevOpenNet(c: Cookie) returns (err: int)
      ensures OpensNet(board, c, err)
      ensures err == 0 || err == API_EIO ==> c == NetCookie(board)
    {
      if board.network.NotBuilt? || board.network.eth != c {
        return API_ENODEV;
      }
      return if board.network.initOk then 0 else API_EIO;
    }

    /** One consumer at a time; every storage device the enumeration handed out can be opened. */
    method ApiDevOpen(di: DeviceInfo?) returns (err: int)
      requires Valid()
      modifies di
      ensures di == null ==> err == API_EINVAL
      ensures di != null ==>
                && di.cookie == old(di.cookie) && di.typ == old(di.typ)
                && di.state == (if err == 0 then DEV_STA_OPEN else old(di.state))
                && (old(di.state) == DEV_STA_OPEN <==> err == API_EBUSY)
                && (old(di.state) != DEV_STA_OPEN ==>
                      && (OpenableStorage(board, di.cookie, di.typ) ==> err == 0)
                      && (di.cookie == NULL ==> err == API_ENODEV)
                      && (di.cookie != NULL && HasBit(di.typ, DEV_TYP_STOR) ==>
                            if di.cookie in board.active && exists g: nat :: InGroup(board, di.cookie, g)
                            then err == 0 else err == API_ENODEV)
                      && (di.cookie != NULL && !HasBit(di.typ, DEV_TYP_STOR) ==>
                            if HasBit(di.typ, DEV_TYP_NET) then OpensNet(board, di.cookie, err) else err == API_ENODEV))
    {
      if di == null {
        return API_EINVAL;
      }
      if di.state == DEV_STA_OPEN {
        return API_EBUSY;
      }
      if di.cookie == NULL {
        return API_ENODEV;
      }
      if HasBit(di.typ, DEV_TYP_STOR) {
        err := DevOpenStor(di.cookie);
      } else if HasBit(di.typ, DEV_TYP_NET) {
        err := DevOpenNet(di.cookie);
      } else {
        err := API_ENODEV;
      }
      if OpenableStorage(board, di.cookie, di.typ) {
        ghost var g: nat, i: nat :| At(board, di.cookie, g, i) && g < ENUM_MAX && di.typ == GroupType(g);
        assert InGroup(board, di.cookie, g);
      }
      if err == 0 {
        di.state := DEV_STA_OPEN;
      }
    }

    /** Closing an opened storage device always succeeds and makes it openable again. */
    method ApiDevClose(di: DeviceInfo?) returns (err: int)
      modifies di
      ensures di == null ==> err == API_EINVAL
      ensures di != null ==>
                && di.cookie == old(di.cookie) && di.typ == old(di.typ)
                && di.state == (if err == 0 then DEV_STA_CLOSED else old(di.state))
                && (err == 0 <==> || old(di.state) == DEV_STA_CLOSED
                                  || (di.cookie != NULL && HasBit(di.typ, DEV_TYP_STOR))
                                  || (di.cookie != NULL && HasBit(di.typ, DEV_TYP_NET)
                                      && di.cookie == NetCookie(board)))
                && (err == 0 || err == API_ENODEV)
    {
      if di == null {
        return API_EINVAL;
      }
      if di.state == DEV_STA_CLOSED {
        return 0;
      }
      if di.cookie == NULL {
        return API_ENODEV;
      }
      if HasBit(di.typ, DEV_TYP_STOR) {
        err := 0;
      } else if HasBit(di.typ, DEV_TYP_NET) {
        err := if board.network.Interface? && board.network.eth == di.cookie then 0 else API_ENODEV;
      } else {
        err := API_ENODEV;
      }
      if err == 0 {
        di.state := DEV_STA_CLOSED;
      }
    }

    /**
      The client's enumeration loop (`ub_dev_enum`): a table of at most `max`
      zeroed records, each handed the previous record's cookie.
     */
    method UbDevEnum(max: nat) returns (devices: seq<Cookie>)
      requires Valid() && max > 0
      modifies this
      ensures Valid()
      ensures devices <= Expected(board)
      ensures |devices| == if |Expected(board)| < max then |Expected(board)| else max
    {
      devices := [];
      var di := new DeviceInfo(NULL);
      ghost var rest := Expected(board);
      var err := ApiDevEnum(di);
      while di.cookie != NULL
        invariant Valid() && Expected(board) == devices + rest && |devices| < max
        invariant Holds(di.cookie, rest)
        invariant fresh(di)
        decreases |rest|
      {
        ghost var c := di.cookie;
        ShiftHead(devices, rest);
        devices, rest := devices + [di.cookie], rest[1..];
        if |devices| >= max {
          break;
        }
        di := new DeviceInfo(di.cookie);
        err := ApiDevEnum(di);
      }
    }
  }

  // ---------------------------------------------------------------- what the run is

  /** `c` is a present device of group `g` with no inactive device before it. */
  ghost predicate Reachable(b: Board, c: Cookie, g: nat, i: nat) {
    && c != NULL && c in b.active && At(b, c, g, i)
    && forall j | 0 <= j < i :: b.groups[g].slots[j] == NULL || b.groups[g].slots[j] in b.active
  }

  ghost predicate Before(p: (nat, nat), q: (nat, nat)) {
    p.0 < q.0 || (p.0 == q.0 && p.1 < q.1)
  }

  lemma {:induction false} ActiveFromMembers(b: Board, g: nat, i: nat, c: Cookie)
    requires ValidBoard(b) && g < ENUM_MAX
    requires forall j | 0 <= j < i && j < |b.groups[g].slots| ::
               b.groups[g].slots[j] == NULL || b.groups[g].slots[j] in b.active
    ensures c in ActiveFrom(b, b.groups[g].slots, i) <==> exists k: nat :: i <= k && Reachable(b, c, g, k)
    decreases |b.groups[g].slots| - i
  {
    var slots := b.groups[g].slots;
    if i < |slots| {
      if slots[i] == NULL || slots[i] in b.active {
        ActiveFromMembers(b, g, i + 1, c);
        if slots[i] == c && c != NULL {
          assert Reachable(b, c, g, i);
        }
        assert forall k: nat | i <= k && Reachable(b, c, g, k) :: k == i || i + 1 <= k;
      }
    }
  }

  lemma {:induction false} GroupsFromMembers(b: Board, g: nat, c: Cookie)
    requires ValidBoard(b)
    ensures c in GroupsFrom(b, g) <==> exists h: nat, k: nat :: g <= h && Reachable(b, c, h, k)
    decreases ENUM_MAX - g
  {
    if g < ENUM_MAX {
      ActiveFromMembers(b, g, 0, c);
      GroupsFromMembers(b, g + 1, c);
      assert forall h: nat, k: nat | g <= h && Reachable(b, c, h, k) :: h == g || g + 1 <= h;
    }
  }

  /** Positions strictly increase along one group's part of a run. */
  lemma {:induction false} ActiveFromOrdered(b: Board, g: nat, i: nat, m: nat, n: nat)
    returns (p: nat, q: nat)
    requires ValidBoard(b) && g < ENUM_MAX && m < n < |ActiveFrom(b, b.groups[g].slots, i)|
    ensures i <= p < q
    ensures At(b, ActiveFrom(b, b.groups[g].slots, i)[m], g, p)
    ensures At(b, ActiveFrom(b, b.groups[g].slots, i)[n], g, q)
    decreases |b.groups[g].slots| - i
  {
    var slots := b.groups[g].slots;
    if slots[i] == NULL {
      p, q := ActiveFromOrdered(b, g, i + 1, m, n);
    } else if m > 0 {
      p, q := ActiveFromOrdered(b, g, i + 1, m - 1, n - 1);
    } else {
      p := i;
      q := ActiveFromLocated(b, g, i + 1, n - 1);
    }
  }

  lemma {:induction false} ActiveFromLocated(b: Board, g: nat, i: nat, n: nat) returns (q: nat)
    requires ValidBoard(b) && g < ENUM_MAX && n < |ActiveFrom(b, b.groups[g].slots, i)|
    ensures i <= q && At(b, ActiveFrom(b, b.groups[g].slots, i)[n], g, q)
    decreases |b.groups[g].slots| - i
  {
    var slots := b.groups[g].slots;
    if slots[i] == NULL {
      q := ActiveFromLocated(b, g, i + 1, n);
    } else if n > 0 {
      q := ActiveFromLocated(b, g, i + 1, n - 1);
    } else {
      q := i;
    }
  }

  lemma {:induction false} GroupsFromLocated(b: Board, g: nat, n: nat) returns (h: nat, q: nat)
    requires ValidBoard(b) && n < |GroupsFrom(b, g)|
    ensures g <= h && At(b, GroupsFrom(b, g)[n], h, q)
    decreases ENUM_MAX - g
  {
    var mine := ActiveFrom(b, b.groups[g].slots, 0);
    if n < |mine| {
      h := g;
      q := ActiveFromLocated(b, g, 0, n);
    } else {
      h, q := GroupsFromLocated(b, g + 1, n - |mine|);
    }
  }

  lemma {:induction false} GroupsFromOrdered(b: Board, g: nat, m: nat, n: nat)
    returns (p: (nat, nat), q: (nat, nat))
    requires ValidBoard(b) && m < n < |GroupsFrom(b, g)|
    ensures Before(p, q)
    ensures At(b, GroupsFrom(b, g)[m], p.0, p.1) && At(b, GroupsFrom(b, g)[n], q.0, q.1)
    decreases ENUM_MAX - g
  {
    var mine := ActiveFrom(b, b.groups[g].slots, 0);
    if n < |mine| {
      var i, j := ActiveFromOrdered(b, g, 0, m, n);
      p, q := (g, i), (g, j);
    } else if m < |mine| {
      var i := ActiveFromLocated(b, g, 0, m);
      var h, j := GroupsFromLocated(b, g + 1, n - |mine|);
      p, q := (g, i), (h, j);
    } else {
      p, q := GroupsFromOrdered(b, g + 1, m - |mine|, n - |mine|);
    }
  }

  /**
    A run returns the network device first if there is one, then exactly the
    storage devices with no inactive device before them in their group.
   */
  lemma RunReturnsExactly(b: Board, c: Cookie)
    requires ValidBoard(b)
    ensures NetCookie(b) != NULL ==> Expected(b) != [] && Expected(b)[0] == NetCookie(b)
    ensures c in Expected(b) <==>
              (c == NetCookie(b) && c != NULL) || exists g: nat, i: nat :: Reachable(b, c, g, i)
  {
    GroupsFromMembers(b, 0, c);
  }

  lemma StorageIsOrdered(b: Board, m: nat, n: nat, p: (nat, nat), q: (nat, nat))
    requires ValidBoard(b) && m < n < |GroupsFrom(b, 0)|
    ensures var cm, cn := GroupsFrom(b, 0)[m], GroupsFrom(b, 0)[n];
            cm != cn && (At(b, cm, p.0, p.1) && At(b, cn, q.0, q.1) ==> Before(p, q))
  {
    var cm, cn := GroupsFrom(b, 0)[m], GroupsFrom(b, 0)[n];
    GroupsFromMembers(b, 0, cm);
    GroupsFromMembers(b, 0, cn);
    var p', q' := GroupsFromOrdered(b, 0, m, n);
    if At(b, cm, p.0, p.1) { assert AtBoth(b, cm, p.0, p.1, p'.0, p'.1); }
    if At(b, cn, q.0, q.1) { assert AtBoth(b, cn, q.0, q.1, q'.0, q'.1); }
    if cm == cn { assert AtBoth(b, cm, p'.0, p'.1, q'.0, q'.1); }
  }

  /** Storage devices come strictly in (group, index) order, so none comes twice. */
  lemma RunIsOrdered(b: Board, m: nat, n: nat, p: (nat, nat), q: (nat, nat))
    requires ValidBoard(b) && m < n < |Expected(b)|
    ensures Expected(b)[m] != Expected(b)[n]
    ensures At(b, Expected(b)[m], p.0, p.1) && At(b, Expected(b)[n], q.0, q.1) ==> Before(p, q)
  {
    if NetCookie(b) == NULL {
      StorageIsOrdered(b, m, n, p, q);
    } else if m > 0 {
      StorageIsOrdered(b, m - 1, n - 1, p, q);
    } else {
      GroupsFromMembers(b, 0, Expected(b)[n]);
    }
  }

  /** When every present device is active, a run returns every present device. */
  lemma AllActiveRunIsComplete(b: Board, c: Cookie)
    requires ValidBoard(b)
    requires forall d, g, i | At(b, d, g, i) && d != NULL :: d in b.active
    ensures c in Expected(b) <==> c != NULL && (c == NetCookie(b) || exists g: nat, i: nat :: At(b, c, g, i))
  {
    RunReturnsExactly(b, c);
    forall g: nat, i: nat | c != NULL && At(b, c, g, i) ensures Reachable(b, c, g, i) {
      forall j | 0 <= j < i ensures b.groups[g].slots[j] == NULL || b.groups[g].slots[j] in b.active {
        assert At(b, b.groups[g].slots[j], g, j);
      }
    }
  }

  /** Sum of `max_dev` over the groups from `g` on. */
  function Slots(b: Board, g: nat): nat
    requires |b.groups| == ENUM_MAX
    decreases ENUM_MAX - g
  {
    if g >= ENUM_MAX then 0 else |b.groups[g].slots| + Slots(b, g + 1)
  }

  lemma {:induction false} ActiveFromBound(b: Board, slots: seq<Cookie>, i: nat)
    requires i <= |slots|
    ensures |ActiveFrom(b, slots, i)| <= |slots| - i
    decreases |slots| - i
  {
    if i < |slots| { ActiveFromBound(b, slots, i + 1); }
  }

  lemma {:induction false} GroupsFromBound(b: Board, g: nat)
    requires |b.groups| == ENUM_MAX
    ensures |GroupsFrom(b, g)| <= Slots(b, g)
    decreases ENUM_MAX - g
  {
    if g < ENUM_MAX {
      ActiveFromBound(b, b.groups[g].slots, 0);
      GroupsFromBound(b, g + 1);
    }
  }

  /** Counting the call that returns null, a run takes at most 2 + sum of `max_dev` calls. */
  lemma RunLength(b: Board)
    requires |b.groups| == ENUM_MAX
    ensures |Expected(b)| + 1 <= 2 + Slots(b, 0)
  {
    GroupsFromBound(b, 0);
  }
}
