/** The keyword and command tables of `ethsw`. */
module EthswTables {

  // ---------------------------------------------------------------- keywords

  /**
    A keyword identifier: none, a keyword by its place in the table
    `keyword[]`, or a parameter, which stands for a number or an address.
   */
  datatype Key = KeyEnd | Keyword(id: nat) | Parameter(id: nat)

  const KEYWORD_COUNT: nat := 26

  const HELP := Keyword(0)
  const SHOW := Keyword(1)
  const PORT := Keyword(2)
  const ENABLE := Keyword(3)
  const DISABLE := Keyword(4)
  const STATISTICS := Keyword(5)
  const CLEAR := Keyword(6)
  const LEARNING := Keyword(7)
  const AUTO := Keyword(8)
  const VLAN := Keyword(9)
  const FDB := Keyword(10)
  const ADD := Keyword(11)
  const DEL := Keyword(12)
  const FLUSH := Keyword(13)
  const PVID := Keyword(14)
  const UNTAGGED := Keyword(15)
  const ALL := Keyword(16)
  const NONE := Keyword(17)
  const EGRESS := Keyword(18)
  const TAG := Keyword(19)
  const CLASSIFIED := Keyword(20)
  const SHARED := Keyword(21)
  const PRIVATE := Keyword(22)
  const INGRESS := Keyword(23)
  const FILTERING := Keyword(24)
  const AGGR := Keyword(25)

  const PORT_NO := Parameter(27)
  const VLAN_NO := Parameter(28)
  const PVID_NO := Parameter(29)
  const ADD_DEL_NO := Parameter(30)
  const ADD_DEL_MAC := Parameter(31)
  const AGGR_NO := Parameter(32)

  /** The names in `keyword[]`; length and first two letters already tell the keywords apart. */
  function Name(j: nat): (s: string)
    requires j < KEYWORD_COUNT
    ensures |s| > 2 && IndexOfName(s) == j && s[2] != ':'
  {
    match j
    case 0 => "help"
    case 1 => "show"
    case 2 => "port"
    case 3 => "enable"
    case 4 => "disable"
    case 5 => "statistics"
    case 6 => "clear"
    case 7 => "learning"
    case 8 => "auto"
    case 9 => "vlan"
    case 10 => "fdb"
    case 11 => "add"
    case 12 => "del"
    case 13 => "flush"
    case 14 => "pvid"
    case 15 => "untagged"
    case 16 => "all"
    case 17 => "none"
    case 18 => "egress"
    case 19 => "tag"
    case 20 => "classified"
    case 21 => "shared"
    case 22 => "private"
    case 23 => "ingress"
    case 24 => "filtering"
    case _ => "aggr"
  }

  function IndexOfName(s: string): int {
    if |s| < 3 then -1
    else
      match |s|
      case 3 =>
        if s[0] == 'f' && s[1] == 'd' then 10 else if s[0] == 'a' && s[1] == 'd' then 11
        else if s[0] == 'd' && s[1] == 'e' then 12 else if s[0] == 'a' && s[1] == 'l' then 16
        else if s[0] == 't' && s[1] == 'a' then 19 else -1
      case 4 =>
        if s[0] == 'h' && s[1] == 'e' then 0 else if s[0] == 's' && s[1] == 'h' then 1
        else if s[0] == 'p' && s[1] == 'o' then 2 else if s[0] == 'a' && s[1] == 'u' then 8
        else if s[0] == 'v' && s[1] == 'l' then 9 else if s[0] == 'p' && s[1] == 'v' then 14
        else if s[0] == 'n' && s[1] == 'o' then 17 else if s[0] == 'a' && s[1] == 'g' then 25 else -1
      case 5 => if s[0] == 'c' && s[1] == 'l' then 6 else if s[0] == 'f' && s[1] == 'l' then 13 else -1
      case 6 =>
        if s[0] == 'e' && s[1] == 'n' then 3 else if s[0] == 'e' && s[1] == 'g' then 18
        else if s[0] == 's' && s[1] == 'h' then 21 else -1
      case 7 =>
        if s[0] == 'd' && s[1] == 'i' then 4 else if s[0] == 'p' && s[1] == 'r' then 22
        else if s[0] == 'i' && s[1] == 'n' then 23 else -1
      case 8 => if s[0] == 'l' && s[1] == 'e' then 7 else if s[0] == 'u' && s[1] == 'n' then 15 else -1
      case 9 => if s[0] == 'f' && s[1] == 'i' then 24 else -1
      case 10 => if s[0] == 's' && s[1] == 't' then 5 else if s[0] == 'c' && s[1] == 'l' then 20 else -1
      case _ => -1
  }

  // ---------------------------------------------------------------- the command table

  const ROWS: nat := 51

  /** The keywords of a command; none has more than three. */
  datatype Pattern = One(a: Key) | Two(a: Key, b: Key) | Three(a: Key, b: Key, c: Key) {

    function Keys(): seq<Key> {
      match this
      case One(a) => [a]
      case Two(a, b) => [a, b]
      case Three(a, b, c) => [a, b, c]
    }
  }

  /** The table `ethsw_cmd_def[]`. */
  function Row(i: nat): (p: Pattern)
    requires i < ROWS
    ensures GoodRow(p) && RowOf(p) == i
  {
    match i
    case 0 => One(ENABLE)
    case 1 => One(DISABLE)
    case 2 => One(SHOW)
    case 3 => Two(STATISTICS, HELP)
    case 4 => One(STATISTICS)
    case 5 => Two(STATISTICS, CLEAR)
    case 6 => One(LEARNING)
    case 7 => Two(LEARNING, HELP)
    case 8 => Two(LEARNING, SHOW)
    case 9 => Two(LEARNING, AUTO)
    case 10 => Two(LEARNING, DISABLE)
    case 11 => One(FDB)
    case 12 => Two(FDB, HELP)
    case 13 => Two(FDB, SHOW)
    case 14 => Two(FDB, FLUSH)
    case 15 => Three(FDB, ADD, ADD_DEL_MAC)
    case 16 => Three(FDB, DEL, ADD_DEL_MAC)
    case 17 => One(PVID)
    case 18 => Two(PVID, HELP)
    case 19 => Two(PVID, SHOW)
    case 20 => Two(PVID, PVID_NO)
    case 21 => One(VLAN)
    case 22 => Two(VLAN, HELP)
    case 23 => Two(VLAN, SHOW)
    case 24 => Three(VLAN, ADD, ADD_DEL_NO)
    case 25 => Three(VLAN, DEL, ADD_DEL_NO)
    case 26 => One(UNTAGGED)
    case 27 => Two(UNTAGGED, HELP)
    case 28 => Two(UNTAGGED, SHOW)
    case 29 => Two(UNTAGGED, ALL)
    case 30 => Two(UNTAGGED, NONE)
    case 31 => Two(UNTAGGED, PVID)
    case 32 => Two(EGRESS, TAG)
    case 33 => Three(EGRESS, TAG, HELP)
    case 34 => Three(EGRESS, TAG, SHOW)
    case 35 => Three(EGRESS, TAG, PVID)
    case 36 => Three(EGRESS, TAG, CLASSIFIED)
    case 37 => Two(VLAN, FDB)
    case 38 => Three(VLAN, FDB, HELP)
    case 39 => Three(VLAN, FDB, SHOW)
    case 40 => Three(VLAN, FDB, SHARED)
    case 41 => Three(VLAN, FDB, PRIVATE)
    case 42 => Two(INGRESS, FILTERING)
    case 43 => Three(INGRESS, FILTERING, HELP)
    case 44 => Three(INGRESS, FILTERING, SHOW)
    case 45 => Three(INGRESS, FILTERING, ENABLE)
    case 46 => Three(INGRESS, FILTERING, DISABLE)
    case 47 => One(AGGR)
    case 48 => Two(AGGR, HELP)
    case 49 => Two(AGGR, SHOW)
    case _ => Two(AGGR, AGGR_NO)
  }

  /** Rows whose function comes with the table: they print help. The others wait for the switch driver. */
  predicate PrintsHelp(i: nat) {
    i in {3, 6, 7, 11, 12, 17, 18, 21, 22, 26, 27, 32, 33, 37, 38, 42, 43, 47, 48}
  }

  /** The table `cmd_opt_def[]`. */
  function Prefix(i: nat): seq<Key>
    requires i < 3
  {
    match i
    case 0 => [PORT, PORT_NO]
    case 1 => [VLAN, VLAN_NO]
    case _ => [PORT, PORT_NO, VLAN, VLAN_NO]
  }

  /** The row with these keywords: the inverse of the table, so no two rows are the same. */
  function RowOf(p: Pattern): int {
    if p.a == ENABLE then
      (if p.One? then 0 else -1)
    else if p.a == DISABLE then
      (if p.One? then 1 else -1)
    else if p.a == SHOW then
      (if p.One? then 2 else -1)
    else if p.a == STATISTICS then
      (if p.Two? && p.b == HELP then 3
       else if p.One? then 4
       else if p.Two? && p.b == CLEAR then 5 else -1)
    else if p.a == LEARNING then
      (if p.One? then 6
       else if p.Two? && p.b == HELP then 7
       else if p.Two? && p.b == SHOW then 8
       else if p.Two? && p.b == AUTO then 9
       else if p.Two? && p.b == DISABLE then 10 else -1)
    else if p.a == FDB then
      (if p.One? then 11
       else if p.Two? && p.b == HELP then 12
       else if p.Two? && p.b == SHOW then 13
       else if p.Two? && p.b == FLUSH then 14
       else if p.Three? && p.b == ADD && p.c == ADD_DEL_MAC then 15
       else if p.Three? && p.b == DEL && p.c == ADD_DEL_MAC then 16 else -1)
    else if p.a == PVID then
      (if p.One? then 17
       else if p.Two? && p.b == HELP then 18
       else if p.Two? && p.b == SHOW then 19
       else if p.Two? && p.b == PVID_NO then 20 else -1)
    else if p.a == VLAN then
      (if p.One? then 21
       else if p.Two? && p.b == HELP then 22
       else if p.Two? && p.b == SHOW then 23
       else if p.Three? && p.b == ADD && p.c == ADD_DEL_NO then 24
       else if p.Three? && p.b == DEL && p.c == ADD_DEL_NO then 25
       else if p.Two? && p.b == FDB then 37
       else if p.Three? && p.b == FDB && p.c == HELP then 38
       else if p.Three? && p.b == FDB && p.c == SHOW then 39
       else if p.Three? && p.b == FDB && p.c == SHARED then 40
       else if p.Three? && p.b == FDB && p.c == PRIVATE then 41 else -1)
    else if p.a == UNTAGGED then
      (if p.One? then 26
       else if p.Two? && p.b == HELP then 27
       else if p.Two? && p.b == SHOW then 28
       else if p.Two? && p.b == ALL then 29
       else if p.Two? && p.b == NONE then 30
       else if p.Two? && p.b == PVID then 31 else -1)
    else if p.a == EGRESS then
      (if p.Two? && p.b == TAG then 32
       else if p.Three? && p.b == TAG && p.c == HELP then 33
       else if p.Three? && p.b == TAG && p.c == SHOW then 34
       else if p.Three? && p.b == TAG && p.c == PVID then 35
       else if p.Three? && p.b == TAG && p.c == CLASSIFIED then 36 else -1)
    else if p.a == INGRESS then
      (if p.Two? && p.b == FILTERING then 42
       else if p.Three? && p.b == FILTERING && p.c == HELP then 43
       else if p.Three? && p.b == FILTERING && p.c == SHOW then 44
       else if p.Three? && p.b == FILTERING && p.c == ENABLE then 45
       else if p.Three? && p.b == FILTERING && p.c == DISABLE then 46 else -1)
    else if p.a == AGGR then
      (if p.One? then 47
       else if p.Two? && p.b == HELP then 48
       else if p.Two? && p.b == SHOW then 49
       else if p.Two? && p.b == AGGR_NO then 50 else -1)
    else -1
  }

  /** What the parser relies on in every row. */
  predicate GoodRow(p: Pattern) {
    && p.a.Keyword? && p.a != PORT
    && match p
       case One(a) => true
       case Two(a, b) => b.Keyword? || (a == PVID && b == PVID_NO) || (a == AGGR && b == AGGR_NO)
       case Three(a, b, c) =>
         && b.Keyword?
         && (|| c.Keyword?
             || (a == VLAN && (b == ADD || b == DEL) && c == ADD_DEL_NO)
             || (a == FDB && (b == ADD || b == DEL) && c == ADD_DEL_MAC))
  }

  /** Every parameter stands behind the keyword that takes it. */
  predicate Introduced(ks: seq<Key>) {
    forall k | 0 <= k < |ks| :: TakenAt(ks, k)
  }

  predicate TakenAt(ks: seq<Key>, k: nat)
    requires k < |ks|
  {
    ks[k].Parameter? ==>
      && k > 0
      && (|| (ks[k] == PORT_NO && ks[k - 1] == PORT)
          || (ks[k] == VLAN_NO && ks[k - 1] == VLAN)
          || (ks[k] == PVID_NO && ks[k - 1] == PVID)
          || (ks[k] == AGGR_NO && ks[k - 1] == AGGR)
          || (ks[k] == ADD_DEL_NO && k > 1 && (ks[k - 1] == ADD || ks[k - 1] == DEL) && ks[k - 2] == VLAN)
          || (ks[k] == ADD_DEL_MAC && (ks[k - 1] == ADD || ks[k - 1] == DEL)))
  }
}
