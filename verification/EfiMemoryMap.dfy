/**
  `efi_build_mem_table`: copies an EFI memory map (section 7.2 of the UEFI
  Specification), sorts it by address and compacts it in place.
 */
module EfiMemoryMap {

  const EFI_LOADER_CODE := 1
  const EFI_LOADER_DATA := 2
  const EFI_BOOT_SERVICES_CODE := 3
  const EFI_BOOT_SERVICES_DATA := 4
  const EFI_CONVENTIONAL_MEMORY := 7
  const EFI_TABLE_END := 16

  datatype Desc = Desc(typ: nat, phys: nat, virt: nat, pages: nat, attr: nat)

  // ---------------------------------------------------------------- the comparator

  /** A 64-bit pattern read as a signed number. */
  function Signed64(x: int): int
    requires 0 <= x < 0x1_0000_0000_0000_0000
  {
    if x < 0x8000_0000_0000_0000 then x else x - 0x1_0000_0000_0000_0000
  }

  function HCmpEntry(a: Desc, b: Desc): int {
    var diff := Signed64((a.phys - b.phys) % 0x1_0000_0000_0000_0000);
    if diff < 0 then -1 else if diff > 0 then 1 else 0
  }

  /** The sign of the 64-bit difference is the order of the addresses exactly when they are less than 2^63 apart. */
  lemma CmpIsAddressOrder(a: Desc, b: Desc)
    requires a.phys < 0x1_0000_0000_0000_0000 && b.phys < 0x1_0000_0000_0000_0000
    ensures (HCmpEntry(a, b) == if a.phys < b.phys then -1 else if a.phys > b.phys then 1 else 0)
            <==> -0x8000_0000_0000_0000 <= a.phys - b.phys < 0x8000_0000_0000_0000
  {
    var d := a.phys - b.phys;
    assert d % 0x1_0000_0000_0000_0000 == if d < 0 then d + 0x1_0000_0000_0000_0000 else d;
  }

  /** A region that ends below 2^64. */
  predicate Placed(d: Desc) {
    d.phys + d.pages * 4096 < 0x1_0000_0000_0000_0000
  }

  /** Regions whose addresses the comparator puts in order. */
  predicate Near(d: Desc, e: Desc) {
    -0x8000_0000_0000_0000 <= d.phys - e.phys < 0x8000_0000_0000_0000
  }

  ghost predicate AllNear(s: seq<Desc>) {
    forall d, e | d in s && e in s :: Near(d, e)
  }

  predicate AllPlaced(s: seq<Desc>) {
    forall k | 0 <= k < |s| :: Placed(s[k])
  }

  predicate InOrder(s: seq<Desc>, i: nat, j: nat)
    requires i < |s| && j < |s|
  {
    s[i].phys <= s[j].phys
  }

  predicate SortedUpto(s: seq<Desc>, n: nat) {
    n <= |s| && forall i, j | 0 <= i < j < n :: InOrder(s, i, j)
  }

  predicate Sorted(s: seq<Desc>) {
    SortedUpto(s, |s|)
  }

  // ---------------------------------------------------------------- qsort

  /** `s` and `t` hold the same descriptors. */
  ghost predicate Perm(s: seq<Desc>, t: seq<Desc>) {
    multiset(s) == multiset(t)
  }

  lemma PermPlaced(s: seq<Desc>, t: seq<Desc>)
    requires Perm(s, t) && AllPlaced(s)
    ensures AllPlaced(t) && |s| == |t|
  {
    forall k | 0 <= k < |t| ensures Placed(t[k]) {
      assert t[k] in multiset(s);
    }
    assert |multiset(s)| == |s| && |multiset(t)| == |t|;
  }

  lemma PermNear(s: seq<Desc>, t: seq<Desc>)
    requires Perm(s, t) && AllNear(s)
    ensures AllNear(t)
  {
    forall d, e | d in t && e in t ensures Near(d, e) {
      assert d in multiset(s) && e in multiset(s);
    }
  }

  function Swapped(s: seq<Desc>, i: nat, j: nat): seq<Desc>
    requires i < |s| && j < |s|
  {
    s[i := s[j]][j := s[i]]
  }

  /** Swaps two descriptors (byte by byte in the original). */
  method Swap(a: array<Desc>, n: nat, i: nat, j: nat)
    requires i < j < n <= a.Length
    modifies a
    ensures a[..n] == Swapped(old(a[..n]), i, j)
    ensures Perm(a[..n], old(a[..n]))
  {
    ghost var s := a[..n];
    a[i], a[j] := a[j], a[i];
    assert a[..n] == Swapped(s, i, j);
  }

  /** Sorted up to `i`, but for the descriptor at `pos`, which may still be too far right. */
  ghost predicate Sinking(s: seq<Desc>, i: nat, pos: nat) {
    pos <= i < |s| && forall p, q | 0 <= p < q <= i && q != pos :: InOrder(s, p, q)
  }

  lemma SinkingStep(s: seq<Desc>, i: nat, j: nat)
    requires 0 < j && Sinking(s, i, j) && s[j - 1].phys > s[j].phys
    ensures Sinking(Swapped(s, j - 1, j), i, j - 1)
  {
    var t := Swapped(s, j - 1, j);
    forall p, q | 0 <= p < q <= i && q != j - 1 ensures InOrder(t, p, q) {
      // where the descriptors at p and q were before the swap
      var p', q' := if p == j then j - 1 else if p == j - 1 then j else p, if q == j then j - 1 else q;
      if p' < q' { assert InOrder(s, p', q'); }
    }
  }

  lemma SinkingDone(s: seq<Desc>, i: nat, j: nat)
    requires Sinking(s, i, j) && (j == 0 || s[j - 1].phys <= s[j].phys)
    ensures SortedUpto(s, i + 1)
  {
    forall p, q | 0 <= p < q < i + 1 ensures InOrder(s, p, q) {
      if q == j && p < j - 1 { assert InOrder(s, p, j - 1); }
    }
  }

  /** Compares the descriptors at `j` and `j + gap` and swaps them if they are out of order. */
  method CompareAndSwap(a: array<Desc>, n: nat, gap: nat, j: nat) returns (swapped: bool)
    requires 0 < gap && j + gap < n <= a.Length && AllPlaced(a[..n])
    modifies a
    ensures AllNear(old(a[..n])) ==> swapped == (old(a[j]).phys > old(a[j + gap]).phys)
    ensures a[..n] == if swapped then Swapped(old(a[..n]), j, j + gap) else old(a[..n])
    ensures Perm(a[..n], old(a[..n])) && AllPlaced(a[..n])
  {
    ghost var s := a[..n];
    assert Placed(s[j]) && Placed(s[j + gap]);
    assert AllNear(s) ==> Near(s[j], s[j + gap]);
    CmpIsAddressOrder(a[j], a[j + gap]);
    if HCmpEntry(a[j], a[j + gap]) <= 0 {
      return false;
    }
    Swap(a, n, j, j + gap);
    PermPlaced(s, a[..n]);
    return true;
  }

  /** Sinks the descriptor at `i` in steps of `gap`. */
  method Sink(a: array<Desc>, n: nat, gap: nat, i: nat)
    requires 0 < gap <= i < n <= a.Length && AllPlaced(a[..n])
    modifies a
    ensures Perm(a[..n], old(a[..n])) && AllPlaced(a[..n])
    ensures gap == 1 && AllNear(a[..n]) && SortedUpto(old(a[..n]), i) ==> SortedUpto(a[..n], i + 1)
  {
    var j: nat := i;
    ghost var s := a[..n];
    ghost var sorts := gap == 1 && AllNear(s) && SortedUpto(s, i);
    while j >= gap
      invariant j <= i && s == a[..n]
      invariant Perm(s, old(a[..n])) && AllPlaced(s)
      invariant sorts ==> AllNear(s) && Sinking(s, i, j)
      decreases j
    {
      j := j - gap;
      if sorts && s[j].phys > s[j + 1].phys { SinkingStep(s, i, j + 1); }
      var swapped := CompareAndSwap(a, n, gap, j);
      if sorts { PermNear(s, a[..n]); }
      if !swapped {
        SinkEnds(old(a[..n]), s, sorts, gap, i, j + 1);
        return;
      }
      s := a[..n];
    }
    SinkEnds(old(a[..n]), s, sorts, gap, i, 0);
  }

  lemma SinkEnds(s0: seq<Desc>, s: seq<Desc>, sorts: bool, gap: nat, i: nat, j: nat)
    requires Perm(s, s0) && (sorts <==> gap == 1 && AllNear(s0) && SortedUpto(s0, i))
    requires sorts ==> Sinking(s, i, j) && (j == 0 || s[j - 1].phys <= s[j].phys)
    ensures gap == 1 && AllNear(s) && SortedUpto(s0, i) ==> SortedUpto(s, i + 1)
  {
    if gap == 1 && AllNear(s) && SortedUpto(s0, i) {
      PermNear(s, s0);
      SinkingDone(s, i, j);
    }
  }

  /** One pass over the array with a fixed gap; the last pass, with gap 1, sorts it. */
  method GapPass(a: array<Desc>, n: nat, gap: nat)
    requires 0 < gap < n <= a.Length && AllPlaced(a[..n])
    modifies a
    ensures Perm(a[..n], old(a[..n])) && AllPlaced(a[..n])
    ensures gap == 1 && AllNear(a[..n]) ==> Sorted(a[..n])
  {
    var i := gap;
    while i < n
      invariant gap <= i <= n
      invariant Perm(a[..n], old(a[..n])) && AllPlaced(a[..n])
      invariant gap == 1 && AllNear(a[..n]) ==> SortedUpto(a[..n], i)
    {
      ghost var before := a[..n];
      Sink(a, n, gap, i);
      if AllNear(a[..n]) { PermNear(a[..n], before); }
      i := i + 1;
    }
  }

  /** A gap of the sequence 1, 4, 13, 40, ... */
  predicate ShellGap(g: nat) {
    g == 1 || (g > 1 && g % 3 == 1 && ShellGap(g / 3))
  }

  lemma NextGap(g: nat)
    requires ShellGap(g)
    ensures 0 <= (g - 1) / 3 < g && ShellGap(3 * g + 1)
    ensures (g - 1) / 3 == 0 <==> g == 1
    ensures g > 1 ==> ShellGap((g - 1) / 3)
  {
    assert (3 * g + 1) / 3 == g;
    if g > 1 { assert (g - 1) / 3 == g / 3; }
  }

  method FirstGap(n: nat) returns (gap: nat)
    requires n > 1
    ensures 0 < gap < n && ShellGap(gap)
  {
    gap := 1;
    while gap < (n - 1) / 3
      invariant 0 < gap < n && ShellGap(gap)
      decreases n - gap
    {
      NextGap(gap);
      gap := 3 * gap + 1;
    }
  }

  /** `qsort`, a shell sort, with the comparator above. */
  method Qsort(a: array<Desc>, n: nat)
    requires n <= a.Length && AllPlaced(a[..n])
    modifies a
    ensures Perm(a[..n], old(a[..n])) && AllPlaced(a[..n])
    ensures AllNear(a[..n]) ==> Sorted(a[..n])
  {
    if n <= 1 {
      return;
    }
    var gap := FirstGap(n);
    while gap > 0
      invariant 0 <= gap < n && (gap > 0 ==> ShellGap(gap))
      invariant Perm(a[..n], old(a[..n])) && AllPlaced(a[..n])
      invariant gap == 0 && AllNear(a[..n]) ==> Sorted(a[..n])
    {
      NextGap(gap);
      GapPass(a, n, gap);
      gap := (gap - 1) / 3;
    }
  }

  // ---------------------------------------------------------------- compaction

  predicate IsBootServices(typ: nat) {
    || typ == EFI_LOADER_CODE || typ == EFI_LOADER_DATA
    || typ == EFI_BOOT_SERVICES_CODE || typ == EFI_BOOT_SERVICES_DATA
  }

  /** The type an entry is shown with. */
  function ShownType(d: Desc, skipBs: bool): nat {
    if skipBs && IsBootServices(d.typ) then EFI_CONVENTIONAL_MEMORY else d.typ
  }

  /** A 64-bit result. */
  function Wrap64(x: nat): nat {
    if x < 0x1_0000_0000_0000_0000 then x else x % 0x1_0000_0000_0000_0000
  }

  function EndAddr(d: Desc): nat {
    Wrap64(d.phys + d.pages * 4096)
  }

  predicate Merges(out: seq<Desc>, addr: nat, d: Desc, skipBs: bool) {
    && skipBs && out != [] && d.phys == addr
    && ShownType(d, skipBs) == EFI_CONVENTIONAL_MEMORY
    && out[|out| - 1].typ == EFI_CONVENTIONAL_MEMORY
  }

  /** The table after descriptor `d`, where `addr` is the end of the descriptor before it. */
  function Absorb(out: seq<Desc>, addr: nat, d: Desc, skipBs: bool): seq<Desc> {
    if Merges(out, addr, d, skipBs) then
      var last := out[|out| - 1];
      out[|out| - 1 := last.(pages := Wrap64(last.pages + d.pages))]
    else out + [d.(typ := ShownType(d, skipBs))]
  }

  /** The end address the loop remembers when it comes to descriptor `k`. */
  function AddrAt(s: seq<Desc>, k: nat): nat
    requires k <= |s|
  {
    if k == 0 then 0 else EndAddr(s[k - 1])
  }

  /** The table of the first `k` descriptors. */
  function Table(s: seq<Desc>, k: nat, skipBs: bool): seq<Desc>
    requires k <= |s|
  {
    if k == 0 then []
    else Absorb(Table(s, k - 1, skipBs), AddrAt(s, k - 1), s[k - 1], skipBs)
  }

  /** The real end of a region, without the wrap of 64-bit arithmetic. */
  function RealEnd(d: Desc): nat {
    d.phys + d.pages * 4096
  }

  /** No two neighbours are free and touch. */
  predicate Maximal(out: seq<Desc>) {
    forall k | 0 < k < |out| ::
      !(&& out[k - 1].typ == EFI_CONVENTIONAL_MEMORY && out[k].typ == EFI_CONVENTIONAL_MEMORY
        && RealEnd(out[k - 1]) == out[k].phys)
  }

  /** What every step of the compaction keeps. */
  ghost predicate TableOk(s: seq<Desc>, k: nat, skipBs: bool, out: seq<Desc>)
    requires k <= |s|
  {
    && |out| <= k && (k > 0 ==> out != []) && AllPlaced(out) && (Sorted(s) ==> Sorted(out))
    && (k > 0 ==> RealEnd(out[|out| - 1]) == RealEnd(s[k - 1]) && out[|out| - 1].phys <= s[k - 1].phys)
    && (skipBs ==> Maximal(out))
    && (!skipBs ==> out == s[..k])
  }

  lemma AbsorbOk(s: seq<Desc>, k: nat, skipBs: bool, out: seq<Desc>)
    requires k < |s| && AllPlaced(s) && TableOk(s, k, skipBs, out)
    ensures TableOk(s, k + 1, skipBs, Absorb(out, AddrAt(s, k), s[k], skipBs))
  {
    var d := s[k];
    assert Placed(d);
    if k > 0 {
      assert Placed(s[k - 1]) && (Sorted(s) ==> InOrder(s, k - 1, k));
      assert EndAddr(s[k - 1]) == RealEnd(s[k - 1]);
    }
    var out' := Absorb(out, AddrAt(s, k), d, skipBs);
    if Sorted(s) {
      forall i, j | 0 <= i < j < |out'| ensures InOrder(out', i, j) {
        if i < |out| - 1 { assert InOrder(out, i, |out| - 1); }
        if j < |out| { assert InOrder(out, i, j); }
      }
    }
    if !skipBs { assert s[..k + 1] == s[..k] + [d]; }
  }

  lemma {:induction false} TableIsOk(s: seq<Desc>, k: nat, skipBs: bool)
    requires k <= |s| && AllPlaced(s)
    ensures TableOk(s, k, skipBs, Table(s, k, skipBs))
  {
    if k > 0 {
      TableIsOk(s, k - 1, skipBs);
      AbsorbOk(s, k - 1, skipBs, Table(s, k - 1, skipBs));
    }
  }

  /** The remembered address is where the last entry of the table really ends. */
  lemma AddrIsRealEnd(s: seq<Desc>, k: nat, skipBs: bool)
    requires k <= |s| && AllPlaced(s)
    ensures var out := Table(s, k, skipBs);
            AllPlaced(out) && (out != [] ==> k > 0 && RealEnd(out[|out| - 1]) == AddrAt(s, k))
  {
    TableIsOk(s, k, skipBs);
    if k > 0 { assert Placed(s[k - 1]); }
  }

  predicate Inside(d: Desc, x: int) {
    d.phys <= x < RealEnd(d)
  }

  /** Address `x` has type `t` in the table. */
  ghost predicate HasType(out: seq<Desc>, x: int, t: nat) {
    exists i :: 0 <= i < |out| && Inside(out[i], x) && out[i].typ == t
  }

  /** Address `x` is shown with type `t` when the map is the first `k` descriptors of `s`. */
  ghost predicate IsShown(s: seq<Desc>, k: nat, skipBs: bool, x: int, t: nat)
    requires k <= |s|
  {
    exists i :: 0 <= i < k && Inside(s[i], x) && ShownType(s[i], skipBs) == t
  }

  /** A merged entry covers what the two entries covered. */
  lemma AbsorbKeepsTypes(out: seq<Desc>, addr: nat, d: Desc, skipBs: bool, x: int, t: nat)
    requires AllPlaced(out) && Placed(d) && (out != [] && addr == d.phys ==> RealEnd(out[|out| - 1]) == addr)
    ensures HasType(Absorb(out, addr, d, skipBs), x, t) <==>
            HasType(out, x, t) || (Inside(d, x) && ShownType(d, skipBs) == t)
  {
    var out' := Absorb(out, addr, d, skipBs);
    if Merges(out, addr, d, skipBs) {
      var n := |out| - 1;
      assert Inside(out'[n], x) <==> Inside(out[n], x) || Inside(d, x);
      assert forall i | 0 <= i < n :: out'[i] == out[i];
    } else {
      assert forall i | 0 <= i < |out| :: out'[i] == out[i];
      assert Inside(out'[|out|], x) == Inside(d, x);
    }
  }

  lemma {:induction false} TableKeepsTypes(s: seq<Desc>, k: nat, skipBs: bool, x: int, t: nat)
    requires k <= |s| && AllPlaced(s)
    ensures HasType(Table(s, k, skipBs), x, t) <==> IsShown(s, k, skipBs, x, t)
  {
    if k > 0 {
      assert Placed(s[k - 1]);
      TableKeepsTypes(s, k - 1, skipBs, x, t);
      AddrIsRealEnd(s, k - 1, skipBs);
      AbsorbKeepsTypes(Table(s, k - 1, skipBs), AddrAt(s, k - 1), s[k - 1], skipBs, x, t);
    }
  }

  /** Pages of the first `k` descriptors. */
  function Pages(s: seq<Desc>, k: nat): nat
    requires k <= |s|
  {
    if k == 0 then 0 else Pages(s, k - 1) + s[k - 1].pages
  }

  function TotalPages(s: seq<Desc>): nat {
    Pages(s, |s|)
  }

  lemma {:induction false} PagesAgree(s: seq<Desc>, t: seq<Desc>, k: nat)
    requires k <= |s| && k <= |t| && forall i | 0 <= i < k :: s[i].pages == t[i].pages
    ensures Pages(s, k) == Pages(t, k)
  {
    if k > 0 { PagesAgree(s, t, k - 1); }
  }

  lemma AbsorbKeepsPages(out: seq<Desc>, addr: nat, d: Desc, skipBs: bool)
    requires AllPlaced(out) && Placed(d) && (out != [] && addr == d.phys ==> RealEnd(out[|out| - 1]) == addr)
    ensures TotalPages(Absorb(out, addr, d, skipBs)) == TotalPages(out) + d.pages
  {
    var out' := Absorb(out, addr, d, skipBs);
    if Merges(out, addr, d, skipBs) {
      PagesAgree(out, out', |out| - 1);
    } else {
      PagesAgree(out, out', |out|);
    }
  }

  lemma {:induction false} TableKeepsPages(s: seq<Desc>, k: nat, skipBs: bool)
    requires k <= |s| && AllPlaced(s)
    ensures TotalPages(Table(s, k, skipBs)) == Pages(s, k)
  {
    if k > 0 {
      TableKeepsPages(s, k - 1, skipBs);
      AddrIsRealEnd(s, k - 1, skipBs);
      AbsorbKeepsPages(Table(s, k - 1, skipBs), AddrAt(s, k - 1), s[k - 1], skipBs);
    }
  }

  lemma MultisetMiddle(u: seq<Desc>, x: Desc, v: seq<Desc>)
    ensures multiset(u + [x] + v) == multiset(u + v) + multiset{x}
  {
    assert multiset(u + [x] + v) == multiset(u + [x]) + multiset(v);
    assert multiset(u + v) == multiset(u) + multiset(v);
  }

  lemma MultisetCancel(a: multiset<Desc>, b: multiset<Desc>, x: Desc)
    requires a + multiset{x} == b + multiset{x}
    ensures a == b
  {
    assert a == (a + multiset{x}) - multiset{x};
    assert b == (b + multiset{x}) - multiset{x};
  }

  lemma PermRemove(s: seq<Desc>, t: seq<Desc>, i: nat)
    requires Perm(s, t) && s != [] && i < |t| && t[i] == s[|s| - 1]
    ensures Perm(s[..|s| - 1], t[..i] + t[i + 1..])
  {
    var s', u, v := s[..|s| - 1], t[..i], t[i + 1..];
    MultisetMiddle(s', t[i], []);
    MultisetMiddle(u, t[i], v);
    assert s == s' + [t[i]] + [] && s' + [] == s' && t == u + [t[i]] + v;
    MultisetCancel(multiset(s'), multiset(u + v), t[i]);
  }

  lemma {:induction false} PermKeepsPages(s: seq<Desc>, t: seq<Desc>)
    requires Perm(s, t)
    ensures TotalPages(s) == TotalPages(t)
    decreases |s|
  {
    if s == [] {
      assert |multiset(t)| == |t| == 0;
    } else {
      var d := s[|s| - 1];
      assert d in multiset(t);
      var i :| 0 <= i < |t| && t[i] == d;
      var s', t' := s[..|s| - 1], t[..i] + t[i + 1..];
      PermRemove(s, t, i);
      PermKeepsPages(s', t');
      PagesRemove(t, i, |t|);
      PagesAgree(s, s', |s| - 1);
    }
  }

  lemma {:induction false} PagesRemove(t: seq<Desc>, i: nat, k: nat)
    requires i < k <= |t|
    ensures Pages(t, k) == Pages(t[..i] + t[i + 1..], k - 1) + t[i].pages
  {
    var u := t[..i] + t[i + 1..];
    if i + 1 == k {
      PagesAgree(t, u, i);
    } else {
      PagesRemove(t, i, k - 1);
    }
  }

  // ---------------------------------------------------------------- the in-place loop

  /** A descriptor of the map with one of these types covers address `x`. */
  ghost predicate Covered(m: seq<Desc>, x: int, types: set<nat>) {
    exists d | d in m :: d.typ in types && d.phys <= x < d.phys + 4096 * d.pages
  }

  /**
    The types of all addresses. With boot services skipped, what is loader
    code (1), loader data (2), boot services code (3) and boot services data
    (4) is conventional memory (7); every other type is kept.
   */
  ghost predicate TypesKept(out: seq<Desc>, m: seq<Desc>, skipBs: bool) {
    if skipBs then
      && (forall x: int :: HasType(out, x, 7) <==> Covered(m, x, {1, 2, 3, 4, 7}))
      && (forall x: int, t: nat | t !in {1, 2, 3, 4, 7} :: HasType(out, x, t) <==> Covered(m, x, {t}))
      && (forall k | 0 <= k < |out| :: out[k].typ !in {1, 2, 3, 4})
    else
      forall x: int, t: nat :: HasType(out, x, t) <==> Covered(m, x, {t})
  }

  /** Entry `e` starts with descriptor `d`; one that is not conventional memory is the descriptor itself. */
  predicate StartsWith(e: Desc, d: Desc) {
    e.phys == d.phys && e.virt == d.virt && e.attr == d.attr && (e.typ != 7 ==> e == d)
  }

  ghost predicate HasHead(e: Desc, m: seq<Desc>) {
    exists d :: d in m && StartsWith(e, d)
  }

  ghost predicate HeadsKept(out: seq<Desc>, m: seq<Desc>) {
    forall k | 0 <= k < |out| :: HasHead(out[k], m)
  }

  /** No entry is mistaken for the end marker unless a descriptor was. */
  ghost predicate MarkerKept(out: seq<Desc>, m: seq<Desc>) {
    (forall d | d in m :: d.typ != EFI_TABLE_END) ==> forall k | 0 <= k < |out| :: out[k].typ != EFI_TABLE_END
  }

  /** What the caller may rely on: `out` is the table of the map `m`. */
  ghost predicate Describes(out: seq<Desc>, m: seq<Desc>, skipBs: bool) {
    && TypesKept(out, m, skipBs) && HeadsKept(out, m) && MarkerKept(out, m)
    && TotalPages(out) == TotalPages(m)
    && (AllNear(m) ==> Sorted(out))
    && (skipBs ==> Maximal(out))
    && (!skipBs ==> Perm(out, m))
  }

  lemma ShownIsCovered(m: seq<Desc>, skipBs: bool, x: int, t: nat)
    ensures !skipBs ==> (IsShown(m, |m|, skipBs, x, t) <==> Covered(m, x, {t}))
    ensures skipBs && t == 7 ==> (IsShown(m, |m|, skipBs, x, t) <==> Covered(m, x, {1, 2, 3, 4, 7}))
    ensures skipBs && t !in {1, 2, 3, 4, 7} ==> (IsShown(m, |m|, skipBs, x, t) <==> Covered(m, x, {t}))
  {
    var types := if skipBs && t == 7 then {1, 2, 3, 4, 7} else {t};
    if Covered(m, x, types) {
      var d :| d in m && d.typ in types && d.phys <= x < d.phys + 4096 * d.pages;
      var i :| 0 <= i < |m| && m[i] == d;
      assert Inside(m[i], x);
    }
    if IsShown(m, |m|, skipBs, x, t) {
      var i :| 0 <= i < |m| && Inside(m[i], x) && ShownType(m[i], skipBs) == t;
      assert m[i] in m;
    }
  }

  /** Every entry starts with a descriptor of the map, and none is left with a type of boot services. */
  lemma {:induction false} TableHeads(s: seq<Desc>, k: nat, skipBs: bool)
    requires k <= |s|
    ensures HeadsKept(Table(s, k, skipBs), s)
    ensures skipBs ==> forall i | 0 <= i < |Table(s, k, skipBs)| :: Table(s, k, skipBs)[i].typ !in {1, 2, 3, 4}
  {
    if k > 0 {
      TableHeads(s, k - 1, skipBs);
      var out, out', d := Table(s, k - 1, skipBs), Table(s, k, skipBs), s[k - 1];
      assert out' == Absorb(out, AddrAt(s, k - 1), d, skipBs);
      forall i | 0 <= i < |out'| ensures HasHead(out'[i], s) {
        if i == |out| {
          assert d in s && StartsWith(out'[i], d);
        } else {
          assert HasHead(out[i], s);
          var h :| h in s && StartsWith(out[i], h);
          assert StartsWith(out'[i], h);
        }
      }
    }
  }

  lemma HeadsPermuted(out: seq<Desc>, s: seq<Desc>, m: seq<Desc>)
    requires HeadsKept(out, s) && Perm(m, s)
    ensures HeadsKept(out, m)
  {
    forall k | 0 <= k < |out| ensures HasHead(out[k], m) {
      assert HasHead(out[k], s);
      var d :| d in s && StartsWith(out[k], d);
      assert d in multiset(m);
    }
  }

  lemma TypesOfTable(m: seq<Desc>, s: seq<Desc>, skipBs: bool)
    requires Perm(m, s) && AllPlaced(s)
    ensures TypesKept(Table(s, |s|, skipBs), m, skipBs)
  {
    forall x: int, t: nat
      ensures !skipBs ==> (HasType(Table(s, |s|, skipBs), x, t) <==> Covered(m, x, {t}))
      ensures skipBs && t == 7 ==> (HasType(Table(s, |s|, skipBs), x, t) <==> Covered(m, x, {1, 2, 3, 4, 7}))
      ensures skipBs && t !in {1, 2, 3, 4, 7} ==> (HasType(Table(s, |s|, skipBs), x, t) <==> Covered(m, x, {t}))
    {
      TableKeepsTypes(s, |s|, skipBs, x, t);
      if IsShown(m, |m|, skipBs, x, t) { PermShows(m, s, skipBs, x, t); }
      if IsShown(s, |s|, skipBs, x, t) { PermShows(s, m, skipBs, x, t); }
      ShownIsCovered(m, skipBs, x, t);
    }
    TableHeads(s, |s|, skipBs);
  }

  lemma {:induction false} NoEarlyMarker(s: seq<Desc>, k: nat, skipBs: bool)
    requires k <= |s| && forall i | 0 <= i < k :: s[i].typ != EFI_TABLE_END
    ensures forall i | 0 <= i < |Table(s, k, skipBs)| :: Table(s, k, skipBs)[i].typ != EFI_TABLE_END
  {
    if k > 0 { NoEarlyMarker(s, k - 1, skipBs); }
  }

  lemma MarkerOfTable(m: seq<Desc>, s: seq<Desc>, skipBs: bool)
    requires Perm(m, s)
    ensures MarkerKept(Table(s, |s|, skipBs), m)
  {
    if forall d | d in m :: d.typ != EFI_TABLE_END {
      forall i | 0 <= i < |s| ensures s[i].typ != EFI_TABLE_END { assert s[i] in multiset(m); }
      NoEarlyMarker(s, |s|, skipBs);
    }
  }

  lemma PermShows(m: seq<Desc>, s: seq<Desc>, skipBs: bool, x: int, t: nat)
    requires Perm(m, s) && IsShown(m, |m|, skipBs, x, t)
    ensures IsShown(s, |s|, skipBs, x, t)
  {
    var i :| 0 <= i < |m| && Inside(m[i], x) && ShownType(m[i], skipBs) == t;
    assert m[i] in multiset(s);
  }

  lemma TableDescribes(m: seq<Desc>, s: seq<Desc>, skipBs: bool)
    requires Perm(m, s) && AllPlaced(s) && (AllNear(s) ==> Sorted(s))
    ensures Describes(Table(s, |s|, skipBs), m, skipBs)
  {
    assert s[..|s|] == s;
    TypesOfTable(m, s, skipBs);
    TableHeads(s, |s|, skipBs);
    HeadsPermuted(Table(s, |s|, skipBs), s, m);
    if AllNear(m) { PermNear(m, s); }
    TableKeepsPages(s, |s|, skipBs);
    PermKeepsPages(m, s);
    TableIsOk(s, |s|, skipBs);
    MarkerOfTable(m, s, skipBs);
  }

  /** One turn of the compaction: descriptor `desc` is merged into entry `dest - 1` or becomes entry `dest`. */
  method Place(base: array<Desc>, desc: nat, dest: nat, addr: nat, skipBs: bool) returns (dest': nat)
    requires dest <= desc < base.Length
    modifies base
    ensures dest' <= desc + 1
    ensures base[..dest'] == Absorb(old(base[..dest]), addr, old(base[desc]), skipBs)
    ensures forall k | desc < k < base.Length :: base[k] == old(base[k])
  {
    ghost var out := base[..dest];
    var prev := dest - 1;
    var merge := true;
    var d := base[desc];
    var typ := d.typ;
    if skipBs && IsBootServices(d.typ) {
      typ := EFI_CONVENTIONAL_MEMORY;
    }
    base[dest] := d.(typ := typ);
    assert base[..dest] == out;
    if !skipBs || prev < 0 {
      merge := false;
    } else if d.phys != addr {
      merge := false;
    } else if typ != EFI_CONVENTIONAL_MEMORY {
      merge := false;
    } else if base[prev].typ != EFI_CONVENTIONAL_MEMORY {
      merge := false;
    }
    if merge {
      base[prev] := base[prev].(pages := Wrap64(base[prev].pages + d.pages));
      dest' := dest;
    } else {
      dest' := dest + 1;
    }
  }

  /**
    The compaction, in place: the table grows at the front of the array while
    the descriptors are read further back. The write cursor never passes the
    read cursor.
   */
  method Compact(base: array<Desc>, count: nat, skipBs: bool) returns (dest: nat)
    requires count < base.Length
    modifies base
    ensures dest <= count && base[..dest] == Table(old(base[..count]), count, skipBs)
  {
    ghost var s := base[..count];
    var addr := 0;
    dest := 0;
    for desc := 0 to count
      invariant dest <= desc
      invariant base[..dest] == Table(s, desc, skipBs)
      invariant forall k | desc <= k < count :: base[k] == s[k]
      invariant addr == AddrAt(s, desc)
    {
      // copying the descriptor down changes its type at most, never its extent
      var end := Wrap64(base[desc].phys + base[desc].pages * 4096);
      dest := Place(base, desc, dest, addr, skipBs);
      addr := end;
    }
  }

  /**
    `efi_build_mem_table`. The copy, the sort and the compaction share one
    array, with room for the end marker; `n` is where the marker stands.
   */
  method EfiBuildMemTable(m: seq<Desc>, skipBs: bool, memory: bool) returns (base: array?<Desc>, n: nat)
    requires AllPlaced(m)
    ensures base == null <==> !memory
    ensures base != null ==>
              && n <= |m| < base.Length && base[n].typ == EFI_TABLE_END
              && Describes(base[..n], m, skipBs)
  {
    if !memory {
      return null, 0;
    }
    var count := |m|;
    var table := new Desc[count + 1](i => if 0 <= i < count then m[i] else Desc(0, 0, 0, 0, 0));
    assert table[..count] == m;
    Qsort(table, count);
    ghost var s := table[..count];
    n := Compact(table, count, skipBs);
    ghost var out := table[..n];
    assert Describes(out, m, skipBs) by { TableDescribes(m, s, skipBs); }
    table[n] := table[n].(typ := EFI_TABLE_END);
    assert table[..n] == out;
    base := table;
  }

  const HEADER: nat := 16
  const DESC: nat := 40

  /**
    In bytes: the map has a header before its descriptors, whose size the map
    itself states. Every slot up to and including the end marker lies in the
    allocation of `size + sizeof(struct efi_mem_desc)` bytes.
   */
  lemma MarkerFits(size: nat, descSize: nat, slot: nat)
    requires HEADER <= size && DESC <= descSize && slot <= (size - HEADER) / descSize
    ensures slot * descSize + DESC <= size + DESC
    ensures slot < (size - HEADER) / descSize ==> slot * descSize + descSize <= size - HEADER
  {
    var count := (size - HEADER) / descSize;
    assert count * descSize <= size - HEADER;
    assert slot * descSize <= count * descSize;
    if slot < count { assert (slot + 1) * descSize <= count * descSize; }
  }
}
