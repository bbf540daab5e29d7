/**
  The ELF loaders of `bootelf`: one walks the program headers, one the section
  headers, each for 32-bit and 64-bit images (System V ABI, chapter 5, Program
  Loading). Image and targets lie in one memory.
 */
module ElfLoader {
  import opened Arithmetic
  import opened Bytes

  // ---------------------------------------------------------------- headers

  const EI_CLASS := 4
  const ELFCLASS64 := 2
  const EM_PPC64 := 21
  const SHT_NOBITS := 8

  function LittleEndian(b: seq<byte>): nat {
    if b == [] then 0 else b[0] + 256 * LittleEndian(b[1..])
  }

  /** The `n`-byte field at `at`, in the byte order of the machine; nothing is said outside the memory at hand. */
  function Field(m: seq<byte>, big: bool, at: nat, n: nat): nat {
    if at + n > |m| then 0 else if big then BigEndian(m[at..at + n]) else LittleEndian(m[at..at + n])
  }

  datatype Header = Header(wide: bool, machine: nat, flags: nat, entry: nat, phoff: nat, phnum: nat, shoff: nat,
                           shnum: nat)

  /** Bytes `dst .. dst + memsz` of memory: `filesz` bytes of the image from `offset` on, then zeros. */
  datatype Piece = Piece(dst: nat, offset: nat, filesz: nat, memsz: nat)

  datatype Section = Section(typ: nat, flags: nat, addr: nat, offset: nat, size: nat)

  /**
    How an image is read: its header, its program and section headers by
    number, and a doubleword of memory. The loaders are the same for all.
   */
  datatype Format = Format(
    header: seq<byte> -> Header,
    segment: (seq<byte>, nat) -> Piece,
    section: (seq<byte>, nat) -> Section,
    doubleword: (seq<byte>, nat) -> nat)

  /** The layout of elf.h, 32-bit and 64-bit, in either byte order. */
  function ElfFormat(big: bool): Format {
    Format(img => ReadHeader(img, big),
           (img, i: nat) => ReadPhdr(img, big, i),
           (img, i: nat) => ReadShdr(img, big, i),
           (m, a: nat) => Field(m, big, a, 8))
  }

  function ReadHeader(img: seq<byte>, big: bool): Header {
    if |img| > EI_CLASS && img[EI_CLASS] == ELFCLASS64 then
      Header(true, Field(img, big, 18, 2), Field(img, big, 48, 4), Field(img, big, 24, 8),
             Field(img, big, 32, 8), Field(img, big, 56, 2), Field(img, big, 40, 8), Field(img, big, 60, 2))
    else
      Header(false, Field(img, big, 18, 2), Field(img, big, 36, 4), Field(img, big, 24, 4),
             Field(img, big, 28, 4), Field(img, big, 44, 2), Field(img, big, 32, 4), Field(img, big, 48, 2))
  }

  function ReadPhdr(img: seq<byte>, big: bool, i: nat): Piece {
    var h := ReadHeader(img, big);
    if h.wide then
      var at := h.phoff + i * 56;
      Piece(Field(img, big, at + 24, 8), Field(img, big, at + 8, 8), Field(img, big, at + 32, 8),
            Field(img, big, at + 40, 8))
    else
      var at := h.phoff + i * 32;
      Piece(Field(img, big, at + 12, 4), Field(img, big, at + 4, 4), Field(img, big, at + 16, 4),
            Field(img, big, at + 20, 4))
  }

  function ReadShdr(img: seq<byte>, big: bool, i: nat): Section {
    var h := ReadHeader(img, big);
    if h.wide then
      var at := h.shoff + i * 64;
      Section(Field(img, big, at + 4, 4), Field(img, big, at + 8, 8), Field(img, big, at + 16, 8),
              Field(img, big, at + 24, 8), Field(img, big, at + 32, 8))
    else
      var at := h.shoff + i * 40;
      Section(Field(img, big, at + 4, 4), Field(img, big, at + 8, 4), Field(img, big, at + 12, 4),
              Field(img, big, at + 16, 4), Field(img, big, at + 20, 4))
  }

  /** Sections without the allocate flag, at address 0 or of no size are skipped. */
  predicate Loads(s: Section) {
    (s.flags / 2) % 2 == 1 && s.addr != 0 && s.size != 0
  }

  function SectionPiece(s: Section): Piece {
    Piece(s.addr, s.offset, if s.typ == SHT_NOBITS then 0 else s.size, s.size)
  }

  // ---------------------------------------------------------------- what loading means

  predicate Covers(p: Piece, a: int) {
    p.dst <= a < p.dst + p.memsz
  }

  /** The piece fits memory and image, and its target is apart from the image at `addr`. */
  predicate Placed(p: Piece, img: seq<byte>, addr: nat, limit: nat) {
    && p.filesz <= p.memsz && p.dst + p.memsz <= limit && p.offset + p.filesz <= |img|
    && (p.dst + p.memsz <= addr || addr + |img| <= p.dst)
  }

  predicate AllPlaced(ps: seq<Piece>, img: seq<byte>, addr: nat, limit: nat) {
    forall i | 0 <= i < |ps| :: Placed(ps[i], img, addr, limit)
  }

  predicate InImage(ps: seq<Piece>, img: seq<byte>) {
    forall i | 0 <= i < |ps| :: ps[i].offset + ps[i].filesz <= |img|
  }

  lemma PlacedInImage(ps: seq<Piece>, img: seq<byte>, addr: nat, limit: nat)
    requires AllPlaced(ps, img, addr, limit)
    ensures InImage(ps, img)
  {
    forall i | 0 <= i < |ps| ensures ps[i].offset + ps[i].filesz <= |img| { assert Placed(ps[i], img, addr, limit); }
  }

  /** File bytes, then zeros. */
  function PieceByte(img: seq<byte>, p: Piece, a: int): byte
    requires Covers(p, a) && p.offset + p.filesz <= |img|
  {
    if a < p.dst + p.filesz then img[p.offset + (a - p.dst)] else 0
  }

  /** Memory after the first `k` pieces: the last piece that covers an address decides, others leave it alone. */
  function ByteAfter(m: seq<byte>, img: seq<byte>, ps: seq<Piece>, k: nat, a: nat): byte
    requires a < |m| && k <= |ps| && InImage(ps, img)
  {
    if k == 0 then m[a]
    else if Covers(ps[k - 1], a) then PieceByte(img, ps[k - 1], a)
    else ByteAfter(m, img, ps, k - 1, a)
  }

  /** `m'` is `m` with the first `k` pieces loaded. */
  ghost predicate IsLoaded(m: seq<byte>, img: seq<byte>, ps: seq<Piece>, k: nat, m': seq<byte>)
    requires k <= |ps| && InImage(ps, img)
  {
    |m'| == |m| && forall a | 0 <= a < |m| :: m'[a] == ByteAfter(m, img, ps, k, a)
  }

  // ---------------------------------------------------------------- loading one piece

  /** `memcpy` and `memset` of one header; the image itself is not touched. */
  method LoadPiece(mem: array<byte>, addr: nat, p: Piece, ghost img: seq<byte>)
    requires addr + |img| <= mem.Length && mem[addr..addr + |img|] == img && Placed(p, img, addr, mem.Length)
    modifies mem
    ensures mem[addr..addr + |img|] == img
    ensures forall a | 0 <= a < mem.Length :: mem[a] == if Covers(p, a) then PieceByte(img, p, a) else old(mem[a])
  {
    var i := 0;
    while i < p.filesz
      invariant 0 <= i <= p.filesz
      invariant forall a | 0 <= a < mem.Length ::
                  mem[a] == if p.dst <= a < p.dst + i then img[p.offset + (a - p.dst)] else old(mem[a])
    {
      assert mem[addr + (p.offset + i)] == old(mem[addr..addr + |img|])[p.offset + i];
      mem[p.dst + i] := mem[addr + p.offset + i];
      i := i + 1;
    }
    while i < p.memsz
      invariant p.filesz <= i <= p.memsz
      invariant forall a | 0 <= a < mem.Length ::
                  mem[a] == if p.dst <= a < p.dst + p.filesz then img[p.offset + (a - p.dst)]
                            else if p.dst + p.filesz <= a < p.dst + i then 0 else old(mem[a])
    {
      mem[p.dst + i] := 0;
      i := i + 1;
    }
    assert mem[addr..addr + |img|] == img;
  }

  // ---------------------------------------------------------------- cache lines

  function RoundDown(x: nat, line: nat): nat
    requires line > 0
  {
    x - x % line
  }

  function RoundUp(x: nat, line: nat): (r: int)
    requires line > 0
  {
    (x + (line - 1)) / line * line
  }

  /** A range handed to `flush_cache`. */
  datatype Range = Range(start: int, end: int)

  predicate Contains(r: Range, p: Piece) {
    p.memsz == 0 || (r.start <= p.dst && p.dst + p.memsz <= r.end)
  }

  function SegmentFlush(p: Piece, line: nat): Range
    requires line > 0
  {
    Range(RoundDown(p.dst, line), RoundDown(p.dst, line) + RoundUp(p.memsz, line))
  }

  function SectionFlush(p: Piece, line: nat): Range
    requires line > 0
  {
    Range(RoundDown(p.dst, line), RoundDown(p.dst, line) + (RoundUp(p.dst + p.memsz, line) - RoundDown(p.dst, line)))
  }

  /** `RoundUp` is the least multiple of the line at or above `x`. */
  lemma RoundUpIsLeast(x: nat, line: nat)
    requires line > 0
    ensures x <= RoundUp(x, line) < x + line && RoundUp(x, line) % line == 0
    ensures RoundUp(x, line) == if x % line == 0 then x else x - x % line + line
  {
    var q, r := x / line, x % line;
    assert x == q * line + r;
    if r == 0 {
      DivModUnique(x + (line - 1), line, q, line - 1);
      ModZero(q, line);
    } else {
      assert (q + 1) * line == q * line + line;
      DivModUnique(x + (line - 1), line, q + 1, r - 1);
      ModZero(q + 1, line);
    }
  }

  lemma ModZero(q: int, line: nat)
    requires line > 0
    ensures (q * line) % line == 0
  {
    DivModUnique(q * line, line, q, 0);
  }

  /** A multiple of the line that is at most `x` is at most `x` rounded down. */
  lemma MultipleBelow(m: int, x: nat, line: nat)
    requires line > 0 && m % line == 0 && m <= x
    ensures m <= RoundDown(x, line)
  {
    var k, q, r := m / line, x / line, x % line;
    assert m == k * line && x == q * line + r && (q + 1) * line == q * line + line;
    MulLess(k, q + 1, line);
    MulMono(k, q, line);
  }

  lemma RoundDownIsMultiple(x: nat, line: nat)
    requires line > 0
    ensures RoundDown(x, line) % line == 0
  {
    var q, r := Split(x, line);
    ModZero(q, line);
  }

  /** The section loader flushes the smallest range of whole lines around the section. */
  lemma SectionFlushIsLeast(p: Piece, line: nat, r: Range)
    requires line > 0 && p.memsz > 0
    ensures var f := SectionFlush(p, line); Contains(f, p) && f.start % line == 0 && f.end % line == 0
    ensures r.start % line == 0 && r.end % line == 0 && Contains(r, p) ==>
              r.start <= SectionFlush(p, line).start && SectionFlush(p, line).end <= r.end
  {
    var end := p.dst + p.memsz;
    RoundUpIsLeast(end, line);
    RoundDownIsMultiple(p.dst, line);
    if r.start % line == 0 && r.end % line == 0 && Contains(r, p) {
      MultipleBelow(r.start, p.dst, line);
      EndIsLeast(r.end, end, line);
    }
  }

  lemma EndIsLeast(m: int, end: nat, line: nat)
    requires line > 0 && end > 0 && m % line == 0 && end <= m
    ensures RoundUp(end, line) <= m
  {
    RoundUpIsLeast(end, line);
    if m < RoundUp(end, line) {
      MultipleBelow(m, RoundUp(end, line) - 1, line);
      LastLine(end, line);
    }
  }

  /** Below the rounded-up end there is no multiple that covers the end. */
  lemma LastLine(end: nat, line: nat)
    requires line > 0 && end > 0
    ensures RoundDown(RoundUp(end, line) - 1, line) < end
  {
    RoundUpIsLeast(end, line);
    var m := RoundUp(end, line);
    var k := m / line;
    assert m == k * line;
    assert (k - 1) * line == k * line - line;
    DivModUnique(m - 1, line, k - 1, line - 1);
  }

  /**
    The program-header loader rounds start and length separately: it flushes
    the whole segment exactly when the bytes before it in its first line fit
    into the slack of the rounded length.
   */
  lemma SegmentFlushCovers(p: Piece, line: nat)
    requires line > 0 && p.memsz > 0
    ensures Contains(SegmentFlush(p, line), p) <==>
            p.dst % line == 0 || (p.memsz % line != 0 && p.dst % line + p.memsz % line <= line)
  {
    RoundUpIsLeast(p.memsz, line);
  }

  // ---------------------------------------------------------------- the two loaders

  /** Every program header, whatever its type. */
  function Segments(f: Format, img: seq<byte>): (ps: seq<Piece>)
    ensures |ps| == f.header(img).phnum
  {
    seq(f.header(img).phnum, i requires 0 <= i => f.segment(img, i))
  }

  /** The sections among the first `k` that the loader does not skip. */
  function SectionsUpto(f: Format, img: seq<byte>, k: nat): seq<Piece> {
    if k == 0 then []
    else
      var s := f.section(img, k - 1);
      SectionsUpto(f, img, k - 1) + if Loads(s) then [SectionPiece(s)] else []
  }

  function Sections(f: Format, img: seq<byte>): seq<Piece> {
    SectionsUpto(f, img, f.header(img).shnum)
  }

  /** On 64-bit PowerPC with the version 1 ABI the entry is a descriptor in memory. */
  function EntryPoint(f: Format, m: seq<byte>, h: Header): nat {
    if h.wide && h.machine == EM_PPC64 && h.flags % 2 == 1 then f.doubleword(m, h.entry) else h.entry
  }

  lemma LoadedMore(m: seq<byte>, img: seq<byte>, ps: seq<Piece>, k: nat, before: seq<byte>, after: seq<byte>)
    requires k < |ps| && InImage(ps, img) && IsLoaded(m, img, ps, k, before) && |after| == |before|
    requires forall a | 0 <= a < |m| :: after[a] == if Covers(ps[k], a) then PieceByte(img, ps[k], a) else before[a]
    ensures IsLoaded(m, img, ps, k + 1, after)
  {
  }

  /** The `k`-th piece of a list, on top of those before it. */
  method LoadNext(mem: array<byte>, addr: nat, p: Piece, ghost m: seq<byte>, ghost img: seq<byte>, ghost ps: seq<Piece>,
                  ghost k: nat)
    requires addr + |img| <= mem.Length && mem[addr..addr + |img|] == img
    requires k < |ps| && p == ps[k] && AllPlaced(ps, img, addr, mem.Length) && InImage(ps, img)
    requires IsLoaded(m, img, ps, k, mem[..])
    modifies mem
    ensures mem[addr..addr + |img|] == img && IsLoaded(m, img, ps, k + 1, mem[..])
  {
    ghost var before := mem[..];
    assert Placed(ps[k], img, addr, mem.Length);
    LoadPiece(mem, addr, p, img);
    LoadedMore(m, img, ps, k, before, mem[..]);
  }

  /** `load_elf_image_phdr` and its 64-bit twin. */
  method LoadElfImagePhdr(f: Format, mem: array<byte>, addr: nat, len: nat, line: nat)
    returns (entry: nat, flushed: seq<Range>)
    requires addr + len <= mem.Length && line > 0
    requires AllPlaced(Segments(f, mem[addr..addr + len]), mem[addr..addr + len], addr, mem.Length)
    modifies mem
    ensures var img := old(mem[addr..addr + len]);
            var ps := Segments(f, img);
            && InImage(ps, img) && IsLoaded(old(mem[..]), img, ps, |ps|, mem[..]) && mem[addr..addr + len] == img
            && entry == EntryPoint(f, mem[..], f.header(img))
            && |flushed| == |ps| && forall i | 0 <= i < |ps| :: flushed[i] == SegmentFlush(ps[i], line)
  {
    ghost var m, img := mem[..], mem[addr..addr + len];
    ghost var ps := Segments(f, img);
    PlacedInImage(ps, img, addr, mem.Length);
    var h := f.header(mem[addr..addr + len]);
    flushed := [];
    for i := 0 to h.phnum
      invariant mem[addr..addr + len] == img && |flushed| == i
      invariant IsLoaded(m, img, ps, i, mem[..])
      invariant forall j | 0 <= j < i :: flushed[j] == SegmentFlush(ps[j], line)
    {
      var p := f.segment(mem[addr..addr + len], i);
      LoadNext(mem, addr, p, m, img, ps, i);
      flushed := flushed + [SegmentFlush(p, line)];
    }
    entry := EntryPoint(f, mem[..], h);
  }

  /** `load_elf_image_shdr` and its 64-bit twin. */
  method LoadElfImageShdr(f: Format, mem: array<byte>, addr: nat, len: nat, line: nat)
    returns (entry: nat, flushed: seq<Range>)
    requires addr + len <= mem.Length && line > 0
    requires AllPlaced(Sections(f, mem[addr..addr + len]), mem[addr..addr + len], addr, mem.Length)
    modifies mem
    ensures var img := old(mem[addr..addr + len]);
            var ps := Sections(f, img);
            && InImage(ps, img) && IsLoaded(old(mem[..]), img, ps, |ps|, mem[..]) && mem[addr..addr + len] == img
            && entry == EntryPoint(f, mem[..], f.header(img))
            && |flushed| == |ps| && forall i | 0 <= i < |ps| :: flushed[i] == SectionFlush(ps[i], line)
  {
    ghost var m, img := mem[..], mem[addr..addr + len];
    ghost var ps := Sections(f, img);
    PlacedInImage(ps, img, addr, mem.Length);
    var h := f.header(mem[addr..addr + len]);
    flushed := [];
    for i := 0 to h.shnum
      invariant mem[addr..addr + len] == img && flushed == SectionFlushes(SectionsUpto(f, img, i), line)
      invariant SectionsUpto(f, img, i) <= ps
      invariant IsLoaded(m, img, ps, |flushed|, mem[..])
    {
      var s := f.section(mem[addr..addr + len], i);
      SectionsGrow(f, img, i + 1, h.shnum);
      if !Loads(s) {
        continue;
      }
      LoadNext(mem, addr, SectionPiece(s), m, img, ps, |flushed|);
      flushed := flushed + [SectionFlush(SectionPiece(s), line)];
    }
    entry := EntryPoint(f, mem[..], h);
  }

  function SectionFlushes(ps: seq<Piece>, line: nat): (rs: seq<Range>)
    requires line > 0
    ensures |rs| == |ps|
  {
    seq(|ps|, i requires 0 <= i < |ps| => SectionFlush(ps[i], line))
  }

  lemma {:induction false} SectionsGrow(f: Format, img: seq<byte>, k: nat, n: nat)
    requires k <= n
    ensures SectionsUpto(f, img, k) <= SectionsUpto(f, img, n)
    decreases n - k
  {
    if k < n { SectionsGrow(f, img, k, n - 1); }
  }

  // ---------------------------------------------------------------- both loaders agree

  predicate Apart(p: Piece, q: Piece) {
    p.dst + p.memsz <= q.dst || q.dst + q.memsz <= p.dst
  }

  /** `q` is part of `p`: file bytes at the same place of the file, zeros in the zero tail. */
  predicate PartOf(q: Piece, p: Piece) {
    && p.dst <= q.dst && q.dst + q.memsz <= p.dst + p.memsz
    && if q.filesz == 0 then p.dst + p.filesz <= q.dst
       else q.filesz == q.memsz && q.dst + q.filesz <= p.dst + p.filesz && q.offset - p.offset == q.dst - p.dst
  }

  /** The pieces `qs` tile the pieces `ps`, which are apart from each other. */
  ghost predicate Tiles(qs: seq<Piece>, ps: seq<Piece>) {
    && (forall i, j | 0 <= i < j < |ps| :: Apart(ps[i], ps[j]))
    && (forall j | 0 <= j < |qs| :: exists i :: 0 <= i < |ps| && PartOf(qs[j], ps[i]))
    && (forall i, a: int | 0 <= i < |ps| && Covers(ps[i], a) :: exists j :: 0 <= j < |qs| && Covers(qs[j], a))
  }

  /** If every piece that covers `a` has the same byte there, and one does cover it, that byte is loaded. */
  lemma {:induction false} AgreedByte(m: seq<byte>, img: seq<byte>, ps: seq<Piece>, k: nat, a: nat, v: byte)
    requires a < |m| && k <= |ps| && InImage(ps, img)
    requires forall i | 0 <= i < k && Covers(ps[i], a) :: PieceByte(img, ps[i], a) == v
    ensures ByteAfter(m, img, ps, k, a) == if exists i :: 0 <= i < k && Covers(ps[i], a) then v else m[a]
  {
    if k > 0 && !Covers(ps[k - 1], a) {
      AgreedByte(m, img, ps, k - 1, a, v);
      assert forall i | 0 <= i < k && Covers(ps[i], a) :: i < k - 1;
    }
  }

  /** The byte of a tile is the byte of the piece it is part of. */
  lemma PartHasByte(img: seq<byte>, q: Piece, p: Piece, a: int)
    requires PartOf(q, p) && Covers(q, a) && q.offset + q.filesz <= |img| && p.offset + p.filesz <= |img|
    ensures Covers(p, a) && PieceByte(img, q, a) == PieceByte(img, p, a)
  {
  }

  lemma TilesAgree(img: seq<byte>, ps: seq<Piece>, qs: seq<Piece>, i: nat, j: nat, a: int)
    requires Tiles(qs, ps) && InImage(ps, img) && InImage(qs, img)
    requires i < |ps| && j < |qs| && Covers(ps[i], a) && Covers(qs[j], a)
    ensures PieceByte(img, qs[j], a) == PieceByte(img, ps[i], a)
  {
    var i' :| 0 <= i' < |ps| && PartOf(qs[j], ps[i']);
    PartHasByte(img, qs[j], ps[i'], a);
    OnlyOneCovers(ps, i, i', a);
  }

  lemma OnlyOneCovers(ps: seq<Piece>, i: nat, j: nat, a: int)
    requires forall i, j | 0 <= i < j < |ps| :: Apart(ps[i], ps[j])
    requires i < |ps| && j < |ps| && Covers(ps[i], a) && Covers(ps[j], a)
    ensures i == j
  {
  }

  /** Whether segments or the sections that tile them are loaded, memory ends up the same. */
  lemma TilingLoadsTheSame(m: seq<byte>, img: seq<byte>, ps: seq<Piece>, qs: seq<Piece>, a: nat)
    requires InImage(ps, img) && InImage(qs, img) && Tiles(qs, ps) && a < |m|
    ensures ByteAfter(m, img, ps, |ps|, a) == ByteAfter(m, img, qs, |qs|, a)
  {
    if i :| 0 <= i < |ps| && Covers(ps[i], a) {
      var v := PieceByte(img, ps[i], a);
      forall j | 0 <= j < |ps| && Covers(ps[j], a) ensures PieceByte(img, ps[j], a) == v { OnlyOneCovers(ps, i, j, a); }
      forall j | 0 <= j < |qs| && Covers(qs[j], a) ensures PieceByte(img, qs[j], a) == v {
        TilesAgree(img, ps, qs, i, j, a);
      }
      AgreedByte(m, img, ps, |ps|, a, v);
      AgreedByte(m, img, qs, |qs|, a, v);
    } else {
      forall j | 0 <= j < |qs| ensures !Covers(qs[j], a) {
        if Covers(qs[j], a) {
          var i' :| 0 <= i' < |ps| && PartOf(qs[j], ps[i']);
          PartHasByte(img, qs[j], ps[i'], a);
        }
      }
      AgreedByte(m, img, ps, |ps|, a, 0);
      AgreedByte(m, img, qs, |qs|, a, 0);
    }
  }

  /**
    If the allocated sections of an image tile its segments, then after either
    loader the memory is the same and so is the entry point.
   */
  lemma LoadersAgree(f: Format, m: seq<byte>, img: seq<byte>, byPhdr: seq<byte>, byShdr: seq<byte>)
    requires InImage(Segments(f, img), img) && InImage(Sections(f, img), img)
    requires Tiles(Sections(f, img), Segments(f, img))
    requires IsLoaded(m, img, Segments(f, img), |Segments(f, img)|, byPhdr)
    requires IsLoaded(m, img, Sections(f, img), |Sections(f, img)|, byShdr)
    ensures byPhdr == byShdr
    ensures EntryPoint(f, byPhdr, f.header(img)) == EntryPoint(f, byShdr, f.header(img))
  {
    forall a | 0 <= a < |m| ensures byPhdr[a] == byShdr[a] {
      TilingLoadsTheSame(m, img, Segments(f, img), Sections(f, img), a);
    }
  }

  // ---------------------------------------------------------------- the command

  const ET_EXEC := 2

  /** `valid_elf_image`. */
  predicate IsExecutable(img: seq<byte>, big: bool) {
    [0x7F, 0x45, 0x4C, 0x46] <= img && Field(img, big, 16, 2) == ET_EXEC
  }

  /** What the loader chosen by the flag loads from an image in the layout of elf.h. */
  function Chosen(img: seq<byte>, big: bool, byPhdr: bool): seq<Piece> {
    if byPhdr then Segments(ElfFormat(big), img) else Sections(ElfFormat(big), img)
  }

  lemma TilingIsLoaded(m: seq<byte>, img: seq<byte>, ps: seq<Piece>, qs: seq<Piece>, m': seq<byte>)
    requires InImage(ps, img) && InImage(qs, img) && Tiles(qs, ps) && IsLoaded(m, img, qs, |qs|, m')
    ensures IsLoaded(m, img, ps, |ps|, m')
  {
    forall a | 0 <= a < |m| ensures m'[a] == ByteAfter(m, img, ps, |ps|, a) {
      TilingLoadsTheSame(m, img, ps, qs, a);
    }
  }

  /**
    The loading half of `bootelf`, for 32-bit and 64-bit images in either byte
    order. If the sections tile the segments the flag does not matter: the
    segments are in memory.
   */
  method DoBootelf(big: bool, mem: array<byte>, addr: nat, len: nat, line: nat, byPhdr: bool)
    returns (ok: bool, entry: nat)
    requires addr + len <= mem.Length && line > 0
    requires AllPlaced(Chosen(mem[addr..addr + len], big, byPhdr), mem[addr..addr + len], addr, mem.Length)
    modifies mem
    ensures ok == IsExecutable(old(mem[addr..addr + len]), big) && (!ok ==> mem[..] == old(mem[..]))
    ensures var img := old(mem[addr..addr + len]);
            var ps := Chosen(img, big, byPhdr);
            && InImage(ps, img)
            && (ok ==> IsLoaded(old(mem[..]), img, ps, |ps|, mem[..])
                       && entry == EntryPoint(ElfFormat(big), mem[..], ReadHeader(img, big)))
    ensures var img := old(mem[addr..addr + len]);
            var ps := Chosen(img, big, true);
            ok && InImage(ps, img) && Tiles(Chosen(img, big, false), ps) ==>
              IsLoaded(old(mem[..]), img, ps, |ps|, mem[..])
  {
    ghost var m, img := mem[..], mem[addr..addr + len];
    ghost var ps := Chosen(img, big, true);
    PlacedInImage(Chosen(img, big, byPhdr), img, addr, mem.Length);
    ok, entry := IsExecutable(mem[addr..addr + len], big), 0;
    if !ok {
      return;
    }
    var flushed;
    if byPhdr {
      entry, flushed := LoadElfImagePhdr(ElfFormat(big), mem, addr, len, line);
    } else {
      entry, flushed := LoadElfImageShdr(ElfFormat(big), mem, addr, len, line);
      if InImage(ps, img) && Tiles(Chosen(img, big, false), ps) {
        TilingIsLoaded(m, img, ps, Chosen(img, big, false), mem[..]);
      }
    }
  }
}
