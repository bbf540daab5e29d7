/**
  The layout of elf.h, said from the side of whoever writes an image: records
  whose fields follow each other, and tables whose records do. Reading an image
  gives back what was written into it.
 */
module ElfLayout {
  import opened Arithmetic
  import opened Bytes
  import opened ElfLoader

  // ---------------------------------------------------------------- fields and records

  /** The low `n` bytes of `v`, least significant first. */
  function LittleEndianBytes(v: nat, n: nat): (b: seq<byte>)
    ensures |b| == n
  {
    if n == 0 then [] else [v % 256] + LittleEndianBytes(v / 256, n - 1)
  }

  function Encoded(v: nat, n: nat, big: bool): (b: seq<byte>)
    ensures |b| == n
  {
    if big then BigEndianBytes(v, n) else LittleEndianBytes(v, n)
  }

  lemma {:induction false} BigEndianRead(v: nat, n: nat)
    requires v < Pow256(n)
    ensures BigEndian(BigEndianBytes(v, n)) == v
  {
    if n > 0 {
      BigEndianRead(v / 256, n - 1);
      assert BigEndianBytes(v, n)[..n - 1] == BigEndianBytes(v / 256, n - 1);
    }
  }

  lemma {:induction false} LittleEndianRead(v: nat, n: nat)
    requires v < Pow256(n)
    ensures LittleEndian(LittleEndianBytes(v, n)) == v
  {
    if n > 0 {
      LittleEndianRead(v / 256, n - 1);
      assert LittleEndianBytes(v, n)[1..] == LittleEndianBytes(v / 256, n - 1);
    }
  }

  /** The bytes `b` stand at offset `at`. */
  predicate BytesAt(m: seq<byte>, at: nat, b: seq<byte>) {
    at + |b| <= |m| && m[at..at + |b|] == b
  }

  lemma BytesAtSplit(m: seq<byte>, at: nat, a: seq<byte>, b: seq<byte>)
    requires BytesAt(m, at, a + b)
    ensures BytesAt(m, at, a) && BytesAt(m, at + |a|, b)
  {
    assert m[at..at + |a|] == (a + b)[..|a|];
    assert m[at + |a|..at + |a| + |b|] == (a + b)[|a|..];
  }

  /** Where piece `k` starts when the pieces lie behind each other. */
  function Start(pieces: seq<seq<byte>>, k: nat): nat
    requires k <= |pieces|
  {
    if k == 0 then 0 else Start(pieces, k - 1) + |pieces[k - 1]|
  }

  /** The first `k` pieces behind each other. */
  function Joined(pieces: seq<seq<byte>>, k: nat): (b: seq<byte>)
    requires k <= |pieces|
    ensures |b| == Start(pieces, k)
  {
    if k == 0 then [] else Joined(pieces, k - 1) + pieces[k - 1]
  }

  lemma {:induction false} PieceAt(m: seq<byte>, at: nat, pieces: seq<seq<byte>>, n: nat, k: nat)
    requires k < n <= |pieces| && BytesAt(m, at, Joined(pieces, n))
    ensures BytesAt(m, at + Start(pieces, k), pieces[k])
  {
    BytesAtSplit(m, at, Joined(pieces, n - 1), pieces[n - 1]);
    if k < n - 1 { PieceAt(m, at, pieces, n - 1, k); }
  }

  /** A field of a record: how many bytes it takes and what it holds. */
  datatype Part = Part(size: nat, value: nat)

  predicate AllFit(parts: seq<Part>) {
    forall k | 0 <= k < |parts| :: parts[k].value < Pow256(parts[k].size)
  }

  /** Where part `k` of a record starts. */
  function Offset(parts: seq<Part>, k: nat): nat
    requires k <= |parts|
  {
    if k == 0 then 0 else Offset(parts, k - 1) + parts[k - 1].size
  }

  function Encodings(parts: seq<Part>, big: bool): seq<seq<byte>> {
    seq(|parts|, k requires 0 <= k < |parts| => Encoded(parts[k].value, parts[k].size, big))
  }

  function Record(parts: seq<Part>, big: bool): seq<byte> {
    Joined(Encodings(parts, big), |parts|)
  }

  lemma {:induction false} StartIsOffset(parts: seq<Part>, big: bool, k: nat)
    requires k <= |parts|
    ensures Start(Encodings(parts, big), k) == Offset(parts, k)
  {
    if k > 0 { StartIsOffset(parts, big, k - 1); }
  }

  lemma RecordSize(parts: seq<Part>, big: bool)
    ensures |Record(parts, big)| == Offset(parts, |parts|)
  {
    StartIsOffset(parts, big, |parts|);
  }

  lemma EncodedRead(m: seq<byte>, at: nat, v: nat, n: nat, big: bool)
    requires BytesAt(m, at, Encoded(v, n, big)) && v < Pow256(n)
    ensures Field(m, big, at, n) == v
  {
    if big { BigEndianRead(v, n); } else { LittleEndianRead(v, n); }
  }

  /** Every part of a record is read back where it starts. */
  lemma RecordRead(m: seq<byte>, at: nat, parts: seq<Part>, big: bool, k: nat, part: Part, offset: nat)
    requires k < |parts| && AllFit(parts) && BytesAt(m, at, Record(parts, big))
    requires part == parts[k] && offset == Offset(parts, k)
    ensures Field(m, big, at + offset, part.size) == part.value
  {
    PieceAt(m, at, Encodings(parts, big), |parts|, k);
    StartIsOffset(parts, big, k);
    EncodedRead(m, at + offset, part.value, part.size, big);
  }

  // ---------------------------------------------------------------- the headers of elf.h

  datatype Ehdr = Ehdr(ident: seq<byte>, typ: nat, machine: nat, version: nat, entry: nat, phoff: nat, shoff: nat,
                       flags: nat, ehsize: nat, phentsize: nat, phnum: nat, shentsize: nat, shnum: nat, shstrndx: nat)

  datatype Phdr = Phdr(typ: nat, flags: nat, offset: nat, vaddr: nat, paddr: nat, filesz: nat, memsz: nat, align: nat)

  datatype Shdr = Shdr(name: nat, typ: nat, flags: nat, addr: nat, offset: nat, size: nat, link: nat, info: nat,
                       addralign: nat, entsize: nat)

  /** An address, an offset or a size. */
  function Long(wide: bool): nat { if wide then 8 else 4 }

  function EhdrParts(h: Ehdr, wide: bool): seq<Part> {
    [Part(2, h.typ), Part(2, h.machine), Part(4, h.version), Part(Long(wide), h.entry), Part(Long(wide), h.phoff),
     Part(Long(wide), h.shoff), Part(4, h.flags), Part(2, h.ehsize), Part(2, h.phentsize), Part(2, h.phnum),
     Part(2, h.shentsize), Part(2, h.shnum), Part(2, h.shstrndx)]
  }

  function PhdrParts(p: Phdr, wide: bool): seq<Part> {
    if wide then
      [Part(4, p.typ), Part(4, p.flags), Part(8, p.offset), Part(8, p.vaddr), Part(8, p.paddr), Part(8, p.filesz),
       Part(8, p.memsz), Part(8, p.align)]
    else
      [Part(4, p.typ), Part(4, p.offset), Part(4, p.vaddr), Part(4, p.paddr), Part(4, p.filesz), Part(4, p.memsz),
       Part(4, p.flags), Part(4, p.align)]
  }

  function ShdrParts(s: Shdr, wide: bool): seq<Part> {
    [Part(4, s.name), Part(4, s.typ), Part(Long(wide), s.flags), Part(Long(wide), s.addr), Part(Long(wide), s.offset),
     Part(Long(wide), s.size), Part(4, s.link), Part(4, s.info), Part(Long(wide), s.addralign),
     Part(Long(wide), s.entsize)]
  }

  /** The class byte of the identification tells 64-bit images (2) from all others. */
  predicate Wide(ident: seq<byte>) {
    |ident| > 4 && ident[4] == 2
  }

  /** The image starts with the sixteen bytes of identification and this header. */
  predicate StartsWith(img: seq<byte>, h: Ehdr, big: bool) {
    && |h.ident| == 16 && BytesAt(img, 0, h.ident) && AllFit(EhdrParts(h, Wide(h.ident)))
    && BytesAt(img, 16, Record(EhdrParts(h, Wide(h.ident)), big))
  }

  lemma EhdrOffsets(h: Ehdr, wide: bool, ps: seq<Part>, long: nat)
    requires ps == EhdrParts(h, wide) && long == Long(wide)
    ensures Offset(ps, 0) == 0 && Offset(ps, 1) == 2 && Offset(ps, 3) == 8 && Offset(ps, 4) == 8 + long
    ensures Offset(ps, 5) == 8 + 2 * long && Offset(ps, 6) == 8 + 3 * long && Offset(ps, 9) == 16 + 3 * long
    ensures Offset(ps, 11) == 20 + 3 * long
  {
    assert Offset(ps, 1) == 2;
    assert Offset(ps, 2) == 4;
    assert Offset(ps, 3) == 8;
    assert Offset(ps, 4) == 8 + long;
    assert Offset(ps, 5) == 8 + 2 * long;
    assert Offset(ps, 6) == 8 + 3 * long;
    assert Offset(ps, 7) == 12 + 3 * long;
    assert Offset(ps, 8) == 14 + 3 * long;
    assert Offset(ps, 9) == 16 + 3 * long;
    assert Offset(ps, 10) == 18 + 3 * long;
  }

  lemma EhdrFront(img: seq<byte>, h: Ehdr, big: bool, wide: bool, ps: seq<Part>, long: nat)
    requires ps == EhdrParts(h, wide) && AllFit(ps) && BytesAt(img, 16, Record(ps, big)) && long == Long(wide)
    ensures Field(img, big, 16, 2) == h.typ && Field(img, big, 18, 2) == h.machine
    ensures Field(img, big, 24, long) == h.entry && Field(img, big, 24 + long, long) == h.phoff
  {
    EhdrOffsets(h, wide, ps, long);
    RecordRead(img, 16, ps, big, 0, Part(2, h.typ), 0);
    RecordRead(img, 16, ps, big, 1, Part(2, h.machine), 2);
    RecordRead(img, 16, ps, big, 3, Part(long, h.entry), 8);
    RecordRead(img, 16, ps, big, 4, Part(long, h.phoff), 8 + long);
  }

  lemma EhdrBack(img: seq<byte>, h: Ehdr, big: bool, wide: bool, ps: seq<Part>, long: nat)
    requires ps == EhdrParts(h, wide) && AllFit(ps) && BytesAt(img, 16, Record(ps, big)) && long == Long(wide)
    ensures Field(img, big, 24 + 2 * long, long) == h.shoff && Field(img, big, 24 + 3 * long, 4) == h.flags
    ensures Field(img, big, 32 + 3 * long, 2) == h.phnum && Field(img, big, 36 + 3 * long, 2) == h.shnum
  {
    EhdrOffsets(h, wide, ps, long);
    RecordRead(img, 16, ps, big, 5, Part(long, h.shoff), 8 + 2 * long);
    RecordRead(img, 16, ps, big, 6, Part(4, h.flags), 8 + 3 * long);
    RecordRead(img, 16, ps, big, 9, Part(2, h.phnum), 16 + 3 * long);
    RecordRead(img, 16, ps, big, 11, Part(2, h.shnum), 20 + 3 * long);
  }

  /** The header as the loaders use it. */
  function Told(h: Ehdr): Header {
    Header(Wide(h.ident), h.machine, h.flags, h.entry, h.phoff, h.phnum, h.shoff, h.shnum)
  }

  /** Reading the header of an image gives the values that were written. */
  lemma HeaderRead(img: seq<byte>, h: Ehdr, big: bool)
    requires StartsWith(img, h, big)
    ensures ReadHeader(img, big) == Told(h)
    ensures IsExecutable(img, big) <==> h.ident[..4] == [0x7F, 0x45, 0x4C, 0x46] && h.typ == 2
  {
    var wide := Wide(h.ident);
    EhdrFront(img, h, big, wide, EhdrParts(h, wide), Long(wide));
    EhdrBack(img, h, big, wide, EhdrParts(h, wide), Long(wide));
    assert img[4] == img[0..16][4];
    assert img[..4] == img[0..16][..4];
  }

  // ---------------------------------------------------------------- the tables

  predicate AllOf(records: seq<seq<byte>>, size: nat) {
    forall k | 0 <= k < |records| :: |records[k]| == size
  }

  lemma {:induction false} StartInTable(records: seq<seq<byte>>, size: nat, k: nat)
    requires AllOf(records, size) && k <= |records|
    ensures Start(records, k) == k * size
  {
    if k > 0 {
      StartInTable(records, size, k - 1);
      assert (k - 1) * size + size == k * size;
    }
  }

  lemma RecordAt(m: seq<byte>, at: nat, records: seq<seq<byte>>, size: nat, i: nat, here: nat)
    requires AllOf(records, size) && i < |records| && BytesAt(m, at, Joined(records, |records|))
    requires here == at + i * size
    ensures BytesAt(m, here, records[i])
  {
    StartInTable(records, size, i);
    PieceAt(m, at, records, |records|, i);
  }

  function PhdrRecords(ps: seq<Phdr>, wide: bool, big: bool): seq<seq<byte>> {
    seq(|ps|, i requires 0 <= i < |ps| => Record(PhdrParts(ps[i], wide), big))
  }

  function ShdrRecords(ss: seq<Shdr>, wide: bool, big: bool): seq<seq<byte>> {
    seq(|ss|, i requires 0 <= i < |ss| => Record(ShdrParts(ss[i], wide), big))
  }

  /** The table at `at` holds these program headers. */
  predicate HoldsPhdrs(img: seq<byte>, at: nat, ps: seq<Phdr>, wide: bool, big: bool) {
    && (forall i | 0 <= i < |ps| :: AllFit(PhdrParts(ps[i], wide)))
    && BytesAt(img, at, Joined(PhdrRecords(ps, wide, big), |ps|))
  }

  /** The table at `at` holds these section headers. */
  predicate HoldsShdrs(img: seq<byte>, at: nat, ss: seq<Shdr>, wide: bool, big: bool) {
    && (forall i | 0 <= i < |ss| :: AllFit(ShdrParts(ss[i], wide)))
    && BytesAt(img, at, Joined(ShdrRecords(ss, wide, big), |ss|))
  }

  /** The image has this header, these program headers and these section headers. */
  predicate Holds(img: seq<byte>, h: Ehdr, ps: seq<Phdr>, ss: seq<Shdr>, big: bool) {
    && StartsWith(img, h, big) && h.phnum == |ps| && h.shnum == |ss|
    && HoldsPhdrs(img, h.phoff, ps, Wide(h.ident), big) && HoldsShdrs(img, h.shoff, ss, Wide(h.ident), big)
  }

  lemma PhdrOffsets(p: Phdr, wide: bool, parts: seq<Part>)
    requires parts == PhdrParts(p, wide)
    ensures Offset(parts, 1) == 4 && Offset(parts, 2) == 8
    ensures Offset(parts, 3) == (if wide then 16 else 12) && Offset(parts, 4) == (if wide then 24 else 16)
    ensures Offset(parts, 5) == (if wide then 32 else 20) && Offset(parts, 6) == (if wide then 40 else 24)
    ensures Offset(parts, 8) == (if wide then 56 else 32)
  {
    assert Offset(parts, 1) == 4;
    assert Offset(parts, 2) == 8;
    assert Offset(parts, 3) == if wide then 16 else 12;
    assert Offset(parts, 4) == if wide then 24 else 16;
    assert Offset(parts, 5) == if wide then 32 else 20;
    assert Offset(parts, 6) == if wide then 40 else 24;
    assert Offset(parts, 7) == if wide then 48 else 28;
  }

  lemma PhdrFields(img: seq<byte>, at: nat, p: Phdr, wide: bool, big: bool)
    requires AllFit(PhdrParts(p, wide)) && BytesAt(img, at, Record(PhdrParts(p, wide), big))
    ensures wide ==> Field(img, big, at + 8, 8) == p.offset && Field(img, big, at + 24, 8) == p.paddr
    ensures wide ==> Field(img, big, at + 32, 8) == p.filesz && Field(img, big, at + 40, 8) == p.memsz
    ensures !wide ==> Field(img, big, at + 4, 4) == p.offset && Field(img, big, at + 12, 4) == p.paddr
    ensures !wide ==> Field(img, big, at + 16, 4) == p.filesz && Field(img, big, at + 20, 4) == p.memsz
  {
    var parts := PhdrParts(p, wide);
    PhdrOffsets(p, wide, parts);
    if wide {
      RecordRead(img, at, parts, big, 2, Part(8, p.offset), 8);
      RecordRead(img, at, parts, big, 4, Part(8, p.paddr), 24);
      RecordRead(img, at, parts, big, 5, Part(8, p.filesz), 32);
      RecordRead(img, at, parts, big, 6, Part(8, p.memsz), 40);
    } else {
      RecordRead(img, at, parts, big, 1, Part(4, p.offset), 4);
      RecordRead(img, at, parts, big, 3, Part(4, p.paddr), 12);
      RecordRead(img, at, parts, big, 4, Part(4, p.filesz), 16);
      RecordRead(img, at, parts, big, 5, Part(4, p.memsz), 20);
    }
  }

  lemma ShdrOffsets(s: Shdr, wide: bool, parts: seq<Part>, long: nat)
    requires parts == ShdrParts(s, wide) && long == Long(wide)
    ensures Offset(parts, 1) == 4 && Offset(parts, 2) == 8 && Offset(parts, 3) == 8 + long
    ensures Offset(parts, 4) == 8 + 2 * long && Offset(parts, 5) == 8 + 3 * long
    ensures Offset(parts, 10) == 16 + 6 * long
  {
    assert Offset(parts, 1) == 4;
    assert Offset(parts, 2) == 8;
    assert Offset(parts, 3) == 8 + long;
    assert Offset(parts, 4) == 8 + 2 * long;
    assert Offset(parts, 5) == 8 + 3 * long;
    assert Offset(parts, 6) == 8 + 4 * long;
    assert Offset(parts, 7) == 12 + 4 * long;
    assert Offset(parts, 8) == 16 + 4 * long;
    assert Offset(parts, 9) == 16 + 5 * long;
  }

  lemma ShdrFields(img: seq<byte>, at: nat, s: Shdr, wide: bool, big: bool, long: nat)
    requires AllFit(ShdrParts(s, wide)) && BytesAt(img, at, Record(ShdrParts(s, wide), big)) && long == Long(wide)
    ensures Field(img, big, at + 4, 4) == s.typ && Field(img, big, at + 8, long) == s.flags
    ensures Field(img, big, at + 8 + long, long) == s.addr && Field(img, big, at + 8 + 2 * long, long) == s.offset
    ensures Field(img, big, at + 8 + 3 * long, long) == s.size
  {
    var parts := ShdrParts(s, wide);
    ShdrOffsets(s, wide, parts, long);
    RecordRead(img, at, parts, big, 1, Part(4, s.typ), 4);
    RecordRead(img, at, parts, big, 2, Part(long, s.flags), 8);
    RecordRead(img, at, parts, big, 3, Part(long, s.addr), 8 + long);
    RecordRead(img, at, parts, big, 4, Part(long, s.offset), 8 + 2 * long);
    RecordRead(img, at, parts, big, 5, Part(long, s.size), 8 + 3 * long);
  }

  lemma PhdrSize(p: Phdr, wide: bool, big: bool)
    ensures |Record(PhdrParts(p, wide), big)| == if wide then 56 else 32
  {
    PhdrOffsets(p, wide, PhdrParts(p, wide));
    RecordSize(PhdrParts(p, wide), big);
  }

  lemma ShdrSize(s: Shdr, wide: bool, big: bool)
    ensures |Record(ShdrParts(s, wide), big)| == if wide then 64 else 40
  {
    ShdrOffsets(s, wide, ShdrParts(s, wide), Long(wide));
    RecordSize(ShdrParts(s, wide), big);
  }

  lemma PhdrStands(img: seq<byte>, at: nat, ps: seq<Phdr>, wide: bool, big: bool, i: nat, size: nat, here: nat)
    requires i < |ps| && HoldsPhdrs(img, at, ps, wide, big)
    requires size == (if wide then 56 else 32) && here == at + i * size
    ensures BytesAt(img, here, Record(PhdrParts(ps[i], wide), big))
  {
    var records := PhdrRecords(ps, wide, big);
    forall k | 0 <= k < |records| ensures |records[k]| == size { PhdrSize(ps[k], wide, big); }
    RecordAt(img, at, records, size, i, here);
  }

  lemma ShdrStands(img: seq<byte>, at: nat, ss: seq<Shdr>, wide: bool, big: bool, i: nat, size: nat, here: nat)
    requires i < |ss| && HoldsShdrs(img, at, ss, wide, big)
    requires size == (if wide then 64 else 40) && here == at + i * size
    ensures BytesAt(img, here, Record(ShdrParts(ss[i], wide), big))
  {
    var records := ShdrRecords(ss, wide, big);
    forall k | 0 <= k < |records| ensures |records[k]| == size { ShdrSize(ss[k], wide, big); }
    RecordAt(img, at, records, size, i, here);
  }

  /** A section header as the loaders use it. */
  function ToldSection(s: Shdr): Section { Section(s.typ, s.flags, s.addr, s.offset, s.size) }

  lemma PhdrIs(img: seq<byte>, big: bool, h: Header, i: nat, p: Phdr, at: nat)
    requires ReadHeader(img, big) == h && at == h.phoff + (if h.wide then i * 56 else i * 32)
    requires AllFit(PhdrParts(p, h.wide)) && BytesAt(img, at, Record(PhdrParts(p, h.wide), big))
    ensures ReadPhdr(img, big, i) == Piece(p.paddr, p.offset, p.filesz, p.memsz)
  {
    PhdrFields(img, at, p, h.wide, big);
  }

  lemma ShdrIs(img: seq<byte>, big: bool, h: Header, i: nat, s: Shdr, at: nat)
    requires ReadHeader(img, big) == h && at == h.shoff + (if h.wide then i * 64 else i * 40)
    requires AllFit(ShdrParts(s, h.wide)) && BytesAt(img, at, Record(ShdrParts(s, h.wide), big))
    ensures ReadShdr(img, big, i) == ToldSection(s)
  {
    ShdrFields(img, at, s, h.wide, big, if h.wide then 8 else 4);
  }

  /** What program header `i` of an image says, as the loader reads it. */
  lemma PhdrRead(img: seq<byte>, h: Header, ps: seq<Phdr>, big: bool, i: nat)
    requires ReadHeader(img, big) == h && HoldsPhdrs(img, h.phoff, ps, h.wide, big) && i < |ps|
    ensures ReadPhdr(img, big, i) == Piece(ps[i].paddr, ps[i].offset, ps[i].filesz, ps[i].memsz)
  {
    var here := h.phoff + if h.wide then i * 56 else i * 32;
    PhdrStands(img, h.phoff, ps, h.wide, big, i, if h.wide then 56 else 32, here);
    PhdrIs(img, big, h, i, ps[i], here);
  }

  /** What section header `i` of an image says, as the loader reads it. */
  lemma ShdrRead(img: seq<byte>, h: Header, ss: seq<Shdr>, big: bool, i: nat)
    requires ReadHeader(img, big) == h && HoldsShdrs(img, h.shoff, ss, h.wide, big) && i < |ss|
    ensures ReadShdr(img, big, i) == ToldSection(ss[i])
  {
    var here := h.shoff + if h.wide then i * 64 else i * 40;
    ShdrStands(img, h.shoff, ss, h.wide, big, i, if h.wide then 64 else 40, here);
    ShdrIs(img, big, h, i, ss[i], here);
  }

  // ---------------------------------------------------------------- what is loaded from an image

  /** Every program header is loaded, whatever its type. */
  function PhdrPieces(ps: seq<Phdr>): seq<Piece> {
    seq(|ps|, i requires 0 <= i < |ps| => Piece(ps[i].paddr, ps[i].offset, ps[i].filesz, ps[i].memsz))
  }

  /**
    Of the first `k` sections those are loaded that have flag 2 (allocate), an
    address and a size; one of type 8 (no bits) is all zeros.
   */
  function ShdrPieces(ss: seq<Shdr>, k: nat): seq<Piece>
    requires k <= |ss|
  {
    if k == 0 then []
    else
      var s := ss[k - 1];
      ShdrPieces(ss, k - 1)
      + if s.flags / 2 % 2 == 1 && s.addr > 0 && s.size > 0
        then [Piece(s.addr, s.offset, if s.typ == 8 then 0 else s.size, s.size)] else []
  }

  lemma {:induction false} SectionsRead(f: Format, img: seq<byte>, ss: seq<Shdr>, k: nat)
    requires k <= |ss| && forall i: nat | i < |ss| :: f.section(img, i) == ToldSection(ss[i])
    ensures SectionsUpto(f, img, k) == ShdrPieces(ss, k)
  {
    if k > 0 { SectionsRead(f, img, ss, k - 1); }
  }

  /**
    What `bootelf` loads from an image, in terms of the values in its headers,
    and where it starts it: at the entry address, or for machine 21 (64-bit
    PowerPC) with flag 1 at the address stored there.
   */
  lemma ImageLoads(img: seq<byte>, h: Ehdr, ps: seq<Phdr>, ss: seq<Shdr>, big: bool, m: seq<byte>)
    requires Holds(img, h, ps, ss, big)
    ensures Chosen(img, big, true) == PhdrPieces(ps) && Chosen(img, big, false) == ShdrPieces(ss, |ss|)
    ensures EntryPoint(ElfFormat(big), m, ReadHeader(img, big)) ==
            if h.ident[4] == 2 && h.machine == 21 && h.flags % 2 == 1 then Field(m, big, h.entry, 8) else h.entry
  {
    HeaderRead(img, h, big);
    forall i | 0 <= i < |ps| ensures ReadPhdr(img, big, i) == PhdrPieces(ps)[i] {
      PhdrRead(img, Told(h), ps, big, i);
    }
    forall i: nat | i < |ss| ensures ElfFormat(big).section(img, i) == ToldSection(ss[i]) {
      ShdrRead(img, Told(h), ss, big, i);
    }
    SectionsRead(ElfFormat(big), img, ss, |ss|);
  }
}
