/**
  EEPROM access in chunks. The device behind the bus advances its address
  counter only within a page, and its upper address bits are part of the chip
  address; a transfer that crossed a page or a 256-byte block would go wrong.
 */
module EepromAccess {
  import opened Arithmetic
  import opened Bytes

  const I2C_RXTX_LEN: nat := 128

  // ---------------------------------------------------------------- addresses

  /** `CONFIG_SYS_I2C_EEPROM_ADDR_LEN` and `CONFIG_SYS_EEPROM_PAGE_WRITE_BITS`. */
  datatype Config = Config(addrLen: AddrLen, pageBits: nat)

  datatype AddrLen = OneByte | TwoBytes

  function Pow2(n: nat): (p: nat)
    ensures p > 0
  {
    if n == 0 then 1 else 2 * Pow2(n - 1)
  }

  function PageSize(c: Config): nat { Pow2(c.pageBits) }

  /** How many offsets share a chip address. */
  function BlockSize(c: Config): nat { if c.addrLen.OneByte? then 0x100 else 0x10000 }

  /** Bitwise `|`. */
  function Or(a: nat, b: nat): nat {
    if a == 0 then b
    else if b == 0 then a
    else (if a % 2 == 1 || b % 2 == 1 then 1 else 0) + 2 * Or(a / 2, b / 2)
  }

  /** `a & b == 0`. */
  predicate NoCommonBit(a: nat, b: nat) {
    a == 0 || b == 0 || (!(a % 2 == 1 && b % 2 == 1) && NoCommonBit(a / 2, b / 2))
  }

  /** Where a byte lies on the bus: the chip address that answers, and the word address sent to it. */
  datatype Cell = Cell(chip: nat, word: int)

  /** `eeprom_addr`: the upper bits of the offset are inserted into the device address. */
  function CellOf(c: Config, dev: byte, offset: nat): Cell {
    Cell(Or(offset / BlockSize(c) % 256, dev), offset % BlockSize(c))
  }

  /** The block number of `offset` fits beside the bits of the device address. */
  predicate Fits(c: Config, dev: byte, offset: nat) {
    offset / BlockSize(c) < 256 && NoCommonBit(offset / BlockSize(c), dev)
  }

  /** The device is large enough for the offsets below `limit`. */
  ghost predicate Selectable(c: Config, dev: byte, limit: nat) {
    forall o: nat | o < limit :: Fits(c, dev, o)
  }

  /** Where each offset lies. */
  function Layout(c: Config, dev: byte): nat -> Cell {
    (offset: nat) => CellOf(c, dev, offset)
  }

  ghost predicate Distinct(place: nat -> Cell, limit: nat) {
    forall o: nat, p: nat | o < p < limit :: place(o) != place(p)
  }

  lemma {:induction false} OrIsSum(a: nat, b: nat)
    requires NoCommonBit(a, b)
    ensures Or(a, b) == a + b
  {
    if a > 0 && b > 0 { OrIsSum(a / 2, b / 2); }
  }

  /** Every chip address answers for 256 offsets, or 65536 with two address bytes; blocks follow each other. */
  lemma CellIs(c: Config, dev: byte, o: nat)
    requires Fits(c, dev, o)
    ensures c.addrLen.OneByte? ==> CellOf(c, dev, o) == Cell(dev + o / 256, o % 256)
    ensures c.addrLen.TwoBytes? ==> CellOf(c, dev, o) == Cell(dev + o / 65536, o % 65536)
  {
    var block := o / BlockSize(c);
    assert block % 256 == block;
    OrIsSum(block, dev);
  }

  lemma ChipsDiffer(m: nat, n: nat, dev: byte)
    requires NoCommonBit(m, dev) && NoCommonBit(n, dev) && Or(m, dev) == Or(n, dev)
    ensures m == n
  {
    OrIsSum(m, dev);
    OrIsSum(n, dev);
  }

  lemma CellsDiffer(c: Config, dev: byte, o: nat, p: nat)
    requires Fits(c, dev, o) && Fits(c, dev, p) && CellOf(c, dev, o) == CellOf(c, dev, p)
    ensures o == p
  {
    var m, i := Split(o, BlockSize(c));
    var n, j := Split(p, BlockSize(c));
    assert m % 256 == m && n % 256 == n;
    ChipsDiffer(m, n, dev);
  }

  /** Different offsets are different cells. */
  lemma LayoutIsDistinct(c: Config, dev: byte, limit: nat)
    requires Selectable(c, dev, limit)
    ensures Distinct(Layout(c, dev), limit)
  {
    forall o: nat, p: nat | o < p < limit
      ensures Layout(c, dev)(o) != Layout(c, dev)(p)
    {
      assert Fits(c, dev, o) && Fits(c, dev, p);
      if CellOf(c, dev, o) == CellOf(c, dev, p) { CellsDiffer(c, dev, o, p); }
    }
  }

  // ---------------------------------------------------------------- chunks

  /** `eeprom_len`: up to the end of the page, as far as the masked offset tells. */
  function EepromLen(c: Config, offset: nat, end: nat): int {
    var len := end - offset;
    var blkOff := offset % 0x100;
    var maxlen := PageSize(c) - blkOff % PageSize(c);
    var maxlen' := if maxlen > I2C_RXTX_LEN then I2C_RXTX_LEN else maxlen;
    if len > maxlen' then maxlen' else len
  }

  /** The `len` bytes at `offset` are in one page and in one 256-byte block. */
  predicate StaysInside(c: Config, offset: nat, len: int) {
    0 < len && offset % PageSize(c) + len <= PageSize(c) && offset % 0x100 + len <= 0x100
  }

  lemma {:induction false} Pow2Sum(m: nat, n: nat)
    ensures Pow2(m + n) == Pow2(m) * Pow2(n)
  {
    if m > 0 { Pow2Sum(m - 1, n); }
  }

  lemma PagesTileBlock(bits: nat) returns (pages: nat)
    requires bits <= 8
    ensures pages * Pow2(bits) == 0x100
  {
    Pow2Sum(8 - bits, bits);
    pages := Pow2(8 - bits);
  }

  /** Masking the offset with the block first does not move it within its page. */
  lemma MaskKeepsPageOffset(offset: nat, block: nat, page: nat, pages: nat)
    requires page > 0 && block > 0 && pages * page == block
    ensures offset % block % page == offset % page
  {
    var q, r := Split(offset, block);
    assert q * (pages * page) == q * pages * page;
    DivModShift(q * pages, r, page);
  }

  lemma PageEndsInBlock(r: nat, block: nat, page: nat, pages: nat)
    requires page > 0 && pages * page == block && r < block
    ensures r - r % page + page <= block
  {
    var q, m := Split(r, page);
    MulLess(q, pages, page);
    MulMono(q + 1, pages, page);
  }

  /** The central fact: with pages of at most 256 bytes every chunk is what one transfer can carry. */
  lemma ChunkStaysInside(c: Config, offset: nat, end: nat)
    requires c.pageBits <= 8 && offset < end
    ensures var len := EepromLen(c, offset, end);
            StaysInside(c, offset, len) && len <= 128 && offset + len <= end
  {
    var pages := PagesTileBlock(c.pageBits);
    MaskKeepsPageOffset(offset, 0x100, PageSize(c), pages);
    PageEndsInBlock(offset % 0x100, 0x100, PageSize(c), pages);
  }

  /** Whatever the page size, a chunk is not empty, at most 128 bytes long and inside the range. */
  lemma ChunkFits(c: Config, offset: nat, end: nat)
    requires offset < end
    ensures var len := EepromLen(c, offset, end); 0 < len <= 128 && offset + len <= end
  {
    var q, r := Split(offset % 0x100, PageSize(c));
  }

  /** A chunk is as long as it can be: one byte more would leave the page or the range, or exceed 128 bytes. */
  lemma ChunkIsLongest(c: Config, offset: nat, end: nat, m: nat)
    requires c.pageBits <= 8 && offset < end && EepromLen(c, offset, end) < m
    ensures 128 < m || end < offset + m || PageSize(c) < offset % PageSize(c) + m
  {
    var pages := PagesTileBlock(c.pageBits);
    MaskKeepsPageOffset(offset, 0x100, PageSize(c), pages);
  }

  ghost predicate NeverCrosses(c: Config) {
    forall offset: nat, end: nat | offset < end :: StaysInside(c, offset, EepromLen(c, offset, end))
  }

  /** Larger pages are crossed: the code masks the offset to 8 bits before it looks for the page end. */
  lemma NeverCrossesIff(c: Config)
    ensures NeverCrosses(c) <==> c.pageBits <= 8
  {
    if c.pageBits <= 8 {
      forall offset: nat, end: nat | offset < end
        ensures StaysInside(c, offset, EepromLen(c, offset, end))
      {
        ChunkStaysInside(c, offset, end);
      }
    } else {
      CrossesLargePage(c, c.pageBits - 9);
    }
  }

  lemma LargePage(k: nat)
    ensures Pow2(9 + k) == 512 * Pow2(k)
  {
    Pow2Sum(9, k);
  }

  lemma CrossesLargePage(c: Config, k: nat)
    requires c.pageBits == 9 + k
    ensures var last := PageSize(c) - 1; EepromLen(c, last, last + 2) == 2 && !StaysInside(c, last, 2)
  {
    LargePage(k);
    var n, page := Pow2(k), PageSize(c);
    DivModUnique(page - 1, page, 0, page - 1);
    DivModUnique(page - 1, 0x100, 2 * n - 1, 255);
    DivModUnique(255, page, 0, 255);
  }

  // ---------------------------------------------------------------- the device

  const ERASED: byte := 0xFF

  function Get(cells: map<Cell, byte>, at: Cell): byte {
    if at in cells then cells[at] else ERASED
  }

  /** The device's address counter after `k` bytes: it never leaves the page it started in. */
  function Counter(c: Config, start: Cell, k: nat): Cell {
    var i := start.word % PageSize(c);
    Cell(start.chip, start.word - i + (i + k) % PageSize(c))
  }

  /** The cells one transfer that starts at `start` visits. */
  function Visits(c: Config, start: Cell): nat -> Cell {
    (k: nat) => Counter(c, start, k)
  }

  /** One write transfer of `data[at..at + n]`, as the device stores it. */
  function Burst(cells: map<Cell, byte>, visit: nat -> Cell, data: seq<byte>, at: nat, n: nat): map<Cell, byte>
    requires at + n <= |data|
  {
    if n == 0 then cells
    else Burst(cells, visit, data, at, n - 1)[visit(n - 1) := data[at + n - 1]]
  }

  /** What is meant: byte `k` goes to offset `offset + k`, for those of the first `n` bytes that `mask` lets through. */
  function FlatWrite(place: nat -> Cell, cells: map<Cell, byte>, offset: nat, data: seq<byte>, mask: seq<bool>,
                     n: nat): map<Cell, byte>
    requires n <= |data| && n <= |mask|
  {
    if n == 0 then cells
    else
      var before := FlatWrite(place, cells, offset, data, mask, n - 1);
      if mask[n - 1] then before[place(offset + n - 1) := data[n - 1]] else before
  }

  /** A flat write leaves at each offset it covers the new byte, or the old one if it was not let through. */
  lemma {:induction false} WrittenIsRead(place: nat -> Cell, cells: map<Cell, byte>, offset: nat, data: seq<byte>,
                                         mask: seq<bool>, n: nat, k: nat)
    requires k < n <= |data| && n <= |mask| && Distinct(place, offset + n)
    ensures Get(FlatWrite(place, cells, offset, data, mask, n), place(offset + k))
         == if mask[k] then data[k] else Get(cells, place(offset + k))
  {
    if k < n - 1 {
      WrittenIsRead(place, cells, offset, data, mask, n - 1, k);
    } else {
      OthersKept(place, cells, offset, data, mask, k, offset + k, offset + n);
    }
  }

  /** Every other offset keeps its byte. */
  lemma {:induction false} OthersKept(place: nat -> Cell, cells: map<Cell, byte>, offset: nat, data: seq<byte>,
                                      mask: seq<bool>, n: nat, p: nat, limit: nat)
    requires n <= |data| && n <= |mask| && (p < offset || offset + n <= p)
    requires Distinct(place, limit) && offset + n <= limit && p < limit
    ensures Get(FlatWrite(place, cells, offset, data, mask, n), place(p)) == Get(cells, place(p))
  {
    if n > 0 { OthersKept(place, cells, offset, data, mask, n - 1, p, limit); }
  }

  lemma ShiftInBlock(c: Config, offset: nat, k: nat)
    requires offset % 0x100 + k < 0x100
    ensures (offset + k) % BlockSize(c) == offset % BlockSize(c) + k
    ensures (offset + k) / BlockSize(c) == offset / BlockSize(c)
  {
    var q, r := Split(offset, BlockSize(c));
    var n := if c.addrLen.OneByte? then 1 else 0x100;
    MaskKeepsPageOffset(offset, BlockSize(c), 0x100, n);
    PageEndsInBlock(r, BlockSize(c), 0x100, n);
    DivModUnique(offset + k, BlockSize(c), q, r + k);
  }

  lemma WordInPage(c: Config, offset: nat)
    requires c.pageBits <= 8
    ensures offset % BlockSize(c) % PageSize(c) == offset % PageSize(c)
  {
    var pages := PagesTileBlock(c.pageBits);
    var n := if c.addrLen.OneByte? then pages else 0x100 * pages;
    assert n * PageSize(c) == BlockSize(c);
    MaskKeepsPageOffset(offset, BlockSize(c), PageSize(c), n);
  }

  /** Inside a chunk the wrapping counter follows the offsets. */
  lemma CounterFollows(c: Config, dev: byte, offset: nat, len: nat, k: nat)
    requires c.pageBits <= 8 && StaysInside(c, offset, len) && k < len
    ensures Visits(c, CellOf(c, dev, offset))(k) == Layout(c, dev)(offset + k)
  {
    var i := offset % PageSize(c);
    WordInPage(c, offset);
    DivModUnique(i + k, PageSize(c), 0, i + k);
    ShiftInBlock(c, offset, k);
  }

  /** A transfer whose counter follows the offsets extends the flat write by its bytes. */
  lemma {:induction false} BurstIsFlat(place: nat -> Cell, visit: nat -> Cell, cells: map<Cell, byte>, offset: nat,
                                       data: seq<byte>, mask: seq<bool>, at: nat, n: nat)
    requires at + n <= |data| && at + n <= |mask|
    requires forall k: nat | k < n :: visit(k) == place(offset + at + k)
    requires forall k | at <= k < at + n :: mask[k]
    ensures Burst(FlatWrite(place, cells, offset, data, mask, at), visit, data, at, n)
         == FlatWrite(place, cells, offset, data, mask, at + n)
  {
    if n > 0 { BurstIsFlat(place, visit, cells, offset, data, mask, at, n - 1); }
  }

  /** A transfer that is refused leaves the flat write where it was. */
  lemma {:induction false} RefusedIsFlat(place: nat -> Cell, cells: map<Cell, byte>, offset: nat, data: seq<byte>,
                                         mask: seq<bool>, at: nat, n: nat)
    requires at + n <= |data| && at + n <= |mask|
    requires forall k | at <= k < at + n :: !mask[k]
    ensures FlatWrite(place, cells, offset, data, mask, at + n) == FlatWrite(place, cells, offset, data, mask, at)
  {
    if n > 0 { RefusedIsFlat(place, cells, offset, data, mask, at, n - 1); }
  }

  // ---------------------------------------------------------------- runs

  datatype Transfer = Transfer(offset: nat, len: nat)

  /** The chunks of `[offset, end)`. */
  function Chunks(c: Config, offset: nat, end: nat): (t: seq<Transfer>)
    decreases end - offset
  {
    if offset >= end then []
    else
      ChunkFits(c, offset, end);
      var len := EepromLen(c, offset, end);
      [Transfer(offset, len)] + Chunks(c, offset + len, end)
  }

  /** For each byte of `[offset, end)`, whether its chunk was acknowledged; chunk `n` is the next on the bus. */
  function Acked(c: Config, responds: nat -> bool, n: nat, offset: nat, end: nat): (mask: seq<bool>)
    ensures |mask| == if offset < end then end - offset else 0
    decreases end - offset
  {
    if offset >= end then []
    else
      ChunkFits(c, offset, end);
      var len := EepromLen(c, offset, end);
      seq(len, _ => responds(n)) + Acked(c, responds, n + 1, offset + len, end)
  }

  /** The chunks tile the range: each starts where the one before it ended, and the last ends at `end`. */
  predicate Tile(t: seq<Transfer>, offset: nat, end: nat) {
    if t == [] then offset >= end
    else t[0].offset == offset < end && 0 < t[0].len && Tile(t[1..], offset + t[0].len, end)
  }

  lemma {:induction false} ChunksTile(c: Config, offset: nat, end: nat)
    ensures Tile(Chunks(c, offset, end), offset, end)
    ensures forall t | t in Chunks(c, offset, end) ::
              0 < t.len <= I2C_RXTX_LEN && offset <= t.offset && t.offset + t.len <= end
              && (c.pageBits <= 8 ==> StaysInside(c, t.offset, t.len))
    decreases end - offset
  {
    if offset < end {
      ChunkFits(c, offset, end);
      if c.pageBits <= 8 { ChunkStaysInside(c, offset, end); }
      var len := EepromLen(c, offset, end);
      ChunksTile(c, offset + len, end);
      assert Chunks(c, offset, end)[1..] == Chunks(c, offset + len, end);
    }
  }

  lemma ChunkNotBefore(c: Config, offset: nat, end: nat, i: nat)
    requires i < |Chunks(c, offset, end)|
    ensures offset <= Chunks(c, offset, end)[i].offset
  {
    ChunksTile(c, offset, end);
    assert Chunks(c, offset, end)[i] in Chunks(c, offset, end);
  }

  /** Each byte has the acknowledgement of the one chunk that carries it. */
  lemma {:induction false} AckedByItsChunk(c: Config, responds: nat -> bool, n: nat, offset: nat, end: nat, i: nat,
                                           k: nat)
    requires i < |Chunks(c, offset, end)| && offset + k < end
    requires var t := Chunks(c, offset, end)[i]; t.offset <= offset + k < t.offset + t.len
    ensures Acked(c, responds, n, offset, end)[k] == responds(n + i)
    decreases end - offset
  {
    ChunkFits(c, offset, end);
    var len := EepromLen(c, offset, end);
    if i > 0 {
      ChunkNotBefore(c, offset + len, end, i - 1);
      AckedByItsChunk(c, responds, n + 1, offset + len, end, i - 1, k - len);
    }
  }

  lemma AllWritten(place: nat -> Cell, cells: map<Cell, byte>, offset: nat, data: seq<byte>, mask: seq<bool>)
    requires |mask| == |data| && Distinct(place, offset + |data|)
    ensures var written := FlatWrite(place, cells, offset, data, mask, |data|);
            forall k: nat | k < |data| ::
              Get(written, place(offset + k)) == if mask[k] then data[k] else Get(cells, place(offset + k))
  {
    forall k: nat | k < |data|
      ensures Get(FlatWrite(place, cells, offset, data, mask, |data|), place(offset + k))
           == if mask[k] then data[k] else Get(cells, place(offset + k))
    {
      WrittenIsRead(place, cells, offset, data, mask, |data|, k);
    }
  }

  /** A bus that acknowledges every transfer lets every byte through. */
  lemma {:induction false} AllAcked(c: Config, responds: nat -> bool, n: nat, offset: nat, end: nat)
    requires forall m: nat | m >= n :: responds(m)
    ensures forall k | 0 <= k < |Acked(c, responds, n, offset, end)| :: Acked(c, responds, n, offset, end)[k]
    decreases end - offset
  {
    if offset < end {
      ChunkFits(c, offset, end);
      AllAcked(c, responds, n + 1, offset + EepromLen(c, offset, end), end);
    }
  }

  lemma ChunkFollows(c: Config, dev: byte, offset: nat, end: nat)
    requires c.pageBits <= 8 && offset < end
    ensures forall k: nat | k < EepromLen(c, offset, end) ::
              Visits(c, CellOf(c, dev, offset))(k) == Layout(c, dev)(offset + k)
  {
    ChunkStaysInside(c, offset, end);
    forall k: nat | k < EepromLen(c, offset, end)
      ensures Visits(c, CellOf(c, dev, offset))(k) == Layout(c, dev)(offset + k)
    {
      CounterFollows(c, dev, offset, EepromLen(c, offset, end), k);
    }
  }

  /** The end of the range as a 32-bit `unsigned` holds it. */
  function End(offset: nat, cnt: nat): nat { (offset + cnt) % 0x1_0000_0000 }

  /** The result of a transfer is that of its last chunk alone. */
  function Status(mask: seq<bool>): int { if mask == [] || mask[|mask| - 1] then 0 else 1 }

  lemma WholeRange(offset: nat, cnt: nat)
    requires offset + cnt < 0x1_0000_0000
    ensures End(offset, cnt) == offset + cnt
  {
  }

  /** The effect of one transfer that visits `visit` on the device and on the caller's buffer. */
  ghost predicate Transferred(visit: nat -> Cell, cells: map<Cell, byte>, cells': map<Cell, byte>, data: seq<byte>,
                              data': seq<byte>,
                              at: nat, len: nat, read: bool)
    requires at + len <= |data| == |data'|
  {
    if read then
      cells' == cells
      && forall k: nat | k < |data| :: data'[k] == if at <= k < at + len then Get(cells, visit(k - at)) else data[k]
    else
      data' == data && cells' == Burst(cells, visit, data, at, len)
  }

  /** What is meant once the first `at` bytes have been dealt with. */
  ghost predicate Progress(place: nat -> Cell, cells: map<Cell, byte>, cells': map<Cell, byte>, offset: nat,
                           data: seq<byte>, data': seq<byte>,
                           mask: seq<bool>, at: nat, read: bool)
    requires at <= |mask| <= |data| == |data'|
  {
    if read then
      cells' == cells
      && forall k: nat | k < |data| :: data'[k] == if k < at && mask[k] then Get(cells, place(offset + k)) else data[k]
    else
      data' == data && cells' == FlatWrite(place, cells, offset, data, mask, at)
  }

  lemma TransferIsProgress(place: nat -> Cell, visit: nat -> Cell, cells: map<Cell, byte>, cells': map<Cell, byte>,
                           cells'': map<Cell, byte>,
                           offset: nat, data: seq<byte>, data': seq<byte>, data'': seq<byte>, mask: seq<bool>, at: nat,
                               len: nat, read: bool)
    requires at + len <= |mask| <= |data| == |data'| == |data''|
    requires Progress(place, cells, cells', offset, data, data', mask, at, read)
    requires Transferred(visit, cells', cells'', data', data'', at, len, read)
    requires forall k: nat | k < len :: visit(k) == place(offset + at + k)
    requires forall k | at <= k < at + len :: mask[k]
    ensures Progress(place, cells, cells'', offset, data, data'', mask, at + len, read)
  {
    if read {
      forall k: nat | k < |data|
        ensures data''[k] == if k < at + len && mask[k] then Get(cells, place(offset + k)) else data[k]
      {
        if at <= k < at + len { assert visit(k - at) == place(offset + at + (k - at)); }
      }
    } else {
      BurstIsFlat(place, visit, cells, offset, data, mask, at, len);
    }
  }

  lemma RefusalIsProgress(place: nat -> Cell, cells: map<Cell, byte>, cells': map<Cell, byte>,
                          offset: nat, data: seq<byte>, data': seq<byte>, mask: seq<bool>, at: nat, len: nat,
                              read: bool)
    requires at + len <= |mask| <= |data| == |data'|
    requires Progress(place, cells, cells', offset, data, data', mask, at, read)
    requires forall k | at <= k < at + len :: !mask[k]
    ensures Progress(place, cells, cells', offset, data, data', mask, at + len, read)
  {
    if !read { RefusedIsFlat(place, cells, offset, data, mask, at, len); }
  }

  /** One turn of the loop, acknowledged or not. */
  lemma ChunkIsProgress(c: Config, dev: byte, o: nat, end: nat, cells: map<Cell, byte>, cells': map<Cell, byte>,
                        cells'': map<Cell, byte>,
                        data: seq<byte>, data': seq<byte>, data'': seq<byte>, mask: seq<bool>, at: nat, read: bool,
                            ok: bool)
    requires c.pageBits <= 8 && at <= o < end && 0 < EepromLen(c, o, end) <= |mask| - at
    requires |mask| <= |data| == |data'| == |data''|
    requires Progress(Layout(c, dev), cells, cells', o - at, data, data', mask, at, read)
    requires ok ==>
               Transferred(Visits(c, CellOf(c, dev, o)), cells', cells'', data', data'', at, EepromLen(c, o, end), read)
    requires !ok ==> cells'' == cells' && data'' == data'
    requires forall k | at <= k < at + EepromLen(c, o, end) :: mask[k] == ok
    ensures Progress(Layout(c, dev), cells, cells'', o - at, data, data'', mask, at + EepromLen(c, o, end), read)
  {
    var len := EepromLen(c, o, end);
    if ok {
      ChunkFollows(c, dev, o, end);
      TransferIsProgress(Layout(c, dev), Visits(c, CellOf(c, dev, o)), cells, cells', cells'', o - at, data, data',
                         data'', mask, at, len, read);
    } else {
      RefusalIsProgress(Layout(c, dev), cells, cells', o - at, data, data', mask, at, len, read);
    }
  }

  lemma AckedNext(c: Config, responds: nat -> bool, n: nat, offset: nat, end: nat, mask: seq<bool>, at: nat)
    requires offset < end && at <= |mask|
    requires mask[at..] == Acked(c, responds, n, offset, end)
    ensures var len := EepromLen(c, offset, end);
            && 0 < len <= |mask| - at && offset + len <= end
            && mask[at + len..] == Acked(c, responds, n + 1, offset + len, end)
            && forall k | at <= k < at + len :: mask[k] == responds(n)
  {
    ChunkFits(c, offset, end);
    var len := EepromLen(c, offset, end);
    assert mask[at + len..] == mask[at..][len..];
    assert forall k | at <= k < at + len :: mask[k] == mask[at..][k - at];
  }

  lemma AllBack(place: nat -> Cell, cells: map<Cell, byte>, offset: nat, src: seq<byte>, dst: seq<byte>,
                dst': seq<byte>, stored: seq<bool>, fetched: seq<bool>)
    requires BroughtBack(place, cells, offset, src, dst, dst', stored, fetched)
    requires forall k | 0 <= k < |src| :: stored[k] && fetched[k]
    ensures dst' == src && Status(stored) == Status(fetched) == 0
  {
  }

  /** What a read brings back of a write to the same range: new bytes, old ones of the device, or none. */
  ghost predicate BroughtBack(place: nat -> Cell, cells: map<Cell, byte>, offset: nat, src: seq<byte>,
                              dst: seq<byte>, dst': seq<byte>, stored: seq<bool>, fetched: seq<bool>)
  {
    && |stored| == |fetched| == |src| == |dst| == |dst'|
    && forall k: nat {:trigger dst'[k]} | k < |src| ::
         dst'[k] == if !fetched[k] then dst[k] else if stored[k] then src[k] else Get(cells, place(offset + k))
  }

  lemma ReadBack(place: nat -> Cell, cells: map<Cell, byte>, cells': map<Cell, byte>, offset: nat, src: seq<byte>,
                 dst: seq<byte>, dst': seq<byte>, stored: seq<bool>, fetched: seq<bool>)
    requires |stored| == |fetched| == |src| == |dst| == |dst'| && Distinct(place, offset + |src|)
    requires Progress(place, cells, cells', offset, src, src, stored, |src|, false)
    requires Progress(place, cells', cells', offset, dst, dst', fetched, |src|, true)
    ensures BroughtBack(place, cells, offset, src, dst, dst', stored, fetched)
  {
    AllWritten(place, cells, offset, src, stored);
  }

  lemma ChunksNext(c: Config, before: seq<Transfer>, offset: nat, end: nat)
    requires offset < end && EepromLen(c, offset, end) > 0
    ensures var len := EepromLen(c, offset, end);
            before + [Transfer(offset, len)] + Chunks(c, offset + len, end) == before + Chunks(c, offset, end)
  {
  }

  /** The bus with the device on it; `responds(n)` says whether transfer number `n` is acknowledged. */
  class Bus {
    const config: Config
    const responds: nat -> bool
    var cells: map<Cell, byte>
    var transfers: seq<Transfer>

    constructor (config: Config, responds: nat -> bool, cells: map<Cell, byte>)
      ensures this.config == config && this.responds == responds && this.cells == cells && transfers == []
    {
      this.config, this.responds, this.cells, transfers := config, responds, cells, [];
    }

    method EepromRwBlock(offset: nat, start: Cell, buffer: array<byte>, at: nat, len: nat, read: bool)
      returns (ret: int)
      requires at + len <= buffer.Length
      modifies this, buffer
      ensures transfers == old(transfers) + [Transfer(offset, len)]
      ensures ret == if responds(|old(transfers)|) then 0 else 1
      ensures ret == 0 ==>
                Transferred(Visits(config, start), old(cells), cells, old(buffer[..]), buffer[..], at, len, read)
      ensures ret != 0 ==> cells == old(cells) && buffer[..] == old(buffer[..])
    {
      var ok := responds(|transfers|);
      transfers := transfers + [Transfer(offset, len)];
      if ok {
        if read {
          forall k | at <= k < at + len {
            buffer[k] := Get(cells, Visits(config, start)(k - at));
          }
        } else {
          cells := Burst(cells, Visits(config, start), buffer[..], at, len);
        }
      }
      ret := if ok then 0 else 1;
    }

    /** One turn of the loop in `EepromRw`, which started at `offset` with `cells0` and `data0`. */
    method RwChunk(dev: byte, o: nat, end: nat, buffer: array<byte>, at: nat, read: bool,
                   ghost offset: nat, ghost cells0: map<Cell, byte>, ghost data0: seq<byte>, ghost mask: seq<bool>)
      returns (ret: int, o': nat, at': nat)
      requires o < end && o == offset + at && at <= |mask| <= |data0| == buffer.Length
      requires mask[at..] == Acked(config, responds, |transfers|, o, end)
      requires config.pageBits <= 8 ==>
                 Progress(Layout(config, dev), cells0, cells, offset, data0, buffer[..], mask, at, read)
      modifies this, buffer
      ensures o < o' == offset + at' && at' <= |mask|
      ensures transfers + Chunks(config, o', end) == old(transfers) + Chunks(config, o, end)
      ensures mask[at'..] == Acked(config, responds, |transfers|, o', end)
      ensures config.pageBits <= 8 ==>
                Progress(Layout(config, dev), cells0, cells, offset, data0, buffer[..], mask, at', read)
      ensures ret == if mask[at' - 1] then 0 else 1
    {
      AckedNext(config, responds, |transfers|, o, end, mask, at);
      var len := EepromLen(config, o, end);
      ChunksNext(config, transfers, o, end);
      ghost var cells', data' := cells, buffer[..];
      ret := EepromRwBlock(o, CellOf(config, dev, o), buffer, at, len, read);
      if config.pageBits <= 8 {
        ChunkIsProgress(config, dev, o, end, cells0, cells', cells, data0, data', buffer[..], mask, at, read, ret == 0);
      }
      o', at' := o + len, at + len;
    }

    /** The loop of `EepromRw`. */
    method RwRange(dev: byte, offset: nat, end: nat, buffer: array<byte>, read: bool, ghost mask: seq<bool>)
      returns (rcode: int)
      requires mask == Acked(config, responds, |transfers|, offset, end) && |mask| <= buffer.Length
      modifies this, buffer
      ensures transfers == old(transfers) + Chunks(config, offset, end)
      ensures config.pageBits <= 8 ==>
                Progress(Layout(config, dev), old(cells), cells, offset, old(buffer[..]),
                         buffer[..], mask, |mask|, read)
      ensures rcode == Status(mask)
    {
      var o, at: nat := offset, 0;
      rcode := 0;
      while o < end
        invariant o == offset + at && at <= |mask|
        invariant transfers + Chunks(config, o, end) == old(transfers) + Chunks(config, offset, end)
        invariant mask[at..] == Acked(config, responds, |transfers|, o, end)
        invariant config.pageBits <= 8 ==>
                    Progress(Layout(config, dev), old(cells), cells, offset, old(buffer[..]),
                             buffer[..], mask, at, read)
        invariant rcode == if at == 0 || mask[at - 1] then 0 else 1
        decreases end - o
      {
        rcode, o, at := RwChunk(dev, o, end, buffer, at, read, offset, old(cells), old(buffer[..]), mask);
      }
    }

    method EepromRw(dev: byte, offset: nat, buffer: array<byte>, cnt: nat, read: bool) returns (rcode: int)
      requires offset < 0x1_0000_0000 && cnt < 0x1_0000_0000 && cnt <= buffer.Length
      modifies this, buffer
      ensures transfers == old(transfers) + Chunks(config, offset, End(offset, cnt))
      ensures var mask := Acked(config, responds, |old(transfers)|, offset, End(offset, cnt));
              && |mask| == (if offset + cnt < 0x1_0000_0000 then cnt else 0)
              && (config.pageBits <= 8 ==>
                    Progress(Layout(config, dev), old(cells), cells, offset, old(buffer[..]), buffer[..], mask, |mask|,
                             read))
              && rcode == Status(mask)
    {
      var end := End(offset, cnt);
      rcode := RwRange(dev, offset, end, buffer, read, Acked(config, responds, |transfers|, offset, end));
    }

    /** `eeprom_read` or `eeprom_write` of a whole buffer that does not wrap 32 bits. */
    method RwBuffer(dev: byte, offset: nat, buffer: array<byte>, read: bool, ghost mask: seq<bool>) returns (rcode: int)
      requires offset + buffer.Length < 0x1_0000_0000 && config.pageBits <= 8
      requires mask == Acked(config, responds, |transfers|, offset, offset + buffer.Length)
      modifies this, buffer
      ensures |transfers| == |old(transfers)| + |Chunks(config, offset, offset + buffer.Length)|
      ensures rcode == Status(mask)
      ensures Progress(Layout(config, dev), old(cells), cells, offset, old(buffer[..]), buffer[..], mask, |mask|, read)
    {
      WholeRange(offset, buffer.Length);
      rcode := EepromRw(dev, offset, buffer, buffer.Length, read);
    }

    /**
      `eeprom_write` and then `eeprom_read` of the same range. A byte comes back
      if both the chunk that wrote it and the one that read it were
      acknowledged; otherwise the old byte of the device or of the buffer stays.
     */
    method WriteThenRead(dev: byte, offset: nat, src: array<byte>, dst: array<byte>) returns (written: int, read: int)
      requires src != dst && src.Length == dst.Length && offset + src.Length < 0x1_0000_0000
      requires config.pageBits <= 8 && Selectable(config, dev, offset + src.Length)
      modifies this, src, dst
      ensures src[..] == old(src[..])
      ensures var end, n := offset + src.Length, |old(transfers)|;
              var stored := Acked(config, responds, n, offset, end);
              var fetched := Acked(config, responds, n + |Chunks(config, offset, end)|, offset, end);
              && written == Status(stored) && read == Status(fetched)
              && BroughtBack(Layout(config, dev), old(cells), offset, src[..], old(dst[..]), dst[..], stored, fetched)
    {
      ghost var end, n, was, dst0 := offset + src.Length, |transfers|, cells, dst[..];
      ghost var m := n + |Chunks(config, offset, end)|;
      ghost var stored, fetched := Acked(config, responds, n, offset, end), Acked(config, responds, m, offset, end);
      written := RwBuffer(dev, offset, src, false, stored);
      read := RwBuffer(dev, offset, dst, true, fetched);
      LayoutIsDistinct(config, dev, end);
      ReadBack(Layout(config, dev), was, cells, offset, src[..], dst0, dst[..], stored, fetched);
    }

    /** On a bus that acknowledges every transfer a later read returns what was written. */
    method RoundTrip(dev: byte, offset: nat, src: array<byte>, dst: array<byte>) returns (written: int, read: int)
      requires src != dst && src.Length == dst.Length && offset + src.Length < 0x1_0000_0000
      requires config.pageBits <= 8 && Selectable(config, dev, offset + src.Length)
      requires forall n: nat | n >= |transfers| :: responds(n)
      modifies this, src, dst
      ensures written == 0 && read == 0 && dst[..] == old(src[..])
    {
      ghost var end, n, was, dst0 := offset + src.Length, |transfers|, cells, dst[..];
      ghost var m := n + |Chunks(config, offset, end)|;
      ghost var stored, fetched := Acked(config, responds, n, offset, end), Acked(config, responds, m, offset, end);
      AllAcked(config, responds, n, offset, end);
      AllAcked(config, responds, m, offset, end);
      written, read := WriteThenRead(dev, offset, src, dst);
      AllBack(Layout(config, dev), was, offset, src[..], dst0, dst[..], stored, fetched);
    }
  }
}
