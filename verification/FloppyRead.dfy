/**
  The floppy read engine: block addresses become track, head and sector bytes
  of a command, a read is cut into chunks that stay on one track, and two
  nested counters decide when to retry, to recalibrate and to give up.
  Every method is proved against the functions of `FloppySchedule`, which say
  what a read does for each behaviour of the controller.
 */
module FloppyRead {
  import opened Arithmetic
  import opened Bytes
  import opened FloppySchedule

  const FDC_RW_RETRIES := 3
  const FDC_CAL_RETRIES := 3

  // ---------------------------------------------------------------- addresses

  datatype Geometry = Geometry(sect: nat, head: nat, track: nat, sectCode: nat)

  /** What fits the one-byte fields of a command. */
  predicate ValidGeometry(g: Geometry) {
    0 < g.sect < 256 && 0 < g.head <= 2 && 0 < g.track <= 256
  }

  datatype Chs = Chs(track: int, head: int, sector: int)

  /** Blocks per track, over all heads. */
  function PerTrack(g: Geometry): (n: nat)
    requires ValidGeometry(g)
    ensures n > 0
  {
    if g.head == 1 then g.sect else 2 * g.sect
  }

  lemma PerTrackIsProduct(g: Geometry)
    requires ValidGeometry(g)
    ensures PerTrack(g) == g.sect * g.head
  {
  }

  /** Track, head and 1-based sector, as `fdc_issue_cmd` computes them. */
  function ToChs(g: Geometry, blnr: nat): Chs
    requires ValidGeometry(g)
  {
    var rest := blnr % PerTrack(g);
    Chs(blnr / PerTrack(g), rest / g.sect, rest % g.sect + 1)
  }

  function ToBlock(g: Geometry, c: Chs): int
    requires ValidGeometry(g)
  {
    c.track * PerTrack(g) + c.head * g.sect + c.sector - 1
  }

  predicate OnDisk(g: Geometry, c: Chs) {
    0 <= c.track && 0 <= c.head < g.head && 1 <= c.sector <= g.sect
  }

  /** Every position on the disk is the position of its block number. */
  lemma ChsOfBlock(g: Geometry, c: Chs)
    requires ValidGeometry(g) && OnDisk(g, c)
    ensures ToBlock(g, c) >= 0 && ToChs(g, ToBlock(g, c)) == c
  {
    var rest := c.head * g.sect + c.sector - 1;
    assert c.head == 0 || c.head == 1;
    assert rest < PerTrack(g);
    MulMono(0, c.track, PerTrack(g));
    DivModUnique(ToBlock(g, c), PerTrack(g), c.track, rest);
    DivModUnique(rest, g.sect, c.head, c.sector - 1);
  }

  /** Every block number is the block number of its position. */
  lemma BlockOfChs(g: Geometry, blnr: nat)
    requires ValidGeometry(g)
    ensures OnDisk(g, ToChs(g, blnr)) && ToBlock(g, ToChs(g, blnr)) == blnr
    ensures ToChs(g, blnr).sector - 1 == blnr % g.sect
  {
    var t, rest := Split(blnr, PerTrack(g));
    var h, r := Split(rest, g.sect);
    assert rest < g.head * g.sect by { PerTrackIsProduct(g); }
    MulLess(h, g.head, g.sect);
    PerTrackIsProduct(g);
    assert t * PerTrack(g) == (t * g.head) * g.sect;
    assert (t * g.head + h) * g.sect == (t * g.head) * g.sect + h * g.sect;
    DivModUnique(blnr, g.sect, t * g.head + h, r);
  }

  /** Blocks up to the end of the track follow each other on the same track and head. */
  lemma SameTrack(g: Geometry, blnr: nat, q: nat)
    requires ValidGeometry(g) && q < g.sect - blnr % g.sect
    ensures var c := ToChs(g, blnr); ToChs(g, blnr + q) == Chs(c.track, c.head, c.sector + q)
  {
    BlockOfChs(g, blnr);
    var c := ToChs(g, blnr);
    ChsOfBlock(g, Chs(c.track, c.head, c.sector + q));
  }

  predicate Fits(c: Chs) {
    0 <= c.track < 256 && 0 <= c.head < 256 && 0 <= c.sector < 256
  }

  /** The position of a block on the disk fits the one-byte fields of a command. */
  lemma FieldsFit(g: Geometry, blnr: nat, limit: nat)
    requires ValidGeometry(g) && blnr < limit == g.track * PerTrack(g)
    ensures Fits(ToChs(g, blnr))
  {
    BlockOfChs(g, blnr);
    MulLess(ToChs(g, blnr).track, g.track, PerTrack(g));
  }

  /** The positions of the blocks below `limit` fit the fields of a command. */
  ghost predicate BlocksFit(g: Geometry, limit: nat)
    requires ValidGeometry(g)
  {
    forall b: nat {:trigger ToChs(g, b)} | b < limit :: Fits(ToChs(g, b))
  }

  lemma DiskFits(g: Geometry, limit: nat)
    requires ValidGeometry(g) && limit <= g.track * PerTrack(g)
    ensures BlocksFit(g, limit)
  {
    forall b: nat | b < limit ensures Fits(ToChs(g, b)) { FieldsFit(g, b, g.track * PerTrack(g)); }
  }

  // ---------------------------------------------------------------- disk and controller

  function SectSize(code: nat): (n: nat)
    ensures n >= 128
  {
    if code == 0 then 0x80 else 2 * SectSize(code - 1)
  }

  /** The sizes of a sector: 128 bytes, doubled for every step of the code. */
  lemma SectSizes(code: nat)
    ensures SectSize(0) == 128 && SectSize(2) == 512 && SectSize(code + 1) == 2 * SectSize(code)
  {
    assert SectSize(1) == 256;
  }

  /** The contents of a disk: the bytes of every sector. */
  type Disk = Chs -> seq<byte>

  ghost predicate ValidDisk(disk: Disk, size: nat) {
    forall c :: |disk(c)| == size
  }

  /** Byte `i` of block `start + i / size`: what a read from block `start` on has to deliver. */
  ghost function Wanted(g: Geometry, disk: Disk, start: nat, i: nat): byte
    requires ValidGeometry(g) && ValidDisk(disk, SectSize(g.sectCode))
  {
    var size := SectSize(g.sectCode);
    disk(ToChs(g, start + i / size))[i % size]
  }

  const FDC_CMD_READ: byte := 0x06
  const FDC_CMD_RECALIBRATE: byte := 0x07
  const FDC_CMD_SENSE_INT: byte := 0x08
  const FDC_CMD_SEEK: byte := 0x0F

  /** The command bytes the read engine fills; the others are constants. */
  datatype Command = Command(code: byte, drive: byte, track: byte, head: byte, sector: byte)

  /** The track under the heads behind a command: a seek that ends well finds its track, a recalibration track 0. */
  function Moved(cmd: Command, good: bool, cylinder: nat): nat {
    if cmd.code == 0x07 then 0 else if cmd.code == 0x0F && good then cmd.track else cylinder
  }

  /** The `i`-th byte of a READ that started at `c`: the sectors of one track follow each other. */
  function FifoByte(g: Geometry, disk: Disk, c: Chs, i: nat): byte
    requires ValidDisk(disk, SectSize(g.sectCode))
  {
    var size := SectSize(g.sectCode);
    disk(Chs(c.track, c.head, c.sector + i / size))[i % size]
  }

  /** A READ that starts at block `blnr` and stays on its track delivers what is wanted there. */
  lemma FifoIsWanted(g: Geometry, disk: Disk, start: nat, blnr: nat, blocks: nat, i: nat)
    requires ValidGeometry(g) && ValidDisk(disk, SectSize(g.sectCode))
    requires start <= blnr && OnOneTrack(g.sect, Read(blnr, blocks)) && i < blocks * SectSize(g.sectCode)
    ensures FifoByte(g, disk, ToChs(g, blnr), i) == Wanted(g, disk, start, (blnr - start) * SectSize(g.sectCode) + i)
  {
    var size := SectSize(g.sectCode);
    DivModShift(blnr - start, i, size);
    DivBound(i, blocks, size);
    var q, r := Split(i, size);
    SameTrack(g, blnr, q);
  }

  /** `goal` is the contents of the blocks from `start` on. */
  ghost predicate IsGoal(g: Geometry, disk: Disk, start: nat, goal: seq<byte>)
    requires ValidGeometry(g) && ValidDisk(disk, SectSize(g.sectCode))
  {
    forall k: nat {:trigger Wanted(g, disk, start, k)} | k < |goal| :: goal[k] == Wanted(g, disk, start, k)
  }

  lemma ChunkOfGoal(g: Geometry, disk: Disk, start: nat, goal: seq<byte>, blnr: nat, blocks: nat, offset: nat, len: nat)
    requires ValidGeometry(g) && ValidDisk(disk, SectSize(g.sectCode)) && IsGoal(g, disk, start, goal)
    requires start <= blnr && OnOneTrack(g.sect, Read(blnr, blocks)) && offset + len <= |goal|
    requires len == blocks * SectSize(g.sectCode) && offset == (blnr - start) * SectSize(g.sectCode)
    ensures IsStream(g, disk, ToChs(g, blnr), goal[offset..offset + len])
  {
    forall i: nat | i < len ensures goal[offset..offset + len][i] == FifoByte(g, disk, ToChs(g, blnr), i) {
      FifoIsWanted(g, disk, start, blnr, blocks, i);
    }
  }

  /** A READ that starts at `c` begins with the bytes `stream`. */
  ghost predicate IsStream(g: Geometry, disk: Disk, c: Chs, stream: seq<byte>)
    requires ValidDisk(disk, SectSize(g.sectCode))
  {
    forall i: nat {:trigger FifoByte(g, disk, c, i)} | i < |stream| :: stream[i] == FifoByte(g, disk, c, i)
  }

  /**
    The cursors between two attempts: the next chunk starts at `offset`, where
    block `blnr` belongs, and ends with its track or with the request.
   */
  predicate Cursors(sect: nat, size: nat, start: nat, count: nat, blnr: nat, blocks: nat, readblk: nat, offset: nat) {
    && sect > 0 && start <= blnr && blocks + (blnr - start) == count
    && offset == (blnr - start) * size && offset <= count * size
    && readblk <= blocks && (readblk == 0 ==> blocks == 0)
    && blnr % sect + readblk <= sect && (readblk < blocks ==> blnr % sect + readblk == sect)
  }

  lemma CursorsAdvance(sect: nat, size: nat, start: nat, count: nat, blnr: nat, blocks: nat, readblk: nat, offset: nat)
    requires Cursors(sect, size, start, count, blnr, blocks, readblk, offset)
    ensures offset + readblk * size <= count * size
    ensures var rest := blocks - readblk;
            if rest == 0 then offset + readblk * size == count * size
            else && readblk > 0
                 && Cursors(sect, size, start, count, blnr + readblk, rest, if sect > rest then rest else sect,
                            offset + readblk * size)
  {
    ChunkBounds(blnr - start, readblk, count, size);
    if readblk < blocks { NextTrack(blnr, readblk, sect); }
  }

  /** Behind a complete chunk the cursors agree again, or the read is at its end. */
  lemma CursorNext(sect: nat, size: nat, start: nat, count: nat, blnr: nat, c: Cursor)
    requires Cursors(sect, size, start, count, blnr, c.blocks, c.readblk, c.offset)
    ensures c.offset + c.readblk * size <= count * size
    ensures var c' := c.Next(sect, c.readblk * size);
            if c'.blocks == 0 then c'.offset == count * size && blnr + c.readblk == start + count
            else && Cursors(sect, size, start, count, blnr + c.readblk, c'.blocks, c'.readblk, c'.offset)
                 && c'.blocks < c.blocks
                 && Job(blnr + c.readblk, c'.blocks, c'.readblk) == NextJob(sect, Job(blnr, c.blocks, c.readblk))
  {
    CursorsAdvance(sect, size, start, count, blnr, c.blocks, c.readblk, c.offset);
  }

  /** The variables of the read loop; `seeking` tells the label `retrycal` from the label `retryrw`. */
  datatype Cursor = Cursor(blocks: nat, readblk: nat, offset: nat, rw: nat, cal: nat, seeking: bool) {

    /** Behind a complete chunk of `len` bytes: the next one is a track, or what is left. */
    function Next(sect: nat, len: nat): Cursor
      requires readblk <= blocks
    {
      var rest := blocks - readblk;
      this.(blocks := rest, readblk := if sect > rest then rest else sect, offset := offset + len, seeking := true)
    }

    /** Fewer blocks left, or more retries used up, or a seek behind us. */
    predicate Below(c: Cursor) {
      || blocks < c.blocks
      || (&& blocks == c.blocks
          && (cal > c.cal || (cal == c.cal && (rw > c.rw || (rw == c.rw && c.seeking && !seeking)))))
    }
  }

  /** The next chunk of a request: its bytes, and where the cursors are behind it. */
  lemma ChunkAhead(g: Geometry, disk: Disk, start: nat, count: nat, goal: seq<byte>, blnr: nat, c: Cursor)
    requires ValidGeometry(g) && ValidDisk(disk, SectSize(g.sectCode)) && IsGoal(g, disk, start, goal)
    requires Cursors(g.sect, SectSize(g.sectCode), start, count, blnr, c.blocks, c.readblk, c.offset)
    requires |goal| == count * SectSize(g.sectCode)
    ensures var len := c.readblk * SectSize(g.sectCode);
            var c' := c.Next(g.sect, len);
            && c.offset + len <= |goal| && IsStream(g, disk, ToChs(g, blnr), goal[c.offset..c.offset + len])
            && (len > 0 ==> blnr < start + count)
            && if c'.blocks == 0 then c'.offset == |goal| && blnr + c.readblk == start + count
               else && Cursors(g.sect, SectSize(g.sectCode), start, count,
                               blnr + c.readblk, c'.blocks, c'.readblk, c'.offset)
                    && c'.blocks < c.blocks
                    && Job(blnr + c.readblk, c'.blocks, c'.readblk) == NextJob(g.sect, Job(blnr, c.blocks, c.readblk))
  {
    CursorNext(g.sect, SectSize(g.sectCode), start, count, blnr, c);
    ChunkOfGoal(g, disk, start, goal, blnr, c.readblk, c.offset, c.readblk * SectSize(g.sectCode));
  }

  class Controller {
    const geo: Geometry
    const disk: Disk
    const schedule: Schedule

    // the answers that were used up
    var use: Use
    // the command structure of the driver
    var blnr: nat
    var drive: byte
    var cmd: Command
    // the device: the track under the heads, where the current READ started and how many bytes it has delivered
    var cylinder: nat
    var latch: Chs
    var fifo: nat
    var motor: bool
    var interrupts: bool
    // history: how many recalibrations were tried, and the READs that were accepted
    ghost var recals: nat
    ghost var issued: seq<Read>

    ghost predicate Valid()
      reads this
    {
      ValidGeometry(geo) && ValidDisk(disk, SectSize(geo.sectCode)) && drive < 4
    }

    /** Nothing but the answers used, the command bytes and the device's position changed. */
    twostate predicate Quiet()
      reads this
    {
      && blnr == old(blnr) && drive == old(drive) && interrupts == old(interrupts) && motor == old(motor)
      && recals == old(recals) && issued == old(issued)
    }

    /**
      `fdc_issue_cmd`: fills the command bytes and hands them to the device. It
      moves its heads for a seek or a recalibration. A READ delivers from the
      track they are on; the head is selected by the drive byte.
     */
    method FdcIssueCmd(command: byte) returns (ok: bool)
      requires Valid()
      modifies this
      ensures Valid() && Quiet() && ok == schedule.accepts(old(use.cmds)) && use == old(use).(cmds := old(use.cmds) + 1)
      ensures var c := ToChs(geo, blnr);
              && cmd.track == c.track % 256 && cmd.head == c.head % 256
              && cmd.drive == drive + (if command != FDC_CMD_RECALIBRATE && c.head != 0 then 4 else 0)
              && (command == FDC_CMD_READ ==> cmd.sector == c.sector % 256 && cmd.code == command + 0x40)
              && (command != FDC_CMD_READ ==> cmd.code == command)
      ensures cylinder == if ok then Moved(cmd, schedule.seeks(old(use.seeks)), old(cylinder)) else old(cylinder)
      ensures command == FDC_CMD_READ && ok ==> latch == Chs(cylinder, cmd.drive / 4, cmd.sector) && fifo == 0
    {
      var c := ToChs(geo, blnr);
      cmd := cmd.(code := command, head := c.head % 256, track := c.track % 256);
      if c.head != 0 {
        cmd := cmd.(drive := drive + 4);
      } else {
        cmd := cmd.(drive := drive);
      }
      if command == FDC_CMD_READ {
        cmd := cmd.(sector := c.sector % 256, code := command + 0x40);
      } else if command == FDC_CMD_RECALIBRATE {
        cmd := cmd.(drive := cmd.drive % 4);
      }
      ok := schedule.accepts(use.cmds);
      use := use.(cmds := use.cmds + 1);
      if ok {
        cylinder := Moved(cmd, schedule.seeks(use.seeks), cylinder);
      }
      if ok && command == FDC_CMD_READ {
        latch, fifo := Chs(cylinder, cmd.drive / 4, cmd.sector), 0;
      }
    }

    /** A command without data, the wait for its interrupt, and the sense command that fetches its result. */
    method CommandAndSense(command: byte) returns (ok: bool)
      requires Valid() && command != FDC_CMD_READ
      modifies this
      ensures Valid() && Quiet() && Sensed(ok, use) == Sense(schedule, old(use))
      ensures ok && command == FDC_CMD_RECALIBRATE ==> cylinder == 0
      ensures ok && command == FDC_CMD_SEEK && schedule.seeks(old(use.seeks)) ==>
                cylinder == ToChs(geo, blnr).track % 256
    {
      ok := FdcIssueCmd(command);
      if !ok {
        return false;
      }
      ok := FdcIssueCmd(FDC_CMD_SENSE_INT);
    }

    method FdcRecalibrate() returns (ok: bool)
      requires Valid()
      modifies this
      ensures Valid() && recals == old(recals) + 1 && motor == old(motor)
      ensures blnr == old(blnr) && interrupts == old(interrupts) && issued == old(issued)
      ensures Sensed(ok, use) == Sense(schedule, old(use)) && (ok ==> cylinder == 0)
    {
      ok := CommandAndSense(FDC_CMD_RECALIBRATE);
      recals := recals + 1;
    }

    /** One byte of a READ of `len` bytes that began with answer `first`: delivered, or the transfer breaks off. */
    method NextByte(buffer: array<byte>, at: nat, ghost first: nat, ghost len: nat) returns (delivered: bool)
      requires Valid() && at < buffer.Length && first <= use.bytes < first + len
      requires use.bytes - first <= Streak(schedule.delivers, first, len)
      modifies this`use, this`fifo, buffer
      ensures delivered == (old(use.bytes) - first < Streak(schedule.delivers, first, len))
      ensures use == old(use).(bytes := old(use.bytes) + 1) && fifo == old(fifo) + if delivered then 1 else 0
      ensures forall k | 0 <= k < buffer.Length ::
                buffer[k] == if delivered && k == at then FifoByte(geo, disk, latch, old(fifo)) else old(buffer[k])
    {
      StreakAt(schedule.delivers, first, len, use.bytes - first);
      delivered := schedule.delivers(use.bytes);
      use := use.(bytes := use.bytes + 1);
      if delivered {
        buffer[at] := FifoByte(geo, disk, latch, fifo);
        fifo := fifo + 1;
      }
    }

    /**
      The byte loop of one READ. It ends with all bytes in place, or with the
      first transfer error; bytes outside the chunk are never touched.
     */
    method Transfer(buffer: array<byte>, offset: nat, len: nat, ghost stream: seq<byte>) returns (complete: bool)
      requires Valid() && offset + len <= buffer.Length && fifo == 0
      requires |stream| == len && IsStream(geo, disk, latch, stream)
      modifies this`use, this`fifo, buffer
      ensures complete == (Streak(schedule.delivers, old(use.bytes), len) == len)
      ensures use == old(use).(bytes := old(use.bytes) + BytesUsed(schedule.delivers, old(use.bytes), len))
      ensures forall k | 0 <= k < buffer.Length && !(offset <= k < offset + len) :: buffer[k] == old(buffer[k])
      ensures complete ==> buffer[offset..offset + len] == stream
    {
      var i := 0;
      while i < len
        invariant 0 <= i <= len && fifo == i && use == old(use).(bytes := old(use.bytes) + i)
        invariant i <= Streak(schedule.delivers, old(use.bytes), len)
        invariant forall k | 0 <= k < buffer.Length && !(offset <= k < offset + len) :: buffer[k] == old(buffer[k])
        invariant forall j | 0 <= j < i :: buffer[offset + j] == stream[j]
      {
        var delivered := NextByte(buffer, offset + i, old(use.bytes), len);
        if !delivered {
          return false;
        }
        i := i + 1;
      }
      return true;
    }

    /** The READ command, with the heads on the track of block `blnr` if there is anything to read. */
    method StartRead(ghost some: bool) returns (ok: bool)
      requires Valid() && (some ==> Fits(ToChs(geo, blnr)) && cylinder == ToChs(geo, blnr).track)
      modifies this
      ensures Valid() && Quiet() && ok == schedule.accepts(old(use.cmds)) && use == old(use).(cmds := old(use.cmds) + 1)
      ensures cylinder == old(cylinder) && (ok ==> fifo == 0 && (some ==> latch == ToChs(geo, blnr)))
    {
      BlockOfChs(geo, blnr);
      ok := FdcIssueCmd(FDC_CMD_READ);
    }

    /** The READ command and its byte loop, for the bytes `offset .. offset + len` of the request. */
    method ReadChunk(buffer: array<byte>, offset: nat, readblk: nat, len: nat, ghost goal: seq<byte>)
      returns (r: Attempt)
      requires Valid() && offset + len <= |goal| <= buffer.Length && buffer[..offset] == goal[..offset]
      requires len > 0 ==> Fits(ToChs(geo, blnr)) && cylinder == ToChs(geo, blnr).track
      requires IsStream(geo, disk, ToChs(geo, blnr), goal[offset..offset + len])
      modifies this, buffer
      ensures Valid() && blnr == old(blnr) && interrupts == old(interrupts) && motor == old(motor)
      ensures recals == old(recals) && cylinder == old(cylinder)
      ensures Attempted(schedule, old(use), len, r, use)
      ensures issued == old(issued) + if r.NotIssued? then [] else [Read(blnr, readblk)]
      ensures forall k | |goal| <= k < buffer.Length :: buffer[k] == old(buffer[k])
      ensures var end := if r.Complete? then offset + len else offset; buffer[..end] == goal[..end]
    {
      ghost var stream := goal[offset..offset + len];
      var ok := StartRead(len > 0);
      if !ok {
        return NotIssued;
      }
      issued := issued + [Read(blnr, readblk)];
      var complete := Transfer(buffer, offset, len, stream);
      assert buffer[..offset] == goal[..offset];
      if !complete {
        return Broken;
      }
      assert goal[..offset + len] == goal[..offset] + stream;
      assert buffer[..offset + len] == buffer[..offset] + buffer[offset..offset + len];
      return Complete;
    }

    /** The seek before a READ and the check of its status bit. */
    method SeekTrack() returns (accepted: bool, good: bool)
      requires Valid()
      modifies this
      ensures Valid() && Quiet() && Sought(schedule, old(use), accepted, good, use)
      ensures good ==> cylinder == ToChs(geo, blnr).track % 256
    {
      accepted := CommandAndSense(FDC_CMD_SEEK);
      good := false;
      if accepted {
        good := schedule.seeks(use.seeks);
        use := use.(seeks := use.seeks + 1);
      }
    }

    /** What a transfer error leads to: another try, a recalibration, or the end. */
    method Retry(retriesrw: nat, retriescal: nat) returns (exit: Exit, rw: nat, cal: nat, seeking: bool)
      requires Valid() && retriesrw <= 4 && retriescal <= 4
      modifies this
      ensures Valid() && blnr == old(blnr) && interrupts == old(interrupts) && motor == old(motor)
      ensures issued == old(issued)
      ensures var e := 5 * retriescal + retriesrw + 1;
              && (exit.GaveUp? <==> e == MAX_ERRORS) && recals == old(recals) - retriescal + Recals(e)
              && (exit.Done? ==> rw <= 4 && cal <= 4 && 5 * cal + rw == e && (seeking <==> e % 5 == 0))
              && Retried(schedule, old(use), e, exit, use)
              && (exit.Done? ==> cylinder == if seeking then 0 else old(cylinder))
    {
      rw, cal, seeking := retriesrw + 1, retriescal, false;
      if retriesrw > FDC_RW_RETRIES {
        cal := retriescal + 1;
        if retriescal > FDC_CAL_RETRIES {
          return GaveUp, rw, cal, false;
        }
        var recal := FdcRecalibrate();
        if !recal {
          return Refused, rw, cal, false;
        }
        rw, seeking := 0, true;
      }
      exit := Done;
    }

    /** The read from cursor `c` on, with the READs issued before it. */
    ghost function FromHere(c: Cursor): Played
      requires Valid() && ValidJob(geo.sect, Job(blnr, c.blocks, c.readblk)) && c.rw <= 4 && c.cal <= 4
      reads this
    {
      var j, size, e := Job(blnr, c.blocks, c.readblk), SectSize(geo.sectCode), 5 * c.cal + c.rw;
      After(issued, if c.seeking then PlaySeek(schedule, geo.sect, size, use, j, e)
                    else Play(schedule, geo.sect, size, use, j, e))
    }

    /** The read from a transfer error at cursor `c` on. */
    ghost function Failed(c: Cursor): Played
      requires Valid() && ValidJob(geo.sect, Job(blnr, c.blocks, c.readblk)) && c.rw <= 4 && c.cal <= 4
      reads this
    {
      var j, size, e := Job(blnr, c.blocks, c.readblk), SectSize(geo.sectCode), 5 * c.cal + c.rw;
      After(issued, PlayError(schedule, geo.sect, size, use, j, e + 1))
    }

    /** The cursors agree, what they have passed is in the buffer, and the heads are where the next READ starts. */
    ghost predicate Placed(buffer: array<byte>, goal: seq<byte>, start: nat, count: nat, c: Cursor, recals0: nat)
      requires Valid()
      reads this, buffer
    {
      && Cursors(geo.sect, SectSize(geo.sectCode), start, count, blnr, c.blocks, c.readblk, c.offset)
      && c.offset <= |goal| <= buffer.Length && buffer[..c.offset] == goal[..c.offset]
      && c.rw <= 4 && c.cal <= 4 && recals == recals0 + c.cal
      && (!c.seeking && c.blocks > 0 ==> cylinder == ToChs(geo, blnr).track)
    }

    /** One attempt at a chunk, and after a complete one the step to the next. */
    method Advance(buffer: array<byte>, c: Cursor, ghost goal: seq<byte>, ghost start: nat, ghost count: nat,
                   ghost recals0: nat)
      returns (r: Attempt, c': Cursor)
      requires Valid() && BlocksFit(geo, start + count) && IsGoal(geo, disk, start, goal) && !c.seeking
      requires count * SectSize(geo.sectCode) == |goal| && Placed(buffer, goal, start, count, c, recals0)
      modifies this, buffer
      ensures Valid() && interrupts == old(interrupts) && motor == old(motor) && recals == old(recals)
      ensures Attempted(schedule, old(use), c.readblk * SectSize(geo.sectCode), r, use)
      ensures forall k | |goal| <= k < buffer.Length :: buffer[k] == old(buffer[k])
      ensures issued == old(issued) + if r.NotIssued? then [] else [Read(old(blnr), c.readblk)]
      ensures !r.Complete? ==> c' == c && blnr == old(blnr) && Placed(buffer, goal, start, count, c, recals0)
      ensures r.Complete? ==> c' == c.Next(geo.sect, c.readblk * SectSize(geo.sectCode))
      ensures r.Complete? && c'.blocks == 0 ==> blnr == start + count && buffer[..|goal|] == goal
      ensures r.Complete? && c'.blocks != 0 ==>
                && c'.blocks < c.blocks && Placed(buffer, goal, start, count, c', recals0)
                && Job(blnr, c'.blocks, c'.readblk) == NextJob(geo.sect, Job(old(blnr), c.blocks, c.readblk))
    {
      c' := c;
      var len := c.readblk * SectSize(geo.sectCode);
      ChunkAhead(geo, disk, start, count, goal, blnr, c);
      r := ReadChunk(buffer, c.offset, c.readblk, len, goal);
      if r.Complete? {
        blnr := blnr + c.readblk;
        c' := c.Next(geo.sect, len);
        assert goal[..|goal|] == goal;
      }
    }

    /** Between two turns of the read loop of a read that is to end as `whole`. */
    ghost predicate Running(buffer: array<byte>, goal: seq<byte>, start: nat, count: nat, c: Cursor, whole: Played,
                            recals0: nat)
      requires Valid()
      reads this, buffer
    {
      Placed(buffer, goal, start, count, c, recals0) && FromHere(c) == whole
    }

    /** What every exit of the read loop leaves behind. */
    ghost predicate Ended(buffer: array<byte>, goal: seq<byte>, end: nat, exit: Exit, whole: Played, recals0: nat)
      requires Valid()
      reads this, buffer
    {
      && (exit.Done? ==> blnr == end && |goal| <= buffer.Length && buffer[..|goal|] == goal)
      && whole == Played(exit, use, issued, whole.errors) && recals == recals0 + Recals(whole.errors)
    }

    /** The label `retrycal`. */
    method SeekTurn(buffer: array<byte>, c: Cursor, ghost goal: seq<byte>, ghost start: nat, ghost count: nat,
                    ghost whole: Played, ghost recals0: nat)
      returns (over: bool, exit: Exit)
      requires Valid() && BlocksFit(geo, start + count) && c.seeking
      requires Running(buffer, goal, start, count, c, whole, recals0)
      modifies this
      ensures Valid() && interrupts == old(interrupts) && motor == old(motor) && !exit.FirstSeek?
      ensures if over then Ended(buffer, goal, start + count, exit, whole, recals0)
              else Running(buffer, goal, start, count, c.(seeking := false), whole, recals0)
    {
      ghost var u := use;
      var accepted, good := SeekTrack();
      over, exit := !good, if accepted then LaterSeek else Refused;
      SeekStep(schedule, geo.sect, SectSize(geo.sectCode), u, Job(blnr, c.blocks, c.readblk), 5 * c.cal + c.rw, issued,
               accepted, good, use);
    }

    /** What a transfer error leads to. */
    method ErrorTurn(buffer: array<byte>, c: Cursor, ghost goal: seq<byte>, ghost start: nat, ghost count: nat,
                     ghost whole: Played, ghost recals0: nat)
      returns (over: bool, exit: Exit, c': Cursor)
      requires Valid() && !c.seeking && Placed(buffer, goal, start, count, c, recals0)
      requires Failed(c) == whole
      modifies this
      ensures Valid() && interrupts == old(interrupts) && motor == old(motor) && !exit.FirstSeek?
      ensures if over then Ended(buffer, goal, start + count, exit, whole, recals0)
              else Running(buffer, goal, start, count, c', whole, recals0) && c'.Below(c)
    {
      ghost var u, e := use, 5 * c.cal + c.rw + 1;
      var rw, cal, seeking;
      exit, rw, cal, seeking := Retry(c.rw, c.cal);
      ErrorStep(schedule, geo.sect, SectSize(geo.sectCode), u, Job(blnr, c.blocks, c.readblk), e, issued, exit, use);
      over, c' := !exit.Done?, c.(rw := rw, cal := cal, seeking := seeking);
    }

    lemma EndsRefused(buffer: array<byte>, goal: seq<byte>, start: nat, count: nat, c: Cursor, whole: Played,
                      recals0: nat, u: Use)
      requires Valid() && Placed(buffer, goal, start, count, c, recals0)
      requires Attempted(schedule, u, c.readblk * SectSize(geo.sectCode), NotIssued, use)
      requires whole == After(issued, Play(schedule, geo.sect, SectSize(geo.sectCode), u,
                                           Job(blnr, c.blocks, c.readblk), 5 * c.cal + c.rw))
      ensures Ended(buffer, goal, start + count, Refused, whole, recals0)
    {
      RecalsIs(c.cal, c.rw);
      RefusedStep(schedule, geo.sect, SectSize(geo.sectCode), u, Job(blnr, c.blocks, c.readblk), 5 * c.cal + c.rw,
                  issued, use);
    }

    lemma BreaksOff(c: Cursor, whole: Played, u: Use, was: seq<Read>)
      requires Valid() && ValidJob(geo.sect, Job(blnr, c.blocks, c.readblk)) && c.rw <= 4 && c.cal <= 4
      requires Attempted(schedule, u, c.readblk * SectSize(geo.sectCode), Broken, use)
      requires issued == was + [Read(blnr, c.readblk)]
      requires whole == After(was, Play(schedule, geo.sect, SectSize(geo.sectCode), u, Job(blnr, c.blocks, c.readblk),
                                        5 * c.cal + c.rw))
      ensures Failed(c) == whole
    {
      BrokenStep(schedule, geo.sect, SectSize(geo.sectCode), u, Job(blnr, c.blocks, c.readblk), 5 * c.cal + c.rw,
                 was, use);
    }

    lemma EndsDone(buffer: array<byte>, goal: seq<byte>, start: nat, count: nat, c: Cursor, whole: Played,
                   recals0: nat, u: Use, was: seq<Read>, j: Job)
      requires Valid() && ValidJob(geo.sect, j) && c.rw <= 4 && c.cal <= 4 && recals == recals0 + c.cal
      requires Attempted(schedule, u, j.readblk * SectSize(geo.sectCode), Complete, use) && j.readblk == j.blocks
      requires issued == was + [Read(j.blnr, j.readblk)]
      requires whole == After(was, Play(schedule, geo.sect, SectSize(geo.sectCode), u, j, 5 * c.cal + c.rw))
      requires blnr == start + count && |goal| <= buffer.Length && buffer[..|goal|] == goal
      ensures Ended(buffer, goal, start + count, Done, whole, recals0)
    {
      RecalsIs(c.cal, c.rw);
      LastStep(schedule, geo.sect, SectSize(geo.sectCode), u, j, 5 * c.cal + c.rw, was, use);
    }

    lemma RunsOn(buffer: array<byte>, goal: seq<byte>, start: nat, count: nat, c: Cursor, c': Cursor, whole: Played,
                 recals0: nat, u: Use, was: seq<Read>, j: Job)
      requires Valid() && ValidJob(geo.sect, j) && Placed(buffer, goal, start, count, c', recals0)
      requires Attempted(schedule, u, j.readblk * SectSize(geo.sectCode), Complete, use) && j.readblk < j.blocks
      requires issued == was + [Read(j.blnr, j.readblk)] && c'.seeking && c'.cal == c.cal && c'.rw == c.rw
      requires Job(blnr, c'.blocks, c'.readblk) == NextJob(geo.sect, j)
      requires whole == After(was, Play(schedule, geo.sect, SectSize(geo.sectCode), u, j, 5 * c.cal + c.rw))
      ensures Running(buffer, goal, start, count, c', whole, recals0)
    {
      NextStep(schedule, geo.sect, SectSize(geo.sectCode), u, j, 5 * c.cal + c.rw, was, use);
    }

    /** One attempt at a chunk, as part of a read that is to end as `whole`. */
    method ChunkTurn(buffer: array<byte>, c: Cursor, ghost goal: seq<byte>, ghost start: nat, ghost count: nat,
                     ghost whole: Played, ghost recals0: nat)
      returns (r: Attempt, c': Cursor)
      requires Valid() && BlocksFit(geo, start + count) && IsGoal(geo, disk, start, goal) && !c.seeking
      requires count * SectSize(geo.sectCode) == |goal| && Running(buffer, goal, start, count, c, whole, recals0)
      modifies this, buffer
      ensures Valid() && interrupts == old(interrupts) && motor == old(motor)
      ensures forall k | |goal| <= k < buffer.Length :: buffer[k] == old(buffer[k])
      ensures r.NotIssued? ==> Ended(buffer, goal, start + count, Refused, whole, recals0)
      ensures r.Broken? ==> Placed(buffer, goal, start, count, c, recals0) && Failed(c) == whole
      ensures r.Complete? && c'.blocks == 0 ==> Ended(buffer, goal, start + count, Done, whole, recals0)
      ensures r.Complete? && c'.blocks != 0 ==> c'.Below(c) && Running(buffer, goal, start, count, c', whole, recals0)
    {
      ghost var u, was, j := use, issued, Job(blnr, c.blocks, c.readblk);
      r, c' := Advance(buffer, c, goal, start, count, recals0);
      if r.NotIssued? {
        EndsRefused(buffer, goal, start, count, c, whole, recals0, u);
      } else if r.Broken? {
        BreaksOff(c, whole, u, was);
      } else if c'.blocks == 0 {
        EndsDone(buffer, goal, start, count, c, whole, recals0, u, was, j);
      } else {
        RunsOn(buffer, goal, start, count, c, c', whole, recals0, u, was, j);
      }
    }

    /** The label `retryrw`: one attempt at a chunk and what it leads to. */
    method ReadTurn(buffer: array<byte>, c: Cursor, ghost goal: seq<byte>, ghost start: nat, ghost count: nat,
                    ghost whole: Played, ghost recals0: nat)
      returns (over: bool, exit: Exit, c': Cursor)
      requires Valid() && BlocksFit(geo, start + count) && IsGoal(geo, disk, start, goal) && !c.seeking
      requires count * SectSize(geo.sectCode) == |goal| && Running(buffer, goal, start, count, c, whole, recals0)
      modifies this, buffer
      ensures Valid() && interrupts == old(interrupts) && motor == old(motor) && !exit.FirstSeek?
      ensures forall k | |goal| <= k < buffer.Length :: buffer[k] == old(buffer[k])
      ensures if over then Ended(buffer, goal, start + count, exit, whole, recals0)
              else Running(buffer, goal, start, count, c', whole, recals0) && c'.Below(c)
    {
      var r;
      r, c' := ChunkTurn(buffer, c, goal, start, count, whole, recals0);
      if r.Broken? {
        over, exit, c' := ErrorTurn(buffer, c, goal, start, count, whole, recals0);
      } else {
        over, exit := r.NotIssued? || c'.blocks == 0, if r.NotIssued? then Refused else Done;
      }
    }

    /** One turn: a seek if one is due, otherwise one attempt at a chunk. */
    method Turn(buffer: array<byte>, c: Cursor, ghost goal: seq<byte>, ghost start: nat, ghost count: nat,
                ghost whole: Played, ghost recals0: nat)
      returns (over: bool, exit: Exit, c': Cursor)
      requires Valid() && BlocksFit(geo, start + count) && IsGoal(geo, disk, start, goal)
      requires count * SectSize(geo.sectCode) == |goal| <= buffer.Length
      requires Running(buffer, goal, start, count, c, whole, recals0)
      modifies this, buffer
      ensures Valid() && interrupts == old(interrupts) && motor == old(motor) && !exit.FirstSeek?
      ensures forall k | |goal| <= k < buffer.Length :: buffer[k] == old(buffer[k])
      ensures if over then Ended(buffer, goal, start + count, exit, whole, recals0)
              else Running(buffer, goal, start, count, c', whole, recals0) && c'.Below(c)
    {
      if c.seeking {
        over, exit := SeekTurn(buffer, c, goal, start, count, whole, recals0);
        c' := c.(seeking := false);
      } else {
        over, exit, c' := ReadTurn(buffer, c, goal, start, count, whole, recals0);
      }
    }

    /** The loop over the chunks, with the labels `retryrw` (READ) and `retrycal` (seek, then READ). */
    method ReadLoop(buffer: array<byte>, count: nat, readblk: nat, ghost goal: seq<byte>, ghost whole: Played)
      returns (exit: Exit)
      requires Valid() && BlocksFit(geo, blnr + count) && IsGoal(geo, disk, blnr, goal)
      requires count * SectSize(geo.sectCode) == |goal| <= buffer.Length
      requires Cursors(geo.sect, SectSize(geo.sectCode), blnr, count, blnr, count, readblk, 0)
      requires FromHere(Cursor(count, readblk, 0, 0, 0, false)) == whole
      requires count > 0 ==> cylinder == ToChs(geo, blnr).track
      modifies this, buffer
      ensures Valid() && interrupts == old(interrupts) && motor == old(motor) && !exit.FirstSeek?
      ensures forall k | |goal| <= k < buffer.Length :: buffer[k] == old(buffer[k])
      ensures Ended(buffer, goal, old(blnr) + count, exit, whole, old(recals))
    {
      ghost var start := blnr;
      var c := Cursor(count, readblk, 0, 0, 0, false);
      var over := false;
      exit := Done;
      while !over
        invariant Valid() && interrupts == old(interrupts) && motor == old(motor) && !exit.FirstSeek?
        invariant forall k | |goal| <= k < buffer.Length :: buffer[k] == old(buffer[k])
        invariant if over then Ended(buffer, goal, start + count, exit, whole, old(recals))
                  else Running(buffer, goal, start, count, c, whole, old(recals))
        decreases !over, c.blocks, 4 - c.cal, 4 - c.rw, c.seeking
      {
        over, exit, c := Turn(buffer, c, goal, start, count, whole, old(recals));
      }
    }

    /** The read behind the first seek. */
    method ReadTracks(buffer: array<byte>, count: nat, ghost goal: seq<byte>, ghost whole: Played) returns (exit: Exit)
      requires Valid() && BlocksFit(geo, blnr + count) && IsGoal(geo, disk, blnr, goal)
      requires count * SectSize(geo.sectCode) == |goal| <= buffer.Length
      requires whole == After(issued,
                              Play(schedule, geo.sect, SectSize(geo.sectCode), use, FirstJob(geo.sect, blnr, count), 0))
      requires count > 0 ==> cylinder == ToChs(geo, blnr).track
      modifies this, buffer
      ensures Valid() && interrupts == old(interrupts) && motor == old(motor) && !exit.FirstSeek?
      ensures forall k | |goal| <= k < buffer.Length :: buffer[k] == old(buffer[k])
      ensures Ended(buffer, goal, old(blnr) + count, exit, whole, old(recals))
    {
      var readblk: nat := geo.sect - blnr % geo.sect;
      if readblk > count {
        readblk := count;
      }
      exit := ReadLoop(buffer, count, readblk, goal, whole);
    }

    /** The seek in front of the read, which finds the track of the first block or ends the read. */
    method StartTurn(count: nat, ghost whole: Played) returns (good: bool)
      requires Valid() && BlocksFit(geo, blnr + count)
      requires whole == After(issued, Reading(schedule, geo.sect, SectSize(geo.sectCode), use, blnr, count))
      modifies this
      ensures Valid() && Quiet()
      ensures good && count > 0 ==> cylinder == ToChs(geo, blnr).track
      ensures if good then
                var job := FirstJob(geo.sect, blnr, count);
                whole == After(issued, Play(schedule, geo.sect, SectSize(geo.sectCode), use, job, 0))
              else
                (whole.exit.FirstSeek? || whole.exit.Refused?) && whole == Played(whole.exit, use, issued, 0)
    {
      ghost var u := use;
      var accepted;
      accepted, good := SeekTrack();
      StartStep(schedule, geo.sect, SectSize(geo.sectCode), u, blnr, count, issued, accepted, good, use);
    }

    /** `fdc_read_data` against the schedule: on success the buffer holds exactly the requested sectors. */
    method ReadSectors(buffer: array<byte>, count: nat) returns (ok: bool)
      requires Valid() && blnr + count <= geo.track * PerTrack(geo)
      requires count * SectSize(geo.sectCode) <= buffer.Length
      modifies this, buffer
      ensures Valid() && !motor
      ensures ok ==> blnr == old(blnr) + count
      ensures ok ==> IsGoal(geo, disk, old(blnr), buffer[..count * SectSize(geo.sectCode)])
      ensures forall k | count * SectSize(geo.sectCode) <= k < buffer.Length :: buffer[k] == old(buffer[k])
      ensures var p := Reading(schedule, geo.sect, SectSize(geo.sectCode), old(use), old(blnr), count);
              && ok == p.exit.Done? && use == p.use && issued == old(issued) + p.issued
              && recals == old(recals) + Recals(p.errors) && interrupts == (old(interrupts) && !p.exit.LaterSeek?)
    {
      var flags := interrupts;
      interrupts, motor := false, true;
      DiskFits(geo, blnr + count);
      ghost var start, total := blnr, count * SectSize(geo.sectCode);
      ghost var goal := seq(total, k requires 0 <= k < total => Wanted(geo, disk, start, k));
      ghost var whole := After(issued, Reading(schedule, geo.sect, SectSize(geo.sectCode), use, blnr, count));
      var good := StartTurn(count, whole);
      if !good {
        motor, interrupts := false, flags;
        return false;
      }
      var exit := ReadTracks(buffer, count, goal, whole);
      motor := false;
      if !exit.LaterSeek? {
        interrupts := flags;
      }
      return exit.Done?;
    }

    /**
      `fdc_read_data`. How it ends is what `Reading` says of the schedule, and
      which answers that takes: success if no command was refused, no seek went
      wrong and fewer than 25 transfers broke off. Interrupts are left disabled
      exactly by a seek that goes wrong behind the first READ.
     */
    method FdcReadData(buffer: array<byte>, count: nat) returns (ok: bool)
      requires Valid() && blnr + count <= geo.track * PerTrack(geo)
      requires count * SectSize(geo.sectCode) <= buffer.Length
      modifies this, buffer
      ensures Valid() && !motor
      ensures ok ==> blnr == old(blnr) + count
      ensures ok ==> IsGoal(geo, disk, old(blnr), buffer[..count * SectSize(geo.sectCode)])
      ensures forall k | count * SectSize(geo.sectCode) <= k < buffer.Length :: buffer[k] == old(buffer[k])
      ensures var p := Reading(schedule, geo.sect, SectSize(geo.sectCode), old(use), old(blnr), count);
              && ok == p.exit.Done? && use == p.use && issued == old(issued) + p.issued
              && recals == old(recals) + Recals(p.errors) && interrupts == (old(interrupts) && !p.exit.LaterSeek?)
      ensures var refused := Misses(schedule.accepts, old(use.cmds), use.cmds) > 0;
              var badSeek := Misses(schedule.seeks, old(use.seeks), use.seeks) > 0;
              var errors := Misses(schedule.delivers, old(use.bytes), use.bytes);
              && errors <= 25 && (ok <==> !refused && !badSeek && errors < 25)
              && recals == old(recals) + (if errors == 25 then 4 else errors / 5)
              && (forall r | r in issued[|old(issued)|..] ::
                    OnOneTrack(geo.sect, r) && FillsTrack(geo.sect, old(blnr) + count, r))
              && interrupts == (old(interrupts) && !(badSeek && issued != old(issued)))
    {
      ghost var p := Reading(schedule, geo.sect, SectSize(geo.sectCode), use, blnr, count);
      ReadingTold(schedule, geo.sect, SectSize(geo.sectCode), use, blnr, count);
      ReadsOnOneTrack(schedule, geo.sect, SectSize(geo.sectCode), use, blnr, count);
      ok := ReadSectors(buffer, count);
      assert issued[|old(issued)|..] == p.issued;
    }
  }

  lemma ChunkBounds(done: nat, readblk: nat, count: nat, size: nat)
    requires done + readblk <= count
    ensures done * size + readblk * size == (done + readblk) * size <= count * size
  {
    MulMono(done + readblk, count, size);
  }

  /** A chunk that ran to the end of its track leaves the next one at the start of a track. */
  lemma NextTrack(blnr: nat, readblk: nat, sect: nat)
    requires sect > 0 && blnr % sect + readblk == sect
    ensures (blnr + readblk) % sect == 0
  {
    var q, r := Split(blnr, sect);
    DivModUnique(blnr + readblk, sect, q + 1, 0);
  }
}
