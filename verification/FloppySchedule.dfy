/**
  What a floppy read does for every behaviour of the controller. The
  controller is three streams of answers: whether each command is accepted,
  whether each seek ends well, and whether each byte is delivered. Nothing is
  assumed about them; a controller that never answers is not modelled.
 */
module FloppySchedule {
  import opened Arithmetic

  datatype Schedule = Schedule(accepts: nat -> bool, seeks: nat -> bool, delivers: nat -> bool)

  /** How many answers of each kind have been used up. */
  datatype Use = Use(cmds: nat, seeks: nat, bytes: nat)

  /** How many answers from `lo` up to `hi` are negative. */
  function Misses(f: nat -> bool, lo: nat, hi: nat): nat
    decreases hi
  {
    if lo >= hi then 0 else Misses(f, lo, hi - 1) + if f(hi - 1) then 0 else 1
  }

  /** How many of `len` answers come before the first negative one. */
  function Streak(f: nat -> bool, lo: nat, len: nat): (k: nat)
    ensures k <= len && (k < len ==> !f(lo + k))
    ensures forall i: nat | lo <= i < lo + k :: f(i)
    decreases len
  {
    if len == 0 || !f(lo) then 0 else 1 + Streak(f, lo + 1, len - 1)
  }

  lemma StreakAt(f: nat -> bool, lo: nat, len: nat, i: nat)
    requires i < len && i <= Streak(f, lo, len)
    ensures f(lo + i) <==> i < Streak(f, lo, len)
  {
  }

  lemma {:induction false} MissesSplit(f: nat -> bool, a: nat, b: nat, c: nat)
    requires a <= b <= c
    ensures Misses(f, a, c) == Misses(f, a, b) + Misses(f, b, c)
    decreases c
  {
    if b < c { MissesSplit(f, a, b, c - 1); }
  }

  lemma {:induction false} NoMisses(f: nat -> bool, lo: nat, hi: nat)
    ensures Misses(f, lo, hi) == 0 <==> forall i: nat | lo <= i < hi :: f(i)
    decreases hi
  {
    if lo < hi { NoMisses(f, lo, hi - 1); }
  }

  /** A transfer of `len` bytes uses the answers up to its first miss, or all of them. */
  function BytesUsed(f: nat -> bool, lo: nat, len: nat): nat {
    var k := Streak(f, lo, len);
    if k < len then k + 1 else len
  }

  lemma TransferMisses(f: nat -> bool, lo: nat, len: nat)
    ensures Misses(f, lo, lo + BytesUsed(f, lo, len)) == if Streak(f, lo, len) < len then 1 else 0
  {
    NoMisses(f, lo, lo + Streak(f, lo, len));
  }

  // ---------------------------------------------------------------- commands and seeks

  datatype Sensed = Sensed(ok: bool, use: Use)

  /** A command and the sense command that fetches its result; the second is not sent if the first is refused. */
  function Sense(s: Schedule, u: Use): Sensed {
    if s.accepts(u.cmds) then Sensed(s.accepts(u.cmds + 1), u.(cmds := u.cmds + 2))
    else Sensed(false, u.(cmds := u.cmds + 1))
  }

  // ---------------------------------------------------------------- the read

  /** Why `fdc_read_data` returned. */
  datatype Exit = Done | Refused | FirstSeek | LaterSeek | GaveUp

  /** A READ command that was accepted: the block it starts at and how many blocks it is meant to deliver. */
  datatype Read = Read(blnr: nat, blocks: nat)

  /** What is left to read, and how much of it the next READ covers. */
  datatype Job = Job(blnr: nat, blocks: nat, readblk: nat)

  predicate ValidJob(sect: nat, j: Job) {
    0 < sect && j.readblk <= j.blocks && (j.readblk == 0 ==> j.blocks == 0)
  }

  function FirstJob(sect: nat, blnr: nat, count: nat): (j: Job)
    requires sect > 0
    ensures ValidJob(sect, j)
  {
    var room := sect - blnr % sect;
    Job(blnr, count, if room > count then count else room)
  }

  /** Behind a complete READ the next one covers a whole track, or what is left. */
  function NextJob(sect: nat, j: Job): (n: Job)
    requires ValidJob(sect, j) && j.readblk < j.blocks
    ensures ValidJob(sect, n) && n.blocks < j.blocks
  {
    var rest := j.blocks - j.readblk;
    Job(j.blnr + j.readblk, rest, if sect > rest then rest else sect)
  }

  const MAX_ERRORS: nat := 25

  /** The outcome of a read: its answers used, the READs it issued and all its transfer errors. */
  datatype Played = Played(exit: Exit, use: Use, issued: seq<Read>, errors: nat)

  function After(issued: seq<Read>, p: Played): Played { p.(issued := issued + p.issued) }

  /** Whether a READ of `len` bytes breaks off, and the answers it uses. */
  predicate Breaks(s: Schedule, u: Use, len: nat) {
    Streak(s.delivers, u.bytes, len) < len
  }

  function ReadUse(s: Schedule, u: Use, len: nat): Use {
    u.(cmds := u.cmds + 1, bytes := u.bytes + BytesUsed(s.delivers, u.bytes, len))
  }

  /**
    The read from a READ command on, after `e` transfer errors. Every error
    repeats the READ, every fifth after a recalibration and a seek, and the
    25th ends it.
   */
  function Play(s: Schedule, sect: nat, size: nat, u: Use, j: Job, e: nat): Played
    requires ValidJob(sect, j) && e < MAX_ERRORS
    decreases j.blocks, MAX_ERRORS - e, 0
  {
    if !s.accepts(u.cmds) then Played(Refused, u.(cmds := u.cmds + 1), [], e)
    else
      var broken := Breaks(s, u, j.readblk * size);
      After([Read(j.blnr, j.readblk)],
            PlayOn(s, sect, size, ReadUse(s, u, j.readblk * size), j, if broken then e + 1 else e, broken))
  }

  /** The read behind a READ that broke off or ran to its end. */
  function PlayOn(s: Schedule, sect: nat, size: nat, u: Use, j: Job, e: nat, broken: bool): Played
    requires ValidJob(sect, j) && if broken then 0 < e <= MAX_ERRORS else e < MAX_ERRORS
    decreases j.blocks, MAX_ERRORS - e, if broken then 3 else -1
  {
    if broken then PlayError(s, sect, size, u, j, e)
    else if j.readblk == j.blocks then Played(Done, u, [], e)
    else PlaySeek(s, sect, size, u, NextJob(sect, j), e)
  }

  function PlayError(s: Schedule, sect: nat, size: nat, u: Use, j: Job, e: nat): Played
    requires ValidJob(sect, j) && 0 < e <= MAX_ERRORS
    decreases j.blocks, MAX_ERRORS - e, 2
  {
    if e == MAX_ERRORS then Played(GaveUp, u, [], e)
    else if e % 5 != 0 then Play(s, sect, size, u, j, e)
    else
      var r := Sense(s, u);
      if r.ok then PlaySeek(s, sect, size, r.use, j, e) else Played(Refused, r.use, [], e)
  }

  function PlaySeek(s: Schedule, sect: nat, size: nat, u: Use, j: Job, e: nat): Played
    requires ValidJob(sect, j) && e < MAX_ERRORS
    decreases j.blocks, MAX_ERRORS - e, 1
  {
    var r := Sense(s, u);
    if !r.ok then Played(Refused, r.use, [], e)
    else
      var u' := r.use.(seeks := r.use.seeks + 1);
      if s.seeks(r.use.seeks) then Play(s, sect, size, u', j, e) else Played(LaterSeek, u', [], e)
  }

  /** `fdc_read_data` as a function of the schedule. */
  function Reading(s: Schedule, sect: nat, size: nat, u: Use, blnr: nat, count: nat): Played
    requires sect > 0
  {
    var r := Sense(s, u);
    if !r.ok then Played(Refused, r.use, [], 0)
    else
      var u' := r.use.(seeks := r.use.seeks + 1);
      if s.seeks(r.use.seeks) then Play(s, sect, size, u', FirstJob(sect, blnr, count), 0)
      else Played(FirstSeek, u', [], 0)
  }

  /** How many recalibrations `e` errors lead to. */
  function Recals(e: nat): nat {
    if e < MAX_ERRORS then e / 5 else 4
  }

  lemma RecalsIs(cal: nat, rw: nat)
    requires cal <= 4 && rw <= 4
    ensures Recals(5 * cal + rw) == cal
  {
  }

  // ---------------------------------------------------------------- step by step

  datatype Attempt = Complete | Broken | NotIssued

  /** A READ of `len` bytes came out as the schedule says. */
  ghost predicate Attempted(s: Schedule, u: Use, len: nat, r: Attempt, u': Use) {
    if s.accepts(u.cmds) then u' == ReadUse(s, u, len) && r == if Breaks(s, u, len) then Broken else Complete
    else u' == u.(cmds := u.cmds + 1) && r == NotIssued
  }

  /** A seek came out as the schedule says. */
  ghost predicate Sought(s: Schedule, u: Use, accepted: bool, good: bool, u': Use) {
    var r := Sense(s, u);
    && accepted == r.ok
    && if accepted then good == s.seeks(r.use.seeks) && u' == r.use.(seeks := r.use.seeks + 1)
       else !good && u' == r.use
  }

  lemma RefusedStep(s: Schedule, sect: nat, size: nat, u: Use, j: Job, e: nat, before: seq<Read>, u': Use)
    requires ValidJob(sect, j) && e < MAX_ERRORS && Attempted(s, u, j.readblk * size, NotIssued, u')
    ensures After(before, Play(s, sect, size, u, j, e)) == Played(Refused, u', before, e)
  {
    assert before + [] == before;
  }

  lemma BrokenStep(s: Schedule, sect: nat, size: nat, u: Use, j: Job, e: nat, before: seq<Read>, u': Use)
    requires ValidJob(sect, j) && e < MAX_ERRORS && Attempted(s, u, j.readblk * size, Broken, u')
    ensures After(before, Play(s, sect, size, u, j, e)) ==
            After(before + [Read(j.blnr, j.readblk)], PlayError(s, sect, size, u', j, e + 1))
  {
    Regroup(before, Read(j.blnr, j.readblk), PlayError(s, sect, size, u', j, e + 1));
  }

  lemma LastStep(s: Schedule, sect: nat, size: nat, u: Use, j: Job, e: nat, before: seq<Read>, u': Use)
    requires ValidJob(sect, j) && e < MAX_ERRORS && Attempted(s, u, j.readblk * size, Complete, u')
    requires j.readblk == j.blocks
    ensures After(before, Play(s, sect, size, u, j, e)) == Played(Done, u', before + [Read(j.blnr, j.readblk)], e)
  {
    Regroup(before, Read(j.blnr, j.readblk), Played(Done, u', [], e));
    assert before + [Read(j.blnr, j.readblk)] + [] == before + [Read(j.blnr, j.readblk)];
  }

  lemma NextStep(s: Schedule, sect: nat, size: nat, u: Use, j: Job, e: nat, before: seq<Read>, u': Use)
    requires ValidJob(sect, j) && e < MAX_ERRORS && Attempted(s, u, j.readblk * size, Complete, u')
    requires j.readblk < j.blocks
    ensures After(before, Play(s, sect, size, u, j, e)) ==
            After(before + [Read(j.blnr, j.readblk)], PlaySeek(s, sect, size, u', NextJob(sect, j), e))
  {
    Regroup(before, Read(j.blnr, j.readblk), PlaySeek(s, sect, size, u', NextJob(sect, j), e));
  }

  lemma Regroup(before: seq<Read>, r: Read, p: Played)
    ensures After(before, After([r], p)) == After(before + [r], p)
  {
    assert before + ([r] + p.issued) == before + [r] + p.issued;
  }

  lemma SeekStep(s: Schedule, sect: nat, size: nat, u: Use, j: Job, e: nat, before: seq<Read>,
                 accepted: bool, good: bool, u': Use)
    requires ValidJob(sect, j) && e < MAX_ERRORS && Sought(s, u, accepted, good, u')
    ensures After(before, PlaySeek(s, sect, size, u, j, e)) ==
            if good then After(before, Play(s, sect, size, u', j, e))
            else Played(if accepted then LaterSeek else Refused, u', before, e)
  {
    assert before + [] == before;
  }

  lemma StartStep(s: Schedule, sect: nat, size: nat, u: Use, blnr: nat, count: nat, before: seq<Read>,
                  accepted: bool, good: bool, u': Use)
    requires sect > 0 && Sought(s, u, accepted, good, u')
    ensures After(before, Reading(s, sect, size, u, blnr, count)) ==
            if good then After(before, Play(s, sect, size, u', FirstJob(sect, blnr, count), 0))
            else Played(if accepted then FirstSeek else Refused, u', before, 0)
  {
    assert before + [] == before;
  }

  /** What follows the `e`-th transfer error came out as the schedule says; `Done` if the read goes on. */
  ghost predicate Retried(s: Schedule, u: Use, e: nat, exit: Exit, u': Use) {
    if e % 5 == 0 && e < MAX_ERRORS then
      u' == Sense(s, u).use && exit == if Sense(s, u).ok then Done else Refused
    else
      u' == u && exit == if e == MAX_ERRORS then GaveUp else Done
  }

  lemma ErrorStep(s: Schedule, sect: nat, size: nat, u: Use, j: Job, e: nat, before: seq<Read>, exit: Exit, u': Use)
    requires ValidJob(sect, j) && 0 < e <= MAX_ERRORS && Retried(s, u, e, exit, u')
    ensures After(before, PlayError(s, sect, size, u, j, e)) ==
            if !exit.Done? then Played(exit, u', before, e)
            else After(before, if e % 5 == 0 then PlaySeek(s, sect, size, u', j, e) else Play(s, sect, size, u', j, e))
  {
    assert before + [] == before;
  }

  // ---------------------------------------------------------------- what the outcome says about the answers

  /** The outcome `p` of a read that began with `u` and `e` errors is told by the answers it has used. */
  ghost predicate Told(s: Schedule, u: Use, e: nat, p: Played) {
    && u.cmds <= p.use.cmds && u.seeks <= p.use.seeks && u.bytes <= p.use.bytes
    && p.errors == e + Misses(s.delivers, u.bytes, p.use.bytes) && p.errors <= MAX_ERRORS
    && Misses(s.accepts, u.cmds, p.use.cmds) == (if p.exit.Refused? then 1 else 0)
    && Misses(s.seeks, u.seeks, p.use.seeks) == (if p.exit.LaterSeek? || p.exit.FirstSeek? then 1 else 0)
    && (p.exit.GaveUp? <==> p.errors == MAX_ERRORS)
  }

  lemma SenseTold(s: Schedule, u: Use)
    ensures var r := Sense(s, u);
            r.use == u.(cmds := r.use.cmds) && u.cmds < r.use.cmds
            && Misses(s.accepts, u.cmds, r.use.cmds) == if r.ok then 0 else 1
  {
    assert Misses(s.accepts, u.cmds, u.cmds + 1) == if s.accepts(u.cmds) then 0 else 1;
  }

  /** The rest of a read tells its answers, so does the whole. */
  lemma ToldThen(s: Schedule, u: Use, e: nat, u': Use, e': nat, issued: seq<Read>, p: Played)
    requires u.cmds <= u'.cmds && u.seeks <= u'.seeks && u.bytes <= u'.bytes
    requires Misses(s.accepts, u.cmds, u'.cmds) == 0 && Misses(s.seeks, u.seeks, u'.seeks) == 0
    requires e' == e + Misses(s.delivers, u.bytes, u'.bytes) && Told(s, u', e', p)
    ensures Told(s, u, e, After(issued, p))
  {
    MissesSplit(s.accepts, u.cmds, u'.cmds, p.use.cmds);
    MissesSplit(s.seeks, u.seeks, u'.seeks, p.use.seeks);
    MissesSplit(s.delivers, u.bytes, u'.bytes, p.use.bytes);
  }

  lemma ReadTold(s: Schedule, u: Use, len: nat)
    requires s.accepts(u.cmds)
    ensures var u' := ReadUse(s, u, len);
            && u.cmds <= u'.cmds && u.seeks == u'.seeks && u.bytes <= u'.bytes
            && Misses(s.accepts, u.cmds, u'.cmds) == 0
            && Misses(s.delivers, u.bytes, u'.bytes) == if Breaks(s, u, len) then 1 else 0
  {
    TransferMisses(s.delivers, u.bytes, len);
    assert Misses(s.accepts, u.cmds, u.cmds + 1) == 0;
  }

  lemma {:induction false} PlayTold(s: Schedule, sect: nat, size: nat, u: Use, j: Job, e: nat)
    requires ValidJob(sect, j) && e < MAX_ERRORS
    ensures var p := Play(s, sect, size, u, j, e);
            Told(s, u, e, p) && !p.exit.FirstSeek? && (p.exit.Refused? || p.issued != [])
    decreases j.blocks, MAX_ERRORS - e, 0
  {
    if s.accepts(u.cmds) {
      var len := j.readblk * size;
      var broken, u' := Breaks(s, u, len), ReadUse(s, u, len);
      var e' := if broken then e + 1 else e;
      ReadTold(s, u, len);
      PlayOnTold(s, sect, size, u', j, e', broken);
      ToldThen(s, u, e, u', e', [Read(j.blnr, j.readblk)], PlayOn(s, sect, size, u', j, e', broken));
    }
  }

  lemma PlayOnTold(s: Schedule, sect: nat, size: nat, u: Use, j: Job, e: nat, broken: bool)
    requires ValidJob(sect, j) && if broken then 0 < e <= MAX_ERRORS else e < MAX_ERRORS
    ensures var p := PlayOn(s, sect, size, u, j, e, broken); Told(s, u, e, p) && !p.exit.FirstSeek?
    decreases j.blocks, MAX_ERRORS - e, if broken then 3 else -1
  {
    if broken {
      PlayErrorTold(s, sect, size, u, j, e);
    } else if j.readblk < j.blocks {
      PlaySeekTold(s, sect, size, u, NextJob(sect, j), e);
    }
  }

  lemma PlayErrorTold(s: Schedule, sect: nat, size: nat, u: Use, j: Job, e: nat)
    requires ValidJob(sect, j) && 0 < e <= MAX_ERRORS
    ensures Told(s, u, e, PlayError(s, sect, size, u, j, e)) && !PlayError(s, sect, size, u, j, e).exit.FirstSeek?
    decreases j.blocks, MAX_ERRORS - e, 2
  {
    if e < MAX_ERRORS && e % 5 == 0 {
      SenseTold(s, u);
      var r := Sense(s, u);
      if r.ok {
        PlaySeekTold(s, sect, size, r.use, j, e);
        ToldThen(s, u, e, r.use, e, [], PlaySeek(s, sect, size, r.use, j, e));
      }
    } else if e < MAX_ERRORS {
      PlayTold(s, sect, size, u, j, e);
    }
  }

  lemma PlaySeekTold(s: Schedule, sect: nat, size: nat, u: Use, j: Job, e: nat)
    requires ValidJob(sect, j) && e < MAX_ERRORS
    ensures Told(s, u, e, PlaySeek(s, sect, size, u, j, e)) && !PlaySeek(s, sect, size, u, j, e).exit.FirstSeek?
    decreases j.blocks, MAX_ERRORS - e, 1
  {
    SenseTold(s, u);
    var r := Sense(s, u);
    if r.ok {
      var u' := r.use.(seeks := r.use.seeks + 1);
      if s.seeks(r.use.seeks) {
        PlayTold(s, sect, size, u', j, e);
        ToldThen(s, u, e, u', e, [], Play(s, sect, size, u', j, e));
      }
    }
  }

  /**
    Every exit of a read by the answers it met: a refused command, a seek that
    went wrong before the first READ or behind it, the 25th transfer error, or
    none of these.
   */
  lemma ReadingTold(s: Schedule, sect: nat, size: nat, u: Use, blnr: nat, count: nat)
    requires sect > 0
    ensures var p := Reading(s, sect, size, u, blnr, count);
            var refused := Misses(s.accepts, u.cmds, p.use.cmds) > 0;
            var badSeek := Misses(s.seeks, u.seeks, p.use.seeks) > 0;
            && p.errors == Misses(s.delivers, u.bytes, p.use.bytes) <= MAX_ERRORS
            && (p.exit.Refused? <==> refused)
            && (p.exit.FirstSeek? <==> badSeek && p.issued == [])
            && (p.exit.LaterSeek? <==> badSeek && p.issued != [])
            && (p.exit.GaveUp? <==> p.errors == MAX_ERRORS)
            && (p.exit.Done? <==> !refused && !badSeek && p.errors < MAX_ERRORS)
  {
    SenseTold(s, u);
    var r := Sense(s, u);
    if r.ok {
      var u' := r.use.(seeks := r.use.seeks + 1);
      if s.seeks(r.use.seeks) {
        var j := FirstJob(sect, blnr, count);
        PlayTold(s, sect, size, u', j, 0);
        ToldThen(s, u, 0, u', 0, [], Play(s, sect, size, u', j, 0));
      }
    }
  }

  ghost predicate AllGood(s: Schedule) {
    forall n: nat :: s.accepts(n) && s.seeks(n) && s.delivers(n)
  }

  /** The READs follow each other from block `start` to block `end`. */
  predicate Contiguous(rs: seq<Read>, start: nat, end: nat) {
    if rs == [] then start == end else rs[0].blnr == start && Contiguous(rs[1..], start + rs[0].blocks, end)
  }

  lemma ContiguousFrom(r: Read, rs: seq<Read>, end: nat)
    requires Contiguous(rs, r.blnr + r.blocks, end)
    ensures Contiguous([r] + rs, r.blnr, end)
  {
    assert ([r] + rs)[1..] == rs;
  }

  lemma WholeTransfer(f: nat -> bool, lo: nat, len: nat)
    requires forall n: nat :: f(n)
    ensures Streak(f, lo, len) == len == BytesUsed(f, lo, len)
  {
  }

  /** From a READ on: three commands and a seek for every further one, and every byte once. */
  ghost predicate Clean(p: Played, u: Use, j: Job, size: nat) {
    && p.exit.Done? && p.issued != [] && Contiguous(p.issued, j.blnr, j.blnr + j.blocks)
    && p.use == Use(u.cmds + 3 * |p.issued| - 2, u.seeks + |p.issued| - 1, u.bytes + j.blocks * size)
  }

  lemma CleanLast(s: Schedule, sect: nat, size: nat, u: Use, j: Job, e: nat)
    requires ValidJob(sect, j) && e < MAX_ERRORS && AllGood(s) && j.readblk == j.blocks
    ensures Clean(Play(s, sect, size, u, j, e), u, j, size)
  {
    WholeTransfer(s.delivers, u.bytes, j.readblk * size);
    ContiguousFrom(Read(j.blnr, j.readblk), [], j.blnr + j.blocks);
  }

  lemma GoodStep(s: Schedule, sect: nat, size: nat, u: Use, j: Job, e: nat, u': Use)
    requires ValidJob(sect, j) && e < MAX_ERRORS && AllGood(s) && j.readblk < j.blocks
    requires u' == Use(u.cmds + 3, u.seeks + 1, u.bytes + j.readblk * size)
    ensures Play(s, sect, size, u, j, e) ==
            After([Read(j.blnr, j.readblk)], Play(s, sect, size, u', NextJob(sect, j), e))
  {
    var first, next, len := Read(j.blnr, j.readblk), NextJob(sect, j), j.readblk * size;
    var u1 := Use(u.cmds + 1, u.seeks, u.bytes + len);
    WholeTransfer(s.delivers, u.bytes, len);
    NextStep(s, sect, size, u, j, e, [], u1);
    SeekStep(s, sect, size, u1, next, e, [first], true, true, u');
    AfterNothing(Play(s, sect, size, u, j, e));
    assert [] + [first] == [first];
  }

  lemma AfterNothing(p: Played)
    ensures After([], p) == p
  {
    assert [] + p.issued == p.issued;
  }

  lemma CleanNext(sect: nat, size: nat, u: Use, j: Job, u': Use, next: Played)
    requires ValidJob(sect, j) && j.readblk < j.blocks
    requires u' == Use(u.cmds + 3, u.seeks + 1, u.bytes + j.readblk * size)
    requires Clean(next, u', NextJob(sect, j), size)
    ensures Clean(After([Read(j.blnr, j.readblk)], next), u, j, size)
  {
    ContiguousFrom(Read(j.blnr, j.readblk), next.issued, j.blnr + j.blocks);
    assert j.readblk * size + (j.blocks - j.readblk) * size == j.blocks * size;
  }

  lemma {:induction false} CleanPlay(s: Schedule, sect: nat, size: nat, u: Use, j: Job, e: nat)
    requires ValidJob(sect, j) && e < MAX_ERRORS && AllGood(s)
    ensures Clean(Play(s, sect, size, u, j, e), u, j, size)
    decreases j.blocks
  {
    if j.readblk == j.blocks {
      CleanLast(s, sect, size, u, j, e);
    } else {
      var u' := Use(u.cmds + 3, u.seeks + 1, u.bytes + j.readblk * size);
      CleanPlay(s, sect, size, u', NextJob(sect, j), e);
      GoodStep(s, sect, size, u, j, e, u');
      CleanNext(sect, size, u, j, u', Play(s, sect, size, u', NextJob(sect, j), e));
    }
  }

  /**
    A controller that only gives positive answers lets every read succeed: the
    READs follow each other over the request, each takes a seek, a sense and a
    read command, and every byte is transferred once.
   */
  lemma GoodAnswersSucceed(s: Schedule, sect: nat, size: nat, u: Use, blnr: nat, count: nat)
    requires sect > 0 && AllGood(s)
    ensures var p := Reading(s, sect, size, u, blnr, count);
            && p.exit.Done? && p.errors == 0 && Contiguous(p.issued, blnr, blnr + count)
            && p.use == Use(u.cmds + 3 * |p.issued|, u.seeks + |p.issued|, u.bytes + count * size)
  {
    var p := Reading(s, sect, size, u, blnr, count);
    ReadingTold(s, sect, size, u, blnr, count);
    CleanPlay(s, sect, size, Use(u.cmds + 2, u.seeks + 1, u.bytes), FirstJob(sect, blnr, count), 0);
    NoMisses(s.delivers, u.bytes, p.use.bytes);
  }

  // ---------------------------------------------------------------- every READ stays on one track

  /** A READ ends with its track at the latest. */
  predicate OnOneTrack(sect: nat, r: Read)
    requires sect > 0
  {
    r.blnr % sect + r.blocks <= sect
  }

  /** A job whose READ ends with the track or with the request. */
  predicate Aligned(sect: nat, j: Job) {
    && ValidJob(sect, j) && j.blnr % sect + j.readblk <= sect
    && (j.readblk < j.blocks ==> j.blnr % sect + j.readblk == sect)
  }

  lemma NextIsAligned(sect: nat, j: Job)
    requires Aligned(sect, j) && j.readblk < j.blocks
    ensures Aligned(sect, NextJob(sect, j))
  {
    var q, r := Split(j.blnr, sect);
    DivModUnique(j.blnr + j.readblk, sect, q + 1, 0);
  }

  /** A READ of a request up to block `end` leaves nothing of its track that was asked for. */
  predicate FillsTrack(sect: nat, end: nat, r: Read)
    requires sect > 0
  {
    r.blnr + r.blocks <= end && (r.blnr + r.blocks < end ==> r.blnr % sect + r.blocks == sect)
  }

  ghost predicate Tracked(sect: nat, end: nat, p: Played)
    requires sect > 0
  {
    forall r | r in p.issued :: OnOneTrack(sect, r) && FillsTrack(sect, end, r)
  }

  lemma {:induction false} PlayTracked(s: Schedule, sect: nat, size: nat, u: Use, j: Job, e: nat, end: nat)
    requires Aligned(sect, j) && j.blnr + j.blocks == end && e < MAX_ERRORS
    ensures Tracked(sect, end, Play(s, sect, size, u, j, e))
    decreases j.blocks, MAX_ERRORS - e, 0
  {
    if s.accepts(u.cmds) {
      var broken := Breaks(s, u, j.readblk * size);
      var u', e' := ReadUse(s, u, j.readblk * size), if broken then e + 1 else e;
      if !broken && j.readblk < j.blocks {
        NextIsAligned(sect, j);
        SeekTracked(s, sect, size, u', NextJob(sect, j), e, end);
      } else if broken {
        ErrorTracked(s, sect, size, u', j, e + 1, end);
      }
      assert OnOneTrack(sect, Read(j.blnr, j.readblk)) && FillsTrack(sect, end, Read(j.blnr, j.readblk));
      assert Tracked(sect, end, PlayOn(s, sect, size, u', j, e', broken));
    }
  }

  lemma ErrorTracked(s: Schedule, sect: nat, size: nat, u: Use, j: Job, e: nat, end: nat)
    requires Aligned(sect, j) && j.blnr + j.blocks == end && 0 < e <= MAX_ERRORS
    ensures Tracked(sect, end, PlayError(s, sect, size, u, j, e))
    decreases j.blocks, MAX_ERRORS - e, 2
  {
    if e < MAX_ERRORS {
      if e % 5 != 0 {
        PlayTracked(s, sect, size, u, j, e, end);
      } else if Sense(s, u).ok {
        SeekTracked(s, sect, size, Sense(s, u).use, j, e, end);
      }
    }
  }

  lemma SeekTracked(s: Schedule, sect: nat, size: nat, u: Use, j: Job, e: nat, end: nat)
    requires Aligned(sect, j) && j.blnr + j.blocks == end && e < MAX_ERRORS
    ensures Tracked(sect, end, PlaySeek(s, sect, size, u, j, e))
    decreases j.blocks, MAX_ERRORS - e, 1
  {
    var r := Sense(s, u);
    if r.ok && s.seeks(r.use.seeks) {
      PlayTracked(s, sect, size, r.use.(seeks := r.use.seeks + 1), j, e, end);
    }
  }

  lemma ReadsOnOneTrack(s: Schedule, sect: nat, size: nat, u: Use, blnr: nat, count: nat)
    requires sect > 0
    ensures Tracked(sect, blnr + count, Reading(s, sect, size, u, blnr, count))
  {
    var r := Sense(s, u);
    if r.ok && s.seeks(r.use.seeks) {
      PlayTracked(s, sect, size, r.use.(seeks := r.use.seeks + 1), FirstJob(sect, blnr, count), 0, blnr + count);
    }
  }

  // ---------------------------------------------------------------- two families of reads that end in a bad later seek

  /** The seek to the second track goes wrong; everything else goes well. */
  lemma BadSeekOnSecondTrack(s: Schedule, sect: nat, size: nat, u: Use, blnr: nat, count: nat)
    requires sect > 0 && count > sect - blnr % sect
    requires forall n: nat :: s.accepts(n) && s.delivers(n)
    requires s.seeks(u.seeks) && !s.seeks(u.seeks + 1)
    ensures Reading(s, sect, size, u, blnr, count).exit == LaterSeek
  {
    var j, u' := FirstJob(sect, blnr, count), Use(u.cmds + 2, u.seeks + 1, u.bytes);
    assert Reading(s, sect, size, u, blnr, count) == Play(s, sect, size, u', j, 0);
    var u'' := ReadUse(s, u', j.readblk * size);
    assert Attempted(s, u', j.readblk * size, Complete, u'');
    NextStep(s, sect, size, u', j, 0, [], u'');
    BadSeekEnds(s, sect, size, u'', NextJob(sect, j), 0);
  }

  lemma BadSeekEnds(s: Schedule, sect: nat, size: nat, u: Use, j: Job, e: nat)
    requires ValidJob(sect, j) && e < MAX_ERRORS
    requires (forall n: nat :: s.accepts(n)) && !s.seeks(u.seeks)
    ensures PlaySeek(s, sect, size, u, j, e).exit == LaterSeek
  {
  }

  /** Five transfers fail, the recalibration goes well, and the seek back to the first track goes wrong. */
  lemma BadSeekOnFirstTrack(s: Schedule, sect: nat, size: nat, u: Use, blnr: nat, count: nat)
    requires sect > 0 && count > 0 && size > 0
    requires forall n: nat :: s.accepts(n) && !s.delivers(n)
    requires s.seeks(u.seeks) && !s.seeks(u.seeks + 1)
    ensures Reading(s, sect, size, u, blnr, count).exit == LaterSeek
  {
    var j, u' := FirstJob(sect, blnr, count), Use(u.cmds + 2, u.seeks + 1, u.bytes);
    assert Reading(s, sect, size, u, blnr, count) == Play(s, sect, size, u', j, 0);
    FailingTransfers(s, sect, size, u', j, 0);
  }

  lemma {:induction false} FailingTransfers(s: Schedule, sect: nat, size: nat, u: Use, j: Job, e: nat)
    requires ValidJob(sect, j) && j.blocks > 0 && size > 0 && e < 5
    requires forall n: nat :: s.accepts(n) && !s.delivers(n)
    requires !s.seeks(u.seeks)
    ensures Play(s, sect, size, u, j, e).exit == LaterSeek
    decreases 5 - e
  {
    var len := j.readblk * size;
    var u' := ReadUse(s, u, len);
    assert len > 0;
    assert Breaks(s, u, len);
    assert Play(s, sect, size, u, j, e).exit == PlayError(s, sect, size, u', j, e + 1).exit;
    if e < 4 {
      FailingTransfers(s, sect, size, u', j, e + 1);
    } else {
      BadSeekEnds(s, sect, size, Sense(s, u').use, j, 5);
    }
  }
}
