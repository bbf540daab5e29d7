/**
  The copy macros of the preloader, on one flat memory in which source and
  target may overlap. Each copy is described by where every target byte comes
  from in the memory before the copy.
 */
module CopyMacros {
  import opened Arithmetic
  import opened Bytes

  // ---------------------------------------------------------------- where bytes come from

  /**
    Byte `i` of an upward copy from `s` to `d` that moves `block` bytes at a
    time: a source byte that an earlier block has overwritten comes from there.
   */
  function Origin(block: nat, d: nat, s: nat, i: nat): (p: nat)
    requires block > 0
    ensures s <= p <= s + i
  {
    if d <= s || i < d - s || i % block >= d - s then s + i else Origin(block, d, s, i - (d - s))
  }

  /** Byte `i` of a downward copy of `l` bytes, one at a time. */
  function BackOrigin(d: nat, s: nat, l: nat, i: nat): (p: nat)
    requires i < l
    ensures s + i <= p < s + l
    decreases l - i
  {
    if s <= d || l - 1 - i < s - d then s + i else BackOrigin(d, s, l, i + (s - d))
  }

  /** `memmove`: every byte comes from the source as it was. */
  function Straight(s: nat): nat -> nat { (i: nat) => s + i }

  /** The two copies as functions of the byte's number. */
  function Upward(block: nat, d: nat, s: nat): nat -> nat
    requires block > 0
  {
    (i: nat) => Origin(block, d, s, i)
  }

  function Downward(d: nat, s: nat, l: nat): nat -> nat {
    (i: nat) => if i < l then BackOrigin(d, s, l, i) else s + i
  }

  /** `mem'` is `mem` with the `n` bytes at `d` taken from where `origin` says. */
  ghost predicate Copied(origin: nat -> nat, mem: seq<byte>, mem': seq<byte>, d: nat, n: nat)
    requires forall i: nat | i < n :: origin(i) < |mem|
  {
    && |mem'| == |mem|
    && forall k: nat {:trigger mem'[k]} | k < |mem| :: mem'[k] == if d <= k < d + n then mem[origin(k - d)] else mem[k]
  }

  // ---------------------------------------------------------------- the macros

  /** `inline_memcpy`. */
  method Memcpy(mem: array<byte>, d: nat, s: nat, l: nat)
    requires d + l <= mem.Length && s + l <= mem.Length
    modifies mem
    ensures Copied(Upward(1, d, s), old(mem[..]), mem[..], d, l)
  {
    var i := 0;
    while i < l
      invariant 0 <= i <= l
      invariant Copied(Upward(1, d, s), old(mem[..]), mem[..], d, i)
    {
      mem[d + i] := mem[s + i];
      i := i + 1;
    }
  }

  /** `inline_backward_memcpy`. */
  method BackwardMemcpy(mem: array<byte>, d: nat, s: nat, l: nat)
    requires d + l <= mem.Length && s + l <= mem.Length
    modifies mem
    ensures Copied(Downward(d, s, l), old(mem[..]), mem[..], d, l)
  {
    var i := l;
    while i > 0
      invariant 0 <= i <= l
      invariant forall k: nat | k < mem.Length ::
                  mem[k] == if d + i <= k < d + l then old(mem[BackOrigin(d, s, l, k - d)]) else old(mem[k])
    {
      i := i - 1;
      mem[d + i] := mem[s + i];
    }
  }

  ghost predicate BlockMoved(mem: seq<byte>, mem': seq<byte>, d: nat, s: nat)
    requires d + 32 <= |mem| && s + 32 <= |mem|
  {
    && |mem'| == |mem|
    && forall k: nat {:trigger mem'[k]} | k < |mem| ::
         mem'[k] == if d <= k < d + 32 then mem[s + (k - d)] else mem[k]
  }

  /** The 32 bytes of one block, read before any is written. */
  method CopyBlock(mem: array<byte>, d: nat, s: nat)
    requires d + 32 <= mem.Length && s + 32 <= mem.Length
    modifies mem
    ensures BlockMoved(old(mem[..]), mem[..], d, s)
  {
    var registers := mem[s..s + 32];
    var j := 0;
    while j < 32
      invariant 0 <= j <= 32
      invariant forall k: nat | k < mem.Length ::
                  mem[k] == if d <= k < d + j then old(mem[s + (k - d)]) else old(mem[k])
    {
      mem[d + j] := registers[j];
      j := j + 1;
    }
  }

  /** Byte `i + j` is the `j`th of a block, and the `i` bytes below that block have been written. */
  lemma OriginInBlock(d: nat, s: nat, i: nat, j: nat, p: nat)
    requires i % 32 == 0 && j < 32 && p == s + i + j
    ensures Origin(32, d, s, i + j) == if d <= p < d + i then Origin(32, d, s, p - d) else p
  {
    assert (i + j) % 32 == j;
  }

  /** Byte `i + j` comes from where the memory with the first `i` bytes copied has it. */
  predicate Follows(origin: nat -> nat, d: nat, s: nat, i: nat, j: nat) {
    var p := s + i + j;
    origin(i + j) == if d <= p < d + i then origin(p - d) else p
  }

  /** Copying one more block keeps every target byte where it comes from. */
  lemma BlockIsNext(origin: nat -> nat, mem: seq<byte>, mem': seq<byte>, mem'': seq<byte>, d: nat, s: nat, i: nat)
    requires d + i + 32 <= |mem| && s + i + 32 <= |mem|
    requires forall k: nat | k < i + 32 :: origin(k) < |mem|
    requires forall j: nat | j < 32 :: Follows(origin, d, s, i, j)
    requires Copied(origin, mem, mem', d, i) && BlockMoved(mem', mem'', d + i, s + i)
    ensures Copied(origin, mem, mem'', d, i + 32)
  {
    forall k: nat | k < |mem|
      ensures mem''[k] == if d <= k < d + i + 32 then mem[origin(k - d)] else mem[k]
    {
      if d + i <= k < d + i + 32 {
        var j := k - (d + i);
        assert Follows(origin, d, s, i, j) && mem''[k] == mem'[s + i + j];
      }
    }
  }

  lemma OriginFollows(d: nat, s: nat, i: nat)
    requires i % 32 == 0
    ensures forall j: nat | j < 32 :: Follows(Upward(32, d, s), d, s, i, j)
  {
    forall j: nat | j < 32
      ensures Follows(Upward(32, d, s), d, s, i, j)
    {
      OriginInBlock(d, s, i, j, s + i + j);
    }
  }

  /** A 32-bit `unsigned` less `step`. */
  function Less(l: word, step: word): word { (l - step) % 0x1_0000_0000 }

  /** `inline_mass_copy`; the length is a multiple of 32, or the loop does not end. */
  method MassCopy(mem: array<byte>, d: nat, s: nat, l: word)
    requires d + l <= mem.Length && s + l <= mem.Length && l % 32 == 0
    modifies mem
    ensures Copied(Upward(32, d, s), old(mem[..]), mem[..], d, l)
  {
    var i, rest := 0, l;
    while rest > 0
      invariant 0 <= i <= l && i % 32 == 0 && rest == l - i
      invariant Copied(Upward(32, d, s), old(mem[..]), mem[..], d, i)
    {
      ghost var before := mem[..];
      CopyBlock(mem, d + i, s + i);
      OriginFollows(d, s, i);
      BlockIsNext(Upward(32, d, s), old(mem[..]), before, mem[..], d, s, i);
      i, rest := i + 32, Less(rest, 32);
    }
  }

  /**
    `inline_wmemset`; `v` is the word as it lies in memory, and the length is a
    multiple of 4, or the loop does not end.
   */
  method Wmemset(mem: array<byte>, d: nat, v: seq<byte>, l: word)
    requires d + l <= mem.Length && l % 4 == 0 && |v| == 4
    modifies mem
    ensures forall k: nat | k < mem.Length :: mem[k] == if d <= k < d + l then v[(k - d) % 4] else old(mem[k])
  {
    var i, rest := 0, l;
    while rest > 0
      invariant 0 <= i <= l && i % 4 == 0 && rest == l - i
      invariant forall k: nat | k < mem.Length :: mem[k] == if d <= k < d + i then v[(k - d) % 4] else old(mem[k])
    {
      mem[d + i], mem[d + i + 1], mem[d + i + 2], mem[d + i + 3] := v[0], v[1], v[2], v[3];
      i, rest := i + 4, Less(rest, 4);
    }
  }

  // ---------------------------------------------------------------- overlap

  predicate SameByte(mem: seq<byte>, p: nat, q: nat) {
    p < |mem| && q < |mem| ==> mem[p] == mem[q]
  }

  /** Two copies of `l` bytes, seen as functions, agree on every memory of `size` bytes. */
  ghost predicate Agree(f: nat -> nat, g: nat -> nat, l: nat, size: nat) {
    forall mem: seq<byte>, i: nat | |mem| == size && i < l :: SameByte(mem, f(i), g(i))
  }

  /** They do only if they take every byte from the same place. */
  lemma AgreeIff(f: nat -> nat, g: nat -> nat, l: nat, size: nat)
    requires forall i: nat | i < l :: f(i) < size && g(i) < size
    ensures Agree(f, g, l, size) <==> forall i: nat | i < l :: f(i) == g(i)
  {
    if Agree(f, g, l, size) {
      forall i: nat | i < l
        ensures f(i) == g(i)
      {
        var mem: seq<byte> := seq(size, (k: nat) => if k == f(i) then 1 else 0);
        assert SameByte(mem, f(i), g(i));
      }
    }
  }

  /** Overlapping upward copies repeat the first `d - s` bytes. */
  lemma {:induction false} UpwardRepeats(block: nat, d: nat, s: nat, i: nat)
    requires 0 < block <= d - s
    ensures Origin(block, d, s, i) == s + i % (d - s)
  {
    var n := d - s;
    var q, r := Split(i, block);
    if i >= n {
      UpwardRepeats(block, d, s, i - n);
      DivModShift(1, i - n, n);
    } else {
      DivModUnique(i, n, 0, i);
    }
  }

  lemma MemcpyMovesIff(d: nat, s: nat, l: nat, size: nat)
    requires d + l <= size && s + l <= size
    ensures Agree(Upward(1, d, s), Straight(s), l, size) <==> d <= s || s + l <= d
  {
    AgreeIff(Upward(1, d, s), Straight(s), l, size);
    if s < d < s + l {
      UpwardRepeats(1, d, s, d - s);
      assert Upward(1, d, s)(d - s) != Straight(s)(d - s);
    }
  }

  lemma BackwardMovesIff(d: nat, s: nat, l: nat, size: nat)
    requires d + l <= size && s + l <= size
    ensures Agree(Downward(d, s, l), Straight(s), l, size) <==> s <= d || d + l <= s
  {
    AgreeIff(Downward(d, s, l), Straight(s), l, size);
    if d < s < d + l {
      var i := l - 1 - (s - d);
      assert Downward(d, s, l)(i) != Straight(s)(i);
    }
  }

  /** A block copy is a `memmove` also when one block is all there is. */
  lemma MassCopyMovesIff(d: nat, s: nat, l: nat, size: nat)
    requires d + l <= size && s + l <= size && l % 32 == 0
    ensures Agree(Upward(32, d, s), Straight(s), l, size) <==> d <= s || s + l <= d || l <= 32
  {
    AgreeIff(Upward(32, d, s), Straight(s), l, size);
    if s < d < s + l && l > 32 {
      var i := if d - s < 32 then 32 else d - s;
      if d - s >= 32 { UpwardRepeats(32, d, s, i); }
      assert Upward(32, d, s)(i) != Straight(s)(i);
    }
  }

  lemma SecondByteDiffers(d: nat, s: nat)
    requires s < d < s + 32
    ensures Origin(32, d, s, d - s) == d && Origin(1, d, s, d - s) == s
  {
    assert (d - s) % 32 == d - s;
    assert (d - s) % 1 == 0;
  }

  /** Block by block is byte by byte, unless the target starts inside the first block above the source. */
  lemma MassCopyIsMemcpyIff(d: nat, s: nat, l: nat, size: nat)
    requires d + l <= size && s + l <= size && l % 32 == 0
    ensures Agree(Upward(32, d, s), Upward(1, d, s), l, size) <==> d <= s || s + 32 <= d || l == 0
  {
    AgreeIff(Upward(32, d, s), Upward(1, d, s), l, size);
    if s + 32 <= d {
      forall i: nat | i < l
        ensures Upward(32, d, s)(i) == Upward(1, d, s)(i)
      {
        UpwardRepeats(32, d, s, i);
        UpwardRepeats(1, d, s, i);
      }
    } else if s < d && l > 0 {
      SecondByteDiffers(d, s);
      assert Upward(32, d, s)(d - s) != Upward(1, d, s)(d - s);
    }
  }

  // ---------------------------------------------------------------- termination

  /** The counter of a loop `while (l > 0) l -= step` after `n` turns, ignoring the guard. */
  function AfterTurns(l: word, step: word, n: nat): word {
    if n == 0 then l else Less(AfterTurns(l, step, n - 1), step)
  }

  lemma LessKeepsResidue(l: word, step: word)
    requires step == 4 || step == 32
    ensures Less(l, step) % step == l % step && (step <= l ==> Less(l, step) == l - step)
  {
    if step == 4 {
      assert Less(l, 4) % 4 == l % 4;
    } else {
      assert Less(l, 32) % 32 == l % 32;
    }
  }

  lemma {:induction false} CounterKeepsResidue(l: word, step: word, n: nat)
    requires step == 4 || step == 32
    ensures AfterTurns(l, step, n) % step == l % step
    ensures n * step <= l ==> AfterTurns(l, step, n) == l - n * step
  {
    if n > 0 {
      CounterKeepsResidue(l, step, n - 1);
      LessKeepsResidue(AfterTurns(l, step, n - 1), step);
      assert n * step == (n - 1) * step + step;
    }
  }

  /** The loop of the word fill (step 4) and of the block copy (step 32) ends exactly for multiples of its step. */
  lemma EndsIff(l: word, step: word)
    requires step == 4 || step == 32
    ensures (exists n: nat :: AfterTurns(l, step, n) == 0) <==> l % step == 0
  {
    if l % step == 0 {
      CounterKeepsResidue(l, step, l / step);
      assert AfterTurns(l, step, l / step) == 0;
    } else if n: nat :| AfterTurns(l, step, n) == 0 {
      CounterKeepsResidue(l, step, n);
    }
  }
}
