/** Aligned allocation by trimming: a larger block is taken, and what lies before
    the aligned address and behind the block is given back. */
module HeapAlign {
  import opened Arithmetic
  import opened FreeList

  predicate IsPowerOfTwo(n: nat) {
    n == 1 || (n > 1 && n % 2 == 0 && IsPowerOfTwo(n / 2))
  }

  lemma {:induction false} PowerOfTwoMod8(n: nat)
    requires IsPowerOfTwo(n) && n >= 8
    ensures n % 8 == 0
  {
    var h := n / 2;
    var q := h / 2;
    assert IsPowerOfTwo(h) && h % 2 == 0;
    assert IsPowerOfTwo(q) && q % 2 == 0;
    assert n == 2 * h && h == 2 * q;
  }

  /** The next multiple of `align`; for a power of two, `(a + align - 1) & -align`. */
  function AlignUp(a: int, align: nat): int
    requires align > 0
  {
    (a + align - 1) / align * align
  }

  lemma AlignUpBounds(a: int, align: nat)
    requires align > 0
    ensures a <= AlignUp(a, align) < a + align && AlignUp(a, align) % align == 0
  {
    var q := (a + align - 1) / align;
    assert q * align <= a + align - 1 < q * align + align;
    MultipleMod(q, align);
  }

  lemma AlignUpSelf(a: int, align: nat)
    requires align > 0
    ensures AlignUp(a, align) == a <==> a % align == 0
  {
    AlignUpBounds(a, align);
    if a % align == 0 {
      assert a == a / align * align;
      DivModUnique(a + align - 1, align, a / align, align - 1);
    }
  }

  /** A multiple of `align` is 8-aligned if `align` is. */
  lemma AlignUpMod8(a: int, align: nat)
    requires align > 0 && align % 8 == 0
    ensures AlignUp(a, align) % 8 == 0
  {
    var q, e := (a + align - 1) / align, align / 8;
    assert align == 8 * e;
    assert q * align == 8 * (q * e);
  }

  // ----- trimming

  /** What is before the aligned address of a block that was just taken. */
  function Head(result: int, p: int): Chunk {
    Chunk(result, p - result)
  }

  function HeadFreed(cs: seq<Chunk>, result: int, p: int): seq<Chunk> {
    if p == result then cs else Free(cs, Head(result, p))
  }

  /** A taken block `[result, result + total)` whose head, before `p`, goes back. */
  lemma HeadGoesBack(cs: seq<Chunk>, i: nat, total: nat, p: int)
    requires WellFormed(cs) && i < |cs| && 0 < total <= cs[i].size && total % 8 == 0
    requires p % 8 == 0 && cs[i].addr <= p < cs[i].addr + total
    ensures var cs1, result := Take(cs, i, FrontTaken(cs[i], total)), cs[i].addr;
      && WellFormed(cs1) && (p > result ==> Returnable(cs1, Head(result, p)))
      && WellFormed(HeadFreed(cs1, result, p))
      && AllFree(cs, result, total)
      && Without(cs, HeadFreed(cs1, result, p), p, result + total - p)
  {
    var cs1, result := Take(cs, i, FrontTaken(cs[i], total)), cs[i].addr;
    assert cs[i] in cs;
    TakeRemovesBytes(cs, i, total, result, FrontTaken(cs[i], total));
    if p > result {
      HeadReturnable(cs, cs1, result, total, p);
      FreeKeepsOrder(cs1, Head(result, p));
      FreeAddsBytes(cs1, Head(result, p));
      TrimmedBytes(cs, cs1, Free(cs1, Head(result, p)), result, total, p);
    }
  }

  lemma HeadReturnable(cs: seq<Chunk>, cs1: seq<Chunk>, result: int, total: int, p: int)
    requires Without(cs, cs1, result, total) && result % 8 == 0 && p % 8 == 0 && result < p < result + total
    ensures Returnable(cs1, Head(result, p))
  {
  }

  lemma TrimmedBytes(cs: seq<Chunk>, cs1: seq<Chunk>, cs2: seq<Chunk>, result: int, total: int, p: int)
    requires Without(cs, cs1, result, total) && With(cs1, cs2, result, p - result)
    requires AllFree(cs, result, total) && result < p < result + total
    ensures Without(cs, cs2, p, result + total - p)
  {
    forall b ensures Covers(cs2, b) <==> Covers(cs, b) && !(p <= b < p + (result + total - p)) {
      assert result <= b < p ==> Covers(cs, b);
    }
  }

  /** Giving back bytes that are not free keeps the list in order exactly when their
      address is aligned. */
  lemma FreeKeepsOrderIff(cs: seq<Chunk>, c: Chunk)
    requires WellFormed(cs) && NoneFree(cs, c.addr, c.size) && c.size % 8 == 0 && c.size >= 8
    ensures WellFormed(Free(cs, c)) <==> c.addr % 8 == 0
  {
    if c.addr % 8 == 0 {
      FreeKeepsOrder(cs, c);
    } else {
      FreeIsReplace(cs, c);
      var i := Place(cs, c.addr);
      assert JoinFrom(cs, c) == i by {
        if i > 0 {
          assert cs[i - 1] in cs;
          Sum8(cs[i - 1].addr, cs[i - 1].size);
        }
      }
      assert Joined(cs, c).addr == c.addr && Joined(cs, c) in Free(cs, c);
    }
  }

  /** What is behind a block of `size` bytes can go back exactly when `size` is a
      multiple of 8: otherwise the heap would be given an unaligned chunk, and its
      list would hold one. */
  lemma TailReturnable(cs: seq<Chunk>, cs2: seq<Chunk>, p: int, room: int, size: nat, tail: nat)
    requires Without(cs, cs2, p, room) && p % 8 == 0
    requires tail % 8 == 0 && tail >= 8 && size + tail <= room
    ensures Returnable(cs2, Chunk(p + size, tail)) <==> size % 8 == 0
    ensures WellFormed(cs2) ==> (WellFormed(Free(cs2, Chunk(p + size, tail))) <==> size % 8 == 0)
  {
    assert (p + size) % 8 == 0 <==> size % 8 == 0;
    if WellFormed(cs2) {
      FreeKeepsOrderIff(cs2, Chunk(p + size, tail));
    }
  }

  /** Such a size: 12 bytes at a multiple of 16 take 48 of the 128 free bytes from 16
      on, and what is given back behind them is listed as a chunk at 28. */
  lemma UnalignedTail()
    ensures var cs := [Chunk(16, 128)];
      var cs2 := Take(cs, 0, FrontTaken(cs[0], RoundUp(12 + 16 + 16)));
      var ds := Free(cs2, Chunk(AlignUp(16, 16) + 12, RoundUp(12 + 16 + 16 - 12)));
      WellFormed(cs2) && Chunk(28, 32) in ds && !WellFormed(ds)
  {
    var cs := [Chunk(16, 128)];
    var cs2 := Take(cs, 0, FrontTaken(cs[0], 48));
    assert cs2 == [Chunk(64, 80)];
    assert Free(cs2, Chunk(28, 32)) == [Chunk(28, 32), Chunk(64, 80)];
    assert Chunk(28, 32).addr % MIN_CHUNK_SIZE != 0;
  }

  /** After head and tail went back, exactly the block is taken. */
  lemma OnlyBlockTaken(cs: seq<Chunk>, cs2: seq<Chunk>, cs3: seq<Chunk>, p: int, size: nat, tail: nat)
    requires Without(cs, cs2, p, size + tail) && With(cs2, cs3, p + size, tail)
    requires AllFree(cs, p, size + tail)
    ensures Without(cs, cs3, p, size)
  {
    forall b ensures Covers(cs3, b) <==> Covers(cs, b) && !(p <= b < p + size) {
      assert p <= b < p + size + tail ==> Covers(cs, b);
    }
  }

  lemma TailGoesBack(cs: seq<Chunk>, cs2: seq<Chunk>, p: int, size: nat, tail: nat)
    requires WellFormed(cs2) && Without(cs, cs2, p, size + tail) && AllFree(cs, p, size + tail)
    requires p % 8 == 0 && size % 8 == 0 && tail % 8 == 0 && tail >= 8
    ensures RoundUp(tail) == tail && Returnable(cs2, Chunk(p + size, tail))
    ensures Without(cs, Free(cs2, Chunk(p + size, tail)), p, size)
  {
    TailReturnable(cs, cs2, p, size + tail, size, tail);
    FreeAddsBytes(cs2, Chunk(p + size, tail));
    OnlyBlockTaken(cs, cs2, Free(cs2, Chunk(p + size, tail)), p, size, tail);
  }

  /** What an aligned allocation asks of the heap: room for the block, for its
      alignment, and for two headers. */
  function AlignedRoom(size: nat, align: nat): nat {
    size + align + 16
  }

  /** The list after an aligned allocation from chunk `i`. */
  function AlignedList(cs: seq<Chunk>, i: nat, size: nat, align: nat): seq<Chunk>
    requires i < |cs| && AlignedRoom(size, align) <= cs[i].size && align > 0
  {
    var block, total := cs[i].addr, AlignedRoom(size, align);
    var p := AlignUp(block, align);
    Free(HeadFreed(Take(cs, i, FrontTaken(cs[i], total)), block, p), Chunk(p + size, total - (p - block) - size))
  }

  /** It takes exactly the block, which was free, and keeps the list in order. */
  lemma AlignedTakes(cs: seq<Chunk>, i: nat, size: nat, align: nat)
    requires WellFormed(cs) && i < |cs| && AlignedRoom(size, align) <= cs[i].size
    requires size % 8 == 0 && align % 8 == 0 && align > 0
    ensures var p := AlignUp(cs[i].addr, align);
            && p % 8 == 0 && AllFree(cs, p, size)
            && WellFormed(AlignedList(cs, i, size, align)) && Without(cs, AlignedList(cs, i, size, align), p, size)
  {
    hide Covers, Take, Free, HeadFreed, FrontTaken;
    var block, total := cs[i].addr, AlignedRoom(size, align);
    AlignedPlace(cs, i, size, align);
    hide WellFormed, AlignUp;
    var p := AlignUp(block, align);
    HeadGoesBack(cs, i, total, p);
    PartFree(cs, block, total, p, size);
    TailTakes(cs, HeadFreed(Take(cs, i, FrontTaken(cs[i], total)), block, p), p, size, total - (p - block) - size);
  }

  /** Where the block is, and that what is behind it is a chunk of its own. */
  lemma AlignedPlace(cs: seq<Chunk>, i: nat, size: nat, align: nat)
    requires WellFormed(cs) && i < |cs| && size % 8 == 0 && align % 8 == 0 && align > 0
    ensures var block, p, total := cs[i].addr, AlignUp(cs[i].addr, align), AlignedRoom(size, align);
            && p % 8 == 0 && total % 8 == 0 && block <= p < block + total
            && (total - (p - block) - size) % 8 == 0 && total - (p - block) - size > 16
  {
    assert cs[i] in cs;
    AlignUpBounds(cs[i].addr, align);
    AlignUpMod8(cs[i].addr, align);
    hide AlignUp, WellFormed, RoundUp;
    TrimSizes(size, align, cs[i].addr, AlignUp(cs[i].addr, align));
    Sum8(size, align);
    Sum8(size + align, 16);
  }

  lemma TailTakes(cs: seq<Chunk>, cs2: seq<Chunk>, p: int, size: nat, tail: nat)
    requires WellFormed(cs2) && Without(cs, cs2, p, size + tail) && AllFree(cs, p, size + tail)
    requires p % 8 == 0 && size % 8 == 0 && tail % 8 == 0 && tail >= 8
    ensures WellFormed(Free(cs2, Chunk(p + size, tail))) && Without(cs, Free(cs2, Chunk(p + size, tail)), p, size)
  {
    hide WellFormed, Covers, Free, RoundUp;
    TailGoesBack(cs, cs2, p, size, tail);
    FreeKeepsOrder(cs2, Chunk(p + size, tail));
  }

  lemma PartFree(cs: seq<Chunk>, block: int, total: int, p: int, size: nat)
    requires AllFree(cs, block, total) && block <= p && p + size <= block + total
    ensures AllFree(cs, p, size) && AllFree(cs, p, block + total - p)
  {
  }

  /** Whatever list in order takes exactly the block is that one. */
  lemma AlignedIs(cs: seq<Chunk>, i: nat, size: nat, align: nat, ds: seq<Chunk>)
    requires WellFormed(cs) && i < |cs| && AlignedRoom(size, align) <= cs[i].size
    requires size % 8 == 0 && align % 8 == 0 && align > 0
    requires WellFormed(ds) && Without(cs, ds, AlignUp(cs[i].addr, align), size)
    ensures ds == AlignedList(cs, i, size, align)
  {
    AlignedTakes(cs, i, size, align);
    SameWithout(cs, ds, AlignedList(cs, i, size, align), AlignUp(cs[i].addr, align), size);
    Canonical(ds, AlignedList(cs, i, size, align));
  }

  lemma SameWithout(cs: seq<Chunk>, ds: seq<Chunk>, es: seq<Chunk>, a: int, n: int)
    requires Without(cs, ds, a, n) && Without(cs, es, a, n)
    ensures SameBytes(ds, es)
  {
    hide Covers;
  }

  /** A block taken whole from the front of a chunk. */
  lemma BlockTaken(cs: seq<Chunk>, bytes: nat)
    requires WellFormed(cs) && bytes > 0 && FirstFit(cs, RoundUp(bytes)) < |cs|
    ensures var size, i := RoundUp(bytes), FirstFit(cs, RoundUp(bytes));
      && cs[i].addr % 8 == 0 && AllFree(cs, cs[i].addr, size)
      && Without(cs, Take(cs, i, FrontTaken(cs[i], size)), cs[i].addr, size)
  {
    var size, i := RoundUp(bytes), FirstFit(cs, RoundUp(bytes));
    assert cs[i] in cs;
    TakeRemovesBytes(cs, i, size, cs[i].addr, FrontTaken(cs[i], size));
  }

  lemma RoundedAlready(n: nat)
    requires n % 8 == 0
    ensures RoundUp(n) == n
  {
  }

  /** The sizes that aligned allocation works with. */
  lemma TrimSizes(size: nat, align: nat, block: int, result: int)
    requires size % 8 == 0 && align % 8 == 0 && block % 8 == 0 && result % 8 == 0 && block <= result < block + align
    ensures RoundUp(size) == size && RoundUp(size + align + 16) == size + align + 16
    ensures var tail := size + align + 16 - (result - block) - size;
      tail % 8 == 0 && tail > 16 && result + size + tail == block + (size + align + 16)
  {
    hide RoundUp;
    Sum8(size, align);
    Sum8(size + align, 16);
    Sum8(align, 16);
    Sum8(block, result);
    Sum8(result - block, align + 16);
    RoundedAlready(size);
    RoundedAlready(size + align + 16);
  }
}
