/** Whole runs of a first-fit heap: any sequence of allocations and releases. With
    `back`, blocks are cut off the end of a chunk, otherwise off its front. */
module HeapRuns {
  import Arithmetic
  import opened FreeList
  import opened HeapAlign

  datatype Op = AllocOp(bytes: nat) | AlignedOp(size: nat, align: nat) | FreeOp(k: nat)

  /** The free list, and the blocks in use in the order they were allocated. */
  datatype State = State(free: seq<Chunk>, live: seq<Chunk>)

  function WithoutBlock(live: seq<Chunk>, k: nat): seq<Chunk>
    requires k < |live|
  {
    live[..k] + live[k + 1..]
  }

  /** The block that an allocation takes from a chunk, and what it leaves. */
  function Block(c: Chunk, size: nat, back: bool): Chunk {
    Chunk(if back then c.End() - size else c.addr, size)
  }

  function Left(c: Chunk, size: nat, back: bool): seq<Chunk>
    requires size <= c.size
  {
    if back then BackTaken(c, size) else FrontTaken(c, size)
  }

  /** What callers of aligned allocation keep to. */
  predicate MayAlign(size: nat, align: nat) {
    size > 0 && size % 8 == 0 && align >= 8 && IsPowerOfTwo(align)
  }

  /** The chunk it takes its room from. */
  function AlignedAt(cs: seq<Chunk>, size: nat, align: nat): (i: nat)
    ensures i <= |cs| && (i < |cs| ==> AlignedRoom(size, align) <= cs[i].size)
  {
    FirstFit(cs, AlignedRoom(size, align))
  }

  /** One operation: an allocation of `bytes`, an aligned one of `size` bytes, or the
      release of block `k`. A request that cannot be met changes nothing. Aligned
      allocation is that of the heap that cuts blocks off the front. */
  function Step(s: State, op: Op, back: bool): State
    decreases if op.AlignedOp? then 1 else 0
  {
    match op
    case AllocOp(bytes) =>
      var size := RoundUp(bytes);
      var i := FirstFit(s.free, size);
      if bytes == 0 || i == |s.free| then s
      else State(Take(s.free, i, Left(s.free[i], size, back)), s.live + [Block(s.free[i], size, back)])
    case AlignedOp(size, align) =>
      if align < 8 then Step(s, AllocOp(size), back)
      else if !MayAlign(size, align) || back || AlignedAt(s.free, size, align) == |s.free| then s
      else
        var i := AlignedAt(s.free, size, align);
        State(AlignedList(s.free, i, size, align), s.live + [Chunk(AlignUp(s.free[i].addr, align), size)])
    case FreeOp(k) =>
      if k < |s.live| then State(Free(s.free, s.live[k]), WithoutBlock(s.live, k)) else s
  }

  function Run(s: State, ops: seq<Op>, back: bool): State {
    if ops == [] then s else Step(Run(s, ops[..|ops| - 1], back), ops[|ops| - 1], back)
  }

  ghost predicate Disjoint(c: Chunk, d: Chunk) {
    c.End() <= d.addr || d.End() <= c.addr
  }

  /** The free list is in order; blocks in use are aligned and pairwise disjoint;
      and every byte of the arena, and no other, is either free or in use. */
  ghost predicate Inv(s: State, arena: Chunk) {
    && WellFormed(s.free)
    && (forall c <- s.live :: c.addr % MIN_CHUNK_SIZE == 0 && c.size % MIN_CHUNK_SIZE == 0 && c.size >= MIN_CHUNK_SIZE)
    && (forall i, j :: 0 <= i < j < |s.live| ==> Disjoint(s.live[i], s.live[j]))
    && Tiled(s, arena)
  }

  ghost predicate Tiled(s: State, arena: Chunk) {
    forall b :: (Covers(s.free, b) || Covers(s.live, b) <==> arena.addr <= b < arena.End())
                && !(Covers(s.free, b) && Covers(s.live, b))
  }

  lemma BlockAligned(cs: seq<Chunk>, i: nat, size: nat, back: bool)
    requires WellFormed(cs) && i < |cs| && size % 8 == 0
    ensures Block(cs[i], size, back).addr % 8 == 0
  {
    assert cs[i] in cs;
    Arithmetic.Sum8(cs[i].addr, cs[i].size);
    Arithmetic.Sum8(size, cs[i].End());
  }

  lemma AllocKeepsInv(s: State, arena: Chunk, bytes: nat, back: bool)
    requires Inv(s, arena)
    ensures Inv(Step(s, AllocOp(bytes), back), arena)
  {
    var size := RoundUp(bytes);
    var i := FirstFit(s.free, size);
    if bytes > 0 && i < |s.free| {
      var c := Block(s.free[i], size, back);
      BlockAligned(s.free, i, size, back);
      TakeRemovesBytes(s.free, i, size, c.addr, Left(s.free[i], size, back));
      TakingKeepsInv(s, arena, c, Take(s.free, i, Left(s.free[i], size, back)));
    }
  }

  lemma AlignedKeepsInv(s: State, arena: Chunk, size: nat, align: nat, back: bool)
    requires Inv(s, arena)
    ensures Inv(Step(s, AlignedOp(size, align), back), arena)
  {
    hide Inv, WellFormed, Covers, AllFree, Without, AlignedList, AlignUp, IsPowerOfTwo;
    if align < 8 {
      AllocKeepsInv(s, arena, size, back);
    } else {
      InvOrdered(s, arena);
      var i := AlignedAt(s.free, size, align);
      if MayAlign(size, align) && !back && i < |s.free| {
        PowerOfTwoMod8(align);
        AlignedTakes(s.free, i, size, align);
        TakingKeepsInv(s, arena, Chunk(AlignUp(s.free[i].addr, align), size), AlignedList(s.free, i, size, align));
      }
    }
  }

  lemma InvOrdered(s: State, arena: Chunk)
    requires Inv(s, arena)
    ensures WellFormed(s.free)
  {
  }

  /** Taking an aligned block of free bytes, and no others, off the list. */
  lemma TakingKeepsInv(s: State, arena: Chunk, c: Chunk, free: seq<Chunk>)
    requires Inv(s, arena) && c.addr % 8 == 0 && c.size % 8 == 0 && c.size >= 8
    requires WellFormed(free) && AllFree(s.free, c.addr, c.size) && Without(s.free, free, c.addr, c.size)
    ensures Inv(State(free, s.live + [c]), arena)
  {
    var s' := State(free, s.live + [c]);
    forall j | 0 <= j < |s.live| ensures Disjoint(s.live[j], c) {
      FreeAndLiveApart(s, arena, s.live[j], c);
    }
    forall b
      ensures (Covers(s'.free, b) || Covers(s'.live, b) <==> arena.addr <= b < arena.End())
              && !(Covers(s'.free, b) && Covers(s'.live, b))
    {
      CoversConcat(s.live, [c], b);
      CoversOne(c, b);
      assert Covers(s.free, b) || Covers(s.live, b) <==> arena.addr <= b < arena.End();
    }
  }

  /** A block in use and a stretch of free bytes have no byte in common. */
  lemma FreeAndLiveApart(s: State, arena: Chunk, d: Chunk, c: Chunk)
    requires Tiled(s, arena) && d in s.live && d.size > 0 && c.size > 0
    requires AllFree(s.free, c.addr, c.size)
    ensures Disjoint(d, c)
  {
    var b := if d.addr < c.addr then c.addr else d.addr;
    assert d.addr <= b < d.End() ==> Covers(s.live, b);
    assert c.addr <= b < c.End() ==> Covers(s.free, b);
  }

  lemma LiveWithout(live: seq<Chunk>, k: nat, b: int)
    requires k < |live| && forall i, j :: 0 <= i < j < |live| ==> Disjoint(live[i], live[j])
    ensures Covers(WithoutBlock(live, k), b) <==> Covers(live, b) && !(live[k].addr <= b < live[k].End())
  {
    var rest := WithoutBlock(live, k);
    forall c | c in rest ensures c in live && (c.addr <= b < c.End() ==> !(live[k].addr <= b < live[k].End())) {
      var j :| 0 <= j < |live| && j != k && live[j] == c;
      assert if j < k then Disjoint(live[j], live[k]) else Disjoint(live[k], live[j]);
    }
    forall c | c in live && c != live[k] ensures c in rest {
      var j :| 0 <= j < |live| && live[j] == c;
      assert rest[if j < k then j else j - 1] == c;
    }
  }

  lemma FreeKeepsInv(s: State, arena: Chunk, k: nat, back: bool)
    requires Inv(s, arena) && k < |s.live|
    ensures Inv(Step(s, FreeOp(k), back), arena)
  {
    var c, s' := s.live[k], Step(s, FreeOp(k), back);
    assert c in s.live;
    forall b | c.addr <= b < c.End() ensures !Covers(s.free, b) {
      assert Covers(s.live, b);
    }
    FreeKeepsOrder(s.free, c);
    FreeAddsBytes(s.free, c);
    forall b
      ensures (Covers(s'.free, b) || Covers(s'.live, b) <==> arena.addr <= b < arena.End())
              && !(Covers(s'.free, b) && Covers(s'.live, b))
    {
      LiveWithout(s.live, k, b);
      assert Covers(s.free, b) || Covers(s.live, b) <==> arena.addr <= b < arena.End();
      assert c.addr <= b < c.End() ==> Covers(s.live, b);
    }
    forall d | d in s'.live ensures d in s.live {
    }
    var was, now := s.live, s'.live;
    forall i, j | 0 <= i < j < |now| ensures Disjoint(now[i], now[j]) {
      assert now[i] == was[if i < k then i else i + 1] && now[j] == was[if j < k then j else j + 1];
    }
  }

  /** Every run, from a heap that is one free chunk, keeps the free list in
      order and the arena tiled by free chunks and blocks in use. */
  lemma {:induction false} EveryRun(arena: Chunk, ops: seq<Op>, back: bool)
    requires WellFormed([arena])
    ensures Inv(Run(State([arena], []), ops, back), arena)
  {
    if ops == [] {
      forall b ensures Covers([arena], b) <==> arena.addr <= b < arena.End() {
        CoversOne(arena, b);
      }
      assert forall b: int :: !Covers([], b);
    } else {
      var s := Run(State([arena], []), ops[..|ops| - 1], back);
      EveryRun(arena, ops[..|ops| - 1], back);
      match ops[|ops| - 1]
      case AllocOp(bytes) => AllocKeepsInv(s, arena, bytes, back);
      case AlignedOp(size, align) => AlignedKeepsInv(s, arena, size, align, back);
      case FreeOp(k) =>
        if k < |s.live| {
          FreeKeepsInv(s, arena, k, back);
        }
    }
  }

  /** A block in use can be given back. */
  lemma LiveReturnable(s: State, arena: Chunk, k: nat)
    requires Inv(s, arena) && k < |s.live|
    ensures RoundUp(s.live[k].size) == s.live[k].size && Returnable(s.free, s.live[k])
    ensures arena.addr <= s.live[k].addr && s.live[k].End() <= arena.End()
  {
    var c := s.live[k];
    assert c in s.live;
    forall b | c.addr <= b < c.End() ensures !Covers(s.free, b) {
      assert Covers(s.live, b);
    }
    assert Covers(s.live, c.addr) && Covers(s.live, c.End() - 1);
  }

  /** Two runs that leave the same bytes in use leave the identical free list,
      whatever they did before. */
  lemma FreeListForgetsHistory(arena: Chunk, ops: seq<Op>, ops': seq<Op>, back: bool)
    requires WellFormed([arena])
    requires SameBytes(Run(State([arena], []), ops, back).live, Run(State([arena], []), ops', back).live)
    ensures Run(State([arena], []), ops, back).free == Run(State([arena], []), ops', back).free
  {
    var s, t := Run(State([arena], []), ops, back), Run(State([arena], []), ops', back);
    EveryRun(arena, ops, back);
    EveryRun(arena, ops', back);
    forall b ensures Covers(s.free, b) <==> Covers(t.free, b) {
      assert Covers(s.live, b) <==> Covers(t.live, b);
    }
    Canonical(s.free, t.free);
  }

  /** Once every block has been given back, in whatever order, the heap is the
      one chunk it started from. */
  lemma AllGivenBack(arena: Chunk, ops: seq<Op>, back: bool)
    requires WellFormed([arena]) && Run(State([arena], []), ops, back).live == []
    ensures Run(State([arena], []), ops, back).free == [arena]
  {
    FreeListForgetsHistory(arena, ops, [], back);
  }

  /** In every run an allocation fails only if no free bytes in a row would be
      enough. */
  lemma FailsOnlyWhenFull(arena: Chunk, ops: seq<Op>, bytes: nat, addr: int, back: bool)
    requires WellFormed([arena]) && bytes > 0
    requires Run(State([arena], []), ops + [AllocOp(bytes)], back) == Run(State([arena], []), ops, back)
    ensures !AllFree(Run(State([arena], []), ops, back).free, addr, RoundUp(bytes))
  {
    var s := Run(State([arena], []), ops, back);
    EveryRun(arena, ops, back);
    assert (ops + [AllocOp(bytes)])[..|ops|] == ops;
    assert FirstFit(s.free, RoundUp(bytes)) == |s.free| by {
      assert |Step(s, AllocOp(bytes), back).live| == |s.live|;
    }
    NoFitNoRoom(s.free, RoundUp(bytes), addr);
  }

  // ----- what each operation of a run does

  lemma RunLast(s: State, ops: seq<Op>, op: Op, back: bool)
    ensures Run(s, ops + [op], back) == Step(Run(s, ops, back), op, back)
  {
    assert (ops + [op])[..|ops|] == ops;
  }

  /** After any run, an allocation succeeds exactly when some chunk is large enough; it adds a
      block of the size asked for, rounded up to a multiple of 8, whose bytes were free and now
      are not. */
  lemma AllocDoes(arena: Chunk, ops: seq<Op>, bytes: nat, back: bool)
    requires WellFormed([arena]) && bytes > 0
    ensures var s, t := Run(State([arena], []), ops, back), Run(State([arena], []), ops + [AllocOp(bytes)], back);
      if exists c <- s.free :: bytes <= c.size then
        && |t.live| == |s.live| + 1 && t.live[..|s.live|] == s.live
        && var c := t.live[|s.live|];
           && c.size % 8 == 0 && bytes <= c.size < bytes + 8
           && AllFree(s.free, c.addr, c.size) && Without(s.free, t.free, c.addr, c.size)
      else t == s
  {
    var s := Run(State([arena], []), ops, back);
    RunLast(State([arena], []), ops, AllocOp(bytes), back);
    EveryRun(arena, ops, back);
    InvOrdered(s, arena);
    var size := RoundUp(bytes);
    var i := FirstFit(s.free, size);
    SomeFit(s.free, bytes);
    if i < |s.free| {
      TakeRemovesBytes(s.free, i, size, Block(s.free[i], size, back).addr, Left(s.free[i], size, back));
    }
  }

  /** A chunk is large enough for the rounded size if it is for the size. */
  lemma SomeFit(cs: seq<Chunk>, bytes: nat)
    requires WellFormed(cs)
    ensures FirstFit(cs, RoundUp(bytes)) < |cs| <==> exists c <- cs :: bytes <= c.size
  {
    var size := RoundUp(bytes);
    forall c | c in cs && bytes <= c.size ensures size <= c.size {
      Arithmetic.Sum8(c.size, size);
    }
    if c :| c in cs && bytes <= c.size {
      var j :| 0 <= j < |cs| && cs[j] == c;
    }
    if FirstFit(cs, size) < |cs| {
      assert cs[FirstFit(cs, size)] in cs;
    }
  }

  /** An aligned allocation succeeds exactly when some chunk has room for block, alignment and
      two headers; it adds a block of exactly the size asked for, at a multiple of the
      alignment. */
  lemma AlignedDoes(arena: Chunk, ops: seq<Op>, size: nat, align: nat)
    requires WellFormed([arena]) && size > 0 && size % 8 == 0 && align >= 8 && IsPowerOfTwo(align)
    ensures var s, t := Run(State([arena], []), ops, false), Run(State([arena], []), ops + [AlignedOp(size, align)], false);
      if exists c <- s.free :: size + align + 16 <= c.size then
        && |t.live| == |s.live| + 1 && t.live[..|s.live|] == s.live
        && var c := t.live[|s.live|];
           && c.size == size && c.addr % align == 0
           && AllFree(s.free, c.addr, c.size) && Without(s.free, t.free, c.addr, c.size)
      else t == s
  {
    var s := Run(State([arena], []), ops, false);
    RunLast(State([arena], []), ops, AlignedOp(size, align), false);
    EveryRun(arena, ops, false);
    InvOrdered(s, arena);
    PowerOfTwoMod8(align);
    var i := AlignedAt(s.free, size, align);
    assert i < |s.free| <==> exists c <- s.free :: size + align + 16 <= c.size by {
      if i < |s.free| {
        assert s.free[i] in s.free;
      }
    }
    hide WellFormed, Covers, AllFree, Without, AlignedList, IsPowerOfTwo;
    if i < |s.free| {
      AlignedTakes(s.free, i, size, align);
      AlignUpBounds(s.free[i].addr, align);
    }
  }

  /** Smaller alignments are those of every block. */
  lemma SmallAlignedDoes(arena: Chunk, ops: seq<Op>, size: nat, align: nat, back: bool)
    requires align < 8
    ensures Run(State([arena], []), ops + [AlignedOp(size, align)], back)
            == Run(State([arena], []), ops + [AllocOp(size)], back)
  {
    RunLast(State([arena], []), ops, AlignedOp(size, align), back);
    RunLast(State([arena], []), ops, AllocOp(size), back);
  }

  /** A release takes block `k` out of those in use, keeps the others, and makes its bytes, and
      no others, free. */
  lemma FreeDoes(arena: Chunk, ops: seq<Op>, k: nat, back: bool)
    requires WellFormed([arena])
    ensures var s, t := Run(State([arena], []), ops, back), Run(State([arena], []), ops + [FreeOp(k)], back);
      if k < |s.live| then
        && t.live == s.live[..k] + s.live[k + 1..]
        && NoneFree(s.free, s.live[k].addr, s.live[k].size) && With(s.free, t.free, s.live[k].addr, s.live[k].size)
      else t == s
  {
    var s := Run(State([arena], []), ops, back);
    RunLast(State([arena], []), ops, FreeOp(k), back);
    EveryRun(arena, ops, back);
    if k < |s.live| {
      LiveReturnable(s, arena, k);
      FreeAddsBytes(s.free, s.live[k]);
    }
  }
}
