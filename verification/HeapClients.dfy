/** Clients that only give back what they were given keep the heaps' contracts, so
    that a heap object goes through the runs of `HeapRuns`. */
module HeapClients {
  import opened FreeList
  import opened ByteCopy
  import opened HeapAlign
  import opened HeapRuns
  import opened Heap
  import opened ExternHeap

  /** The state after one more operation. */
  lemma RunMore(s: State, ops: seq<Op>, i: nat, back: bool)
    requires i < |ops|
    ensures Run(s, ops[..i + 1], back) == Step(Run(s, ops[..i], back), ops[i], back)
  {
    assert ops[..i + 1][..i] == ops[..i];
  }

  /** One operation on a heap, whose client has the blocks `live`. */
  method Perform(heap: Heap, live: seq<Chunk>, op: Op) returns (live': seq<Chunk>)
    requires heap.Valid() && Inv(State(heap.chunks, live), Chunk(heap.lo, heap.hi - heap.lo))
    modifies heap`header, heap`firstFree, heap`chunks, heap.power.pwdCount, heap.power.powered
    ensures heap.Valid() && State(heap.chunks, live') == Step(State(old(heap.chunks), live), op, false)
  {
    hide Heap.Valid, WellFormed, Covers, Inv, Free, Take, AlignedList, IsPowerOfTwo;
    live' := live;
    match op {
      case AllocOp(bytes) =>
        if bytes > 0 {
          var p := heap.UserAlloc(bytes);
          if p != 0 {
            live' := live + [Chunk(p, RoundUp(bytes))];
          }
        }
      case AlignedOp(size, align) =>
        if size > 0 && (align < 8 || MayAlign(size, align)) {
          var p := heap.UserAllocAlign(size, align);
          if p != 0 {
            live' := live + [Chunk(p, if align < 8 then RoundUp(size) else size)];
          }
        }
      case FreeOp(k) =>
        if k < |live| {
          LiveReturnable(State(heap.chunks, live), Chunk(heap.lo, heap.hi - heap.lo), k);
          heap.UserFree(live[k].addr, live[k].size);
          live' := WithoutBlock(live, k);
        }
    }
  }

  /** A client may do anything with a new heap: it ends with the free list, and with the
      blocks, of the run of its operations. */
  method RunHeap(heap: Heap, ops: seq<Op>) returns (live: seq<Chunk>)
    requires heap.Valid() && heap.chunks == [Chunk(heap.lo, heap.hi - heap.lo)]
    modifies heap`header, heap`firstFree, heap`chunks, heap.power.pwdCount, heap.power.powered
    ensures heap.Valid() && State(heap.chunks, live) == Run(State(old(heap.chunks), []), ops, false)
    ensures Inv(State(heap.chunks, live), old(heap.chunks)[0]) && (live == [] ==> heap.chunks == old(heap.chunks))
  {
    hide Heap.Valid, WellFormed, Inv, Step;
    ghost var arena := Chunk(heap.lo, heap.hi - heap.lo);
    ghost var start := State([arena], []);
    live := [];
    ArenaInOrder(heap);
    for i := 0 to |ops|
      invariant heap.Valid() && State(heap.chunks, live) == Run(start, ops[..i], false)
    {
      EveryRun(arena, ops[..i], false);
      RunMore(start, ops, i, false);
      live := Perform(heap, live, ops[i]);
    }
    assert ops[..|ops|] == ops;
    EveryRun(arena, ops, false);
    if live == [] {
      AllGivenBack(arena, ops, false);
    }
  }

  lemma ArenaInOrder(heap: Heap)
    requires heap.Valid()
    ensures WellFormed(heap.chunks)
  {
  }

  // ----- the heap with descriptors

  /** The same for that heap: `spare` is the descriptor that the other heap has to
      offer. */
  method PerformExtern(heap: ExternHeap, live: seq<Chunk>, op: Op, spare: int, ghost arena: Chunk)
    returns (live': seq<Chunk>)
    requires heap.Valid() && Inv(State(heap.chunks, live), arena) && arena.addr > 0
    requires spare != 0 && spare !in heap.header
    modifies heap
    ensures heap.Valid() && State(heap.chunks, live') == Step(State(old(heap.chunks), live), op, true)
    ensures heap.header.Keys <= old(heap.header.Keys) + {spare}
  {
    hide ExternHeap.Valid, WellFormed, Covers, Inv, Free, Take;
    live' := live;
    var bytes := Bytes(op);
    if op.FreeOp? {
      if op.k < |live| {
        LiveReturnable(State(heap.chunks, live), arena, op.k);
        var _ := heap.Free(live[op.k].addr, live[op.k].size, Some(spare));
        live' := WithoutBlock(live, op.k);
      }
    } else if bytes > 0 {
      PositiveChunks(State(heap.chunks, live), arena);
      var p := heap.Alloc(bytes);
      if p != 0 {
        live' := live + [Chunk(p, RoundUp(bytes))];
      }
    }
  }

  /** What an operation allocates without regard to alignment. */
  function Bytes(op: Op): nat {
    match op
    case AllocOp(bytes) => bytes
    case AlignedOp(size, align) => if align < 8 then size else 0
    case FreeOp(_) => 0
  }

  lemma PositiveChunks(s: State, arena: Chunk)
    requires Inv(s, arena) && arena.addr > 0
    ensures forall i :: 0 <= i < |s.free| ==> s.free[i].addr > 0
  {
    forall i | 0 <= i < |s.free| ensures s.free[i].addr > 0 {
      assert s.free[i] in s.free;
      assert Covers(s.free, s.free[i].addr);
    }
  }

  method RunExtern(heap: ExternHeap, ops: seq<Op>, spares: seq<int>) returns (live: seq<Chunk>)
    requires heap.Valid() && |heap.chunks| == 1 && heap.chunks[0].addr > 0
    requires |spares| == |ops| && Fresh(spares, 0, heap.header.Keys)
    modifies heap
    ensures heap.Valid() && State(heap.chunks, live) == Run(State(old(heap.chunks), []), ops, true)
    ensures Inv(State(heap.chunks, live), old(heap.chunks)[0]) && (live == [] ==> heap.chunks == old(heap.chunks))
  {
    hide ExternHeap.Valid, WellFormed, Inv, Step, Fresh;
    ghost var arena := heap.chunks[0];
    ghost var start := State([arena], []);
    live := [];
    ExternInOrder(heap);
    for i := 0 to |ops|
      invariant heap.Valid() && State(heap.chunks, live) == Run(start, ops[..i], true)
      invariant Fresh(spares, i, heap.header.Keys)
    {
      EveryRun(arena, ops[..i], true);
      RunMore(start, ops, i, true);
      FreshNext(spares, i, heap.header.Keys);
      live := PerformExtern(heap, live, ops[i], spares[i], arena);
    }
    assert ops[..|ops|] == ops;
    EveryRun(arena, ops, true);
    if live == [] {
      AllGivenBack(arena, ops, true);
    }
  }

  /** From place `i` on, the descriptors on offer are none of `used`, and differ. */
  ghost predicate Fresh(spares: seq<int>, i: nat, used: set<int>) {
    && (forall j :: i <= j < |spares| ==> spares[j] != 0 && spares[j] !in used)
    && (forall j, k :: i <= j < k < |spares| ==> spares[j] != spares[k])
  }

  lemma FreshNext(spares: seq<int>, i: nat, used: set<int>)
    requires Fresh(spares, i, used) && i < |spares|
    ensures spares[i] != 0 && spares[i] !in used
    ensures forall used': set<int> :: used' <= used + {spares[i]} ==> Fresh(spares, i + 1, used')
  {
  }

  lemma ExternInOrder(heap: ExternHeap)
    requires heap.Valid()
    ensures WellFormed(heap.chunks)
  {
  }
}
