/** The allocator for memory that cannot hold headers: the free chunks are
    described by descriptors in another heap. It takes blocks from the end of a
    chunk, so that only the size of the chunk changes. */
module ExternHeap {
  import opened Arithmetic
  import opened ByteCopy
  import opened FreeList
  import opened FreeListLinks
  import opened HeapAlign

  /** The descriptors on the list, in order, are `spine`: each has an identity
      (its own address in the descriptors' heap) and a size, and leads to the
      next, like the headers of the other heap. `addrOf` is the address field. */
  ghost predicate Describe(addrOf: map<int, int>, spine: seq<Chunk>, chunks: seq<Chunk>) {
    && |spine| == |chunks|
    && forall i :: 0 <= i < |spine| ==>
         spine[i].addr in addrOf && chunks[i] == Chunk(addrOf[spine[i].addr], spine[i].size)
  }

  ghost function Ids(spine: seq<Chunk>): (ids: set<int>)
    ensures forall id :: id in ids <==> exists c <- spine :: c.addr == id
  {
    set c <- spine :: c.addr
  }

  lemma {:induction false} IdsCount(spine: seq<Chunk>)
    requires Identified(spine)
    ensures |Ids(spine)| == |spine|
  {
    if spine != [] {
      var rest := spine[1..];
      IdsCount(rest);
      OthersElsewhere(spine, 0);
      assert Ids(spine) == {spine[0].addr} + Ids(rest);
    }
  }

  // ----- changes to part of the list

  /** Unlinking descriptor `i` and giving it back. */
  lemma DropLinks(h: map<int, Header>, first: int, cs: seq<Chunk>, i: nat)
    requires Identified(cs) && Chain(h, first, cs, 0) && i < |cs|
    ensures PrevOf(cs, i) != 0 ==> PrevOf(cs, i) in h
    ensures var next := Start(cs, i + 1, 0);
      Chain(SetNext(h, PrevOf(cs, i), next) - {cs[i].addr}, SetFirst(first, PrevOf(cs, i), next), Take(cs, i, []), 0)
  {
    var next := Start(cs, i + 1, 0);
    UnlinkLinks(h, first, cs, i);
    OthersElsewhere(cs, i);
    assert Elsewhere(Take(cs, i, []), cs[i].addr);
    ChainDrop(SetNext(h, PrevOf(cs, i), next), cs[i].addr, SetFirst(first, PrevOf(cs, i), next), Take(cs, i, []), 0);
  }

  /** Changing only the size of descriptor `i`. */
  lemma ResizeLinks(h: map<int, Header>, first: int, cs: seq<Chunk>, i: nat, size: int)
    requires Identified(cs) && Chain(h, first, cs, 0) && i < |cs|
    ensures cs[i].addr in h && h[cs[i].addr] == Header(cs[i].size, Start(cs, i + 1, 0))
    ensures Chain(h[cs[i].addr := Header(size, Start(cs, i + 1, 0))], first, Take(cs, i, [Chunk(cs[i].addr, size)]), 0)
  {
    var id, w := cs[i].addr, Header(size, Start(cs, i + 1, 0));
    ChainSplit(h, first, cs, i + 1, 0);
    OthersElsewhere(cs, i);
    assert cs[..i + 1] == cs[..i] + [cs[i]];
    ChainLast(h, first, cs[..i], cs[i], w.next, w);
    ChainFrame(h, id, w, w.next, cs[i + 1..], 0);
    ChainConcat(h[id := w], first, cs[..i] + [Chunk(id, size)], w.next, cs[i + 1..], 0);
  }

  lemma IdsReplace(cs: seq<Chunk>, i: nat, j: nat, mid: seq<Chunk>)
    requires i <= j <= |cs|
    ensures Ids(Replace(cs, i, j, mid)) == Ids(cs[..i]) + Ids(mid) + Ids(cs[j..])
    ensures Ids(cs) == Ids(cs[..i]) + Ids(cs[i..j]) + Ids(cs[j..])
  {
    IdsConcat(cs[..i] + mid, cs[j..]);
    IdsConcat(cs[..i], mid);
    assert cs == cs[..i] + cs[i..j] + cs[j..];
    IdsConcat(cs[..i] + cs[i..j], cs[j..]);
    IdsConcat(cs[..i], cs[i..j]);
  }

  lemma IdsConcat(cs: seq<Chunk>, ds: seq<Chunk>)
    ensures Ids(cs + ds) == Ids(cs) + Ids(ds)
  {
    forall id ensures id in Ids(cs + ds) <==> id in Ids(cs) + Ids(ds) {
      if c :| c in cs && c.addr == id {
        assert c in cs + ds;
      }
      if c :| c in ds && c.addr == id {
        assert c in cs + ds;
      }
    }
  }

  /** Putting one descriptor, or none, in the place of some. */
  lemma DescribeReplaced(addrOf: map<int, int>, addrOf': map<int, int>, spine: seq<Chunk>, chunks: seq<Chunk>,
                         i: nat, j: nat, mid: seq<Chunk>, mid': seq<Chunk>)
    requires Describe(addrOf, spine, chunks) && i <= j <= |spine| && |mid| <= 1
    requires Describe(addrOf', mid, mid')
    requires forall k :: 0 <= k < i || j <= k < |spine| ==>
               spine[k].addr in addrOf' && addrOf'[spine[k].addr] == addrOf[spine[k].addr]
    ensures Describe(addrOf', Replace(spine, i, j, mid), Replace(chunks, i, j, mid'))
  {
    var s, c := Replace(spine, i, j, mid), Replace(chunks, i, j, mid');
    forall k | 0 <= k < |s| ensures s[k].addr in addrOf' && c[k] == Chunk(addrOf'[s[k].addr], s[k].size) {
      if k < i {
        assert s[k] == spine[k] && c[k] == chunks[k];
      } else if k < i + |mid| {
        assert s[k] == mid[0] && c[k] == mid'[0];
      } else {
        var k' := k - i - |mid| + j;
        assert s[k] == spine[k'] && c[k] == chunks[k'];
      }
    }
  }

  lemma IdentifiedReplaced(cs: seq<Chunk>, i: nat, j: nat, mid: seq<Chunk>)
    requires Identified(cs) && i <= j <= |cs| && |mid| <= 1
    requires mid != [] ==> mid[0].addr != 0 && mid[0].addr !in Ids(cs[..i]) && mid[0].addr !in Ids(cs[j..])
    ensures Identified(Replace(cs, i, j, mid))
  {
    var rs := Replace(cs, i, j, mid);
    forall k, l | 0 <= k < l < |rs| ensures rs[k].addr != rs[l].addr {
      assert k < i ==> rs[k] == cs[k] && cs[k] in cs[..i];
      assert i <= k < i + |mid| ==> rs[k] == mid[0];
      assert i + |mid| <= k ==> rs[k] == cs[k - i - |mid| + j] && rs[k] in cs[j..];
      assert l < i ==> rs[l] == cs[l];
      assert i <= l < i + |mid| ==> rs[l] == mid[0];
      assert i + |mid| <= l ==> rs[l] == cs[l - i - |mid| + j] && rs[l] in cs[j..];
    }
  }

  ghost predicate NotNegative(chunks: seq<Chunk>) {
    forall c <- chunks :: c.addr >= 0
  }

  /** What remains when descriptor `i` goes. */
  lemma DropDescribed(addrOf: map<int, int>, spine: seq<Chunk>, chunks: seq<Chunk>, i: nat)
    requires Identified(spine) && Describe(addrOf, spine, chunks) && i < |spine|
    ensures Identified(Take(spine, i, [])) && Ids(Take(spine, i, [])) == Ids(spine) - {spine[i].addr}
    ensures Describe(addrOf - {spine[i].addr}, Take(spine, i, []), Take(chunks, i, []))
  {
    OthersElsewhere(spine, i);
    IdsReplace(spine, i, i + 1, []);
    assert spine[i..i + 1] == [spine[i]];
    IdentifiedReplaced(spine, i, i + 1, []);
    DescribeReplaced(addrOf, addrOf - {spine[i].addr}, spine, chunks, i, i + 1, [], []);
  }

  /** Changing size and address of descriptor `i`. */
  lemma ResizeDescribed(addrOf: map<int, int>, spine: seq<Chunk>, chunks: seq<Chunk>, i: nat, c: Chunk)
    requires Identified(spine) && Describe(addrOf, spine, chunks) && i < |spine|
    ensures var n := Chunk(spine[i].addr, c.size);
      && Identified(Take(spine, i, [n])) && Ids(Take(spine, i, [n])) == Ids(spine)
      && Describe(addrOf[n.addr := c.addr], Take(spine, i, [n]), Take(chunks, i, [c]))
  {
    var n := Chunk(spine[i].addr, c.size);
    OthersElsewhere(spine, i);
    IdsReplace(spine, i, i + 1, [n]);
    assert spine[i..i + 1] == [spine[i]] && Ids([n]) == Ids([spine[i]]) by {
      assert n in [n] && spine[i] in [spine[i]];
    }
    assert spine[i] in spine;
    IdentifiedReplaced(spine, i, i + 1, [n]);
    DescribeReplaced(addrOf, addrOf[n.addr := c.addr], spine, chunks, i, i + 1, [n], [c]);
  }

  /** A free list with its descriptors: the descriptors in use are exactly those
      on the list. */
  ghost predicate Ok(h: map<int, Header>, first: int, addrOf: map<int, int>, spine: seq<Chunk>, chunks: seq<Chunk>) {
    && Identified(spine) && Chain(h, first, spine, 0) && h.Keys == Ids(spine) && addrOf.Keys == Ids(spine)
    && Describe(addrOf, spine, chunks) && WellFormed(chunks) && NotNegative(chunks)
  }

  lemma IdInUse(spine: seq<Chunk>, i: nat)
    requires i < |spine|
    ensures spine[i].addr in Ids(spine)
  {
    assert spine[i] in spine;
  }

  lemma AddrDescribed(addrOf: map<int, int>, spine: seq<Chunk>, chunks: seq<Chunk>, i: nat)
    requires Describe(addrOf, spine, chunks) && i < |spine|
    ensures spine[i].addr in addrOf && addrOf[spine[i].addr] == chunks[i].addr && spine[i].size == chunks[i].size
  {
  }

  lemma ChunksTaken(chunks: seq<Chunk>, i: nat, mid: seq<Chunk>)
    requires WellFormed(chunks) && NotNegative(chunks) && i < |chunks|
    requires mid == [] || (|mid| == 1 && 0 < mid[0].size < chunks[i].size && mid[0].size % 8 == 0
                           && mid[0].addr == chunks[i].addr)
    ensures WellFormed(Take(chunks, i, mid)) && NotNegative(Take(chunks, i, mid))
  {
    var c := chunks[i];
    assert c in chunks;
    var size := if mid == [] then c.size else c.size - mid[0].size;
    TakeRemovesBytes(chunks, i, size, c.End() - size, mid);
    assert forall d <- Take(chunks, i, mid) :: d in chunks || d in mid;
  }

  /** A chunk taken whole: its descriptor is given back. */
  lemma TakeWholeOk(h: map<int, Header>, first: int, addrOf: map<int, int>, spine: seq<Chunk>, chunks: seq<Chunk>,
                    i: nat, prev: int, next: int, id: int)
    requires Ok(h, first, addrOf, spine, chunks) && i < |spine| == |chunks|
    requires prev == PrevOf(spine, i) && next == Start(spine, i + 1, 0) && id == spine[i].addr
    ensures prev != 0 ==> prev in h
    ensures Ok(SetNext(h, prev, next) - {id}, SetFirst(first, prev, next), addrOf - {id},
               Take(spine, i, []), Take(chunks, i, []))
  {
    hide Chain, Describe, Identified, WellFormed, NotNegative;
    assert (prev != 0 ==> prev in h)
           && Chain(SetNext(h, prev, next) - {id}, SetFirst(first, prev, next), Take(spine, i, []), 0) by {
      DropLinks(h, first, spine, i);
    }
    DropDescribed(addrOf, spine, chunks, i);
    ChunksTaken(chunks, i, []);
    assert SetNext(h, prev, next).Keys == Ids(spine) by {
      if i > 0 { IdInUse(spine, i - 1); }
    }
  }

  /** A descriptor that describes another stretch, still in order. */
  lemma ResizedOk(h: map<int, Header>, first: int, addrOf: map<int, int>, spine: seq<Chunk>, chunks: seq<Chunk>,
                  i: nat, c: Chunk, n: Chunk)
    requires Ok(h, first, addrOf, spine, chunks) && i < |spine| == |chunks|
    requires WellFormed(Take(chunks, i, [c])) && NotNegative(Take(chunks, i, [c]))
    requires n == Chunk(spine[i].addr, c.size)
    ensures Ok(h[n.addr := Header(c.size, Start(spine, i + 1, 0))], first, addrOf[n.addr := c.addr],
               Take(spine, i, [n]), Take(chunks, i, [c]))
  {
    hide Chain, Identified, Describe, WellFormed, NotNegative;
    assert Chain(h[n.addr := Header(c.size, Start(spine, i + 1, 0))], first, Take(spine, i, [n]), 0) by {
      ResizeLinks(h, first, spine, i, c.size);
    }
    IdInUse(spine, i);
    ResizeDescribed(addrOf, spine, chunks, i, c);
  }

  /** A chunk that lost its end: its descriptor says so. */
  lemma TakeBackOk(h: map<int, Header>, first: int, addrOf: map<int, int>, spine: seq<Chunk>, chunks: seq<Chunk>,
                   i: nat, c: Chunk, n: Chunk)
    requires Ok(h, first, addrOf, spine, chunks) && i < |spine| == |chunks|
    requires 0 < c.size < chunks[i].size && c.size % 8 == 0 && c.addr == chunks[i].addr
    requires n == Chunk(spine[i].addr, c.size)
    ensures Ok(h[n.addr := Header(c.size, Start(spine, i + 1, 0))], first, addrOf, Take(spine, i, [n]), Take(chunks, i, [c]))
  {
    hide Chain, Identified, Describe, WellFormed, NotNegative;
    ChunksTaken(chunks, i, [c]);
    ResizedOk(h, first, addrOf, spine, chunks, i, c, n);
    AddrDescribed(addrOf, spine, chunks, i);
    assert addrOf == addrOf[n.addr := c.addr];
  }

  lemma NotListed(spine: seq<Chunk>, i: nat, id: int)
    requires i <= |spine| && id !in Ids(spine)
    ensures Elsewhere(spine[..i], id) && Elsewhere(spine[i..], id)
  {
    forall d | d in spine ensures d.addr in Ids(spine) {
    }
  }

  /** A new descriptor `id` between its neighbours. */
  lemma InsertOk(h: map<int, Header>, first: int, addrOf: map<int, int>, spine: seq<Chunk>, chunks: seq<Chunk>,
                 i: nat, c: Chunk, id: int)
    requires Ok(h, first, addrOf, spine, chunks) && i <= |spine| == |chunks|
    requires WellFormed(Replace(chunks, i, i, [c])) && NotNegative(Replace(chunks, i, i, [c]))
    requires id != 0 && id !in h
    ensures var h1 := h[id := Header(c.size, Start(spine, i, 0))];
      && (PrevOf(spine, i) != 0 ==> PrevOf(spine, i) in h1)
      && Ok(SetNext(h1, PrevOf(spine, i), id), SetFirst(first, PrevOf(spine, i), id), addrOf[id := c.addr],
            Replace(spine, i, i, [Chunk(id, c.size)]), Replace(chunks, i, i, [c]))
  {
    hide Chain, Identified, Describe, WellFormed, NotNegative, Replace;
    var n, h1, prev := Chunk(id, c.size), h[id := Header(c.size, Start(spine, i, 0))], PrevOf(spine, i);
    InsertDescribed(addrOf, spine, chunks, i, c, n);
    assert (prev != 0 ==> prev in h1)
           && Chain(SetNext(h1, prev, id), SetFirst(first, prev, id), Replace(spine, i, i, [n]), 0) by {
      NotListed(spine, i, id);
      InsertLinks(h, first, spine, i, i, n);
    }
    assert SetNext(h1, prev, id).Keys == Ids(spine) + {id} by {
      if i > 0 {
        IdInUse(spine, i - 1);
      }
    }
  }

  lemma InsertDescribed(addrOf: map<int, int>, spine: seq<Chunk>, chunks: seq<Chunk>, i: nat, c: Chunk, n: Chunk)
    requires Identified(spine) && Describe(addrOf, spine, chunks) && i <= |spine|
    requires n.addr != 0 && n.addr !in Ids(spine) && n.size == c.size
    ensures Identified(Replace(spine, i, i, [n])) && Ids(Replace(spine, i, i, [n])) == Ids(spine) + {n.addr}
    ensures Describe(addrOf[n.addr := c.addr], Replace(spine, i, i, [n]), Replace(chunks, i, i, [c]))
  {
    IdsReplace(spine, i, i, [n]);
    assert n in [n] && Ids([n]) == {n.addr};
    assert spine[i..i] == [] && Ids([]) == {};
    IdentifiedReplaced(spine, i, i, [n]);
    forall k | 0 <= k < |spine| ensures spine[k].addr != n.addr {
      IdInUse(spine, k);
    }
    DescribeReplaced(addrOf, addrOf[n.addr := c.addr], spine, chunks, i, i, [n], [c]);
  }

  /** A block that fills the gap between two chunks: the second descriptor goes,
      the first grows. */
  lemma JoinBothOk(h: map<int, Header>, first: int, addrOf: map<int, int>, spine: seq<Chunk>, chunks: seq<Chunk>,
                   i: nat, m: Chunk, prev: int, next: int, id: int)
    requires Ok(h, first, addrOf, spine, chunks) && 0 < i < |spine| == |chunks|
    requires prev == PrevOf(spine, i) && next == Start(spine, i + 1, 0) && id == spine[i].addr
    requires WellFormed(Replace(chunks, i - 1, i + 1, [m])) && NotNegative(Replace(chunks, i - 1, i + 1, [m]))
    requires m.addr == chunks[i - 1].addr
    ensures prev in h && prev != 0
    ensures Ok((h - {id})[prev := Header(m.size, next)], first, addrOf - {id},
               Take(Take(spine, i, []), i - 1, [Chunk(prev, m.size)]), Replace(chunks, i - 1, i + 1, [m]))
  {
    hide Chain, Describe, Identified, WellFormed, NotNegative;
    var spine1, chunks1, h1 := Take(spine, i, []), Take(chunks, i, []), SetNext(h, prev, next) - {id};
    Neighbouring(spine, i);
    TakeWholeOk(h, first, addrOf, spine, chunks, i, prev, next, id);
    assert spine1[i - 1] == spine[i - 1] && Start(spine1, i, 0) == next;
    assert Take(chunks1, i - 1, [m]) == Replace(chunks, i - 1, i + 1, [m]);
    ResizedOk(h1, first, addrOf - {id}, spine1, chunks1, i - 1, m, Chunk(prev, m.size));
    AddrDescribed(addrOf, spine, chunks, i - 1);
    assert (addrOf - {id})[prev := m.addr] == addrOf - {id};
    assert h1[prev := Header(m.size, next)] == (h - {id})[prev := Header(m.size, next)];
  }

  lemma Neighbouring(spine: seq<Chunk>, i: nat)
    requires Identified(spine) && 0 < i < |spine|
    ensures spine[i - 1].addr != 0 && spine[i - 1].addr != spine[i].addr
  {
    assert spine[i - 1] in spine;
  }

  lemma FreeNotNegative(cs: seq<Chunk>, c: Chunk)
    requires NotNegative(cs) && c.addr >= 0
    ensures NotNegative(Free(cs, c))
  {
    FreeIsReplace(cs, c);
    JoinedEnds(cs, c);
    var i, from, till, m := Place(cs, c.addr), JoinFrom(cs, c), JoinTo(cs, c), Joined(cs, c);
    assert from < i ==> cs[from] in cs;
    forall d | d in Replace(cs, from, till, [m]) ensures d.addr >= 0 {
      assert d in cs[..from] || d == m || d in cs[till..];
    }
  }

  // ----- aligned allocation

  const DESCRIPTOR_SIZE: nat := 12

  /** What aligned allocation takes, to have room for the pieces it gives back. */
  function AlignedTotal(size: nat, align: nat): nat {
    RoundUp(size + align + 2 * DESCRIPTOR_SIZE)
  }

  /** The three pieces that it makes of that block: the head and the tail, which go
      back, their sizes rounded up, and the address it returns between them. The size
      of the head is computed before the address is moved on to leave room for a
      descriptor. */
  function AlignedPieces(block: nat, size: nat, align: nat): (Chunk, int, Chunk)
    requires align > 0
  {
    AlignUpBounds(block, align);
    var head: nat := AlignUp(block, align) - block;
    var p := if head != 0 && head < DESCRIPTOR_SIZE then AlignUp(block, align) + align else AlignUp(block, align);
    (Chunk(block, RoundUp(head)), p, Chunk(p + size, RoundUp(align + 2 * DESCRIPTOR_SIZE - head)))
  }

  /** The pieces are aligned, stay inside the block, and tile it with the `size` bytes
      that are returned, exactly when the size is a multiple of 8 and the head is empty
      or at least as large as a descriptor. With a smaller head the tail that is given
      back reaches `align` bytes beyond the block. */
  lemma AlignedPiecesTile(block: nat, size: nat, align: nat)
    requires align > 0 && align % 8 == 0 && block % 8 == 0
    ensures var (head, p, tail) := AlignedPieces(block, size, align);
      var end := block + RoundUp(size + align + 24);
      && p % align == 0
      && (head.End() == p && tail.addr == p + size && tail.addr % 8 == 0 && tail.End() == end
          <==> size % 8 == 0 && (head.size == 0 || head.size >= 12))
      && (size % 8 == 0 && 0 < head.size < 12 ==> tail.End() == end + align)
  {
    AlignUpBounds(block, align);
    AlignUpMod8(block, align);
    var q := (block + align - 1) / align;
    assert (q + 1) * align == q * align + align;
    MultipleMod(q + 1, align);
    var start, head := AlignUp(block, align), AlignUp(block, align) - block;
    Sum8(block, start);
    Sum8(head, align + 24);
    RoundedAlready(head);
    RoundedAlready(align + 24 - head);
    var p := if head != 0 && head < DESCRIPTOR_SIZE then start + align else start;
    Sum8(start, align);
    assert (p + size) % 8 == 0 <==> size % 8 == 0 by {
      if size % 8 == 0 {
        Sum8(p, size);
      }
      if (p + size) % 8 == 0 {
        Sum8(p, p + size);
      }
    }
    if size % 8 == 0 {
      Sum8(size, align + 24);
      RoundedAlready(size + align + 24);
    }
  }

  /** Where the pieces are: the head at the start of the block, if that is not aligned; the
      tail behind the bytes returned, which begin at the next multiple, or at the one after
      it if the head is too small for a descriptor. */
  lemma AlignedPiecesPlace(block: nat, size: nat, align: nat)
    requires align > 0 && align % 8 == 0 && block % 8 == 0
    ensures var (head, p, tail) := AlignedPieces(block, size, align);
      && head.addr == block && tail.addr == p + size
      && (head.size == 0 <==> block % align == 0)
      && (if 0 < head.size < 12 then block + align < p < block + 2 * align else block <= p < block + align)
  {
    AlignUpBounds(block, align);
    AlignUpMod8(block, align);
    Sum8(block, AlignUp(block, align));
    RoundedAlready(AlignUp(block, align) - block);
    AlignUpSelf(block, align);
    hide AlignUp, RoundUp;
  }

  /** A block at 8, 16 bytes aligned to 16: the tail given back ends at 80, the block
      already at 64. */
  lemma TailBeyondBlock()
    ensures AlignedPieces(8, 16, 16) == (Chunk(8, 8), 32, Chunk(48, 32))
    ensures 8 + AlignedTotal(16, 16) == 64
  {
  }

  lemma OneChunkOk(descriptor: int, start: int, size: int)
    requires descriptor != 0 && start >= 0 && start % 8 == 0 && size % 8 == 0 && size >= 8
    ensures Ok(map[descriptor := Header(size, 0)], descriptor, map[descriptor := start],
               [Chunk(descriptor, size)], [Chunk(start, size)])
  {
    var spine, chunks := [Chunk(descriptor, size)], [Chunk(start, size)];
    assert spine[1..] == [] && spine[0] in spine && chunks[0] in chunks;
  }

  lemma NoChunkOk()
    ensures Ok(map[], 0, map[], [], [])
  {
  }

  class ExternHeap {
    var firstFree: int
    // the descriptors: size and next, and the address they describe
    var header: map<int, Header>
    var addrOf: map<int, int>

    ghost var spine: seq<Chunk>
    ghost var chunks: seq<Chunk>

    ghost predicate Valid()
      reads this
    {
      Ok(header, firstFree, addrOf, spine, chunks)
    }

    /** One chunk, described by the first descriptor; nothing if `size` is 0. */
    constructor (addr: nat, size: nat, descriptor: int)
      requires descriptor != 0
      requires size > 0 ==> size - (RoundUp(addr) - addr) >= MIN_CHUNK_SIZE
      ensures Valid()
      ensures chunks == if size == 0 then [] else [Chunk(RoundUp(addr), (size - (RoundUp(addr) - addr)) / 8 * 8)]
    {
      var start := RoundUp(addr);
      var rounded := (size - (start - addr)) / 8 * 8;
      if size > 0 {
        firstFree := descriptor;
        header, addrOf := map[descriptor := Header(rounded, 0)], map[descriptor := start];
        spine, chunks := [Chunk(descriptor, rounded)], [Chunk(start, rounded)];
      } else {
        firstFree, header, addrOf := 0, map[], map[];
        spine, chunks := [], [];
      }
      new;
      hide Ok;
      if size > 0 {
        OneChunkOk(descriptor, start, rounded);
      } else {
        NoChunkOk();
      }
    }

    /** There are as many descriptors in use as free chunks. */
    lemma DescriptorsInUse()
      requires Valid()
      ensures |header| == |addrOf| == |chunks|
    {
      IdsCount(spine);
      assert |header| == |header.Keys| && |addrOf| == |addrOf.Keys|;
    }

    /** A pointer that has walked to place `i`. */
    ghost predicate At(pt: int, prev: int, i: nat)
      reads this
    {
      && i <= |spine| == |chunks| && Chain(header, pt, spine[i..], 0)
      && pt == Start(spine, i, 0) && prev == PrevOf(spine, i) && (pt != 0 <==> i < |spine|)
      && (i < |spine| ==>
            && pt in header && header[pt] == Header(chunks[i].size, Start(spine, i + 1, 0))
            && pt in addrOf && addrOf[pt] == chunks[i].addr)
    }

    lemma AtPlace(pt: int, prev: int, i: nat)
      requires Valid() && i <= |spine| && Chain(header, pt, spine[i..], 0) && prev == PrevOf(spine, i)
      ensures At(pt, prev, i)
    {
      if i < |spine| {
        assert spine[i] in spine && spine[i..][1..] == spine[i + 1..];
      }
    }

    lemma AtNext(pt: int, prev: int, i: nat)
      requires Valid() && At(pt, prev, i) && i < |spine|
      ensures At(header[pt].next, pt, i + 1)
    {
      assert spine[i..][1..] == spine[i + 1..];
      AtPlace(header[pt].next, pt, i + 1);
    }

    lemma AtFirst()
      requires Valid()
      ensures At(firstFree, 0, 0)
    {
      assert spine[0..] == spine;
      AtPlace(firstFree, 0, 0);
    }

    method Search(size: nat) returns (pt: int, prev: int, ghost i: nat)
      requires Valid()
      ensures At(pt, prev, i) && i == FirstFit(chunks, size)
    {
      hide Ok, Chain;
      pt, prev, i := firstFree, 0, 0;
      AtFirst();
      while pt != 0 && header[pt].size < size
        invariant At(pt, prev, i)
        invariant forall j :: 0 <= j < i ==> chunks[j].size < size
        decreases |spine| - i
      {
        AtNext(pt, prev, i);
        prev := pt;
        pt := header[pt].next;
        i := i + 1;
      }
      FirstFitIs(chunks, size, i);
    }

    method SearchPlace(addr: int) returns (next: int, prev: int, ghost i: nat)
      requires Valid()
      ensures At(next, prev, i) && i == Place(chunks, addr)
    {
      hide Ok, Chain;
      next, prev, i := firstFree, 0, 0;
      AtFirst();
      while next != 0 && addrOf[next] < addr
        invariant At(next, prev, i)
        invariant forall j :: 0 <= j < i ==> chunks[j].addr < addr
        decreases |spine| - i
      {
        AtNext(next, prev, i);
        prev := next;
        next := header[next].next;
        i := i + 1;
      }
      PlaceIs(chunks, addr, i);
    }

    method Link(prev: int, next: int)
      requires prev != 0 ==> prev in header
      modifies this`header, this`firstFree
      ensures header == SetNext(old(header), prev, next) && firstFree == SetFirst(old(firstFree), prev, next)
    {
      if prev != 0 {
        header := header[prev := header[prev].(next := next)];
      } else {
        firstFree := next;
      }
    }

    // ----- taking

    /** A chunk that is taken whole: its descriptor is given back. */
    method TakeWhole(pt: int, prev: int, ghost i: nat)
      requires Valid() && At(pt, prev, i) && i < |chunks|
      modifies this
      ensures Valid() && chunks == Take(old(chunks), i, []) && header.Keys <= old(header.Keys)
    {
      hide Ok;
      TakeWholeOk(header, firstFree, addrOf, spine, chunks, i, prev, header[pt].next, pt);
      Link(prev, header[pt].next);
      header := header - {pt};
      addrOf := addrOf - {pt};
      spine := Take(spine, i, []);
      chunks := Take(chunks, i, []);
    }

    lemma RestAligned(i: nat, size: nat)
      requires Valid() && i < |chunks| && size < chunks[i].size && size % MIN_CHUNK_SIZE == 0
      ensures (chunks[i].size - size) % 8 == 0
    {
      hide Chain, Describe, Identified;
      assert chunks[i] in chunks;
      Sum8(size, chunks[i].size);
    }

    /** The end of a chunk: only its size changes. */
    method TakeBack(pt: int, prev: int, size: nat, ghost i: nat) returns (result: int)
      requires Valid() && At(pt, prev, i) && i < |chunks| && 0 < size < chunks[i].size && size % MIN_CHUNK_SIZE == 0
      modifies this
      ensures Valid() && result == old(chunks)[i].End() - size
      ensures chunks == Take(old(chunks), i, BackTaken(old(chunks)[i], size)) && header.Keys <= old(header.Keys)
    {
      hide Ok, Chain;
      RestAligned(i, size);
      ghost var c := Chunk(chunks[i].addr, chunks[i].size - size);
      TakeBackOk(header, firstFree, addrOf, spine, chunks, i, c, Chunk(pt, c.size));
      result := addrOf[pt] + header[pt].size - size;
      header := header[pt := header[pt].(size := header[pt].size - size)];
      spine := Take(spine, i, [Chunk(pt, c.size)]);
      chunks := Take(chunks, i, [c]);
    }

    lemma AtNotNegative(i: nat)
      requires Valid() && i < |chunks|
      ensures chunks[i].addr >= 0
    {
      assert chunks[i] in chunks;
    }

    /** Allocates the first chunk that is large enough, or its end. The result 0
        stands for a failure, which changes nothing, but also for a block that
        begins at address 0. */
    method Alloc(bytes: nat) returns (result: int)
      requires Valid() && bytes > 0
      modifies this
      ensures Valid()
      ensures var size := RoundUp(bytes);
        var i := FirstFit(old(chunks), size);
        if i < |old(chunks)| then
          && result == old(chunks)[i].End() - size
          && chunks == Take(old(chunks), i, BackTaken(old(chunks)[i], size))
        else result == 0 && chunks == old(chunks) && header == old(header) && addrOf == old(addrOf)
      ensures header.Keys <= old(header.Keys)
      ensures var size := RoundUp(bytes);
        var i := FirstFit(old(chunks), size);
        result == 0 <==> i == |old(chunks)| || old(chunks)[i] == Chunk(0, size)
    {
      hide Ok, Chain;
      var size := RoundUp(bytes);
      var pt, prev;
      ghost var i;
      pt, prev, i := Search(size);
      if pt == 0 {
        return 0;
      }
      AtNotNegative(i);
      if header[pt].size == size {
        result := addrOf[pt];
        TakeWhole(pt, prev, i);
      } else {
        result := TakeBack(pt, prev, size, i);
      }
    }

    // ----- giving back

    /** A block `c` on its way back to place `i`. */
    ghost predicate Returning(next: int, prev: int, i: nat, c: Chunk)
      reads this
    {
      && Valid() && At(next, prev, i) && i == Place(chunks, c.addr)
      && WellFormed(FreeList.Free(chunks, c)) && NotNegative(FreeList.Free(chunks, c))
    }

    lemma StartReturn(next: int, prev: int, i: nat, c: Chunk)
      requires Valid() && At(next, prev, i) && i == Place(chunks, c.addr) && Returnable(chunks, c) && c.addr >= 0
      ensures Returning(next, prev, i, c)
    {
      FreeKeepsOrder(chunks, c);
      FreeNotNegative(chunks, c);
    }

    /** The block touches the chunk behind it, whose descriptor takes it over. */
    lemma JoinsNext(next: int, prev: int, i: nat, c: Chunk) returns (spine': seq<Chunk>)
      requires Returning(next, prev, i, c) && i < |chunks| && c.End() == chunks[i].addr
      requires !(i > 0 && chunks[i - 1].End() == c.addr)
      ensures Ok(header[next := Header(c.size + header[next].size, header[next].next)], firstFree, addrOf[next := c.addr],
                 spine', FreeList.Free(chunks, c))
    {
      hide Chain, Identified, Describe, WellFormed, NotNegative;
      var m := Chunk(c.addr, c.size + chunks[i].size);
      InsertedIsFree(chunks, c);
      ResizedOk(header, firstFree, addrOf, spine, chunks, i, m, Chunk(next, m.size));
      spine' := Take(spine, i, [Chunk(next, m.size)]);
      assert Take(chunks, i, [m]) == FreeList.Free(chunks, c);
    }

    /** The block touches nothing: it gets a descriptor of its own. */
    lemma JoinsNone(next: int, prev: int, i: nat, c: Chunk, id: int) returns (spine': seq<Chunk>)
      requires Returning(next, prev, i, c) && !(i < |chunks| && c.End() == chunks[i].addr)
      requires !(i > 0 && chunks[i - 1].End() == c.addr) && id != 0 && id !in header
      ensures var h1 := header[id := Header(c.size, next)];
        && (prev != 0 ==> prev in h1)
        && Ok(SetNext(h1, prev, id), SetFirst(firstFree, prev, id), addrOf[id := c.addr], spine', FreeList.Free(chunks, c))
    {
      hide Chain, Identified, Describe, WellFormed, NotNegative;
      InsertedIsFree(chunks, c);
      InsertOk(header, firstFree, addrOf, spine, chunks, i, c, id);
      spine' := Replace(spine, i, i, [Chunk(id, c.size)]);
      assert Replace(chunks, i, i, [c]) == FreeList.Free(chunks, c);
    }

    /** The block touches the chunk before it, whose descriptor grows. */
    lemma JoinsPrev(next: int, prev: int, i: nat, c: Chunk) returns (spine': seq<Chunk>)
      requires Returning(next, prev, i, c) && !(i < |chunks| && c.End() == chunks[i].addr)
      requires i > 0 && chunks[i - 1].End() == c.addr
      ensures prev in header && header[prev].size == chunks[i - 1].size && prev != 0
      ensures Ok(header[prev := Header(header[prev].size + c.size, next)], firstFree, addrOf, spine', FreeList.Free(chunks, c))
    {
      hide Ok, Chain, WellFormed, NotNegative;
      PrevDescribed(i);
      var m := Chunk(chunks[i - 1].addr, chunks[i - 1].size + c.size);
      GrownIsFree(chunks, c);
      assert Take(chunks, i - 1, [m]) == FreeList.Free(chunks, c);
      ResizedOk(header, firstFree, addrOf, spine, chunks, i - 1, m, Chunk(prev, m.size));
      spine' := Take(spine, i - 1, [Chunk(prev, m.size)]);
      assert addrOf[prev := m.addr] == addrOf;
    }

    lemma IdNotNull(i: nat)
      requires Valid() && i < |spine|
      ensures spine[i].addr != 0
    {
      assert spine[i] in spine;
    }

    /** The block fills the gap between two chunks. */
    lemma JoinsBoth(next: int, prev: int, i: nat, c: Chunk) returns (spine': seq<Chunk>)
      requires Returning(next, prev, i, c) && i < |chunks| && c.End() == chunks[i].addr
      requires i > 0 && chunks[i - 1].End() == c.addr
      ensures prev in header && header[prev].size == chunks[i - 1].size && prev != 0 && prev != next
      ensures Ok((header - {next})[prev := Header(header[prev].size + (c.size + header[next].size), header[next].next)],
                 firstFree, addrOf - {next}, spine', FreeList.Free(chunks, c))
    {
      hide Ok, Chain, WellFormed, NotNegative;
      PrevDescribed(i);
      BeforePlace(next, prev, i, c);
      var m := Chunk(chunks[i - 1].addr, chunks[i - 1].size + (c.size + chunks[i].size));
      assert FreeList.Free(chunks, c) == Replace(chunks, i - 1, i + 1, [m]) by {
        GrownIsFree(chunks, c);
      }
      JoinBothOk(header, firstFree, addrOf, spine, chunks, i, m, prev, header[next].next, next);
      spine' := Take(Take(spine, i, []), i - 1, [Chunk(prev, m.size)]);
    }

    /** The fields after a block was given back, in each of the four cases. */
    lemma Target(next: int, prev: int, i: nat, c: Chunk, spare: int)
      returns (h: map<int, Header>, first: int, a: map<int, int>, spine': seq<Chunk>)
      requires Returning(next, prev, i, c)
      requires JoinTo(chunks, c) == i ==> spare != 0 && spare !in header
      ensures Ok(h, first, a, spine', FreeList.Free(chunks, c))
      ensures var joinNext, joinPrev := JoinTo(chunks, c) > i, JoinFrom(chunks, c) < i;
        if joinNext && joinPrev then
          h == (header - {next})[prev := Header(header[prev].size + (c.size + header[next].size), header[next].next)]
          && first == firstFree && a == addrOf - {next}
        else if joinNext then
          h == header[next := Header(c.size + header[next].size, header[next].next)]
          && first == firstFree && a == addrOf[next := c.addr]
        else if joinPrev then
          h == header[prev := Header(header[prev].size + c.size, next)] && first == firstFree && a == addrOf
        else
          h == SetNext(header[spare := Header(c.size, next)], prev, spare)
          && first == SetFirst(firstFree, prev, spare) && a == addrOf[spare := c.addr]
    {
      hide Ok, Chain, Describe, Identified, WellFormed, NotNegative;
      if i > 0 {
        PrevDescribed(i);
      }
      if JoinTo(chunks, c) > i && JoinFrom(chunks, c) < i {
        spine' := JoinsBoth(next, prev, i, c);
        h := (header - {next})[prev := Header(header[prev].size + (c.size + header[next].size), header[next].next)];
        first, a := firstFree, addrOf - {next};
      } else if JoinTo(chunks, c) > i {
        spine' := JoinsNext(next, prev, i, c);
        h := header[next := Header(c.size + header[next].size, header[next].next)];
        first, a := firstFree, addrOf[next := c.addr];
      } else if JoinFrom(chunks, c) < i {
        spine' := JoinsPrev(next, prev, i, c);
        h, first, a := header[prev := Header(header[prev].size + c.size, next)], firstFree, addrOf;
      } else {
        spine' := JoinsNone(next, prev, i, c, spare);
        h := SetNext(header[spare := Header(c.size, next)], prev, spare);
        first, a := SetFirst(firstFree, prev, spare), addrOf[spare := c.addr];
      }
    }

    lemma PrevDescribed(i: nat)
      requires Valid() && 0 < i <= |chunks|
      ensures |spine| == |chunks|
      ensures var prev := PrevOf(spine, i);
        && prev != 0 && prev in header && prev in addrOf && addrOf[prev] == chunks[i - 1].addr
        && header[prev] == Header(chunks[i - 1].size, Start(spine, i, 0))
    {
      ResizeLinks(header, firstFree, spine, i - 1, 0);
      AddrDescribed(addrOf, spine, chunks, i - 1);
      IdNotNull(i - 1);
    }

    /** Gives a block back. `spare` is the descriptor that the other heap has to
        offer. One is needed unless the block touches the chunk behind it, even
        if the chunk before it takes the block over; without it the result is -1
        and nothing changes. */
    method Free(addr: int, bytes: nat, spare: Option<int>) returns (result: int)
      requires Valid() && addr >= 0 && Returnable(chunks, Chunk(addr, RoundUp(bytes)))
      requires spare.Some? ==> spare.value != 0 && spare.value !in header
      modifies this
      ensures Valid()
      ensures var c := Chunk(addr, RoundUp(bytes));
        if spare.None? && JoinTo(old(chunks), c) == Place(old(chunks), addr) then
          result == -1 && chunks == old(chunks) && header == old(header) && addrOf == old(addrOf) && firstFree == old(firstFree)
        else
          result == 0 && chunks == FreeList.Free(old(chunks), c)
      ensures result == -1 <==> spare.None? && forall d <- old(chunks) :: d.addr != addr + RoundUp(bytes)
      ensures header.Keys <= old(header.Keys) + if spare.Some? then {spare.value} else {}
    {
      hide Ok, Chain;
      var size := RoundUp(bytes);
      ghost var c := Chunk(addr, size);
      var next, prev;
      ghost var i;
      next, prev, i := SearchPlace(addr);
      StartReturn(next, prev, i, c);
      BeginsBehind(c);
      var joinNext := next != 0 && addr + size == addrOf[next];
      assert joinNext <==> JoinTo(chunks, c) > i;
      if !joinNext && spare.None? {
        return -1;
      }
      ghost var spine';
      if joinNext {
        spine' := StoreJoined(next, prev, addr, size, i, c);
      } else {
        spine' := StoreNew(next, prev, addr, size, spare.value, i, c);
      }
      chunks := FreeList.Free(chunks, c);
      spine := spine';
      return 0;
    }

    /** The chunk that a block can touch is the one at its place. */
    lemma BeginsBehind(c: Chunk)
      requires Valid() && Returnable(chunks, c)
      ensures JoinTo(chunks, c) == Place(chunks, c.addr) <==> forall d <- chunks :: d.addr != c.End()
    {
      hide Chain, Identified, Describe, NotNegative;
      var i := Place(chunks, c.addr);
      if i < |chunks| {
        assert chunks[i] in chunks;
        Neighbours(chunks, c);
      }
      forall j | 0 <= j < |chunks| && chunks[j].addr == c.End() ensures j == i {
      }
    }

    /** Facts about the descriptor before place `i`. */
    lemma BeforePlace(next: int, prev: int, i: nat, c: Chunk)
      requires Returning(next, prev, i, c)
      ensures prev != 0 <==> i > 0
      ensures prev == 0 ==> firstFree == next
      ensures prev != 0 ==>
                && prev in header && prev in addrOf && prev != next && header[prev].next == next
                && (addrOf[prev] + header[prev].size == c.addr <==> JoinFrom(chunks, c) < i)
    {
      if i > 0 {
        PrevDescribed(i);
        if i < |spine| {
          Neighbouring(spine, i);
        }
      }
    }

    /** The block is taken over by the descriptor behind it. */
    method StoreJoined(next: int, prev: int, addr: int, size: nat, ghost i: nat, ghost c: Chunk)
      returns (ghost spine': seq<Chunk>)
      requires Returning(next, prev, i, c) && c == Chunk(addr, size) && next != 0 && JoinTo(chunks, c) > i
      modifies this`header, this`addrOf, this`firstFree
      ensures Ok(header, firstFree, addrOf, spine', FreeList.Free(chunks, c)) && header.Keys <= old(header.Keys)
    {
      hide Ok, Chain;
      BeforePlace(next, prev, i, c);
      ghost var h, first, a;
      h, first, a, spine' := Target(next, prev, i, c, 0);
      ghost var h0, a0 := header, addrOf;
      header := header[next := header[next].(size := size + header[next].size)];
      addrOf := addrOf[next := addr];
      Attach(prev, next, addr);
      if prev != 0 && JoinFrom(chunks, c) < i {
        DropLast(h0, next, Header(size + h0[next].size, h0[next].next), prev,
                 Header(h0[prev].size + (size + h0[next].size), h0[next].next));
        DropLast(a0, next, addr, prev, 0);
      } else if prev != 0 {
        SameEntry(h, prev);
      }
    }

    /** The block gets a descriptor, unless the one before it takes it over. */
    method StoreNew(next: int, prev: int, addr: int, size: nat, spare: int, ghost i: nat, ghost c: Chunk)
      returns (ghost spine': seq<Chunk>)
      requires Returning(next, prev, i, c) && c == Chunk(addr, size) && JoinTo(chunks, c) == i
      requires spare != 0 && spare !in header
      modifies this`header, this`addrOf, this`firstFree
      ensures Ok(header, firstFree, addrOf, spine', FreeList.Free(chunks, c)) && header.Keys <= old(header.Keys) + {spare}
    {
      hide Ok, Chain;
      BeforePlace(next, prev, i, c);
      SameKeys();
      ghost var h, first, a;
      h, first, a, spine' := Target(next, prev, i, c, spare);
      ghost var h0, a0 := header, addrOf;
      header := header[spare := Header(size, next)];
      addrOf := addrOf[spare := addr];
      Attach(prev, spare, addr);
      if prev != 0 && JoinFrom(chunks, c) < i {
        DropLast(h0, spare, Header(size, next), prev, Header(h0[prev].size + size, next));
        DropLast(a0, spare, addr, prev, 0);
      }
    }

    lemma SameKeys()
      requires Valid()
      ensures header.Keys == addrOf.Keys
    {
    }

    /** Makes the descriptor before a block take it over, if it touches the
        block, or lead to the block's descriptor. */
    method Attach(prev: int, chunk: int, addr: int)
      requires chunk in header && (prev != 0 ==> prev in header && prev in addrOf)
      modifies this`header, this`addrOf, this`firstFree
      ensures if prev != 0 && old(addrOf)[prev] + old(header)[prev].size == addr then
                && header == old(header)[prev := Header(old(header)[prev].size + old(header)[chunk].size,
                                                        old(header)[chunk].next)] - {chunk}
                && addrOf == old(addrOf) - {chunk} && firstFree == old(firstFree)
              else
                && header == SetNext(old(header), prev, chunk)
                && addrOf == old(addrOf) && firstFree == SetFirst(old(firstFree), prev, chunk)
    {
      if prev != 0 {
        if addrOf[prev] + header[prev].size == addr {
          header := header[prev := Header(header[prev].size + header[chunk].size, header[chunk].next)];
          header := header - {chunk};
          addrOf := addrOf - {chunk};
        } else {
          header := header[prev := header[prev].(next := chunk)];
        }
      } else {
        firstFree := chunk;
      }
    }
  }

  lemma DropLast<V>(m: map<int, V>, k: int, v: V, p: int, w: V)
    requires p != k
    ensures m[k := v][p := w] - {k} == (m - {k})[p := w]
    ensures m[k := v] - {k} == m - {k}
    ensures k !in m ==> m - {k} == m
  {
  }

  lemma SameEntry<V>(m: map<int, V>, k: int)
    requires k in m
    ensures m[k := m[k]] == m
  {
  }
}
