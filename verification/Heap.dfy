/** The heap: free chunks that hold their own headers, first fit from the front,
    joined with both neighbours when given back, and power counters that follow
    the free bytes of each memory bank. */
module Heap {
  import Arithmetic
  import opened FreeList
  import opened FreeListLinks
  import opened HeapAlign
  import opened HeapBanks
  import opened PowerBanks

  /** The bytes of an arena from its first aligned byte on. */
  function InitSize(addr: nat, size: int): int {
    size - (RoundUp(addr) - addr)
  }

  function InitHeaders(addr: nat, size: int): map<int, Header> {
    if InitSize(addr, size) > 0 then map[RoundUp(addr) := Header(InitSize(addr, size) / 8 * 8, 0)] else map[]
  }

  /** A new heap has a usable free list exactly when at least one minimal chunk
      fits behind its first aligned byte. */
  lemma InitUsable(addr: nat, size: int)
    requires addr > 0
    ensures (exists cs: seq<Chunk> :: WellFormed(cs) && Chain(InitHeaders(addr, size), RoundUp(addr), cs, 0))
            <==> RoundUp(addr) + 8 <= addr + size
  {
    var h, first := InitHeaders(addr, size), RoundUp(addr);
    if InitSize(addr, size) >= MIN_CHUNK_SIZE {
      var cs := [Chunk(first, InitSize(addr, size) / 8 * 8)];
      assert cs[1..] == [] && cs[0] in cs;
      assert WellFormed(cs) && Chain(h, first, cs, 0);
    } else {
      forall cs: seq<Chunk> | Chain(h, first, cs, 0) ensures !WellFormed(cs) {
        assert cs[0] in cs && cs[0].addr == first;
      }
    }
  }

  lemma RoundedInward(addr: nat, size: int)
    requires addr > 0
    ensures var lo := (addr + 7) / 8 * 8;
      && lo == RoundUp(addr) && lo % 8 == 0 && addr <= lo < addr + 8
      && (RoundUp(addr) + 8 <= addr + size <==> InitSize(addr, size) >= MIN_CHUNK_SIZE)
      && (InitSize(addr, size) > 0 ==>
            var hi := lo + InitSize(addr, size) / 8 * 8;
            hi % 8 == 0 && hi <= addr + size < hi + 8)
  {
    if InitSize(addr, size) > 0 {
      Arithmetic.Sum8((addr + 7) / 8 * 8, InitSize(addr, size) / 8 * 8);
    }
  }

  class Heap {
    var firstFree: int
    // the two words at the start of each chunk, by address
    var header: map<int, Header>
    var trackPwd: bool
    const power: Banks

    // the arena
    ghost const lo: nat
    ghost const hi: nat
    ghost var chunks: seq<Chunk>
    // what the counters hold besides free bytes of this arena
    ghost var offset: seq<int>

    /** The free list. */
    ghost predicate Listed()
      reads this
    {
      ListOk(header, firstFree, chunks, lo, hi)
    }

    /** The counters are those of free list `cs`. */
    ghost predicate Counted(cs: seq<Chunk>)
      reads this, power.pwdCount
    {
      && power.Wired() && |offset| == power.pwdCount.Length
      && forall b :: 0 <= b < |offset| ==> power.pwdCount[b] == offset[b] + FreeCount(cs, power.Pos(b))
    }

    /** The banks have room for what a list in the arena can count: all of it but the
        first header. */
    ghost predicate Roomy()
      reads this
    {
      && power.Wired() && |offset| == power.pwdCount.Length && lo + HEADER <= hi && power.Inside(lo, hi)
      && forall b :: 0 <= b < |offset| ==>
           0 <= offset[b] && offset[b] + power.Part(b, lo + HEADER, hi) <= power.bankSize
    }

    ghost predicate Powered()
      reads this, power.pwdCount, power.powered
    {
      trackPwd ==> Roomy() && Counted(chunks) && power.Exact()
    }

    ghost predicate Valid()
      reads this, power.pwdCount, power.powered
    {
      Listed() && Powered()
    }

    /** An arena from `addr` on; the bytes before the first aligned one and
        behind the last are given up. */
    constructor (addr: nat, size: int, power: Banks)
      requires addr > 0
      ensures this.power == power && !trackPwd
      ensures firstFree == RoundUp(addr) == lo && header == InitHeaders(addr, size)
      ensures RoundUp(addr) + 8 <= addr + size ==>
                && Valid() && chunks == [Chunk(lo, hi - lo)]
                && lo % 8 == 0 && hi % 8 == 0 && addr <= lo < addr + 8 && hi <= addr + size < hi + 8
    {
      var chunk := (addr + 7) / 8 * 8;
      var left := size - (chunk - addr);
      this.power, trackPwd, firstFree := power, false, chunk;
      header := if left > 0 then map[chunk := Header(left / 8 * 8, 0)] else map[];
      lo, hi := chunk, chunk + (if left > 0 then left / 8 * 8 else 0);
      chunks := [Chunk(chunk, if left > 0 then left / 8 * 8 else 0)];
      offset := [];
      new;
      RoundedInward(addr, size);
      if InitSize(addr, size) >= MIN_CHUNK_SIZE {
        hide RoundUp;
        assert chunks[1..] == [] && chunks[0] in chunks && chunks[0].size >= MIN_CHUNK_SIZE;
        assert WellFormed(chunks) && InArena(chunks, lo, hi);
        assert Chain(header, firstFree, chunks, 0);
      }
    }

    // ----- power tracking

    /** What counters hold besides the free bytes of a list. */
    ghost function Others(cs: seq<Chunk>, counts: seq<int>, b: nat): int
      requires b < |counts|
    {
      counts[b] - FreeCount(cs, power.Pos(b))
    }

    ghost function AllOthers(cs: seq<Chunk>, counts: seq<int>): (os: seq<int>)
      ensures |os| == |counts| && forall b :: 0 <= b < |os| ==> os[b] == Others(cs, counts, b)
    {
      seq(|counts|, b requires 0 <= b < |counts| => Others(cs, counts, b))
    }

    /** The counters hold at least the free bytes, and leave room for the arena behind
        its first header. */
    ghost predicate Countable()
      reads this, power.pwdCount, power.powered
    {
      && power.Wired() && power.Exact() && lo + HEADER <= hi && power.Inside(lo, hi)
      && forall b :: 0 <= b < power.pwdCount.Length ==>
           var others := Others(chunks, power.pwdCount[..], b);
           0 <= others && others + power.Part(b, lo + HEADER, hi) <= power.bankSize
    }

    /** From now on the heap keeps the counters. */
    method StartTracking()
      requires Listed() && Countable()
      modifies this`trackPwd, this`offset
      ensures Valid() && trackPwd && |offset| == power.pwdCount.Length
      ensures forall b :: 0 <= b < |offset| ==> offset[b] == Others(chunks, power.pwdCount[..], b)
    {
      hide ListOk, FreeCount;
      trackPwd := true;
      offset := AllOthers(chunks, power.pwdCount[..]);
      Tracked();
    }

    lemma Tracked()
      requires Listed() && Countable() && |offset| == power.pwdCount.Length
      requires forall b :: 0 <= b < |offset| ==> offset[b] == Others(chunks, power.pwdCount[..], b)
      ensures Valid()
    {
      hide ListOk, FreeCount;
      forall b | 0 <= b < |offset|
        ensures power.pwdCount[b] == offset[b] + FreeCount(chunks, power.Pos(b))
        ensures 0 <= offset[b] && offset[b] + power.Part(b, lo + HEADER, hi) <= power.bankSize
      {
        assert offset[b] == Others(chunks, power.pwdCount[..], b);
      }
    }

    /** What the runtime does when it creates its shared heap: it accounts the arena and
        8 bytes before it as free. The heap's counters are right from then on; and a
        bank is off exactly when all of it lies in there, even if it holds the first
        header. */
    method AccountArena()
      requires Listed() && !trackPwd && chunks == [Chunk(lo, hi - lo)] && lo >= 8
      requires power.Wired() && power.Exact() && power.Inside(lo - 8, hi)
      requires forall b :: 0 <= b < power.pwdCount.Length ==> power.pwdCount[b] == 0
      modifies this`trackPwd, this`offset, power.pwdCount, power.powered
      ensures Valid() && trackPwd && chunks == old(chunks)
      ensures forall b :: 0 <= b < power.pwdCount.Length ==> power.pwdCount[b] == power.Part(b, lo - 8, hi)
      ensures forall b :: 0 <= b < |offset| ==> offset[b] == power.Part(b, lo - 8, lo + 8)
      ensures forall b :: 0 <= b < power.powered.Length ==>
                (!power.powered[b] <==> lo - 8 <= power.Low(b) && power.Low(b) + power.bankSize <= hi)
    {
      ArenaFirst();
      var chunk := header[firstFree];
      power.Account(firstFree - 8, chunk.size + 8, true);
      forall b | 0 <= b < power.pwdCount.Length
        ensures power.pwdCount[b] == power.Part(b, lo - 8, hi) && 0 <= power.pwdCount[b] <= power.bankSize
      {
        power.WholeBankCounted(b, lo - 8, hi);
      }
      trackPwd := true;
      offset := AllOthers(chunks, power.pwdCount[..]);
      ArenaTracked();
    }

    lemma ArenaFirst()
      requires Listed() && chunks == [Chunk(lo, hi - lo)]
      ensures firstFree == lo && lo in header && header[lo].size == hi - lo && lo + 8 <= hi
    {
      assert chunks[0] in chunks;
    }

    /** What holds once the arena is accounted. */
    lemma ArenaTracked()
      requires Listed() && trackPwd && chunks == [Chunk(lo, hi - lo)] && 8 <= lo
      requires power.Wired() && power.Exact() && power.Inside(lo - 8, hi) && |offset| == power.pwdCount.Length
      requires forall b :: 0 <= b < |offset| ==>
                 power.pwdCount[b] == power.Part(b, lo - 8, hi) && offset[b] == Others(chunks, power.pwdCount[..], b)
      ensures Valid() && forall b :: 0 <= b < |offset| ==> offset[b] == power.Part(b, lo - 8, lo + 8)
      ensures forall b :: 0 <= b < power.powered.Length ==>
                (!power.powered[b] <==> lo - 8 <= power.Low(b) && power.Low(b) + power.bankSize <= hi)
    {
      ArenaFirst();
      hide Listed, Bank, Into;
      forall b | 0 <= b < |offset|
        ensures power.pwdCount[b] == power.bankSize <==> lo - 8 <= power.Low(b) && power.Low(b) + power.bankSize <= hi
        ensures offset[b] == power.Part(b, lo - 8, lo + 8) >= 0
        ensures offset[b] + power.Part(b, lo + HEADER, hi) <= power.bankSize
      {
        power.WholeBankCounted(b, lo - 8, hi);
        power.WholeBankCounted(b, lo - 8, lo + 8);
        FreeCountOne(chunks[0], power.Pos(b));
      }
    }

    // ----- taking

    /** What a pointer that has walked to place `i` points to. */
    lemma AtPlace(pt: int, i: nat)
      requires Listed() && i <= |chunks| && Chain(header, pt, chunks[i..], 0)
      ensures pt == Start(chunks, i, 0) && (pt != 0 <==> i < |chunks|)
      ensures i < |chunks| ==> pt in header && header[pt] == Header(chunks[i].size, Start(chunks, i + 1, 0))
      ensures i < |chunks| ==> Chain(header, header[pt].next, chunks[i + 1..], 0)
    {
      if i < |chunks| {
        assert chunks[i] in chunks && chunks[i..][1..] == chunks[i + 1..];
      }
    }

    /** Walks to the first chunk that is large enough. */
    method Search(size: nat) returns (pt: int, prev: int, ghost i: nat)
      requires Listed()
      ensures i == FirstFit(chunks, size)
      ensures pt == Start(chunks, i, 0) && prev == PrevOf(chunks, i)
      ensures i < |chunks| ==> pt != 0 && pt in header && header[pt] == Header(chunks[i].size, Start(chunks, i + 1, 0))
    {
      hide Chain, WellFormed, InArena;
      pt, prev, i := firstFree, 0, 0;
      AtPlace(pt, i);
      while pt != 0 && header[pt].size < size
        invariant i <= |chunks| && prev == PrevOf(chunks, i)
        invariant Chain(header, pt, chunks[i..], 0) && (pt != 0 <==> i < |chunks|) && pt == Start(chunks, i, 0)
        invariant i < |chunks| ==> pt in header && header[pt] == Header(chunks[i].size, Start(chunks, i + 1, 0))
        invariant forall j :: 0 <= j < i ==> chunks[j].size < size
        decreases |chunks| - i
      {
        AtPlace(pt, i);
        prev := pt;
        pt := header[pt].next;
        i := i + 1;
        AtPlace(pt, i);
      }
      FirstFitIs(chunks, size, i);
    }

    /** Makes `next` follow `prev`, or come first. */
    method Link(prev: int, next: int)
      requires prev != 0 ==> prev in header
      modifies this`header, this`firstFree
      ensures header == SetNext(old(header), prev, next) && firstFree == SetFirst(old(firstFree), prev, next)
    {
      if prev != 0 {
        header := header[prev := header[prev].(next := next)];
      } else {
        firstFree := next;
      }
    }

    /** Takes a chunk whole. */
    method TakeWhole(pt: int, prev: int, ghost i: nat)
      requires Listed() && i < |chunks| && pt == chunks[i].addr && prev == PrevOf(chunks, i)
      requires pt in header && header[pt].next == Start(chunks, i + 1, 0)
      modifies this`header, this`firstFree, this`chunks
      ensures Listed() && chunks == Take(old(chunks), i, [])
    {
      OrderIdentifies(chunks);
      UnlinkLinks(header, firstFree, chunks, i);
      assert chunks[i] in chunks;
      TakeRemovesBytes(chunks, i, chunks[i].size, pt, []);
      chunks := Take(chunks, i, []);
      Link(prev, header[pt].next);
    }

    /** Takes the front of a chunk: the rest gets a header of its own. */
    method TakeFront(pt: int, prev: int, size: nat, ghost i: nat) returns (newPt: int)
      requires Listed() && i < |chunks| && pt == chunks[i].addr && prev == PrevOf(chunks, i)
      requires pt in header && header[pt] == Header(chunks[i].size, Start(chunks, i + 1, 0))
      requires 0 < size < chunks[i].size && size % MIN_CHUNK_SIZE == 0
      modifies this`header, this`firstFree, this`chunks
      ensures Listed() && chunks == Take(old(chunks), i, FrontTaken(old(chunks)[i], size)) && newPt == pt + size
    {
      hide ListOk, Take, SetNext, SetFirst, FrontTaken;
      newPt := pt + size;
      TakeFrontLinks(header, firstFree, chunks, i, size, newPt, lo, hi);
      chunks := Take(chunks, i, FrontTaken(chunks[i], size));
      header := header[newPt := Header(header[pt].size - size, header[pt].next)];
      Link(prev, newPt);
    }

    /** The counters are still those of an earlier list. */
    ghost predicate PoweredFor(cs: seq<Chunk>)
      reads this, power.pwdCount, power.powered
    {
      trackPwd ==> Roomy() && Counted(cs) && power.Exact() && WellFormed(cs) && InArena(cs, lo, hi)
    }

    /** Between the two steps of taking a block's bytes off the counters, these
        are within bounds. */
    lemma TakenBetween(was: seq<Chunk>, i: nat, size: nat, before: seq<int>, between: seq<int>, b: nat)
      requires Roomy() && WellFormed(was) && InArena(was, lo, hi) && i < |was|
      requires MIN_CHUNK_SIZE <= size <= was[i].size
      requires var now := Take(was, i, FrontTaken(was[i], size)); WellFormed(now) && InArena(now, lo, hi)
      requires b < |before| == |offset| && before[b] == offset[b] + FreeCount(was, power.Pos(b))
      requires power.Accounted(before, between, false, was[i].addr + 8, was[i].addr + size)
      ensures |between| == |before| && 0 <= between[b] <= power.bankSize
    {
      var f, e := power.Pos(b), was[i].addr + size;
      power.PosMonotone(b);
      TakeOne(was, i, size, f, lo, hi, power.bankSize, offset[b], before[b], between[b],
              between[b] - if size < was[i].size then f(e + 8) - f(e) else 0);
    }

    /** The counters after both steps. */
    lemma TakenAfter(was: seq<Chunk>, i: nat, size: nat, before: seq<int>, between: seq<int>, after: seq<int>, b: nat)
      requires Roomy() && WellFormed(was) && InArena(was, lo, hi) && i < |was|
      requires MIN_CHUNK_SIZE <= size <= was[i].size
      requires var now := Take(was, i, FrontTaken(was[i], size)); WellFormed(now) && InArena(now, lo, hi)
      requires b < |before| == |offset| && before[b] == offset[b] + FreeCount(was, power.Pos(b))
      requires power.Accounted(before, between, false, was[i].addr + 8, was[i].addr + size)
      requires if size < was[i].size then power.Accounted(between, after, false, was[i].addr + size, was[i].addr + size + 8)
               else between == after
      ensures |after| == |before| && 0 <= after[b] <= power.bankSize
      ensures after[b] == offset[b] + FreeCount(Take(was, i, FrontTaken(was[i], size)), power.Pos(b))
    {
      power.PosMonotone(b);
      TakeOne(was, i, size, power.Pos(b), lo, hi, power.bankSize, offset[b], before[b], between[b], after[b]);
    }

    /** A block has just been taken from list `was`. */
    ghost predicate TakenFrom(was: seq<Chunk>, i: nat, size: nat)
      reads this
    {
      && WellFormed(was) && InArena(was, lo, hi) && i < |was| && MIN_CHUNK_SIZE <= size <= was[i].size
      && Listed() && chunks == Take(was, i, FrontTaken(was[i], size))
    }

    ghost predicate CountersWere(before: seq<int>, cs: seq<Chunk>)
      reads this
    {
      |before| == |offset| && forall b :: 0 <= b < |offset| ==> before[b] == offset[b] + FreeCount(cs, power.Pos(b))
    }

    lemma BoundedBetween(was: seq<Chunk>, i: nat, size: nat, before: seq<int>)
      requires Roomy() && TakenFrom(was, i, size) && CountersWere(before, was)
      requires power.Accounted(before, power.pwdCount[..], false, was[i].addr + 8, was[i].addr + size)
      ensures power.Bounded()
    {
      forall b | 0 <= b < |offset| ensures 0 <= power.pwdCount[b] <= power.bankSize {
        TakenBetween(was, i, size, before, power.pwdCount[..], b);
      }
    }

    lemma CountedAfter(was: seq<Chunk>, i: nat, size: nat, before: seq<int>, between: seq<int>)
      requires Roomy() && TakenFrom(was, i, size) && CountersWere(before, was)
      requires power.Accounted(before, between, false, was[i].addr + 8, was[i].addr + size)
      requires if size < was[i].size
               then power.Accounted(between, power.pwdCount[..], false, was[i].addr + size, was[i].addr + size + 8)
               else between == power.pwdCount[..]
      ensures Counted(chunks) && power.Bounded()
    {
      forall b | 0 <= b < |offset|
        ensures 0 <= power.pwdCount[b] <= power.bankSize
        ensures power.pwdCount[b] == offset[b] + FreeCount(chunks, power.Pos(b))
      {
        TakenAfter(was, i, size, before, between, power.pwdCount[..], b);
      }
    }

    /** Takes a block's bytes off the counters: all of it but the old header,
        and the header of what is left. */
    method AccountAlloc(pt: nat, size: nat, rest: bool, ghost was: seq<Chunk>, ghost i: nat)
      requires TakenFrom(was, i, size) && PoweredFor(was)
      requires pt == was[i].addr && rest == (size < was[i].size)
      requires lo <= pt && pt + size + (if rest then 8 else 0) <= hi
      modifies power.pwdCount, power.powered
      ensures Powered()
    {
      hide ListOk, WellFormed, InArena, FreeCount, Take;
      if trackPwd {
        ghost var before := power.pwdCount[..];
        power.Account(pt + 8, size - 8, false);
        BoundedBetween(was, i, size, before);
        ghost var between := power.pwdCount[..];
        if rest {
          power.Account(pt + size, 8, false);
        }
        CountedAfter(was, i, size, before, between);
      }
    }

    lemma ListInOrder()
      requires Listed()
      ensures WellFormed(chunks) && InArena(chunks, lo, hi)
    {
    }

    /** Behind the front of a chunk there is room for a header. */
    lemma RoomForHeader(was: seq<Chunk>, i: nat, size: nat)
      requires WellFormed(was) && InArena(was, lo, hi) && i < |was| && size <= was[i].size && size % 8 == 0
      ensures 0 < lo <= was[i].addr && was[i].addr + size + (if size < was[i].size then 8 else 0) <= hi
    {
      assert was[i] in was;
      Arithmetic.Sum8(size, was[i].size);
    }

    /** Takes `size` bytes from chunk `i`: all of it, or its front. */
    method Serve(pt: int, prev: int, size: nat, ghost i: nat)
      requires Valid() && i < |chunks| && pt == chunks[i].addr && prev == PrevOf(chunks, i)
      requires pt in header && header[pt] == Header(chunks[i].size, Start(chunks, i + 1, 0))
      requires MIN_CHUNK_SIZE <= size <= chunks[i].size && size % MIN_CHUNK_SIZE == 0
      modifies this`header, this`firstFree, this`chunks, power.pwdCount, power.powered
      ensures Valid() && chunks == Take(old(chunks), i, FrontTaken(old(chunks)[i], size))
    {
      ghost var was := chunks;
      ListInOrder();
      hide ListOk, WellFormed, InArena, FreeCount, Take;
      RoomForHeader(was, i, size);
      if header[pt].size == size {
        TakeWhole(pt, prev, i);
        AccountAlloc(pt, size, false, was, i);
      } else {
        var newPt := TakeFront(pt, prev, size, i);
        AccountAlloc(pt, size, true, was, i);
      }
    }

    /** Allocates the first chunk that is large enough, or its front. Fails only
        if no single chunk is large enough, and then changes nothing. */
    method UserAlloc(bytes: nat) returns (result: nat)
      requires Valid() && bytes > 0
      modifies this`header, this`firstFree, this`chunks, power.pwdCount, power.powered
      ensures Valid()
      ensures var size := RoundUp(bytes);
        var i := FirstFit(old(chunks), size);
        if i < |old(chunks)| then
          && result == old(chunks)[i].addr && result != 0
          && chunks == Take(old(chunks), i, FrontTaken(old(chunks)[i], size))
        else
          && result == 0 && chunks == old(chunks) && header == old(header) && firstFree == old(firstFree)
          && power.pwdCount[..] == old(power.pwdCount[..]) && power.powered[..] == old(power.powered[..])
    {
      var size := RoundUp(bytes);
      var pt, prev;
      ghost var i;
      pt, prev, i := Search(size);
      if pt == 0 {
        return 0;
      }
      Serve(pt, prev, size, i);
      return pt;
    }

    // ----- giving back

    /** Walks to the place of a block. */
    method SearchPlace(chunk: int) returns (next: int, prev: int, ghost i: nat)
      requires Listed()
      ensures i == Place(chunks, chunk)
      ensures next == Start(chunks, i, 0) && prev == PrevOf(chunks, i)
      ensures i < |chunks| ==> next != 0 && next in header && header[next] == Header(chunks[i].size, Start(chunks, i + 1, 0))
    {
      hide Chain, WellFormed, InArena;
      next, prev, i := firstFree, 0, 0;
      AtPlace(next, i);
      while next != 0 && next < chunk
        invariant i <= |chunks| && prev == PrevOf(chunks, i)
        invariant Chain(header, next, chunks[i..], 0) && (next != 0 <==> i < |chunks|) && next == Start(chunks, i, 0)
        invariant i < |chunks| ==> next in header && header[next] == Header(chunks[i].size, Start(chunks, i + 1, 0))
        invariant forall j :: 0 <= j < i ==> chunks[j].addr < chunk
        decreases |chunks| - i
      {
        AtPlace(next, i);
        prev := next;
        next := header[next].next;
        i := i + 1;
        AtPlace(next, i);
      }
      PlaceIs(chunks, chunk, i);
    }

    /** Writes the header of a returned block, over the next chunk if it touches
        it. */
    method WriteHeader(chunk: int, size: nat, next: int, ghost i: nat) returns (joined: bool)
      requires i == Place(chunks, chunk) && next == Start(chunks, i, 0) && chunk > 0
      requires i < |chunks| ==> next in header && header[next] == Header(chunks[i].size, Start(chunks, i + 1, 0))
      modifies this`header
      ensures joined == (i < |chunks| && chunk + size == chunks[i].addr)
      ensures header == old(header)[chunk := Header(WithNext(chunks, Chunk(chunk, size)).size,
                                                    Start(chunks, JoinTo(chunks, Chunk(chunk, size)), 0))]
    {
      joined := chunk + size == next;
      if joined {
        header := header[chunk := Header(size + header[next].size, header[next].next)];
      } else {
        header := header[chunk := Header(size, next)];
      }
    }

    /** The header of block `c` is written, nothing points to it yet. */
    ghost predicate Unlinked(h: map<int, Header>, c: Chunk)
      reads this
    {
      && Identified(chunks) && Chain(h, firstFree, chunks, 0)
      && Elsewhere(chunks, c.addr) && c.addr != 0
      && WellFormed(Free(chunks, c)) && InArena(Free(chunks, c), lo, hi)
      && header == h[c.addr := Header(WithNext(chunks, c).size, Start(chunks, JoinTo(chunks, c), 0))]
    }

    /** Joins a block to the chunk before it. */
    method Grow(chunk: int, prev: int, ghost w: Header, ghost ds: seq<Chunk>)
      requires prev in header && chunk in header && w == Header(header[prev].size + header[chunk].size, header[chunk].next)
      requires ListOk(header[prev := w], firstFree, ds, lo, hi)
      modifies this`header, this`chunks
      ensures Listed() && chunks == ds
    {
      header := header[prev := Header(header[prev].size + header[chunk].size, header[chunk].next)];
      chunks := ds;
    }

    /** Makes the chunk before a block point to it. */
    method Insert(chunk: int, prev: int, ghost h: map<int, Header>, ghost c: Chunk)
      requires Unlinked(h, c) && chunk == c.addr && JoinFrom(chunks, c) == Place(chunks, c.addr)
      requires prev == PrevOf(chunks, Place(chunks, c.addr))
      modifies this`header, this`firstFree, this`chunks
      ensures Listed() && chunks == Free(old(chunks), c)
    {
      InsertLinks(h, firstFree, chunks, Place(chunks, c.addr), JoinTo(chunks, c), WithNext(chunks, c));
      InsertedIsFree(chunks, c);
      Link(prev, chunk);
      chunks := Free(chunks, c);
    }

    /** Block `c` can be given back to list `was`. */
    ghost predicate ReturnedTo(was: seq<Chunk>, c: Chunk)
      reads this
    {
      && WellFormed(was) && InArena(was, lo, hi) && Returnable(was, c) && lo <= c.addr && c.End() <= hi
      && WellFormed(FreeList.Free(was, c)) && InArena(FreeList.Free(was, c), lo, hi)
    }

    function JoinsNext(was: seq<Chunk>, c: Chunk): bool {
      Place(was, c.addr) < |was| && c.End() == was[Place(was, c.addr)].addr
    }

    function JoinsPrev(was: seq<Chunk>, c: Chunk): bool {
      Place(was, c.addr) > 0 && was[Place(was, c.addr) - 1].End() == c.addr
    }

    /** The next chunk's header has been added to the counters, if it is joined. */
    ghost predicate NextCounted(was: seq<Chunk>, c: Chunk, before: seq<int>, between: seq<int>) {
      if JoinsNext(was, c) then power.Accounted(before, between, true, c.End(), c.End() + 8) else between == before
    }

    lemma ReturnedCounted(was: seq<Chunk>, c: Chunk, before: seq<int>, between: seq<int>, after: seq<int>, b: nat)
      requires Roomy() && ReturnedTo(was, c) && b < |before| == |offset| && before[b] >= 0
      requires before[b] == offset[b] + FreeCount(was, power.Pos(b))
      requires NextCounted(was, c, before, between)
      requires power.Accounted(between, after, true, if JoinsPrev(was, c) then c.addr else c.addr + 8, c.End())
      ensures |after| == |between| == |before| && 0 <= between[b] <= after[b] <= power.bankSize
      ensures after[b] == offset[b] + FreeCount(FreeList.Free(was, c), power.Pos(b))
    {
      power.PosMonotone(b);
      ReturnOne(was, c, power.Pos(b), lo, hi, power.bankSize, offset[b], before[b], between[b], after[b]);
    }

    lemma ReturnedBetween(was: seq<Chunk>, c: Chunk, before: seq<int>, between: seq<int>, b: nat)
      requires Roomy() && ReturnedTo(was, c) && b < |before| == |offset| && before[b] >= 0
      requires before[b] == offset[b] + FreeCount(was, power.Pos(b))
      requires NextCounted(was, c, before, between)
      ensures |between| == |before| && 0 <= between[b] <= power.bankSize
    {
      var f := power.Pos(b);
      power.PosMonotone(b);
      ReturnOne(was, c, f, lo, hi, power.bankSize, offset[b], before[b], between[b],
                between[b] + f(c.End()) - (if JoinsPrev(was, c) then f(c.addr) else f(c.addr + 8)));
    }

    /** The first step of the accounting has been done. */
    ghost predicate HalfPowered(was: seq<Chunk>, c: Chunk, before: seq<int>)
      reads this, power.pwdCount, power.powered
    {
      trackPwd ==>
        && Roomy() && CountersWere(before, was) && (forall b :: 0 <= b < |offset| ==> before[b] >= 0)
        && NextCounted(was, c, before, power.pwdCount[..]) && power.Exact()
    }

    /** Adds the next chunk's header to the counters, if it is joined. */
    method AccountNext(next: int, joined: bool, ghost was: seq<Chunk>, ghost c: Chunk)
      requires PoweredFor(was) && ReturnedTo(was, c) && joined == JoinsNext(was, c)
      requires joined ==> next == c.End() && next + 8 <= hi
      modifies power.pwdCount, power.powered
      ensures HalfPowered(was, c, old(power.pwdCount[..]))
    {
      if joined && trackPwd {
        ghost var before := power.pwdCount[..];
        power.Account(next, 8, true);
        forall b | 0 <= b < |offset| ensures 0 <= power.pwdCount[b] <= power.bankSize {
          ReturnedBetween(was, c, before, power.pwdCount[..], b);
        }
      }
    }

    /** Adds the block to the counters, without a header of its own. */
    method AccountBlock(from: int, ghost was: seq<Chunk>, ghost c: Chunk, ghost before: seq<int>, size: nat)
      requires HalfPowered(was, c, before) && ReturnedTo(was, c) && chunks == FreeList.Free(was, c)
      requires from == (if JoinsPrev(was, c) then c.addr else c.addr + 8) && from + size == c.End()
      modifies power.pwdCount, power.powered
      ensures Powered()
    {
      if trackPwd {
        ghost var between := power.pwdCount[..];
        power.Account(from, size, true);
        forall b | 0 <= b < |offset|
          ensures 0 <= power.pwdCount[b] <= power.bankSize
          ensures power.pwdCount[b] == offset[b] + FreeCount(chunks, power.Pos(b))
        {
          ReturnedCounted(was, c, before, between, power.pwdCount[..], b);
        }
      }
    }

    /** Puts a block between its neighbours: the chunk before it grows over it,
        or points to it. */
    method LinkBlock(chunk: int, prev: int, ghost h: map<int, Header>, ghost c: Chunk) returns (grown: bool)
      requires Unlinked(h, c) && chunk == c.addr && prev == PrevOf(chunks, Place(chunks, chunk))
      modifies this`header, this`firstFree, this`chunks
      ensures Listed() && chunks == FreeList.Free(old(chunks), c)
      ensures grown == JoinsPrev(old(chunks), c)
    {
      LinkInfo(h, c);
      grown := prev != 0 && prev + header[prev].size == chunk;
      if grown {
        GrowBlock(chunk, prev, h, c);
      } else {
        Insert(chunk, prev, h, c);
      }
    }

    lemma LinkInfo(h: map<int, Header>, c: Chunk)
      requires Unlinked(h, c)
      ensures var prev := PrevOf(chunks, Place(chunks, c.addr));
        && (prev != 0 ==> prev in header)
        && (prev != 0 && prev + header[prev].size == c.addr <==> JoinsPrev(chunks, c))
    {
      var i := Place(chunks, c.addr);
      if i > 0 {
        PrevHeader(h, firstFree, chunks, i);
        assert chunks[i - 1] in chunks;
      }
    }

    method GrowBlock(chunk: int, prev: int, ghost h: map<int, Header>, ghost c: Chunk)
      requires Unlinked(h, c) && chunk == c.addr && prev == PrevOf(chunks, Place(chunks, chunk)) && JoinsPrev(chunks, c)
      modifies this`header, this`chunks
      ensures Listed() && chunks == FreeList.Free(old(chunks), c)
    {
      ghost var ds := FreeList.Free(chunks, c);
      ghost var w := FreeGrows(h, header, firstFree, chunks, c, ds);
      Grow(chunk, prev, w, ds);
    }

    lemma Returning(c: Chunk)
      requires Listed() && lo <= c.addr && c.End() <= hi && Returnable(chunks, c)
      ensures ReturnedTo(chunks, c) && Elsewhere(chunks, c.addr) && Identified(chunks)
      ensures JoinsNext(chunks, c) ==> c.End() + 8 <= hi
    {
      FreeOk(chunks, c, lo, hi);
      ReturnedElsewhere(chunks, c);
      OrderIdentifies(chunks);
      if JoinsNext(chunks, c) {
        assert chunks[Place(chunks, c.addr)] in chunks;
      }
    }

    /** Gives a block back. The caller names its size again, as the heap keeps
        no record of it. */
    method UserFree(chunk: int, bytes: nat)
      requires Valid() && lo <= chunk && chunk + RoundUp(bytes) <= hi
      requires Returnable(chunks, Chunk(chunk, RoundUp(bytes)))
      modifies this`header, this`firstFree, this`chunks, power.pwdCount, power.powered
      ensures Valid() && chunks == FreeList.Free(old(chunks), Chunk(chunk, RoundUp(bytes)))
    {
      var size := RoundUp(bytes);
      ghost var c, was, h, before := Chunk(chunk, size), chunks, header, power.pwdCount[..];
      Returning(c);
      hide RoundUp, Chain, WellFormed, InArena, Elsewhere, Identified, FreeCount, Returnable;
      var next, prev;
      ghost var i;
      next, prev, i := SearchPlace(chunk);
      var joined := WriteHeader(chunk, size, next, i);
      assert joined == JoinsNext(was, c) && (joined ==> next == c.End() && next + 8 <= hi);
      hide Place;
      AccountNext(next, joined, was, c);
      PutBack(chunk, size, prev, h, c, before);
    }

    /** Links a block whose header is written, and adds it to the counters. */
    method PutBack(chunk: int, size: nat, prev: int, ghost h: map<int, Header>, ghost c: Chunk, ghost before: seq<int>)
      requires Unlinked(h, c) && c == Chunk(chunk, size) && size >= 8 && prev == PrevOf(chunks, Place(chunks, chunk))
      requires HalfPowered(chunks, c, before) && ReturnedTo(chunks, c)
      modifies this`header, this`firstFree, this`chunks, power.pwdCount, power.powered
      ensures Valid() && chunks == FreeList.Free(old(chunks), c)
    {
      hide Chain, WellFormed, InArena, Elsewhere, Identified, FreeCount, Returnable, Place, FreeList.Free;
      ghost var was := chunks;
      var grown := LinkBlock(chunk, prev, h, c);
      if grown {
        AccountBlock(chunk, was, c, before, size);
      } else {
        AccountBlock(chunk + 8, was, c, before, size - 8);
      }
    }

    /** Allocates `size` bytes at a multiple of `align`: takes a larger block and
        gives back what is before and behind. Exactly the block, which was free,
        is taken; a failure changes nothing. */
    method UserAllocAlign(size: nat, align: nat) returns (result: int)
      requires Valid() && size > 0
      requires align >= 8 ==> size % 8 == 0 && IsPowerOfTwo(align)
      modifies this`header, this`firstFree, this`chunks, power.pwdCount, power.powered
      ensures Valid()
      ensures result == 0 <==> FirstFit(old(chunks), if align < 8 then RoundUp(size) else size + align + 16) == |old(chunks)|
      ensures result == 0 ==>
                && chunks == old(chunks) && header == old(header) && firstFree == old(firstFree)
                && power.pwdCount[..] == old(power.pwdCount[..]) && power.powered[..] == old(power.powered[..])
      ensures result != 0 ==> AllFree(old(chunks), result, size) && Without(old(chunks), chunks, result, RoundUp(size))
      ensures result != 0 ==> result % (if align < 8 then 8 else align) == 0
      ensures result != 0 ==>
                var i := FirstFit(old(chunks), if align < 8 then RoundUp(size) else AlignedRoom(size, align));
                if align < 8 then
                  && result == old(chunks)[i].addr
                  && chunks == Take(old(chunks), i, FrontTaken(old(chunks)[i], RoundUp(size)))
                else
                  result == AlignUp(old(chunks)[i].addr, align) && chunks == AlignedList(old(chunks), i, size, align)
    {
      if align < 8 {
        result := UserAlloc(size);
        if result != 0 {
          BlockTaken(old(chunks), size);
        }
      } else {
        PowerOfTwoMod8(align);
        result := AllocTrimmed(size, align);
      }
    }

    method AllocTrimmed(size: nat, align: nat) returns (result: int)
      requires Valid() && size > 0 && size % 8 == 0 && align >= 8 && align % 8 == 0
      modifies this`header, this`firstFree, this`chunks, power.pwdCount, power.powered
      ensures Valid()
      ensures result == 0 <==> FirstFit(old(chunks), size + align + 16) == |old(chunks)|
      ensures result == 0 ==>
                && chunks == old(chunks) && header == old(header) && firstFree == old(firstFree)
                && power.pwdCount[..] == old(power.pwdCount[..]) && power.powered[..] == old(power.powered[..])
      ensures result != 0 ==> result % align == 0 && AllFree(old(chunks), result, RoundUp(size))
      ensures result != 0 ==> Without(old(chunks), chunks, result, RoundUp(size))
      ensures result != 0 ==>
                var i := FirstFit(old(chunks), AlignedRoom(size, align));
                result == AlignUp(old(chunks)[i].addr, align) && chunks == AlignedList(old(chunks), i, size, align)
    {
      hide WellFormed, Covers, Chain, Free, Take, FreeCount;
      var sizeAlign := size + align + 16;
      ghost var was, i := chunks, FirstFit(chunks, sizeAlign);
      RoundedAlready(sizeAlign);
      var block := UserAlloc(sizeAlign);
      if block == 0 {
        return 0;
      }
      ChunkPlace(was, i);
      AlignUpBounds(block, align);
      AlignUpMod8(block, align);
      result := AlignUp(block, align);
      TrimSizes(size, align, block, result);
      result := FreeHead(block, result, align, sizeAlign, was, i);
      FreeTail(result, size, sizeAlign - (result - block) - size, was);
      AlignedIs(was, i, size, align, chunks);
    }

    lemma ChunkPlace(was: seq<Chunk>, i: nat)
      requires WellFormed(was) && InArena(was, lo, hi) && i < |was|
      ensures was[i].addr % 8 == 0 && lo <= was[i].addr && was[i].End() <= hi
    {
      assert was[i] in was;
    }

    /** Gives back what is before the aligned address of a block. */
    method FreeHead(block: nat, aligned: int, align: nat, total: nat, ghost was: seq<Chunk>, ghost i: nat)
      returns (result: int)
      requires Valid() && WellFormed(was) && InArena(was, lo, hi) && i < |was| && block == was[i].addr
      requires 0 < total <= was[i].size && total % 8 == 0
      requires chunks == Take(was, i, FrontTaken(was[i], total)) && lo <= block && block + total <= hi
      requires block <= aligned < block + total && aligned % 8 == 0
      modifies this`header, this`firstFree, this`chunks, power.pwdCount, power.powered
      ensures Valid() && result == aligned
      ensures AllFree(was, aligned, block + total - aligned) && Without(was, chunks, aligned, block + total - aligned)
    {
      HeadGoesBack(was, i, total, aligned);
      ChunkPlace(was, i);
      Arithmetic.Sum8(block, aligned);
      result := aligned;
      var headerSize := result - block;
      if headerSize != 0 {
        if headerSize < 8 {
          result := result + align;
        }
        RoundedAlready(headerSize);
        UserFree(block, headerSize);
      }
    }

    lemma SameList(was: seq<Chunk>, cs: seq<Chunk>, ds: seq<Chunk>, a: int, n: int)
      requires Without(was, cs, a, n) && cs == ds
      ensures Without(was, ds, a, n)
    {
    }

    /** Gives back what is behind an aligned block. */
    method FreeTail(result: int, size: nat, tail: nat, ghost was: seq<Chunk>)
      requires Valid() && lo <= result && result % 8 == 0 && size % 8 == 0 && tail % 8 == 0 && tail >= 8
      requires result + size + tail <= hi && AllFree(was, result, size + tail)
      requires Without(was, chunks, result, size + tail)
      modifies this`header, this`firstFree, this`chunks, power.pwdCount, power.powered
      ensures Valid() && Without(was, chunks, result, size)
    {
      TailGoesBack(was, chunks, result, size, tail);
      RoundedAlready(tail);
      hide RoundUp, Covers;
      ghost var cs := FreeList.Free(chunks, Chunk(result + size, tail));
      UserFree(result + size, tail);
      SameList(was, cs, chunks, result, size);
    }

    // ----- what the headers and counters guarantee

    /** Of the words at the addresses of `h`, those that overlap `[a, a + n)` may have
        changed, in any way; the others have not. */
    ghost predicate OnlyThere(h: map<int, Header>, h': map<int, Header>, a: int, n: nat) {
      forall p <- h :: !(n > 0 && p < a + n && a < p + HEADER) ==> p in h' && h'[p] == h[p]
    }

    /** A user may write anything over any bytes that are not free: the heap keeps
        nothing there. */
    method Scribble(a: int, n: nat, written: map<int, Header>)
      requires Valid() && NoneFree(chunks, a, n) && OnlyThere(header, written, a, n)
      modifies this`header
      ensures Valid() && chunks == old(chunks) && header == written
    {
      forall c | c in chunks && c.addr in header ensures c.addr in written && written[c.addr] == header[c.addr] {
        var b := if c.addr < a then a else c.addr;
        assert c.addr <= b < c.End() ==> Covers(chunks, b);
      }
      ChainSame(header, written, firstFree, chunks, 0);
      header := written;
    }

    /** What a counter says: how many bytes of its bank are free and not part of a header, and
        what it held besides when the heap began to keep it. */
    lemma CounterCounts(b: nat)
      requires Valid() && trackPwd && b < |offset|
      ensures b < power.pwdCount.Length && power.pwdCount[b] == offset[b] +
              |BytesBehind(chunks, power.first + b * power.bankSize, power.first + b * power.bankSize + power.bankSize)|
    {
      CountIsBytes(chunks, power.Low(b), power.Low(b) + power.bankSize);
    }

    /** A bank that holds a byte of a free chunk is off exactly when that chunk alone,
        behind its header, fills what the bank's counter holds besides free bytes
        leaves of the bank. */
    lemma DarkAtChunk(i: nat, b: nat, a: int)
      requires Valid() && trackPwd && i < |chunks| && b < |offset|
      requires chunks[i].addr <= a < chunks[i].End() && power.Low(b) <= a < power.Low(b) + power.bankSize
      ensures !power.powered[b] <==>
              offset[b] + power.Part(b, chunks[i].addr + HEADER, chunks[i].End()) == power.bankSize
    {
      hide FreeCount, Chain;
      FullAtChunk(chunks, i, a, power.Low(b), power.Low(b) + power.bankSize, lo, hi, offset[b]);
    }

    /** A bank that holds a byte of a free chunk's header is powered, so that the list
        can be walked, unless that byte is one of the arena's first 8, which no list
        counts, and the bank's counter leaves no room for these. */
    lemma HeadersPowered(i: nat, b: nat, a: int)
      requires Valid() && trackPwd && i < |chunks| && b < |offset|
      requires chunks[i].addr <= a < chunks[i].addr + HEADER && power.Low(b) <= a < power.Low(b) + power.bankSize
      ensures offset[b] + power.Part(b, lo, hi) <= power.bankSize ==> power.powered[b]
      ensures !power.powered[b] <==>
              a < lo + HEADER && offset[b] + power.Part(b, chunks[i].addr + HEADER, chunks[i].End()) == power.bankSize
    {
      hide ListOk, Bank, Into;
      InPlace(i);
      DarkAtChunk(i, b, a);
      BankIs(power.Low(b), power.Low(b) + power.bankSize);
      HeaderLeft(a, chunks[i].addr, chunks[i].End(), lo, hi, power.Low(b), power.Low(b) + power.bankSize);
    }

    /** Byte `a` of a header in bank `[from, till)` is not among those behind it. */
    lemma HeaderLeft(a: int, addr: int, end: int, lo: int, hi: int, from: int, till: int)
      requires lo <= addr <= a < addr + HEADER <= end <= hi && from <= a < till
      ensures Into(end, from, till) - Into(addr + HEADER, from, till) < Into(hi, from, till) - Into(lo, from, till)
      ensures a >= lo + HEADER ==>
                Into(end, from, till) - Into(addr + HEADER, from, till)
                < Into(hi, from, till) - Into(lo + HEADER, from, till)
    {
    }

    lemma InPlace(i: nat)
      requires Valid() && i < |chunks|
      ensures lo <= chunks[i].addr && chunks[i].addr + HEADER <= chunks[i].End() <= hi
    {
      assert chunks[i] in chunks;
    }

    /** When the front of a chunk is taken, the header of the rest is written
        before the counters are brought up to date. The bank of that header is off at
        that moment exactly when the chunk alone, behind its header, fills what the
        bank's counter leaves of it; with nothing else in that counter, when the
        whole bank lies inside the chunk, behind its header. */
    lemma SplitIntoDarkBank(i: nat, size: nat, b: nat)
      requires Valid() && trackPwd && i < |chunks| && 0 < size < chunks[i].size && b < |offset|
      requires power.Low(b) <= chunks[i].addr + size < power.Low(b) + power.bankSize
      ensures !power.powered[b] <==>
              offset[b] + power.Part(b, chunks[i].addr + HEADER, chunks[i].End()) == power.bankSize
      ensures offset[b] == 0 ==>
                (!power.powered[b] <==> HoldsBank(chunks[i], power.Low(b), power.Low(b) + power.bankSize))
    {
      InPlace(i);
      DarkAtChunk(i, b, chunks[i].addr + size);
      power.WholeBankCounted(b, chunks[i].addr + HEADER, chunks[i].End());
    }
  }

  /** Such a state is reached: over four banks of 16 bytes and an arena from 8 to 64,
      allocating 16 bytes writes a header at 24, in bank 1, which is off. */
  method SplitReachesDarkBank() returns (heap: Heap)
    ensures heap.Valid() && heap.trackPwd && heap.chunks == [Chunk(8, 56)] && FirstFit(heap.chunks, 16) == 0
    ensures heap.power.Low(1) <= 8 + 16 < heap.power.Low(1) + heap.power.bankSize
    ensures heap.power.powered.Length == 4 && !heap.power.powered[1]
  {
    var power := ExampleBanks();
    heap := new Heap(8, 56, power);
    hide Bank, Into, WellFormed, ListOk;
    ExampleCountable(heap);
    heap.StartTracking();
    FirstIsFit(heap.chunks, 16);
    heap.SplitIntoDarkBank(0, 16, 1);
    ExampleBank(power, 1);
    assert HoldsBank(heap.chunks[0], 16, 32);
  }

  /** Accounting an arena can turn off the bank of its first header: over four banks of
      16 bytes and an arena from 8 to 64, bank 0 is off with that header at 8. */
  method AccountReachesDarkBank() returns (heap: Heap)
    ensures heap.Valid() && heap.trackPwd && heap.chunks == [Chunk(8, 56)]
    ensures heap.power.Low(0) == 0 && heap.power.bankSize == 16
    ensures heap.power.powered.Length == 4 && !heap.power.powered[0]
  {
    var power := new Banks(0, 16, 4);
    heap := new Heap(8, 56, power);
    hide Bank, Into, WellFormed, ListOk;
    heap.AccountArena();
  }

  lemma FirstIsFit(cs: seq<Chunk>, size: nat)
    requires |cs| > 0 && size <= cs[0].size
    ensures FirstFit(cs, size) == 0
  {
  }

  method ExampleBanks() returns (power: Banks)
    ensures power.Wired() && power.Exact() && power.first == 0 && power.bankSize == 16 && power.pwdCount.Length == 4
    ensures forall b :: 0 <= b < 4 ==> power.pwdCount[b] == power.Part(b, 16, 64)
  {
    power := new Banks(0, 16, 4);
    power.Account(16, 48, true);
    forall b | 0 <= b < 4 ensures 0 <= power.Part(b, 16, 64) <= 16 {
      ExampleBank(power, b);
    }
  }

  lemma ExampleBank(power: Banks, b: nat)
    requires power.first == 0 && power.bankSize == 16 && b < 4
    ensures power.Low(b) == 16 * b
    ensures power.Part(b, 16, 64) == FreeCount([Chunk(8, 56)], power.Pos(b)) == if b == 0 then 0 else 16
    ensures power.Part(b, 8, 64) == if b == 0 then 8 else 16
  {
    FreeCountOne(Chunk(8, 56), power.Pos(b));
  }

  lemma ExampleCountable(heap: Heap)
    requires heap.power.Wired() && heap.power.Exact() && heap.power.first == 0 && heap.power.bankSize == 16
    requires heap.power.pwdCount.Length == 4 && heap.lo == 8 && heap.hi == 64 && heap.chunks == [Chunk(8, 56)]
    requires forall b :: 0 <= b < 4 ==> heap.power.pwdCount[b] == heap.power.Part(b, 16, 64)
    ensures heap.Countable() && forall b :: 0 <= b < 4 ==> heap.Others(heap.chunks, heap.power.pwdCount[..], b) == 0
  {
    forall b | 0 <= b < 4
      ensures heap.Others(heap.chunks, heap.power.pwdCount[..], b) == 0 && heap.power.Part(b, 8, 64) <= 16
    {
      ExampleBank(heap.power, b);
    }
  }
}
