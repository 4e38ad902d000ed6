/** How a list of free chunks is represented by headers that sit in the free
    chunks themselves, each pointing to the next. */
module FreeListLinks {
  import opened FreeList

  datatype Header = Header(size: int, next: int)

  /** From `p`, the headers lead through the chunks `cs` and then to `end`. */
  ghost predicate Chain(h: map<int, Header>, p: int, cs: seq<Chunk>, end: int)
    decreases |cs|
  {
    match |cs|
    case 0 => p == end
    case _ => p == cs[0].addr && p in h && h[p].size == cs[0].size && Chain(h, h[p].next, cs[1..], end)
  }

  /** Where chunk `i` is, or what comes behind the last one. */
  function Start(cs: seq<Chunk>, i: nat, end: int): int {
    if i < |cs| then cs[i].addr else end
  }

  /** The chunk before place `i`, or NULL. */
  function PrevOf(cs: seq<Chunk>, i: nat): int
    requires i <= |cs|
  {
    if i == 0 then 0 else cs[i - 1].addr
  }

  ghost predicate Elsewhere(cs: seq<Chunk>, a: int) {
    forall c <- cs :: c.addr != a
  }

  /** No chunk is at NULL, and no two are at the same place. */
  ghost predicate Identified(cs: seq<Chunk>) {
    && (forall c <- cs :: c.addr != 0)
    && (forall i, j :: 0 <= i < j < |cs| ==> cs[i].addr != cs[j].addr)
  }

  lemma OrderIdentifies(cs: seq<Chunk>)
    requires WellFormed(cs) && forall c <- cs :: c.addr != 0
    ensures Identified(cs)
  {
    forall i, j | 0 <= i < j < |cs| ensures cs[i].addr != cs[j].addr {
      assert cs[i].End() < cs[j].addr && cs[i] in cs;
    }
  }

  ghost predicate InArena(cs: seq<Chunk>, lo: nat, hi: nat) {
    0 < lo && forall c <- cs :: lo <= c.addr && c.End() <= hi
  }

  lemma {:induction false} ChainConcat(h: map<int, Header>, p: int, cs: seq<Chunk>, q: int, ds: seq<Chunk>, end: int)
    requires Chain(h, p, cs, q) && Chain(h, q, ds, end)
    ensures Chain(h, p, cs + ds, end)
    decreases |cs|
  {
    if cs == [] {
      assert cs + ds == ds;
    } else {
      ChainConcat(h, h[p].next, cs[1..], q, ds, end);
      assert (cs + ds)[1..] == cs[1..] + ds;
    }
  }

  lemma {:induction false} ChainSplit(h: map<int, Header>, p: int, cs: seq<Chunk>, i: nat, end: int)
    requires Chain(h, p, cs, end) && i <= |cs|
    ensures Chain(h, p, cs[..i], Start(cs, i, end)) && Chain(h, Start(cs, i, end), cs[i..], end)
    decreases |cs|
  {
    if i == 0 {
      assert cs[0..] == cs && cs[..0] == [];
    } else {
      ChainSplit(h, h[p].next, cs[1..], i - 1, end);
      assert cs[1..][..i - 1] == cs[..i][1..] && cs[1..][i - 1..] == cs[i..];
    }
  }

  /** Writing a header elsewhere leaves the list as it is. */
  lemma {:induction false} ChainFrame(h: map<int, Header>, a: int, w: Header, p: int, cs: seq<Chunk>, end: int)
    requires Chain(h, p, cs, end) && Elsewhere(cs, a)
    ensures Chain(h[a := w], p, cs, end)
    decreases |cs|
  {
    if cs != [] {
      ChainFrame(h, a, w, h[p].next, cs[1..], end);
    }
  }

  /** What is written anywhere but over the headers leaves the list as it is. */
  lemma {:induction false} ChainSame(h: map<int, Header>, h': map<int, Header>, p: int, cs: seq<Chunk>, end: int)
    requires Chain(h, p, cs, end)
    requires forall c <- cs :: c.addr in h ==> c.addr in h' && h'[c.addr] == h[c.addr]
    ensures Chain(h', p, cs, end)
    decreases |cs|
  {
    if cs != [] {
      assert cs[0] in cs;
      ChainSame(h, h', h[p].next, cs[1..], end);
    }
  }

  /** Rewriting the last header: its size, and what comes next. */
  lemma {:induction false} ChainLast(h: map<int, Header>, p: int, cs: seq<Chunk>, c: Chunk, end: int, w: Header)
    requires Chain(h, p, cs + [c], end) && Elsewhere(cs, c.addr)
    ensures c.addr in h && h[c.addr] == Header(c.size, end)
    ensures Chain(h[c.addr := w], p, cs + [Chunk(c.addr, w.size)], w.next)
    decreases |cs|
  {
    if cs == [] {
      assert (cs + [c])[1..] == [] && (cs + [Chunk(c.addr, w.size)])[1..] == [];
    } else {
      assert (cs + [c])[1..] == cs[1..] + [c];
      assert (cs + [Chunk(c.addr, w.size)])[1..] == cs[1..] + [Chunk(c.addr, w.size)];
      ChainLast(h, h[p].next, cs[1..], c, end, w);
    }
  }

  /** Removing an entry that is not on the list. */
  lemma {:induction false} ChainDrop(h: map<int, Header>, a: int, p: int, cs: seq<Chunk>, end: int)
    requires Chain(h, p, cs, end) && Elsewhere(cs, a)
    ensures Chain(h - {a}, p, cs, end)
    decreases |cs|
  {
    if cs != [] {
      ChainDrop(h, a, h[p].next, cs[1..], end);
    }
  }

  lemma FirstFitIs(cs: seq<Chunk>, size: nat, i: nat)
    requires i <= |cs| && (forall j :: 0 <= j < i ==> cs[j].size < size)
    requires i == |cs| || size <= cs[i].size
    ensures FirstFit(cs, size) == i
  {
  }

  lemma PlaceIs(cs: seq<Chunk>, addr: int, i: nat)
    requires i <= |cs| && (forall j :: 0 <= j < i ==> cs[j].addr < addr)
    requires i == |cs| || addr <= cs[i].addr
    ensures Place(cs, addr) == i
  {
  }

  // ----- the pointer writes of the allocator

  function SetNext(h: map<int, Header>, prev: int, next: int): map<int, Header>
    requires prev != 0 ==> prev in h
  {
    if prev != 0 then h[prev := h[prev].(next := next)] else h
  }

  function SetFirst(first: int, prev: int, next: int): int {
    if prev != 0 then first else next
  }

  lemma OthersElsewhere(cs: seq<Chunk>, i: nat)
    requires Identified(cs) && i < |cs|
    ensures Elsewhere(cs[..i], cs[i].addr) && Elsewhere(cs[i + 1..], cs[i].addr)
  {
    forall c | c in cs[..i] ensures c.addr != cs[i].addr {
      var j :| 0 <= j < i && cs[j] == c;
    }
    forall c | c in cs[i + 1..] ensures c.addr != cs[i].addr {
      var j :| i < j < |cs| && cs[j] == c;
    }
  }

  /** Once the list from place `j` on, with perhaps a chunk before it, starts at
      `next`, linking the first `i` chunks to it gives the whole list. */
  lemma LinkTo(h: map<int, Header>, first: int, cs: seq<Chunk>, i: nat, end: int, next: int, ds: seq<Chunk>)
    requires Identified(cs) && i <= |cs|
    requires Chain(h, first, cs[..i], end) && Chain(h, next, ds, 0)
    requires Elsewhere(ds, PrevOf(cs, i))
    ensures PrevOf(cs, i) != 0 ==> PrevOf(cs, i) in h
    ensures Chain(SetNext(h, PrevOf(cs, i), next), SetFirst(first, PrevOf(cs, i), next), cs[..i] + ds, 0)
  {
    if i == 0 {
      assert cs[..0] + ds == ds;
    } else {
      var front, c := cs[..i - 1], cs[i - 1];
      assert c in cs && cs[..i] == front + [c];
      OthersElsewhere(cs, i - 1);
      ChainLast(h, first, front, c, end, Header(c.size, next));
      ChainFrame(h, c.addr, Header(c.size, next), next, ds, 0);
      ChainConcat(h[c.addr := Header(c.size, next)], first, cs[..i], next, ds, 0);
    }
  }

  /** An address inside a chunk is not the address of any chunk. */
  lemma InsideIsApart(cs: seq<Chunk>, i: nat, a: int)
    requires WellFormed(cs) && i < |cs| && cs[i].addr < a < cs[i].End()
    ensures Elsewhere(cs, a)
  {
    forall c | c in cs ensures c.addr != a {
      var j :| 0 <= j < |cs| && cs[j] == c;
      if j < i {
        assert cs[j].End() < cs[i].addr;
      } else if i < j {
        assert cs[i].End() < cs[j].addr;
      }
    }
  }

  lemma TailElsewhere(cs: seq<Chunk>, i: nat, j: nat)
    requires Identified(cs) && i <= j <= |cs|
    ensures Elsewhere(cs[j..], PrevOf(cs, i))
  {
    forall c | c in cs[j..] ensures c.addr != PrevOf(cs, i) {
      var k :| j <= k < |cs| && cs[k] == c;
      assert i > 0 ==> cs[i - 1].addr != cs[k].addr;
    }
  }

  /** Unlinking chunk `i`. */
  lemma UnlinkLinks(h: map<int, Header>, first: int, cs: seq<Chunk>, i: nat)
    requires Identified(cs) && Chain(h, first, cs, 0) && i < |cs|
    ensures PrevOf(cs, i) != 0 ==> PrevOf(cs, i) in h
    ensures var next := Start(cs, i + 1, 0);
      Chain(SetNext(h, PrevOf(cs, i), next), SetFirst(first, PrevOf(cs, i), next), Take(cs, i, []), 0)
  {
    ChainSplit(h, first, cs, i, 0);
    ChainSplit(h, first, cs, i + 1, 0);
    TailElsewhere(cs, i, i + 1);
    LinkTo(h, first, cs, i, Start(cs, i, 0), Start(cs, i + 1, 0), cs[i + 1..]);
    assert Take(cs, i, []) == cs[..i] + cs[i + 1..];
  }

  /** Linking chunk `c` in the place of the chunks from `i` up to `j`. */
  lemma InsertLinks(h: map<int, Header>, first: int, cs: seq<Chunk>, i: nat, j: nat, c: Chunk)
    requires Identified(cs) && Chain(h, first, cs, 0) && i <= j <= |cs|
    requires c.addr != 0 && Elsewhere(cs[..i], c.addr) && Elsewhere(cs[j..], c.addr)
    ensures var h1 := h[c.addr := Header(c.size, Start(cs, j, 0))];
      && (PrevOf(cs, i) != 0 ==> PrevOf(cs, i) in h1)
      && Chain(SetNext(h1, PrevOf(cs, i), c.addr), SetFirst(first, PrevOf(cs, i), c.addr), Replace(cs, i, j, [c]), 0)
  {
    hide Chain, Identified, SetNext, SetFirst;
    var h1 := h[c.addr := Header(c.size, Start(cs, j, 0))];
    var ds := [c] + cs[j..];
    HeaderWritten(h, first, cs, i, j, c);
    assert Elsewhere(ds, PrevOf(cs, i)) by {
      TailElsewhere(cs, i, j);
      assert i > 0 ==> cs[i - 1] in cs[..i];
    }
    LinkTo(h1, first, cs, i, Start(cs, i, 0), c.addr, ds);
    assert Replace(cs, i, j, [c]) == cs[..i] + ds;
  }

  /** After the header of `c` is written it leads to the rest of the list. */
  lemma HeaderWritten(h: map<int, Header>, first: int, cs: seq<Chunk>, i: nat, j: nat, c: Chunk)
    requires Chain(h, first, cs, 0) && i <= j <= |cs|
    requires Elsewhere(cs[..i], c.addr) && Elsewhere(cs[j..], c.addr)
    ensures var h1 := h[c.addr := Header(c.size, Start(cs, j, 0))];
      Chain(h1, first, cs[..i], Start(cs, i, 0)) && Chain(h1, c.addr, [c] + cs[j..], 0)
  {
    var w := Header(c.size, Start(cs, j, 0));
    ChainSplit(h, first, cs, i, 0);
    ChainSplit(h, first, cs, j, 0);
    ChainFrame(h, c.addr, w, first, cs[..i], Start(cs, i, 0));
    ChainFrame(h, c.addr, w, Start(cs, j, 0), cs[j..], 0);
    assert ([c] + cs[j..])[1..] == cs[j..];
  }

  /** Growing the chunk before place `i` over `c` and what `c` was joined to.
      The header of `c` itself has been written already. */
  lemma GrowLinks(h: map<int, Header>, h1: map<int, Header>, first: int, cs: seq<Chunk>, i: nat, j: nat, c: Chunk,
                  prev: Chunk, w: Header)
    requires Identified(cs) && Chain(h, first, cs, 0) && 0 < i <= j <= |cs|
    requires Elsewhere(cs, c.addr) && h1 == h[c.addr := Header(c.size, Start(cs, j, 0))]
    requires prev == cs[i - 1] && w == Header(prev.size + c.size, Start(cs, j, 0))
    ensures prev.addr in h1 && h1[prev.addr].size == prev.size
    ensures Chain(h1[prev.addr := w], first, Replace(cs, i - 1, j, [Chunk(prev.addr, w.size)]), 0)
  {
    var grown := cs[..i - 1] + [Chunk(prev.addr, w.size)];
    ChainSplit(h, first, cs, i, 0);
    ChainSplit(h, first, cs, j, 0);
    ChainFrame(h, c.addr, h1[c.addr], first, cs[..i], Start(cs, i, 0));
    ChainFrame(h, c.addr, h1[c.addr], w.next, cs[j..], 0);
    GrowLast(h1, first, cs, i, Start(cs, i, 0), w);
    TailElsewhere(cs, i, j);
    ChainFrame(h1, prev.addr, w, w.next, cs[j..], 0);
    ChainConcat(h1[prev.addr := w], first, grown, w.next, cs[j..], 0);
    assert Replace(cs, i - 1, j, [Chunk(prev.addr, w.size)]) == grown + cs[j..];
  }

  lemma GrowLast(h: map<int, Header>, first: int, cs: seq<Chunk>, i: nat, end: int, w: Header)
    requires Identified(cs) && 0 < i <= |cs| && Chain(h, first, cs[..i], end)
    ensures cs[i - 1].addr in h && h[cs[i - 1].addr].size == cs[i - 1].size
    ensures Chain(h[cs[i - 1].addr := w], first, cs[..i - 1] + [Chunk(cs[i - 1].addr, w.size)], w.next)
  {
    assert cs[..i] == cs[..i - 1] + [cs[i - 1]];
    OthersElsewhere(cs, i - 1);
    ChainLast(h, first, cs[..i - 1], cs[i - 1], end, w);
  }

  // ----- whole steps

  /** A free list in its arena, with its headers. */
  ghost predicate ListOk(h: map<int, Header>, first: int, cs: seq<Chunk>, lo: nat, hi: nat) {
    WellFormed(cs) && InArena(cs, lo, hi) && Chain(h, first, cs, 0)
  }

  lemma TakeInArena(cs: seq<Chunk>, i: nat, size: nat, lo: nat, hi: nat)
    requires WellFormed(cs) && InArena(cs, lo, hi) && i < |cs|
    requires 0 < size <= cs[i].size && size % MIN_CHUNK_SIZE == 0
    ensures WellFormed(Take(cs, i, FrontTaken(cs[i], size))) && InArena(Take(cs, i, FrontTaken(cs[i], size)), lo, hi)
  {
    assert cs[i] in cs;
    TakeRemovesBytes(cs, i, size, cs[i].addr, FrontTaken(cs[i], size));
  }

  lemma TakeFrontLinks(h: map<int, Header>, first: int, cs: seq<Chunk>, i: nat, size: nat, newPt: int, lo: nat, hi: nat)
    requires ListOk(h, first, cs, lo, hi) && i < |cs| && newPt == cs[i].addr + size
    requires 0 < size < cs[i].size && size % MIN_CHUNK_SIZE == 0
    ensures var h1 := h[newPt := Header(cs[i].size - size, Start(cs, i + 1, 0))];
      && (PrevOf(cs, i) != 0 ==> PrevOf(cs, i) in h1)
      && ListOk(SetNext(h1, PrevOf(cs, i), newPt), SetFirst(first, PrevOf(cs, i), newPt),
                Take(cs, i, FrontTaken(cs[i], size)), lo, hi)
  {
    hide Chain, WellFormed, InArena, Take, SetNext, SetFirst;
    var c := Chunk(newPt, cs[i].size - size);
    assert FrontTaken(cs[i], size) == [c];
    assert WellFormed(Take(cs, i, [c])) && InArena(Take(cs, i, [c]), lo, hi) by {
      TakeInArena(cs, i, size, lo, hi);
    }
    TakeFrontChain(h, first, cs, i, c, lo, hi);
  }

  lemma TakeFrontChain(h: map<int, Header>, first: int, cs: seq<Chunk>, i: nat, c: Chunk, lo: nat, hi: nat)
    requires ListOk(h, first, cs, lo, hi) && i < |cs| && cs[i].addr < c.addr < cs[i].End()
    ensures var h1 := h[c.addr := Header(c.size, Start(cs, i + 1, 0))];
      && (PrevOf(cs, i) != 0 ==> PrevOf(cs, i) in h1)
      && Chain(SetNext(h1, PrevOf(cs, i), c.addr), SetFirst(first, PrevOf(cs, i), c.addr), Take(cs, i, [c]), 0)
  {
    OrderIdentifies(cs);
    InsideIsApart(cs, i, c.addr);
    InsertLinks(h, first, cs, i, i + 1, c);
  }

  /** The chunk that a returned block makes with the one behind it. */
  function WithNext(cs: seq<Chunk>, c: Chunk): Chunk {
    var i := Place(cs, c.addr);
    if i < |cs| && c.End() == cs[i].addr then Chunk(c.addr, c.size + cs[i].size) else c
  }

  lemma ReturnedElsewhere(cs: seq<Chunk>, c: Chunk)
    requires WellFormed(cs) && Returnable(cs, c)
    ensures Elsewhere(cs, c.addr)
  {
    assert !Covers(cs, c.addr);
  }

  lemma FreeInArena(cs: seq<Chunk>, c: Chunk, lo: nat, hi: nat)
    requires InArena(cs, lo, hi) && lo <= c.addr && c.End() <= hi
    ensures InArena(Free(cs, c), lo, hi)
  {
    FreeIsReplace(cs, c);
    JoinedEnds(cs, c);
    var i, from, till, m := Place(cs, c.addr), JoinFrom(cs, c), JoinTo(cs, c), Joined(cs, c);
    assert from < i ==> cs[from] in cs;
    assert i < till ==> cs[i] in cs;
    assert lo <= m.addr && m.End() <= hi;
    forall d | d in Replace(cs, from, till, [m]) ensures lo <= d.addr && d.End() <= hi {
      assert d in cs[..from] || d == m || d in cs[till..];
    }
  }

  lemma FreeOk(cs: seq<Chunk>, c: Chunk, lo: nat, hi: nat)
    requires WellFormed(cs) && InArena(cs, lo, hi) && Returnable(cs, c) && lo <= c.addr && c.End() <= hi
    ensures WellFormed(Free(cs, c)) && InArena(Free(cs, c), lo, hi)
  {
    FreeKeepsOrder(cs, c);
    FreeInArena(cs, c, lo, hi);
  }

  /** A block put back behind a chunk it does not touch. */
  lemma InsertedIsFree(cs: seq<Chunk>, c: Chunk)
    requires JoinFrom(cs, c) == Place(cs, c.addr)
    ensures Free(cs, c) == Replace(cs, Place(cs, c.addr), JoinTo(cs, c), [WithNext(cs, c)])
  {
  }

  /** A block put back behind a chunk it touches. */
  lemma GrownIsFree(cs: seq<Chunk>, c: Chunk)
    requires JoinFrom(cs, c) < Place(cs, c.addr)
    ensures var i, m := Place(cs, c.addr), WithNext(cs, c);
      Free(cs, c) == Replace(cs, i - 1, JoinTo(cs, c), [Chunk(cs[i - 1].addr, cs[i - 1].size + m.size)])
  {
  }

  /** The headers after the chunk before a returned block grew over it. */
  lemma FreeGrows(h: map<int, Header>, h1: map<int, Header>, first: int, cs: seq<Chunk>, c: Chunk, ds: seq<Chunk>)
    returns (w: Header)
    requires Identified(cs) && Chain(h, first, cs, 0)
    requires JoinFrom(cs, c) < Place(cs, c.addr) && Elsewhere(cs, c.addr) && ds == Free(cs, c)
    requires h1 == h[c.addr := Header(WithNext(cs, c).size, Start(cs, JoinTo(cs, c), 0))]
    ensures var prev := PrevOf(cs, Place(cs, c.addr));
      && prev in h1 && w == Header(h1[prev].size + h1[c.addr].size, h1[c.addr].next)
      && Chain(h1[prev := w], first, ds, 0)
  {
    var i, j, m := Place(cs, c.addr), JoinTo(cs, c), WithNext(cs, c);
    var prev := cs[i - 1];
    w := Header(prev.size + m.size, Start(cs, j, 0));
    GrowLinks(h, h1, first, cs, i, j, m, prev, w);
    GrownIsFree(cs, c);
    SameChain(h1[prev.addr := w], first, Replace(cs, i - 1, j, [Chunk(prev.addr, w.size)]), ds);
  }

  lemma SameChain(h: map<int, Header>, p: int, cs: seq<Chunk>, ds: seq<Chunk>)
    requires Chain(h, p, cs, 0) && cs == ds
    ensures Chain(h, p, ds, 0)
  {
  }

  /** The header of the chunk before place `i`. */
  lemma PrevHeader(h: map<int, Header>, first: int, cs: seq<Chunk>, i: nat)
    requires Identified(cs) && Chain(h, first, cs, 0) && 0 < i <= |cs|
    ensures cs[i - 1].addr in h && h[cs[i - 1].addr].size == cs[i - 1].size
  {
    ChainSplit(h, first, cs, i, 0);
    GrowLast(h, first, cs, i, Start(cs, i, 0), Header(0, 0));
  }
}
