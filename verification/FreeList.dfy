/** Address-ordered lists of free chunks, as the two allocators keep them, seen
    as values: which bytes a list makes free, and what allocating from it and
    giving back to it do to those bytes. */
module FreeList {
  import Arithmetic

  const MIN_CHUNK_SIZE: nat := 8

  datatype Chunk = Chunk(addr: int, size: int) {
    function End(): int { addr + size }
  }

  function RoundUp(n: nat): (r: nat)
    ensures r % MIN_CHUNK_SIZE == 0 && n <= r < n + MIN_CHUNK_SIZE
  {
    (n + 7) / 8 * 8
  }

  /** Aligned, not empty, in strict address order, no two of them touching. */
  ghost predicate WellFormed(cs: seq<Chunk>) {
    && (forall c <- cs :: c.addr % MIN_CHUNK_SIZE == 0 && c.size % MIN_CHUNK_SIZE == 0 && c.size >= MIN_CHUNK_SIZE)
    && (forall i, j :: 0 <= i < j < |cs| ==> cs[i].End() < cs[j].addr)
  }

  /** Byte `b` is free. */
  ghost predicate Covers(cs: seq<Chunk>, b: int) {
    exists c <- cs :: c.addr <= b < c.End()
  }

  ghost predicate AllFree(cs: seq<Chunk>, addr: int, size: int) {
    forall b :: addr <= b < addr + size ==> Covers(cs, b)
  }

  ghost predicate NoneFree(cs: seq<Chunk>, addr: int, size: int) {
    forall b :: addr <= b < addr + size ==> !Covers(cs, b)
  }

  ghost predicate SameBytes(cs: seq<Chunk>, ds: seq<Chunk>) {
    forall b :: Covers(cs, b) <==> Covers(ds, b)
  }

  /** `ds` frees what `cs` frees, less `[addr, addr + size)`. */
  ghost predicate Without(cs: seq<Chunk>, ds: seq<Chunk>, addr: int, size: int) {
    forall b :: Covers(ds, b) <==> Covers(cs, b) && !(addr <= b < addr + size)
  }

  /** `ds` frees what `cs` frees, and `[addr, addr + size)`. */
  ghost predicate With(cs: seq<Chunk>, ds: seq<Chunk>, addr: int, size: int) {
    forall b :: Covers(ds, b) <==> Covers(cs, b) || addr <= b < addr + size
  }

  // ----- a list is determined by its bytes

  lemma CoversHead(cs: seq<Chunk>, b: int)
    requires cs != []
    ensures Covers(cs, b) <==> cs[0].addr <= b < cs[0].End() || Covers(cs[1..], b)
  {
    if c :| c in cs && c.addr <= b < c.End() {
      assert c == cs[0] || c in cs[1..];
    }
  }

  /** No byte before the list's first chunk is free. */
  lemma NothingBefore(cs: seq<Chunk>, b: int)
    requires WellFormed(cs) && (cs == [] || b < cs[0].addr)
    ensures !Covers(cs, b)
  {
    forall c | c in cs ensures b < c.addr {
      var i :| 0 <= i < |cs| && cs[i] == c;
      if i > 0 {
        assert cs[0].End() < cs[i].addr;
      }
    }
  }

  lemma SameHead(cs: seq<Chunk>, ds: seq<Chunk>)
    requires WellFormed(cs) && WellFormed(ds) && SameBytes(cs, ds) && cs != []
    ensures ds != [] && ds[0].addr <= cs[0].addr
    ensures ds[0].addr == cs[0].addr ==> ds[0].size <= cs[0].size
  {
    assert Covers(cs, cs[0].addr);
    if ds == [] || cs[0].addr < ds[0].addr {
      NothingBefore(ds, cs[0].addr);
    }
    var e := cs[0].End();
    CoversHead(cs, e);
    NothingBefore(cs[1..], e);
    assert !Covers(ds, e);
    CoversHead(ds, e);
  }

  lemma TailWellFormed(cs: seq<Chunk>)
    requires WellFormed(cs) && cs != []
    ensures WellFormed(cs[1..])
  {
  }

  lemma SameTail(cs: seq<Chunk>, ds: seq<Chunk>)
    requires WellFormed(cs) && WellFormed(ds) && SameBytes(cs, ds) && cs != [] && ds != [] && cs[0] == ds[0]
    ensures SameBytes(cs[1..], ds[1..])
  {
    TailWellFormed(cs);
    TailWellFormed(ds);
    forall b ensures Covers(cs[1..], b) <==> Covers(ds[1..], b) {
      CoversHead(cs, b);
      CoversHead(ds, b);
      if b < cs[0].End() {
        NothingBefore(cs[1..], b);
        NothingBefore(ds[1..], b);
      }
    }
  }

  /** The list is canonical: two well-formed lists with the same free bytes are
      the same list. */
  lemma {:induction false} Canonical(cs: seq<Chunk>, ds: seq<Chunk>)
    requires WellFormed(cs) && WellFormed(ds) && SameBytes(cs, ds)
    ensures cs == ds
    decreases |cs|
  {
    hide WellFormed, Covers;
    if cs == [] {
      if ds != [] {
        SameHead(ds, cs);
      }
    } else {
      SameHead(cs, ds);
      SameHead(ds, cs);
      SameTail(cs, ds);
      TailWellFormed(cs);
      TailWellFormed(ds);
      Canonical(cs[1..], ds[1..]);
    }
  }

  // ----- giving back

  /** Where a block goes: behind every chunk at a lower address. */
  function Place(cs: seq<Chunk>, addr: int): (i: nat)
    ensures i <= |cs|
    ensures forall j :: 0 <= j < i ==> cs[j].addr < addr
    ensures i < |cs| ==> addr <= cs[i].addr
  {
    if cs == [] || addr <= cs[0].addr then 0 else 1 + Place(cs[1..], addr)
  }

  /** The list with a block put back at place `i`, joined to the neighbours it
      touches. */
  function Insert(cs: seq<Chunk>, i: nat, c: Chunk): seq<Chunk>
    requires i <= |cs|
  {
    var (chunk, rest) :=
      if i < |cs| && c.End() == cs[i].addr then (Chunk(c.addr, c.size + cs[i].size), cs[i + 1..])
      else (c, cs[i..]);
    if i > 0 && cs[i - 1].End() == c.addr
    then cs[..i - 1] + [Chunk(cs[i - 1].addr, cs[i - 1].size + chunk.size)] + rest
    else cs[..i] + [chunk] + rest
  }

  function Free(cs: seq<Chunk>, c: Chunk): seq<Chunk> {
    Insert(cs, Place(cs, c.addr), c)
  }

  /** A block that can be given back: aligned, not empty, none of it free. */
  ghost predicate Returnable(cs: seq<Chunk>, c: Chunk) {
    c.addr % MIN_CHUNK_SIZE == 0 && c.size % MIN_CHUNK_SIZE == 0 && c.size >= MIN_CHUNK_SIZE && NoneFree(cs, c.addr, c.size)
  }

  /** A block that is not free fits between its neighbours in the list. */
  lemma Neighbours(cs: seq<Chunk>, c: Chunk)
    requires WellFormed(cs) && Returnable(cs, c)
    ensures var i := Place(cs, c.addr);
      && (i > 0 ==> cs[i - 1].End() <= c.addr)
      && (i < |cs| ==> c.End() <= cs[i].addr)
  {
    var i := Place(cs, c.addr);
    if i > 0 {
      assert cs[i - 1].addr < c.addr;
      assert !Covers(cs, c.addr);
    }
    if i < |cs| {
      assert Covers(cs, cs[i].addr);
    }
  }

  // ----- replacing part of a list

  function Replace(cs: seq<Chunk>, lo: nat, hi: nat, mid: seq<Chunk>): seq<Chunk>
    requires lo <= hi <= |cs|
  {
    cs[..lo] + mid + cs[hi..]
  }

  lemma CoversConcat(cs: seq<Chunk>, ds: seq<Chunk>, b: int)
    ensures Covers(cs + ds, b) <==> Covers(cs, b) || Covers(ds, b)
  {
  }

  lemma ReplaceCovers(cs: seq<Chunk>, lo: nat, hi: nat, mid: seq<Chunk>, b: int)
    requires lo <= hi <= |cs|
    ensures Covers(Replace(cs, lo, hi, mid), b) <==>
              Covers(cs[..lo], b) || Covers(mid, b) || Covers(cs[hi..], b)
    ensures Covers(cs, b) <==> Covers(cs[..lo], b) || Covers(cs[lo..hi], b) || Covers(cs[hi..], b)
  {
    CoversConcat(cs[..lo] + mid, cs[hi..], b);
    CoversConcat(cs[..lo], mid, b);
    assert cs == cs[..lo] + cs[lo..hi] + cs[hi..];
    CoversConcat(cs[..lo] + cs[lo..hi], cs[hi..], b);
    CoversConcat(cs[..lo], cs[lo..hi], b);
  }

  /** Putting one chunk, or none, in the place of some keeps the order if it
      fits between the neighbours that stay. */
  lemma ReplaceKeepsOrder(cs: seq<Chunk>, lo: nat, hi: nat, mid: seq<Chunk>)
    requires WellFormed(cs) && lo <= hi <= |cs|
    requires |mid| <= 1 && WellFormed(mid)
    requires mid != [] && lo > 0 ==> cs[lo - 1].End() < mid[0].addr
    requires mid != [] && hi < |cs| ==> mid[0].End() < cs[hi].addr
    ensures WellFormed(Replace(cs, lo, hi, mid))
  {
    ConcatKeepsOrder(cs[..lo], mid);
    if mid == [] && 0 < lo && hi < |cs| {
      assert cs[lo - 1].End() < cs[hi].addr;
    }
    ConcatKeepsOrder(cs[..lo] + mid, cs[hi..]);
  }

  lemma ConcatKeepsOrder(cs: seq<Chunk>, ds: seq<Chunk>)
    requires WellFormed(cs) && WellFormed(ds)
    requires cs != [] && ds != [] ==> cs[|cs| - 1].End() < ds[0].addr
    ensures WellFormed(cs + ds)
  {
    var rs := cs + ds;
    forall i, j | 0 <= i < j < |rs| ensures rs[i].End() < rs[j].addr {
      if i < |cs| <= j {
        assert i < |cs| - 1 ==> cs[i].End() < cs[|cs| - 1].addr;
        assert j > |cs| ==> ds[0].End() < ds[j - |cs|].addr;
      }
    }
  }

  // ----- giving a block back is replacing its neighbours

  /** The part of the list that a returned block takes the place of. */
  function JoinFrom(cs: seq<Chunk>, c: Chunk): (lo: nat)
    ensures lo <= Place(cs, c.addr)
  {
    var i := Place(cs, c.addr);
    if i > 0 && cs[i - 1].End() == c.addr then i - 1 else i
  }

  function JoinTo(cs: seq<Chunk>, c: Chunk): (hi: nat)
    ensures Place(cs, c.addr) <= hi <= |cs|
  {
    var i := Place(cs, c.addr);
    if i < |cs| && c.End() == cs[i].addr then i + 1 else i
  }

  function Joined(cs: seq<Chunk>, c: Chunk): Chunk {
    var i, lo, hi := Place(cs, c.addr), JoinFrom(cs, c), JoinTo(cs, c);
    var addr := if lo < i then cs[lo].addr else c.addr;
    Chunk(addr, (if lo < i then cs[lo].size else 0) + c.size + (if i < hi then cs[i].size else 0))
  }

  lemma FreeIsReplace(cs: seq<Chunk>, c: Chunk)
    ensures Free(cs, c) == Replace(cs, JoinFrom(cs, c), JoinTo(cs, c), [Joined(cs, c)])
  {
  }

  lemma JoinedFits(cs: seq<Chunk>, c: Chunk)
    requires WellFormed(cs) && Returnable(cs, c)
    ensures WellFormed([Joined(cs, c)])
    ensures JoinFrom(cs, c) > 0 ==> cs[JoinFrom(cs, c) - 1].End() < Joined(cs, c).addr
    ensures JoinTo(cs, c) < |cs| ==> Joined(cs, c).End() < cs[JoinTo(cs, c)].addr
  {
    Neighbours(cs, c);
    var i, lo, hi := Place(cs, c.addr), JoinFrom(cs, c), JoinTo(cs, c);
    JoinedAligned(cs, c);
    assert 0 < lo < i ==> cs[lo - 1].End() < cs[lo].addr;
    assert i < hi < |cs| ==> cs[i].End() < cs[hi].addr;
  }

  lemma OneWellFormed(c: Chunk)
    requires c.addr % MIN_CHUNK_SIZE == 0 && c.size % MIN_CHUNK_SIZE == 0 && c.size >= MIN_CHUNK_SIZE
    ensures WellFormed([c])
  {
  }

  lemma JoinedAligned(cs: seq<Chunk>, c: Chunk)
    requires WellFormed(cs) && Returnable(cs, c)
    ensures WellFormed([Joined(cs, c)])
  {
    var i, lo, hi := Place(cs, c.addr), JoinFrom(cs, c), JoinTo(cs, c);
    assert lo < i ==> cs[lo] in cs;
    assert i < hi ==> cs[i] in cs;
    var before, after := if lo < i then cs[lo].size else 0, if i < hi then cs[i].size else 0;
    hide WellFormed, Place;
    assert before % 8 == 0 && after % 8 == 0;
    Arithmetic.Sum8(before, c.size);
    Arithmetic.Sum8(before + c.size, after);
    OneWellFormed(Joined(cs, c));
  }

  /** Where the joined chunk begins and ends. */
  lemma JoinedEnds(cs: seq<Chunk>, c: Chunk)
    ensures Joined(cs, c).addr == (if JoinFrom(cs, c) < Place(cs, c.addr) then cs[JoinFrom(cs, c)].addr else c.addr)
    ensures Joined(cs, c).End() == (if Place(cs, c.addr) < JoinTo(cs, c) then cs[Place(cs, c.addr)].End() else c.End())
  {
  }

  /** The chunks next to place `i`, whichever of them are taken. */
  lemma CoversNear(cs: seq<Chunk>, lo: nat, hi: nat, i: nat, b: int)
    requires lo <= i <= hi <= |cs| && i - lo <= 1 && hi - i <= 1
    ensures Covers(cs[lo..hi], b) <==>
              (lo < i && cs[lo].addr <= b < cs[lo].End()) || (i < hi && cs[i].addr <= b < cs[i].End())
  {
    assert cs[lo..hi] == cs[lo..i] + cs[i..hi];
    CoversConcat(cs[lo..i], cs[i..hi], b);
    if lo < i {
      assert cs[lo..i] == [cs[lo]];
      CoversOne(cs[lo], b);
    }
    if i < hi {
      assert cs[i..hi] == [cs[i]];
      CoversOne(cs[i], b);
    }
  }

  lemma JoinedCovers(cs: seq<Chunk>, c: Chunk, b: int)
    requires WellFormed(cs) && Returnable(cs, c)
    ensures Covers([Joined(cs, c)], b) <==>
              Covers(cs[JoinFrom(cs, c)..JoinTo(cs, c)], b) || c.addr <= b < c.End()
  {
    var i := Place(cs, c.addr);
    assert i < |cs| ==> cs[i] in cs;
    assert i > 0 ==> cs[i - 1] in cs;
    CoversOne(Joined(cs, c), b);
    CoversNear(cs, JoinFrom(cs, c), JoinTo(cs, c), Place(cs, c.addr), b);
    JoinedEnds(cs, c);
  }

  lemma FreeKeepsOrder(cs: seq<Chunk>, c: Chunk)
    requires WellFormed(cs) && Returnable(cs, c)
    ensures WellFormed(Free(cs, c))
  {
    FreeIsReplace(cs, c);
    JoinedFits(cs, c);
    ReplaceKeepsOrder(cs, JoinFrom(cs, c), JoinTo(cs, c), [Joined(cs, c)]);
  }

  /** Giving a block back makes exactly its bytes free. */
  lemma FreeAddsBytes(cs: seq<Chunk>, c: Chunk)
    requires WellFormed(cs) && Returnable(cs, c)
    ensures With(cs, Free(cs, c), c.addr, c.size)
  {
    FreeIsReplace(cs, c);
    forall b ensures Covers(Free(cs, c), b) <==> Covers(cs, b) || c.addr <= b < c.End() {
      ReplaceCovers(cs, JoinFrom(cs, c), JoinTo(cs, c), [Joined(cs, c)], b);
      JoinedCovers(cs, c, b);
    }
  }

  // ----- taking

  /** The first chunk that is large enough, or the end of the list. */
  function FirstFit(cs: seq<Chunk>, size: nat): (i: nat)
    ensures i <= |cs|
    ensures forall j :: 0 <= j < i ==> cs[j].size < size
    ensures i < |cs| ==> size <= cs[i].size
  {
    if cs == [] || size <= cs[0].size then 0 else 1 + FirstFit(cs[1..], size)
  }

  /** What is left of a chunk when its first `size` bytes are taken. */
  function FrontTaken(c: Chunk, size: nat): seq<Chunk>
    requires size <= c.size
  {
    if size == c.size then [] else [Chunk(c.addr + size, c.size - size)]
  }

  /** What is left of a chunk when its last `size` bytes are taken. */
  function BackTaken(c: Chunk, size: nat): seq<Chunk>
    requires size <= c.size
  {
    if size == c.size then [] else [Chunk(c.addr, c.size - size)]
  }

  /** Taking a block from chunk `i`, leaving `mid`. */
  function Take(cs: seq<Chunk>, i: nat, mid: seq<Chunk>): seq<Chunk>
    requires i < |cs|
  {
    Replace(cs, i, i + 1, mid)
  }

  /** Bytes of one chunk are not in any other. */
  lemma Apart(cs: seq<Chunk>, i: nat, b: int)
    requires WellFormed(cs) && i < |cs| && cs[i].addr <= b < cs[i].End()
    ensures !Covers(cs[..i], b) && !Covers(cs[i + 1..], b)
  {
    forall c | c in cs[..i] ensures c.End() <= b {
      var j :| 0 <= j < i && cs[j] == c;
      assert cs[j].End() < cs[i].addr;
    }
    forall c | c in cs[i + 1..] ensures b < c.addr {
      var j :| i < j < |cs| && cs[j] == c;
      assert cs[i].End() < cs[j].addr;
    }
  }

  /** Taking a block from either end of a chunk keeps the list well-formed and
      makes exactly the block's bytes, all of them free before, not free. */
  lemma TakeRemovesBytes(cs: seq<Chunk>, i: nat, size: nat, addr: int, mid: seq<Chunk>)
    requires WellFormed(cs) && i < |cs| && 0 < size <= cs[i].size && size % MIN_CHUNK_SIZE == 0
    requires (mid == FrontTaken(cs[i], size) && addr == cs[i].addr)
             || (mid == BackTaken(cs[i], size) && addr == cs[i].End() - size)
    ensures WellFormed(Take(cs, i, mid))
    ensures AllFree(cs, addr, size)
    ensures Without(cs, Take(cs, i, mid), addr, size)
  {
    assert cs[i] in cs;
    assert i > 0 ==> cs[i - 1].End() < cs[i].addr;
    ReplaceKeepsOrder(cs, i, i + 1, mid);
    assert AllFree(cs, addr, size);
    forall b ensures Covers(Take(cs, i, mid), b) <==> Covers(cs, b) && !(addr <= b < addr + size) {
      TakeByte(cs, i, size, addr, mid, b);
    }
  }

  lemma TakeByte(cs: seq<Chunk>, i: nat, size: nat, addr: int, mid: seq<Chunk>, b: int)
    requires WellFormed(cs) && i < |cs| && 0 < size <= cs[i].size
    requires (mid == FrontTaken(cs[i], size) && addr == cs[i].addr)
             || (mid == BackTaken(cs[i], size) && addr == cs[i].End() - size)
    ensures Covers(Take(cs, i, mid), b) <==> Covers(cs, b) && !(addr <= b < addr + size)
  {
    ReplaceCovers(cs, i, i + 1, mid, b);
    assert cs[i..i + 1] == [cs[i]];
    CoversOne(cs[i], b);
    if mid != [] {
      assert mid == [mid[0]];
      CoversOne(mid[0], b);
    }
    if cs[i].addr <= b < cs[i].End() {
      Apart(cs, i, b);
    }
  }

  lemma CoversOne(c: Chunk, b: int)
    ensures Covers([c], b) <==> c.addr <= b < c.End()
  {
    assert c in [c];
  }

  /** If no single chunk is large enough, no run of free bytes is: the request
      cannot be met by any choice of the allocator. */
  lemma NoFitNoRoom(cs: seq<Chunk>, size: nat, addr: int)
    requires WellFormed(cs) && size > 0 && FirstFit(cs, size) == |cs|
    ensures !AllFree(cs, addr, size)
  {
    if AllFree(cs, addr, size) {
      assert Covers(cs, addr);
      var c :| c in cs && c.addr <= addr < c.End();
      var i :| 0 <= i < |cs| && cs[i] == c;
      assert Covers(cs, c.End());
      EndNotFree(cs, i);
    }
  }

  lemma EndNotFree(cs: seq<Chunk>, i: nat)
    requires WellFormed(cs) && i < |cs|
    ensures !Covers(cs, cs[i].End())
  {
    forall c | c in cs ensures !(c.addr <= cs[i].End() < c.End()) {
      var j :| 0 <= j < |cs| && cs[j] == c;
      if j < i {
        assert cs[j].End() < cs[i].addr;
      } else if j > i {
        assert cs[i].End() < cs[j].addr;
      }
    }
  }

  /** Taking a block and giving it back restores the identical list. */
  lemma TakeThenFree(cs: seq<Chunk>, i: nat, size: nat, addr: int, mid: seq<Chunk>)
    requires WellFormed(cs) && i < |cs| && 0 < size <= cs[i].size && size % MIN_CHUNK_SIZE == 0
    requires (mid == FrontTaken(cs[i], size) && addr == cs[i].addr)
             || (mid == BackTaken(cs[i], size) && addr == cs[i].End() - size)
    ensures Free(Take(cs, i, mid), Chunk(addr, size)) == cs
  {
    var ds, c := Take(cs, i, mid), Chunk(addr, size);
    TakeRemovesBytes(cs, i, size, addr, mid);
    TakenReturnable(cs, ds, i, size, addr);
    FreeKeepsOrder(ds, c);
    FreeAddsBytes(ds, c);
    assert SameBytes(Free(ds, c), cs) by {
      hide Free, Take, WellFormed, Covers;
    }
    Canonical(Free(ds, c), cs);
  }

  lemma TakenReturnable(cs: seq<Chunk>, ds: seq<Chunk>, i: nat, size: nat, addr: int)
    requires WellFormed(cs) && i < |cs| && 0 < size <= cs[i].size && size % MIN_CHUNK_SIZE == 0
    requires addr == cs[i].addr || addr == cs[i].End() - size
    requires Without(cs, ds, addr, size)
    ensures Returnable(ds, Chunk(addr, size))
  {
    hide Covers;
    assert cs[i] in cs;
    Arithmetic.Sum8(cs[i].addr, cs[i].size);
    Arithmetic.Sum8(size, cs[i].addr + cs[i].size);
  }
}
