/** Power accounting: how many bytes of each memory bank are free and not part
    of a free chunk's header. */
module HeapBanks {
  import opened FreeList

  const HEADER: nat := 8

  /** How far into bank `[lo, hi)` address `a` is. */
  function Into(a: int, lo: int, hi: int): int {
    if a <= lo then 0 else if a < hi then a - lo else hi - lo
  }

  /** The same for all addresses. The bytes of `[a, e)` that are in the bank
      number `f(e) - f(a)`. */
  function Bank(lo: int, hi: int): int -> int {
    a => Into(a, lo, hi)
  }

  /** Free bytes that are not part of a header, counted by `f`. */
  function FreeCount(cs: seq<Chunk>, f: int -> int): int {
    if cs == [] then 0
    else f(cs[0].End()) - f(cs[0].addr + HEADER) + FreeCount(cs[1..], f)
  }

  lemma {:induction false} FreeCountConcat(cs: seq<Chunk>, ds: seq<Chunk>, f: int -> int)
    ensures FreeCount(cs + ds, f) == FreeCount(cs, f) + FreeCount(ds, f)
  {
    if cs == [] {
      assert cs + ds == ds;
    } else {
      assert (cs + ds)[1..] == cs[1..] + ds;
      FreeCountConcat(cs[1..], ds, f);
    }
  }

  lemma FreeCountReplace(cs: seq<Chunk>, i: nat, j: nat, mid: seq<Chunk>, f: int -> int)
    requires i <= j <= |cs|
    ensures FreeCount(Replace(cs, i, j, mid), f) == FreeCount(cs, f) - FreeCount(cs[i..j], f) + FreeCount(mid, f)
  {
    FreeCountConcat(cs[..i] + mid, cs[j..], f);
    FreeCountConcat(cs[..i], mid, f);
    assert cs == cs[..i] + cs[i..j] + cs[j..];
    FreeCountConcat(cs[..i] + cs[i..j], cs[j..], f);
    FreeCountConcat(cs[..i], cs[i..j], f);
  }

  lemma FreeCountOne(c: Chunk, f: int -> int)
    ensures FreeCount([c], f) == f(c.End()) - f(c.addr + HEADER)
  {
    assert [c][1..] == [];
  }

  /** What taking the front of a chunk must take off a counter: the block
      without the old header, and the new header if something is left. */
  function TakenCount(c: Chunk, size: nat, f: int -> int): int {
    f(c.addr + size) - f(c.addr + HEADER) +
    if size == c.size then 0 else f(c.addr + size + HEADER) - f(c.addr + size)
  }

  lemma TakeCount(cs: seq<Chunk>, i: nat, size: nat, f: int -> int)
    requires i < |cs| && size <= cs[i].size
    ensures FreeCount(Take(cs, i, FrontTaken(cs[i], size)), f) == FreeCount(cs, f) - TakenCount(cs[i], size, f)
  {
    var c, mid := cs[i], FrontTaken(cs[i], size);
    FreeCountReplace(cs, i, i + 1, mid, f);
    assert FreeCount(cs[i..i + 1], f) == f(c.End()) - f(c.addr + HEADER) by {
      assert cs[i..i + 1] == [c];
      FreeCountOne(c, f);
    }
    FrontCount(c, size, f);
  }

  lemma FrontCount(c: Chunk, size: nat, f: int -> int)
    requires size <= c.size
    ensures FreeCount(FrontTaken(c, size), f) == f(c.End()) - f(c.addr + HEADER) - TakenCount(c, size, f)
  {
    if size < c.size {
      FreeCountOne(FrontTaken(c, size)[0], f);
    }
  }

  /** What giving a block back must add: the old header of the next chunk if it
      is joined, and the block itself, without a header unless the previous
      chunk's serves. */
  function ReturnedCount(cs: seq<Chunk>, c: Chunk, f: int -> int): int {
    var i := Place(cs, c.addr);
    (if i < |cs| && c.End() == cs[i].addr then f(c.End() + HEADER) - f(c.End()) else 0) +
    f(c.End()) - (if i > 0 && cs[i - 1].End() == c.addr then f(c.addr) else f(c.addr + HEADER))
  }

  /** The counts of the chunks that a returned block is joined to. */
  lemma NeighbourCount(cs: seq<Chunk>, c: Chunk, f: int -> int)
    ensures var i, from, till := Place(cs, c.addr), JoinFrom(cs, c), JoinTo(cs, c);
      FreeCount(cs[from..till], f) ==
        (if from < i then f(cs[from].End()) - f(cs[from].addr + HEADER) else 0) +
        (if i < till then f(cs[i].End()) - f(cs[i].addr + HEADER) else 0)
  {
    NearCount(cs, JoinFrom(cs, c), Place(cs, c.addr), JoinTo(cs, c), f);
  }

  lemma NearCount(cs: seq<Chunk>, from: nat, i: nat, till: nat, f: int -> int)
    requires from <= i <= till <= |cs| && i - from <= 1 && till - i <= 1
    ensures FreeCount(cs[from..till], f) ==
              (if from < i then f(cs[from].End()) - f(cs[from].addr + HEADER) else 0) +
              (if i < till then f(cs[i].End()) - f(cs[i].addr + HEADER) else 0)
  {
    assert cs[from..till] == cs[from..i] + cs[i..till];
    FreeCountConcat(cs[from..i], cs[i..till], f);
    if from < i {
      assert cs[from..i] == [cs[from]];
      FreeCountOne(cs[from], f);
    }
    if i < till {
      assert cs[i..till] == [cs[i]];
      FreeCountOne(cs[i], f);
    }
  }

  lemma ReturnCount(cs: seq<Chunk>, c: Chunk, f: int -> int)
    ensures FreeCount(Free(cs, c), f) == FreeCount(cs, f) + ReturnedCount(cs, c, f)
  {
    hide FreeCount, Place, Joined, Free;
    var m := Joined(cs, c);
    FreeIsReplace(cs, c);
    JoinedEnds(cs, c);
    FreeCountReplace(cs, JoinFrom(cs, c), JoinTo(cs, c), [m], f);
    NeighbourCount(cs, c, f);
    FreeCountOne(m, f);
  }

  // ----- counters of banks

  /** A list cannot count more of a bank than lies between its first header and
      the end of the bank, nor more than lies before its end. */
  lemma {:induction false} FreeCountBound(cs: seq<Chunk>, lo: int, hi: int)
    requires WellFormed(cs) && cs != [] && lo <= hi
    ensures 0 <= FreeCount(cs, Bank(lo, hi)) <= Into(cs[|cs| - 1].End(), lo, hi) - Into(cs[0].addr + HEADER, lo, hi)
  {
    assert cs[0] in cs;
    if |cs| > 1 {
      assert cs[0].End() < cs[1].addr;
      FreeCountBound(cs[1..], lo, hi);
    } else {
      assert cs[1..] == [];
    }
  }

  ghost predicate HoldsBank(c: Chunk, lo: int, hi: int) {
    c.addr + HEADER <= lo && hi <= c.End()
  }

  /** The counter of a bank is the bank's size exactly when the whole bank lies
      inside one free chunk, behind its header. */
  lemma {:induction false} WholeBankFree(cs: seq<Chunk>, lo: int, hi: int)
    requires WellFormed(cs) && lo < hi
    ensures 0 <= FreeCount(cs, Bank(lo, hi)) <= hi - lo
    ensures FreeCount(cs, Bank(lo, hi)) == hi - lo <==> exists c <- cs :: HoldsBank(c, lo, hi)
  {
    if |cs| == 1 {
      assert cs == [cs[0]];
      OneHolder(cs[0], lo, hi);
    } else if |cs| > 1 {
      var c, rest := cs[0], cs[1..];
      assert c in cs && c.addr + HEADER <= c.End() < rest[0].addr;
      TailWellFormed(cs);
      hide WellFormed, Into;
      WholeBankFree(rest, lo, hi);
      FreeCountBound(rest, lo, hi);
      HeadOrRest(c.addr + HEADER, c.End(), rest[0].addr + HEADER, FreeCount(rest, Bank(lo, hi)), lo, hi);
      HoldersSplit(cs, lo, hi);
    }
  }

  lemma OneHolder(c: Chunk, lo: int, hi: int)
    requires WellFormed([c]) && lo < hi
    ensures 0 <= FreeCount([c], Bank(lo, hi)) <= hi - lo
    ensures FreeCount([c], Bank(lo, hi)) == hi - lo <==> exists d <- [c] :: HoldsBank(d, lo, hi)
  {
    assert c in [c];
    FreeCountOne(c, Bank(lo, hi));
  }

  lemma HoldersSplit(cs: seq<Chunk>, lo: int, hi: int)
    requires cs != []
    ensures (exists c <- cs :: HoldsBank(c, lo, hi)) <==>
              HoldsBank(cs[0], lo, hi) || exists c <- cs[1..] :: HoldsBank(c, lo, hi)
  {
    assert forall c :: c in cs <==> c == cs[0] || c in cs[1..];
  }

  lemma HeadOrRest(a: int, e: int, f: int, rest: int, lo: int, hi: int)
    requires a <= e < f && lo < hi && 0 <= rest <= hi - lo - Into(f, lo, hi)
    ensures Into(e, lo, hi) - Into(a, lo, hi) + rest <= hi - lo
    ensures Into(e, lo, hi) - Into(a, lo, hi) + rest == hi - lo <==> (a <= lo && hi <= e) || rest == hi - lo
  {
  }

  // ----- one counter, before and after

  ghost predicate Monotone(f: int -> int) {
    forall x, y {:trigger f(x), f(y)} :: x <= y ==> f(x) <= f(y)
  }

  lemma BankMonotone(lo: int, hi: int)
    requires lo <= hi
    ensures Monotone(Bank(lo, hi))
  {
  }

  lemma {:induction false} FreeCountWithin(cs: seq<Chunk>, f: int -> int, from: int, till: int)
    requires WellFormed(cs) && Monotone(f) && from <= till
    requires forall c <- cs :: from <= c.addr && c.End() <= till
    ensures 0 <= FreeCount(cs, f) <= f(till) - f(from)
    decreases |cs|
  {
    if cs != [] {
      var c, rest := cs[0], cs[1..];
      assert c in cs;
      forall d | d in rest ensures c.End() <= d.addr {
        var j :| 0 < j < |cs| && cs[j] == d;
        assert cs[0].End() < cs[j].addr;
      }
      FreeCountWithin(rest, f, c.End(), till);
      assert f(from) <= f(c.addr + HEADER) <= f(c.End()) <= f(till);
    }
  }

  /** The first header of an arena is never counted, whatever the list. */
  lemma FreeCountBehind(cs: seq<Chunk>, f: int -> int, lo: int, hi: int)
    requires WellFormed(cs) && Monotone(f) && lo + HEADER <= hi
    requires forall c <- cs :: lo <= c.addr && c.End() <= hi
    ensures 0 <= FreeCount(cs, f) <= f(hi) - f(lo + HEADER)
  {
    FreeCountWithin(cs, f, lo, hi);
    if cs != [] {
      var c, rest := cs[0], cs[1..];
      assert c in cs;
      TailWellFormed(cs);
      forall d | d in rest ensures c.End() <= d.addr && d.End() <= hi {
        var j :| 0 < j < |cs| && cs[j] == d;
        assert cs[0].End() < cs[j].addr;
      }
      FreeCountWithin(rest, f, c.End(), hi);
      assert f(lo + HEADER) <= f(c.addr + HEADER);
    } else {
      assert f(lo + HEADER) <= f(hi);
    }
  }

  /** A counter that is `off` above the free bytes, before, between and after
      the two steps that take a block off it. */
  lemma TakeOne(cs: seq<Chunk>, i: nat, size: nat, f: int -> int, lo: int, hi: int, room: int,
                off: int, before: int, between: int, after: int)
    requires WellFormed(cs) && (forall c <- cs :: lo <= c.addr && c.End() <= hi) && lo <= hi && Monotone(f)
    requires i < |cs| && MIN_CHUNK_SIZE <= size <= cs[i].size
    requires var ds := Take(cs, i, FrontTaken(cs[i], size));
      WellFormed(ds) && forall c <- ds :: lo <= c.addr && c.End() <= hi
    requires 0 <= off && off + f(hi) - f(lo + HEADER) <= room && lo + HEADER <= hi
    requires before == off + FreeCount(cs, f)
    requires between == before - (f(cs[i].addr + size) - f(cs[i].addr + 8))
    requires after == between - if size < cs[i].size then f(cs[i].addr + size + 8) - f(cs[i].addr + size) else 0
    ensures after == off + FreeCount(Take(cs, i, FrontTaken(cs[i], size)), f)
    ensures 0 <= after <= between <= room
  {
    TakeCount(cs, i, size, f);
    FreeCountBehind(cs, f, lo, hi);
    assert f(cs[i].addr + 8) <= f(cs[i].addr + size) <= f(cs[i].addr + size + 8);
    FreeCountBehind(Take(cs, i, FrontTaken(cs[i], size)), f, lo, hi);
  }

  /** The same for giving a block back: the next chunk's header first, then the
      block. */
  lemma ReturnOne(cs: seq<Chunk>, c: Chunk, f: int -> int, lo: int, hi: int, room: int,
                  off: int, before: int, between: int, after: int)
    requires WellFormed(cs) && Returnable(cs, c) && lo <= hi && Monotone(f)
    requires WellFormed(Free(cs, c)) && forall d <- Free(cs, c) :: lo <= d.addr && d.End() <= hi
    requires 0 <= off && off + f(hi) - f(lo + HEADER) <= room && lo + HEADER <= hi
    requires before == off + FreeCount(cs, f) && before >= 0
    requires var i := Place(cs, c.addr);
      && between == before + (if i < |cs| && c.End() == cs[i].addr then f(c.End() + 8) - f(c.End()) else 0)
      && after == between + f(c.End()) - (if i > 0 && cs[i - 1].End() == c.addr then f(c.addr) else f(c.addr + 8))
    ensures after == off + FreeCount(Free(cs, c), f)
    ensures 0 <= between <= after <= room
  {
    ReturnCount(cs, c, f);
    FreeCountBehind(Free(cs, c), f, lo, hi);
    assert f(c.addr) <= f(c.addr + 8) <= f(c.End()) <= f(c.End() + 8);
  }

  /** The chunks on either side of chunk `i`. */
  lemma Sides(cs: seq<Chunk>, i: nat, lo: int, hi: int)
    requires WellFormed(cs) && (forall c <- cs :: lo <= c.addr && c.End() <= hi) && i < |cs|
    ensures WellFormed(cs[..i]) && forall d <- cs[..i] :: lo <= d.addr && d.End() <= cs[i].addr
    ensures WellFormed(cs[i + 1..]) && forall d <- cs[i + 1..] :: cs[i].End() <= d.addr && d.End() <= hi
    ensures lo <= cs[i].addr && cs[i].addr + HEADER <= cs[i].End() <= hi
  {
    assert cs[i] in cs;
    forall d | d in cs[..i] ensures lo <= d.addr && d.End() <= cs[i].addr {
      var j :| 0 <= j < i && cs[j] == d;
      assert cs[j].End() < cs[i].addr;
    }
    forall d | d in cs[i + 1..] ensures cs[i].End() <= d.addr && d.End() <= hi {
      var j :| i < j < |cs| && cs[j] == d;
      assert cs[i].End() < cs[j].addr;
    }
  }

  /** The header of chunk `i` is never counted. */
  lemma HeaderNotCounted(cs: seq<Chunk>, i: nat, f: int -> int, lo: int, hi: int)
    requires WellFormed(cs) && (forall c <- cs :: lo <= c.addr && c.End() <= hi) && Monotone(f) && i < |cs|
    ensures FreeCount(cs, f) + f(cs[i].addr + HEADER) - f(cs[i].addr) <= f(hi) - f(lo)
  {
    var c := cs[i];
    Sides(cs, i, lo, hi);
    assert FreeCount(cs, f) == FreeCount(cs[..i], f) + (f(c.End()) - f(c.addr + HEADER)) + FreeCount(cs[i + 1..], f) by {
      assert cs == cs[..i] + [c] + cs[i + 1..];
      FreeCountConcat(cs[..i] + [c], cs[i + 1..], f);
      FreeCountConcat(cs[..i], [c], f);
      FreeCountOne(c, f);
    }
    FreeCountWithin(cs[..i], f, lo, c.addr);
    FreeCountWithin(cs[i + 1..], f, c.End(), hi);
  }

  lemma CountAround(cs: seq<Chunk>, i: nat, f: int -> int)
    requires i < |cs|
    ensures FreeCount(cs, f) ==
              FreeCount(cs[..i], f) + (f(cs[i].End()) - f(cs[i].addr + HEADER)) + FreeCount(cs[i + 1..], f)
  {
    hide FreeCount;
    assert cs == cs[..i] + [cs[i]] + cs[i + 1..];
    FreeCountConcat(cs[..i] + [cs[i]], cs[i + 1..], f);
    FreeCountConcat(cs[..i], [cs[i]], f);
    FreeCountOne(cs[i], f);
  }

  /** What the chunks before and behind chunk `i` can count: the gap to either side is
      not counted. */
  lemma CountBeside(cs: seq<Chunk>, i: nat, f: int -> int, lo: int, hi: int)
    requires WellFormed(cs) && (forall c <- cs :: lo <= c.addr && c.End() <= hi) && Monotone(f) && i < |cs|
    ensures 0 <= FreeCount(cs[..i], f) && 0 <= FreeCount(cs[i + 1..], f)
    ensures i == 0 ==> FreeCount(cs[..i], f) == 0
    ensures i > 0 ==> FreeCount(cs[..i], f) <= f(cs[i - 1].End()) - f(lo + HEADER)
    ensures i + 1 == |cs| ==> FreeCount(cs[i + 1..], f) == 0
    ensures i + 1 < |cs| ==> FreeCount(cs[i + 1..], f) <= f(hi) - f(cs[i + 1].addr + HEADER)
  {
    CountBefore(cs, i, f, lo, hi);
    CountAfter(cs, i, f, lo, hi);
  }

  lemma CountBefore(cs: seq<Chunk>, i: nat, f: int -> int, lo: int, hi: int)
    requires WellFormed(cs) && (forall c <- cs :: lo <= c.addr && c.End() <= hi) && Monotone(f) && i < |cs|
    ensures 0 <= FreeCount(cs[..i], f)
    ensures if i == 0 then FreeCount(cs[..i], f) == 0
            else FreeCount(cs[..i], f) <= f(cs[i - 1].End()) - f(lo + HEADER)
  {
    if i > 0 {
      hide FreeCount;
      Sides(cs, i, lo, hi);
      Sides(cs, i - 1, lo, hi);
      forall d | d in cs[..i] ensures lo <= d.addr && d.End() <= cs[i - 1].End() {
        var j :| 0 <= j < i && cs[j] == d;
        assert j < i - 1 ==> cs[j].End() < cs[i - 1].addr;
      }
      hide WellFormed;
      FreeCountBehind(cs[..i], f, lo, cs[i - 1].End());
    }
  }

  lemma CountAfter(cs: seq<Chunk>, i: nat, f: int -> int, lo: int, hi: int)
    requires WellFormed(cs) && (forall c <- cs :: lo <= c.addr && c.End() <= hi) && Monotone(f) && i < |cs|
    ensures 0 <= FreeCount(cs[i + 1..], f)
    ensures if i + 1 == |cs| then FreeCount(cs[i + 1..], f) == 0
            else FreeCount(cs[i + 1..], f) <= f(hi) - f(cs[i + 1].addr + HEADER)
  {
    if i + 1 < |cs| {
      hide FreeCount;
      Sides(cs, i, lo, hi);
      Sides(cs, i + 1, lo, hi);
      forall d | d in cs[i + 1..] ensures cs[i + 1].addr <= d.addr && d.End() <= hi {
        var j :| i < j < |cs| && cs[j] == d;
        assert i + 1 < j ==> cs[i + 1].End() < cs[j].addr;
      }
      hide WellFormed;
      FreeCountBehind(cs[i + 1..], f, cs[i + 1].addr, hi);
    }
  }

  /** The counter of a bank that holds byte `a` of chunk `i`, `off` above the free
      bytes, is the bank's size exactly when chunk `i` alone, behind its header, fills
      what `off` leaves of the bank. */
  lemma FullAtChunk(cs: seq<Chunk>, i: nat, a: int, from: int, till: int, lo: int, hi: int, off: int)
    requires WellFormed(cs) && (forall c <- cs :: lo <= c.addr && c.End() <= hi) && lo + HEADER <= hi
    requires i < |cs| && cs[i].addr <= a < cs[i].End() && from <= a < till
    requires off >= 0 && off + Into(hi, from, till) - Into(lo + HEADER, from, till) <= till - from
    ensures off + FreeCount(cs, Bank(from, till)) == till - from <==>
            off + Into(cs[i].End(), from, till) - Into(cs[i].addr + HEADER, from, till) == till - from
  {
    hide Bank, Into, FreeCount, WellFormed, Monotone;
    var f, c := Bank(from, till), cs[i];
    BankMonotone(from, till);
    BankIs(from, till);
    CountAround(cs, i, f);
    CountBeside(cs, i, f, lo, hi);
    FreeCountBehind(cs, f, lo, hi);
    Neighbouring(cs, i, lo, hi);
    var e, n := if i > 0 then cs[i - 1].End() else c.addr - 1, if i + 1 < |cs| then cs[i + 1].addr else c.End() + 1;
    FillsAlone(FreeCount(cs[..i], f), FreeCount(cs[i + 1..], f), lo, e, c.addr, a, c.End(), n, hi, from, till, off);
  }

  lemma BankIs(from: int, till: int)
    ensures forall p {:trigger Bank(from, till)(p)} :: Bank(from, till)(p) == Into(p, from, till)
  {
  }

  lemma Neighbouring(cs: seq<Chunk>, i: nat, lo: int, hi: int)
    requires WellFormed(cs) && (forall c <- cs :: lo <= c.addr && c.End() <= hi) && i < |cs|
    ensures lo <= cs[i].addr && cs[i].addr + HEADER <= cs[i].End() <= hi
    ensures i > 0 ==> lo + HEADER <= cs[i - 1].End() < cs[i].addr
    ensures i + 1 < |cs| ==> cs[i].End() < cs[i + 1].addr && cs[i + 1].addr + HEADER <= hi
  {
    Sides(cs, i, lo, hi);
    if i > 0 {
      Sides(cs, i - 1, lo, hi);
    }
    if i + 1 < |cs| {
      Sides(cs, i + 1, lo, hi);
    }
  }

  /** The same in numbers: `before` and `behind` are counted on either side of the
      chunk `[addr, end)`, between which and it there are gaps from `e` and to `n`. */
  lemma FillsAlone(before: int, behind: int, lo: int, e: int, addr: int, a: int, end: int, n: int, hi: int,
                   from: int, till: int, off: int)
    requires e < addr <= a < end < n && addr + HEADER <= end <= hi && lo <= addr && from <= a < till && off >= 0
    requires before == 0 || (lo + HEADER <= e && 0 <= before <= Into(e, from, till) - Into(lo + HEADER, from, till))
    requires behind == 0 || (n + HEADER <= hi && 0 <= behind <= Into(hi, from, till) - Into(n + HEADER, from, till))
    requires off + Into(hi, from, till) - Into(lo + HEADER, from, till) <= till - from
    requires before + (Into(end, from, till) - Into(addr + HEADER, from, till)) + behind
             <= Into(hi, from, till) - Into(lo + HEADER, from, till)
    ensures off + before + (Into(end, from, till) - Into(addr + HEADER, from, till)) + behind == till - from <==>
            off + Into(end, from, till) - Into(addr + HEADER, from, till) == till - from
  {
    if before > 0 {
      assert Into(e, from, till) < Into(addr, from, till) <= Into(addr + HEADER, from, till);
    }
    if behind > 0 {
      assert Into(end, from, till) < Into(n + HEADER, from, till);
    }
  }

  // ----- what a counter counts

  predicate Between(x: int, a: int, e: int) {
    a <= x < e
  }

  /** The addresses from `a` up to `e`. */
  ghost function Range(a: int, e: int): (s: set<int>)
    ensures forall x :: x in s <==> a <= x < e
  {
    set x: int | a <= x < e && Between(x, a, e)
  }

  lemma {:induction false} RangeSize(a: int, e: int)
    requires a <= e
    ensures |Range(a, e)| == e - a
    decreases e - a
  {
    if a < e {
      RangeSize(a, e - 1);
      assert Range(a, e) == Range(a, e - 1) + {e - 1};
    } else {
      assert Range(a, e) == {};
    }
  }

  lemma IntoCounts(a: int, e: int, lo: int, hi: int)
    requires a <= e && lo <= hi
    ensures Into(e, lo, hi) - Into(a, lo, hi) == |Range(a, e) * Range(lo, hi)|
  {
    var from, till := if a < lo then lo else a, if e < hi then e else hi;
    if from <= till {
      RangeSize(from, till);
      assert Range(a, e) * Range(lo, hi) == Range(from, till);
    } else {
      assert Range(a, e) * Range(lo, hi) == {};
    }
  }

  /** Byte `x` is free and behind a header. */
  ghost predicate Behind(cs: seq<Chunk>, x: int) {
    exists c <- cs :: c.addr + 8 <= x < c.End()
  }

  /** The bytes of a bank that are. */
  ghost function BytesBehind(cs: seq<Chunk>, lo: int, hi: int): (s: set<int>)
    ensures forall x :: x in s <==> lo <= x < hi && exists c <- cs :: c.addr + 8 <= x < c.End()
  {
    set x: int | lo <= x < hi && Behind(cs, x)
  }

  lemma OneBehind(c: Chunk, lo: int, hi: int)
    requires c.size >= 8 && lo <= hi
    ensures |BytesBehind([c], lo, hi)| == Into(c.End(), lo, hi) - Into(c.addr + HEADER, lo, hi)
  {
    var a := if c.addr + 8 < lo then lo else c.addr + 8;
    var e := if c.End() > hi then hi else c.End();
    assert c in [c];
    if a <= e {
      RangeSize(a, e);
      assert BytesBehind([c], lo, hi) == Range(a, e);
    } else {
      assert BytesBehind([c], lo, hi) == {};
    }
  }

  /** A list counts, of each bank, exactly the free bytes that are behind the headers. */
  lemma {:induction false} CountIsBytes(cs: seq<Chunk>, lo: int, hi: int)
    requires WellFormed(cs) && lo <= hi
    ensures FreeCount(cs, Bank(lo, hi)) == |BytesBehind(cs, lo, hi)|
  {
    if cs == [] {
      assert BytesBehind(cs, lo, hi) == {};
    } else {
      var c, rest := cs[0], cs[1..];
      assert c in cs;
      TailWellFormed(cs);
      CountIsBytes(rest, lo, hi);
      OneBehind(c, lo, hi);
      BehindSplit(cs, lo, hi);
    }
  }

  lemma BehindSplit(cs: seq<Chunk>, lo: int, hi: int)
    requires WellFormed(cs) && cs != []
    ensures |BytesBehind(cs, lo, hi)| == |BytesBehind([cs[0]], lo, hi)| + |BytesBehind(cs[1..], lo, hi)|
  {
    var one, more := BytesBehind([cs[0]], lo, hi), BytesBehind(cs[1..], lo, hi);
    BehindUnion(cs, lo, hi);
    BehindApart(cs, lo, hi);
  }

  lemma BehindUnion(cs: seq<Chunk>, lo: int, hi: int)
    requires cs != []
    ensures BytesBehind(cs, lo, hi) == BytesBehind([cs[0]], lo, hi) + BytesBehind(cs[1..], lo, hi)
  {
    hide WellFormed;
    assert forall c :: c in cs <==> c == cs[0] || c in cs[1..];
    assert cs[0] in [cs[0]];
  }

  lemma BehindApart(cs: seq<Chunk>, lo: int, hi: int)
    requires WellFormed(cs) && cs != []
    ensures BytesBehind([cs[0]], lo, hi) * BytesBehind(cs[1..], lo, hi) == {}
  {
    forall c | c in cs[1..] ensures cs[0].End() < c.addr {
      var j :| 0 < j < |cs| && cs[j] == c;
    }
    hide WellFormed;
  }
}
