/** The read-only file system: reads of any size and alignment from a flash that
    serves 8-aligned blocks, through a small cache where alignments differ. */
module ReadFs {
  import opened ByteCopy

  const THRESHOLD: nat := 16
  const CACHE_SIZE: nat := 136
  const WORD: nat := 0x1_0000_0000

  /** A size, kept in an int. */
  function AsInt(n: nat): (k: int) {
    if n < WORD / 2 then n else n - WORD
  }

  /** A flash access on its way: into the cache, or into the user's buffer. */
  datatype Access = ToCache(addr: nat) | ToBuffer(addr: nat, buffer: nat, size: nat)

  /** How much of a request the file has left, as 32-bit arithmetic sees it. */
  function RealSize(offset: nat, size: nat, fileSize: nat): (n: int)
    ensures offset <= fileSize < WORD && size < WORD ==> 0 <= n < WORD && (offset + n) % WORD <= fileSize
  {
    if (offset + size) % WORD > fileSize then fileSize - offset else size
  }

  /** A read stays inside the file exactly when the end of the request does not
      wrap around; then it delivers what the file has left, or what was asked. Otherwise it is
      what was asked. */
  lemma RealSizeInFile(offset: nat, size: nat, fileSize: nat)
    requires offset <= fileSize < WORD && size < WORD
    ensures RealSize(offset, size, fileSize) <= fileSize - offset <==> offset + size < 0x1_0000_0000
    ensures offset + size < 0x1_0000_0000 ==>
              RealSize(offset, size, fileSize) == if size < fileSize - offset then size else fileSize - offset
    ensures offset + size >= 0x1_0000_0000 ==> RealSize(offset, size, fileSize) == size
  {
    if offset + size >= WORD {
      assert (offset + size) % WORD == offset + size - WORD;
    }
  }

  /** Asked for all but 4 of 2^32 bytes, from byte 8 of a file of 16, a read is not cut
      to the 8 bytes that are left. */
  lemma RealSizeWraps()
    ensures RealSize(8, WORD - 4, 16) == WORD - 4 > 16 - 8
  {
    assert (8 + (WORD - 4)) % WORD == 4;
  }

  /** What a cached access asks for: no more than one cache load can hold. */
  function Clip(addr: nat, size: nat): nat {
    if size > CACHE_SIZE - addr % 8 then CACHE_SIZE - addr % 8 else size
  }

  predicate Misses(cacheAddr: nat, addr: nat, size: nat) {
    addr < cacheAddr || addr + size > cacheAddr + CACHE_SIZE
  }

  /** Sizes of 2^31 and more are negative when they are compared. */
  predicate UsesCache(buffer: nat, addr: nat, size: nat) {
    AsInt(size) <= THRESHOLD || addr % 8 != buffer % 8
  }

  predicate HitsWhole(cacheAddr: nat, addr: nat, size: nat) {
    size <= CACHE_SIZE && addr >= cacheAddr && addr + size < cacheAddr + CACHE_SIZE
  }

  function Prefix(addr: nat): nat {
    if addr % 8 == 0 then 0 else 8 - addr % 8
  }

  /** The next step of a read would have to load the cache first. */
  predicate NextMisses(cacheAddr: nat, buffer: nat, addr: nat, size: nat) {
    if UsesCache(buffer, addr, size) then Misses(cacheAddr, addr, Clip(addr, size))
    else !HitsWhole(cacheAddr, addr, size) && addr % 8 != 0 && Misses(cacheAddr, addr, Prefix(addr))
  }

  /** After the load that a miss causes, the retry does not miss. */
  lemma RetryHits(buffer: nat, addr: nat, size: nat)
    requires size > 0
    ensures !NextMisses(addr - addr % 8, buffer, addr, size)
  {
  }

  /** Byte `b` of the buffer is about to receive byte `a` of the flash. */
  predicate InAir(busy: Option<Access>, b: nat, a: nat) {
    match busy
    case Some(ToBuffer(addr, buffer, size)) => buffer <= b < buffer + size && addr + b == a + buffer
    case _ => false
  }

  /** An access into the buffer keeps inside it, and to the right bytes. */
  predicate BusyOk(busy: Option<Access>, buffer: nat, addr: nat, size: nat) {
    match busy
    case Some(ToBuffer(a, b, n)) => buffer <= b && b + n <= buffer + size && a + buffer == addr + b
    case _ => true
  }

  /** An access that keeps inside the rest of a buffer keeps inside the buffer. */
  lemma BusyFits(busy: Option<Access>, buffer: nat, addr: nat, size: nat, d: nat)
    requires d <= size && BusyOk(busy, buffer + d, addr + d, size - d)
    ensures BusyOk(busy, buffer, addr, size)
  {
  }

  class Reader {
    const flash: nat -> Byte
    const l2: array<Byte>
    const cache: array<Byte>
    var cacheAddr: nat

    // the open file
    var offset: nat
    const fileSize: nat
    const fileAddr: nat
    var pendingAddr: nat
    var pendingBuffer: nat
    var pendingSize: nat
    // whether the user gave an event, and how often it was enqueued
    var event: bool
    var signals: nat

    // the flash access the hardware is working on
    var busy: Option<Access>

    // the read in progress: where it goes, where it comes from, how long it is,
    // and what the memory held when it began
    ghost var toBuffer: nat
    ghost var fromAddr: nat
    ghost var total: nat
    ghost var was: seq<Byte>

    constructor (flash: nat -> Byte, l2: array<Byte>, cache: array<Byte>, cacheAddr: nat, fileAddr: nat, fileSize: nat)
      requires cache != l2 && cache.Length == 136 && fileSize < WORD
      requires forall i :: 0 <= i < CACHE_SIZE ==> cache[i] == flash(cacheAddr + i)
      ensures this.flash == flash && this.l2 == l2 && this.cache == cache
      ensures this.fileAddr == fileAddr && this.fileSize == fileSize
      ensures Valid() && busy.None? && offset == 0 && signals == 0
    {
      this.flash, this.l2, this.cache, this.cacheAddr := flash, l2, cache, cacheAddr;
      this.fileAddr, this.fileSize, offset := fileAddr, fileSize, 0;
      pendingAddr, pendingBuffer, pendingSize := fileAddr, 0, 0;
      event, signals, busy := false, 0, None;
      toBuffer, fromAddr, total, was := 0, fileAddr, 0, l2[..];
    }

    /** The `n` bytes of the flash from `a` on. */
    function Flash(a: nat, n: nat): (s: seq<Byte>)
      ensures |s| == n && forall i :: 0 <= i < n ==> s[i] == flash(a + i)
    {
      seq(n, i requires 0 <= i < n => flash(a + i))
    }

    ghost predicate Wired() {
      cache != l2 && cache.Length == CACHE_SIZE && fileSize < WORD
    }

    /** The cache holds what the flash holds there, unless it is being loaded. */
    ghost predicate CacheOk()
      reads this, cache
    {
      match busy
      case Some(ToCache(a)) => a == cacheAddr
      case _ => cache[..] == Flash(cacheAddr, CACHE_SIZE)
    }

    ghost predicate Valid()
      reads this, l2, cache
    {
      Wired() && CacheOk() && offset <= fileSize
    }

    /** Starts a flash access; without an event it is over when this returns. */
    method ReadBlock(a: Access, wait: bool)
      requires Wired() && busy.None? && a.addr % 8 == 0
      requires a.ToBuffer? ==> a.buffer % 8 == 0 && a.size % 8 == 0 && a.size > 0 && a.buffer + a.size <= l2.Length
      modifies this`busy, l2, cache
      ensures if wait then busy.None? && Landed(a, old(l2[..]), old(cache[..]))
              else busy == Some(a) && l2[..] == old(l2[..]) && cache[..] == old(cache[..])
    {
      busy := Some(a);
      if wait {
        Land();
      }
    }

    /** The bytes of an access are where they belong, and nothing else changed. */
    ghost predicate Landed(a: Access, l2Was: seq<Byte>, cacheWas: seq<Byte>)
      requires Wired() && |l2Was| == l2.Length && (a.ToBuffer? ==> a.buffer + a.size <= l2.Length)
      reads l2, cache
    {
      match a
      case ToCache(addr) => cache[..] == Flash(addr, CACHE_SIZE) && l2[..] == l2Was
      case ToBuffer(addr, buffer, size) =>
        l2[..] == Splice(l2Was, buffer, Flash(addr, size)) && cache[..] == cacheWas
    }

    /** The flash delivers. */
    method Land()
      requires Wired() && busy.Some?
      requires busy.value.ToBuffer? ==> busy.value.buffer + busy.value.size <= l2.Length
      modifies this`busy, l2, cache
      ensures busy.None? && Landed(old(busy.value), old(l2[..]), old(cache[..]))
    {
      match busy.value {
        case ToCache(addr) =>
          forall i | 0 <= i < CACHE_SIZE {
            cache[i] := flash(addr + i);
          }
        case ToBuffer(addr, buffer, size) =>
          forall i | 0 <= i < size {
            l2[buffer + i] := flash(addr + i);
          }
          assert l2[..] == Splice(old(l2[..]), buffer, Flash(addr, size));
      }
      busy := None;
    }

    /** Copies from the cache. */
    method ReadFromCache(buffer: nat, addr: nat, size: nat) returns (n: nat)
      requires Wired() && busy.None? && CacheOk() && buffer + size <= l2.Length && !Misses(cacheAddr, addr, size)
      modifies l2
      ensures n == size && l2[..] == Splice(old(l2[..]), buffer, Flash(addr, size))
    {
      Memcpy(l2, buffer, cache, addr - cacheAddr, size);
      assert cache[..][addr - cacheAddr..addr - cacheAddr + size] == Flash(addr, size);
      return size;
    }

    /** A read through the cache; a miss loads the cache and delivers nothing. */
    method ReadCached(buffer: nat, addr: nat, size: nat, pending: bool) returns (n: nat, pending': bool)
      requires Wired() && busy.None? && CacheOk() && buffer + size <= l2.Length
      modifies this`busy, this`cacheAddr, l2, cache
      ensures CacheOk()
      ensures if Misses(old(cacheAddr), addr, Clip(addr, size)) then
                && n == 0 && pending' && cacheAddr == addr - addr % 8 && l2[..] == old(l2[..])
                && busy == (if event then Some(ToCache(cacheAddr)) else None)
              else
                && n == Clip(addr, size) && pending' == pending && cacheAddr == old(cacheAddr) && busy.None?
                && l2[..] == Splice(old(l2[..]), buffer, Flash(addr, n))
    {
      var size := Clip(addr, size);
      if addr < cacheAddr || addr + size > cacheAddr + CACHE_SIZE {
        cacheAddr := addr - addr % 8;
        ReadBlock(ToCache(cacheAddr), !event);
        return 0, true;
      }
      n := ReadFromCache(buffer, addr, size);
      return n, pending;
    }

    /** How far a read of `size` bytes got: `n` of them are delivered or on their
        way, and nothing outside them has changed. */
    ghost predicate Advanced(now: seq<Byte>, busy: Option<Access>, before: seq<Byte>,
                             buffer: nat, addr: nat, size: nat, n: nat) {
      && |now| == |before| && n <= size && buffer + size <= |now|
      && (forall i {:trigger now[i]} :: 0 <= i < |now| && !(buffer <= i < buffer + size) ==> now[i] == before[i])
      && (forall i {:trigger now[i]} :: buffer <= i < buffer + n ==>
            now[i] == flash(addr + i - buffer) || InAir(busy, i, addr + i - buffer))
    }

    /** One step of a read: through the cache, or an unaligned prefix through the
        cache and then a block straight from the flash. A step that does both
        reports only the size of the block, so that the next step reads the last
        bytes of the block again. */
    method Read(buffer: nat, addr: nat, size: nat, pending: bool) returns (n: nat, pending': bool)
      requires Wired() && busy.None? && CacheOk() && buffer + size <= l2.Length && size > 0
      modifies this`busy, this`cacheAddr, l2, cache
      ensures CacheOk() && Advanced(l2[..], busy, old(l2[..]), buffer, addr, size, n) && BusyOk(busy, buffer, addr, size)
      ensures n == 0 <==> NextMisses(old(cacheAddr), buffer, addr, size)
      ensures n == 0 ==> cacheAddr == addr - addr % 8 && l2[..] == old(l2[..])
      ensures n == 0 && busy.Some? ==> busy.value.ToCache?
      ensures n > 0 && busy.Some? ==> busy.value.ToBuffer?
      ensures !event ==> busy.None?
      ensures event && !pending ==> (pending' <==> busy.Some?)
      ensures size <= 16 || 0x8000_0000 <= size < 0x1_0000_0000 || addr % 8 != buffer % 8 ==>
                n == 0 || (n == (if size < 136 - addr % 8 then size else 136 - addr % 8) && busy.None?)
      ensures 16 < size < 0x8000_0000 && addr % 8 == buffer % 8 ==>
                if size <= 136 && addr >= old(cacheAddr) && addr + size < old(cacheAddr) + 136 then
                  n == size && busy.None?
                else
                  var skip := if addr % 8 == 0 then 0 else 8 - addr % 8;
                  n == 0 || (pending && n == skip)
                  || (n == (size - skip) / 8 * 8 && (event ==> busy == Some(ToBuffer(addr + skip, buffer + skip, n))))
    {
      hide Advanced, Flash, Splice;
      var useCache := AsInt(size) <= THRESHOLD || addr % 8 != buffer % 8;
      if useCache {
        n, pending' := ReadCached(buffer, addr, size, pending);
        UnchangedAdvances(old(l2[..]), busy, buffer, addr, size);
        if n > 0 {
          SplicedAdvances(l2[..], old(l2[..]), buffer, addr, size, n);
        }
        return;
      }
      if size <= CACHE_SIZE && addr >= cacheAddr && addr + size < cacheAddr + CACHE_SIZE {
        n := ReadFromCache(buffer, addr, size);
        SplicedAdvances(l2[..], old(l2[..]), buffer, addr, size, n);
        return n, pending;
      }
      n, pending' := ReadDirect(buffer, addr, size, pending);
    }

    /** A read through the cache is a step of a read. */
    lemma SplicedAdvances(now: seq<Byte>, before: seq<Byte>, buffer: nat, addr: nat, size: nat, n: nat)
      requires n <= size && buffer + size <= |before|
      requires now == Splice(before, buffer, Flash(addr, n))
      ensures Advanced(now, None, before, buffer, addr, size, n)
    {
    }

    lemma UnchangedAdvances(now: seq<Byte>, busy: Option<Access>, buffer: nat, addr: nat, size: nat)
      requires buffer + size <= |now|
      ensures Advanced(now, busy, now, buffer, addr, size, 0)
    {
    }

    /** The prefix, if there is one, and the block behind it. */
    method ReadDirect(buffer: nat, addr: nat, size: nat, pending: bool) returns (n: nat, pending': bool)
      requires Wired() && busy.None? && CacheOk() && buffer + size <= l2.Length && size > THRESHOLD
      requires addr % 8 == buffer % 8
      modifies this`busy, this`cacheAddr, l2, cache
      ensures CacheOk() && Advanced(l2[..], busy, old(l2[..]), buffer, addr, size, n) && BusyOk(busy, buffer, addr, size)
      ensures n == 0 <==> addr % 8 != 0 && Misses(old(cacheAddr), addr, Prefix(addr))
      ensures n == 0 ==> cacheAddr == addr - addr % 8 && l2[..] == old(l2[..])
      ensures n == 0 && busy.Some? ==> busy.value.ToCache?
      ensures n > 0 && busy.Some? ==> busy.value.ToBuffer?
      ensures !event ==> busy.None?
      ensures event && !pending ==> (pending' <==> busy.Some?)
      ensures var skip := if addr % 8 == 0 then 0 else 8 - addr % 8;
              n == 0 || (pending && n == skip)
              || (n == (size - skip) / 8 * 8 && (event ==> busy == Some(ToBuffer(addr + skip, buffer + skip, n))))
    {
      pending' := pending;
      var addr', buffer', size' := addr, buffer, size;
      var prefixSize := addr % 8;
      if prefixSize != 0 {
        prefixSize := 8 - prefixSize;
        assert Clip(addr, prefixSize) == prefixSize == Prefix(addr);
        n, pending' := ReadCached(buffer, addr, prefixSize, pending');
        if pending' {
          return;
        }
        addr', buffer', size' := addr' + prefixSize, buffer' + prefixSize, size' - prefixSize;
      }
      n := ReadBehindPrefix(old(l2[..]), buffer, addr, size, addr' - addr);
      pending' := true;
    }

    /** The block behind a prefix of `p` bytes. */
    method ReadBehindPrefix(ghost before: seq<Byte>, buffer: nat, addr: nat, size: nat, p: nat) returns (n: nat)
      requires Wired() && busy.None? && CacheOk() && |before| == l2.Length && buffer + size <= l2.Length
      requires p == Prefix(addr) && size > THRESHOLD && addr % 8 == buffer % 8
      requires l2[..] == if p == 0 then before else Splice(before, buffer, Flash(addr, p))
      modifies this`busy, l2, cache
      ensures CacheOk() && Advanced(l2[..], busy, before, buffer, addr, size, n) && BusyOk(busy, buffer, addr, size)
      ensures n > 0 && (busy.Some? ==> busy.value.ToBuffer?) && (busy.Some? <==> event)
      ensures n == (size - p) / 8 * 8 && (event ==> busy == Some(ToBuffer(addr + p, buffer + p, n)))
    {
      hide Flash, Advanced;
      n := BlockSize(addr + p, size - p);
      ghost var mid := l2[..];
      assert (addr + p) % 8 == 0 && (buffer + p) % 8 == 0;
      ReadBlock(ToBuffer(addr + p, buffer + p, n), !event);
      BlockAdvanced(before, mid, l2[..], buffer, addr, size, p, n);
    }

    /** A prefix of `p` bytes and a block of `n` bytes, the block delivered or on
        its way. */
    lemma BlockAdvanced(before: seq<Byte>, mid: seq<Byte>, now: seq<Byte>,
                        buffer: nat, addr: nat, size: nat, p: nat, n: nat)
      requires buffer + size <= |before| && p + n <= size
      requires mid == if p == 0 then before else Splice(before, buffer, Flash(addr, p))
      requires match busy
        case None => now == Splice(mid, buffer + p, Flash(addr + p, n))
        case Some(a) => a == ToBuffer(addr + p, buffer + p, n) && now == mid
      ensures Advanced(now, busy, before, buffer, addr, size, n)
    {
      forall i {:trigger now[i]} | buffer <= i < buffer + n
        ensures now[i] == flash(addr + i - buffer) || InAir(busy, i, addr + i - buffer)
      {
        if i < buffer + p {
          assert Flash(addr, p)[i - buffer] == flash(addr + i - buffer);
        } else if busy.None? {
          assert Flash(addr + p, n)[i - (buffer + p)] == flash(addr + i - buffer);
        }
      }
    }

    /** The aligned part of a block that starts at an aligned address. */
    method BlockSize(addr: nat, size: nat) returns (n: nat)
      requires size >= 8
      ensures n == size - size % 8 && n % 8 == 0 && 8 <= n <= size
    {
      n := size - size % 8;
    }

    /** What a read in progress has reached: the bytes that are no longer pending
        are delivered or on their way. */
    ghost predicate Reading()
      reads this, l2, cache
    {
      && Valid() && pendingSize <= total
      && pendingBuffer == toBuffer + (total - pendingSize)
      && pendingAddr == fromAddr + (total - pendingSize)
      && Advanced(l2[..], busy, was, toBuffer, fromAddr, total, total - pendingSize)
      && BusyOk(busy, toBuffer, fromAddr, total)
      && (busy.Some? ==> event)
    }

    /** How many more steps a read can take: two for each byte, as a step that
        delivers nothing is followed by one that does. */
    ghost function Measure(): nat
      reads this
    {
      2 * pendingSize + if NextMisses(cacheAddr, pendingBuffer, pendingAddr, pendingSize) then 1 else 0
    }

    lemma Bounded(now: seq<Byte>, busy: Option<Access>, before: seq<Byte>, buffer: nat, addr: nat, size: nat, d: nat)
      requires Advanced(now, busy, before, buffer, addr, size, d)
      ensures buffer + size <= |now|
    {
    }

    /** At its start nothing of a read has been delivered. */
    lemma NothingYet(now: seq<Byte>, buffer: nat, addr: nat, size: nat)
      requires buffer + size <= |now|
      ensures Advanced(now, None, now, buffer, addr, size, 0)
    {
    }

    /** A further step takes up where the steps before have stopped. */
    lemma Further(now: seq<Byte>, mid: seq<Byte>, busy: Option<Access>, before: seq<Byte>,
                  buffer: nat, addr: nat, size: nat, d: nat, n: nat)
      requires Advanced(mid, None, before, buffer, addr, size, d)
      requires Advanced(now, busy, mid, buffer + d, addr + d, size - d, n)
      ensures Advanced(now, busy, before, buffer, addr, size, d + n)
    {
    }

    /** When the access on its way has landed, the bytes are there. */
    lemma Arrives(now: seq<Byte>, mid: seq<Byte>, a: Access, before: seq<Byte>,
                  buffer: nat, addr: nat, size: nat, d: nat)
      requires Advanced(mid, Some(a), before, buffer, addr, size, d)
      requires BusyOk(Some(a), buffer, addr, size)
      requires match a
        case ToCache(_) => now == mid
        case ToBuffer(x, b, n) => now == Splice(mid, b, Flash(x, n))
      ensures Advanced(now, None, before, buffer, addr, size, d)
    {
    }

    /** A read of which nothing is pending or on its way has delivered exactly the
        bytes of the flash, and touched nothing else. */
    lemma Delivered(now: seq<Byte>, before: seq<Byte>, buffer: nat, addr: nat, size: nat)
      requires Advanced(now, None, before, buffer, addr, size, size)
      ensures now == Splice(before, buffer, Flash(addr, size))
    {
    }

    /** One iteration of the read loop. */
    method Step(pending: bool) returns (pending': bool)
      requires Reading() && busy.None? && pendingSize > 0
      requires event ==> !pending
      modifies this`busy, this`cacheAddr, this`pendingAddr, this`pendingBuffer, this`pendingSize, l2, cache
      ensures Reading() && Measure() < old(Measure())
      ensures if event then pending' <==> busy.Some? else busy.None?
    {
      hide Advanced, Flash, NextMisses, BusyOk;
      ghost var d := total - pendingSize;
      ghost var mid := l2[..];
      assert toBuffer + total <= l2.Length by {
        Bounded(l2[..], busy, was, toBuffer, fromAddr, total, d);
      }
      var n;
      n, pending' := Read(pendingBuffer, pendingAddr, pendingSize, pending);
      Further(l2[..], mid, busy, was, toBuffer, fromAddr, total, d, n);
      BusyFits(busy, toBuffer, fromAddr, total, d);
      if n == 0 {
        RetryHits(pendingBuffer, pendingAddr, pendingSize);
      }
      pendingAddr, pendingBuffer, pendingSize := pendingAddr + n, pendingBuffer + n, pendingSize - n;
    }

    /** Reads until the data is there or, with an event, a flash access is on its
        way; at the end the event is enqueued. */
    method TryRead()
      requires Reading() && busy.None?
      modifies this`busy, this`cacheAddr, this`pendingAddr, this`pendingBuffer, this`pendingSize, this`signals, l2, cache
      ensures Reading()
      ensures busy.None? ==> pendingSize == 0 && signals == old(signals) + if event then 1 else 0
      ensures busy.Some? ==> signals == old(signals) && Measure() < old(Measure())
    {
      hide Advanced, Flash, NextMisses, BusyOk;
      var pending := false;
      while pendingSize > 0
        invariant Reading() && busy.None? && (event ==> !pending)
        invariant Measure() <= old(Measure()) && signals == old(signals)
        decreases Measure()
      {
        pending := Step(pending);
        if pending && event {
          return;
        }
      }
      if event {
        signals := signals + 1;
      }
    }

    /** Starts a read of `size` bytes into `buffer`. Without an event the data is
        there when it returns. The bytes to be read, and the new offset, are 32-bit
        numbers; the result is the former as an int. */
    method FsRead(buffer: nat, size: nat, event: bool) returns (n: int)
      requires Valid() && busy.None? && size < WORD
      requires buffer + RealSize(offset, size, fileSize) <= l2.Length
      modifies this, l2, cache
      ensures Reading() && total == RealSize(old(offset), size, fileSize)
      ensures -0x8000_0000 <= n < 0x8000_0000 && n % 0x1_0000_0000 == total
      ensures offset == (old(offset) + total) % 0x1_0000_0000 == (old(offset) + n) % 0x1_0000_0000
      ensures old(offset) + size < 0x1_0000_0000 && (size < 0x8000_0000 || fileSize - old(offset) < 0x8000_0000) ==>
                n == total == if size < fileSize - old(offset) then size else fileSize - old(offset)
      ensures this.event == event && was == old(l2[..])
      ensures toBuffer == buffer && fromAddr == fileAddr + old(offset)
      ensures !event ==> busy.None?
      ensures busy.None? ==> pendingSize == 0 && signals == old(signals) + if event then 1 else 0
      ensures busy.Some? ==> signals == old(signals)
    {
      hide Advanced, Flash, NextMisses, RealSize;
      var realSize := RealSize(offset, size, fileSize);
      SizeAsInt(offset, size);
      StartRead(buffer, realSize, event);
      TryRead();
      return AsInt(realSize);
    }

    /** Notes what is to be read, and moves the offset past it. */
    method StartRead(buffer: nat, n: nat, event: bool)
      requires Valid() && busy.None? && (offset + n) % WORD <= fileSize && buffer + n <= l2.Length
      modifies this`event, this`pendingBuffer, this`pendingSize, this`pendingAddr, this`offset,
               this`toBuffer, this`fromAddr, this`total, this`was
      ensures Reading() && offset == (old(offset) + n) % WORD && this.event == event
      ensures total == n && was == l2[..] && toBuffer == buffer && fromAddr == fileAddr + old(offset)
    {
      hide Advanced, Flash;
      NothingYet(l2[..], buffer, fileAddr + offset, n);
      this.event := event;
      pendingBuffer, pendingSize, pendingAddr := buffer, n, fileAddr + offset;
      toBuffer, fromAddr, total, was := buffer, fileAddr + offset, n, l2[..];
      offset := (offset + n) % WORD;
    }

    /** The flash access on its way ends, and the step event takes up the read. */
    method Complete()
      requires Reading() && busy.Some?
      modifies this`busy, this`cacheAddr, this`pendingAddr, this`pendingBuffer, this`pendingSize, this`signals, l2, cache
      ensures Reading()
      ensures busy.None? ==> pendingSize == 0 && signals == old(signals) + 1
      ensures busy.Some? ==> signals == old(signals) && Measure() < old(Measure())
    {
      hide Flash, NextMisses;
      ghost var mid, a := l2[..], busy.value;
      Land();
      Arrives(l2[..], mid, a, was, toBuffer, fromAddr, total, total - pendingSize);
      TryRead();
    }

    /** In both modes a read delivers exactly the next bytes of the flash, as many as it
        reports, changes nothing else, and leaves the offset within the file; an event is
        enqueued once. These are the bytes that were asked for and that the file has
        left, with the offset moved past them, exactly when the end of the request does
        not wrap around. */
    method ReadToEnd(buffer: nat, size: nat, event: bool) returns (n: int)
      requires Valid() && busy.None? && size < WORD
      requires buffer + RealSize(offset, size, fileSize) <= l2.Length
      modifies this, l2, cache
      ensures Valid() && busy.None?
      ensures -0x8000_0000 <= n < 0x8000_0000 && n % 0x1_0000_0000 == RealSize(old(offset), size, fileSize)
      ensures l2[..] == Splice(old(l2[..]), buffer, Flash(fileAddr + old(offset), n % 0x1_0000_0000))
      ensures offset == (old(offset) + n) % 0x1_0000_0000 && offset <= fileSize
      ensures old(offset) + size < 0x1_0000_0000 <==>
              n % 0x1_0000_0000 == (if size < fileSize - old(offset) then size else fileSize - old(offset))
              && offset == old(offset) + n % 0x1_0000_0000
      ensures old(offset) + size < 0x1_0000_0000 && (size < 0x8000_0000 || fileSize - old(offset) < 0x8000_0000) ==>
                n == if size < fileSize - old(offset) then size else fileSize - old(offset)
      ensures old(offset) + size >= 0x1_0000_0000 ==> n % 0x1_0000_0000 == size
      ensures signals == old(signals) + if event then 1 else 0
    {
      hide Advanced, Flash, NextMisses, BusyOk, RealSize, AsInt, Splice, CacheOk;
      ghost var k := RealSize(offset, size, fileSize);
      SizeAsInt(offset, size);
      n := FsRead(buffer, size, event);
      while busy.Some?
        invariant Reading() && this.event == event && offset == (old(offset) + k) % WORD == (old(offset) + n) % WORD
        invariant total == k && was == old(l2[..]) && toBuffer == buffer && fromAddr == fileAddr + old(offset)
        invariant signals == old(signals) + if busy.None? && event then 1 else 0
        invariant busy.None? ==> pendingSize == 0
        decreases busy.Some?, Measure()
      {
        Complete();
      }
      Delivered(l2[..], was, buffer, fromAddr, k);
    }

    /** The size of a read, as the result and the offset show it. */
    lemma SizeAsInt(offset: nat, size: nat)
      requires offset <= fileSize < WORD && size < WORD
      ensures var k := RealSize(offset, size, fileSize);
        && AsInt(k) % WORD == k && (offset + AsInt(k)) % WORD == (offset + k) % WORD
        && -0x8000_0000 <= AsInt(k) < 0x8000_0000 && (k < 0x8000_0000 ==> AsInt(k) == k)
        && (offset + size >= WORD ==> k == size)
        && (offset + size < WORD <==>
              k == (if size < fileSize - offset then size else fileSize - offset) && (offset + k) % WORD == offset + k)
    {
      var k := RealSize(offset, size, fileSize);
      RealSizeInFile(offset, size, fileSize);
      if AsInt(k) != k {
        assert (offset + k) % WORD == (offset + k - WORD) % WORD;
      }
    }

    /** Moves within the file, never to its end. */
    method Seek(offset: nat) returns (status: int)
      requires Valid()
      modifies this`offset
      ensures Valid() && (status == 0 <==> offset < fileSize) && (status == 0 || status == -1)
      ensures this.offset == if status == 0 then offset else old(this.offset)
    {
      if offset < fileSize {
        this.offset := offset;
        return 0;
      }
      return -1;
    }

    /** What two reads in a row may deliver, together. */
    lemma ConsecutiveSizes(offset: nat, n: nat, m: nat)
      requires offset <= fileSize < WORD && offset + n + m < WORD
      ensures var first := RealSize(offset, n, fileSize);
              var second := RealSize(offset + first, m, fileSize);
              && 0 <= first <= n && offset + first <= fileSize && second >= 0
              && RealSize(offset, n + m, fileSize) == first + second && offset + first + second <= fileSize
    {
      RealSizeInFile(offset, n, fileSize);
      RealSizeInFile(offset + RealSize(offset, n, fileSize), m, fileSize);
      RealSizeInFile(offset, n + m, fileSize);
    }

    /** Two reads in a row, the second behind the first in the buffer, deliver what one
        read of both sizes delivers, in whichever modes. */
    method ConsecutiveReads(buffer: nat, n: nat, m: nat, event: bool, event': bool)
      requires Valid() && busy.None? && offset + n + m < WORD
      requires buffer + RealSize(offset, n + m, fileSize) <= l2.Length
      modifies this, l2, cache
      ensures Valid() && busy.None?
      ensures var total := RealSize(old(offset), n + m, fileSize);
        && offset == old(offset) + total <= fileSize
        && l2[..] == Splice(old(l2[..]), buffer, Flash(fileAddr + old(offset), total))
    {
      hide RealSize, Flash, CacheOk, Splice;
      ConsecutiveSizes(offset, n, m);
      ghost var start, was := offset, l2[..];
      SizeAsInt(offset, n);
      var result := ReadToEnd(buffer, n, event);
      var first := result % WORD;
      ghost var mid := l2[..];
      SizeAsInt(offset, m);
      result := ReadToEnd(buffer + first, m, event');
      TwoReads(was, mid, l2[..], buffer, fileAddr + start, first, result % WORD);
    }

    lemma TwoReads(was: seq<Byte>, mid: seq<Byte>, now: seq<Byte>, buffer: nat, addr: nat, first: nat, second: nat)
      requires buffer + first + second <= |was|
      requires mid == Splice(was, buffer, Flash(addr, first))
      requires now == Splice(mid, buffer + first, Flash(addr + first, second))
      ensures now == Splice(was, buffer, Flash(addr, first + second))
    {
      hide Splice;
      SpliceJoin(was, buffer, Flash(addr, first), Flash(addr + first, second));
      assert Flash(addr, first) + Flash(addr + first, second) == Flash(addr, first + second);
    }
  }
}
