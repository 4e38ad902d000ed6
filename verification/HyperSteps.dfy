/** One lemma for each way an emulated copy can move forward: what a step of
    the misaligned read and write machines does to the bytes of the request. */
module HyperSteps {
  import Arithmetic
  import opened ByteCopy
  import opened HyperSpec
  import opened HyperProgress

  /** An emulated copy between two steps: nothing is on its way. */
  ghost predicate AtStep(p: Progress, m: Memory, e: Emu, rx: nat) {
    && Arrived(p, m) && p.done == p.issued && !Direct(p.req)
    && rx % 2 == 0 && EmuAt(p, e, rx)
  }

  /** An emulated copy with transfer `o` on its way: user bytes between the user
      and the HyperRAM, a block being loaded into the bounce buffer, or a block
      being stored from it. */
  ghost predicate InTransit(p: Progress, m: Memory, e: Emu, rx: nat, temp: seq<Byte>, o: Transfer) {
    match o.local
    case User(_) => Underway(p, m, e, rx, temp, o) && !e.doMemcpy && UserRun(p, o)
    case Bounce(_) =>
      Underway(p, m, e, rx, temp, o) &&
      if e.doMemcpy then BounceLoad(p, e, o) && NeedsBounce(e) else BounceStore(p, o, m, temp)
  }

  ghost predicate Underway(p: Progress, m: Memory, e: Emu, rx: nat, temp: seq<Byte>, o: Transfer) {
    && Arrived(p, m) && !Direct(p.req) && rx % 2 == 0 && EmuAt(p, e, rx)
    && |temp| == BOUNCE_SIZE && InRange(m, o) && Aligned(o) && o.size > 0
  }

  lemma InTransitOk(p: Progress, m: Memory, e: Emu, rx: nat, temp: seq<Byte>, o: Transfer)
    requires InTransit(p, m, e, rx, temp, o)
    ensures InRange(m, o) && Aligned(o) && o.size > 0
  {
  }

  lemma AdvanceKeepsPlace(p: Progress, e: Emu, rx: nat, n: nat)
    requires EmuAt(p, e, rx) && n == StepSize(e)
    ensures EmuAt(p.(issued := p.issued + n), Advance(e, n), rx)
  {
    hide Touched, StepSize, OnLine;
    TouchedStep(e);
  }

  /** The block loaded into the bounce buffer is inside the buffer and the
      HyperRAM, and the bytes of the next step are inside the block. */
  lemma LoadFits(p: Progress, m: Memory, e: Emu, rx: nat)
    requires AtStep(p, m, e, rx) && NeedsBounce(e)
    ensures LoadSize(e) <= BOUNCE_SIZE && LoadSize(e) % 4 == 0
    ensures LoadFrom(e) % 2 == 0 && LoadFrom(e) + LoadSize(e) <= |m.hyper|
    ensures Prologue(e) <= 3 && e.hyperAddr % 2 + Prologue(e) <= LoadSize(e)
  {
    hide Touched, Arrived, OnLine, StepSize;
    TouchedStep(e);
    LoadInside(p, m);
  }

  lemma LoadInside(p: Progress, m: Memory)
    requires Arrived(p, m)
    ensures |p.base.hyper| == |m.hyper|
  {
  }

  lemma LoadTransit(p: Progress, m: Memory, e: Emu, rx: nat, temp: seq<Byte>)
    requires AtStep(p, m, e, rx) && NeedsBounce(e) && |temp| == BOUNCE_SIZE
    ensures var o := Transfer(rx, Bounce(0), LoadFrom(e), LoadSize(e));
      InTransit(p, m, e.(doMemcpy := true), rx, temp, o)
  {
    hide Touched;
    LoadFits(p, m, e, rx);
    TouchedLoading(e, true);
  }

  /** The bytes of the next step, inside the loaded block. */
  lemma LoadedBytes(e: Emu, m: Memory, temp: seq<Byte>, n: nat)
    requires Loaded(e, m, temp) && e.hyperAddr % 2 + n <= LoadSize(e)
    ensures temp[e.hyperAddr % 2..e.hyperAddr % 2 + n] == m.hyper[e.hyperAddr..e.hyperAddr + n]
  {
    assert LoadFrom(e) + e.hyperAddr % 2 == e.hyperAddr;
    SliceOfSlice(temp, m.hyper, LoadFrom(e), LoadSize(e), e.hyperAddr % 2, n);
  }

  lemma SliceOfSlice(a: seq<Byte>, b: seq<Byte>, at: nat, size: nat, off: nat, n: nat)
    requires size <= |a| && at + size <= |b| && off + n <= size
    requires a[..size] == b[at..at + size]
    ensures a[off..off + n] == b[at + off..at + off + n]
  {
    var l, r := a[off..off + n], b[at + off..at + off + n];
    forall i | 0 <= i < n ensures l[i] == r[i] {
      assert a[..size][off + i] == b[at..at + size][off + i];
    }
  }

  /** Copying out of the bounce buffer delivers the next `n` bytes of a read. */
  lemma ReadFromBounce(p: Progress, m: Memory, e: Emu, rx: nat, temp: seq<Byte>, n: nat)
    requires AtStep(p, m, e, rx) && !p.req.write
    requires e.size > 0 && n == StepSize(e) && Loaded(e, m, temp) && e.hyperAddr % 2 + n <= LoadSize(e)
    ensures e.addr + n <= |m.l2| && p.done + n <= p.req.size
    ensures AtStep(p.(done := p.done + n, issued := p.issued + n),
                   m.(l2 := Splice(m.l2, e.addr, temp[e.hyperAddr % 2..e.hyperAddr % 2 + n])), Advance(e, n), rx)
  {
    hide Arrived, Contiguous, Splice, Touched, StepSize;
    LineContiguous(p, m, e, rx, p.issued, n);
    LoadedBytes(e, m, temp, n);
    ReadArrives(p, m, n, e.hyperAddr, temp[e.hyperAddr % 2..e.hyperAddr % 2 + n]);
    AdvanceKeepsPlace(p, e, rx, n);
  }

  lemma ReadArrives(p: Progress, m: Memory, n: nat, h: nat, bytes: seq<Byte>)
    requires Arrived(p, m) && p.done + n <= p.req.size && !p.req.write && p.done == p.issued
    requires h + n <= |m.hyper| && Contiguous(p.req, p.done, n, h)
    requires bytes == m.hyper[h..h + n]
    ensures Arrived(p.(done := p.done + n, issued := p.issued + n),
                    m.(l2 := Splice(m.l2, p.req.addr + p.done, bytes)))
  {
    ExtendByBlock(p, m, n, h);
  }

  lemma StoreTransit(p: Progress, m: Memory, e: Emu, rx: nat, temp: seq<Byte>, n: nat, o: Transfer)
    requires AtStep(p, m, e, rx) && p.req.write
    requires e.size > 0 && n == StepSize(e) && Loaded(e, m, temp)
    requires o == Transfer(e.channel, Bounce(0), LoadFrom(e), o.size) && o.size % 4 == 0
    requires o.size <= BOUNCE_SIZE && (o.size == 4 || e.hyperAddr % 2 + n == o.size)
    requires e.hyperAddr % 2 + n <= o.size
    ensures e.addr + n <= |m.l2| && InRange(m, o) && Aligned(o)
    ensures InTransit(p.(issued := p.issued + n), m, Advance(e, n), rx,
                      Splice(temp, e.hyperAddr % 2, m.l2[e.addr..e.addr + n]), o)
  {
    hide Touched, StepSize, Arrived, OnLine, Overlaid;
    IssueMore(p, m, n);
    WriteIntoBounce(p, m, e, rx, temp, n, o);
    AdvanceKeepsPlace(p, e, rx, n);
  }

  /** Laying the next `n` bytes of a write over the loaded block gives a block
      whose other bytes are what the HyperRAM holds already. `size` is the
      number of bytes stored back: the 4 that were loaded, or just as far as
      the user's bytes reach. */
  lemma WriteIntoBounce(p: Progress, m: Memory, e: Emu, rx: nat, temp: seq<Byte>, n: nat, o: Transfer)
    requires AtStep(p, m, e, rx) && p.req.write
    requires 0 < n <= e.size && Loaded(e, m, temp)
    requires o == Transfer(e.channel, Bounce(0), LoadFrom(e), o.size)
    requires o.size <= BOUNCE_SIZE && (o.size == 4 || e.hyperAddr % 2 + n == o.size)
    requires e.hyperAddr % 2 + n <= o.size
    ensures e.addr + n <= |m.l2| && InRange(m, o)
    ensures BounceStore(p.(issued := p.issued + n), o, m, Splice(temp, e.hyperAddr % 2, m.l2[e.addr..e.addr + n]))
  {
    hide Arrived, Contiguous, HyperOffset, Touched;
    LineContiguous(p, m, e, rx, p.issued, n);
    var off := e.hyperAddr % 2;
    assert LoadFrom(e) + off == e.hyperAddr;
    OverlayBlock(temp, m.hyper, LoadFrom(e), LoadSize(e), off, m.l2[e.addr..e.addr + n], o.size);
    StoreOverlaid(p, m, o, Splice(temp, off, m.l2[e.addr..e.addr + n]), off, n, e.addr);
  }

  lemma StoreOverlaid(p: Progress, m: Memory, o: Transfer, temp: seq<Byte>, lo: nat, n: nat, a: nat)
    requires p.done == p.issued && 0 < n && p.issued + n <= p.req.size
    requires a == p.req.addr + p.issued && a + n <= |m.l2|
    requires p.req.is2d ==> p.req.length > 0
    requires p.req.write && IsWrite(o.channel) && o.local == Bounce(0)
    requires o.size <= BOUNCE_SIZE == |temp| && o.hyperAddr + o.size <= |m.hyper|
    requires lo + n <= o.size && Contiguous(p.req, p.done, n, o.hyperAddr + lo)
    requires temp[..o.size] == Splice(m.hyper[o.hyperAddr..o.hyperAddr + o.size], lo, m.l2[a..a + n])
    ensures BounceStore(p.(issued := p.issued + n), o, m, temp) && InRange(m, o)
  {
    var q := p.(issued := p.issued + n);
    assert m.l2[q.req.addr + q.done..q.req.addr + q.issued] == m.l2[a..a + n];
    assert Overlaid(q, o, m, temp, lo);
  }

  lemma OverlayBlock(temp: seq<Byte>, hyper: seq<Byte>, h: nat, loaded: nat, off: nat, mid: seq<Byte>, size: nat)
    requires loaded <= |temp| == BOUNCE_SIZE && h + loaded <= |hyper| && h + size <= |hyper| && size <= BOUNCE_SIZE
    requires temp[..loaded] == hyper[h..h + loaded]
    requires off <= 1 && loaded >= 4 && (size == 4 || off + |mid| == size) && off + |mid| <= size
    ensures Splice(temp, off, mid)[..size] == Splice(hyper[h..h + size], off, mid)
  {
    forall i | 0 <= i < loaded ensures temp[i] == hyper[h + i] {
      assert temp[i] == temp[..loaded][i] == hyper[h..h + loaded][i];
    }
  }

  lemma IssueMore(p: Progress, m: Memory, n: nat)
    requires Arrived(p, m) && p.issued + n <= p.req.size
    ensures Arrived(p.(issued := p.issued + n), m) && |p.base.hyper| == |m.hyper|
    ensures p.req.addr + p.issued + n <= |m.l2|
  {
  }

  lemma BodyAligned(e: Emu)
    requires e.size > 0 && !NeedsBounce(e)
    ensures var n := e.size - e.size % 4;
      n == StepSize(e) && n % 4 == 0 && e.addr % 4 == 0 && e.hyperAddr % 2 == 0
  {
  }

  /** A body that is aligned on both sides goes straight to the hardware. */
  lemma BodyTransit(p: Progress, m: Memory, e: Emu, rx: nat, temp: seq<Byte>)
    requires AtStep(p, m, e, rx) && e.size > 0 && !NeedsBounce(e) && |temp| == BOUNCE_SIZE
    ensures var n := e.size - e.size % 4;
      var o := Transfer(e.channel, User(e.addr), e.hyperAddr, n);
      InTransit(p.(issued := p.issued + n), m, Advance(e, n), rx, temp, o)
  {
    hide Touched, OnLine, StepSize, Arrived, Contiguous, LineAt;
    var n := e.size - e.size % 4;
    BodyAligned(e);
    IssueMore(p, m, n);
    hide NeedsBounce;
    LineContiguous(p, m, e, rx, p.issued, n);
    AdvanceKeepsPlace(p, e, rx, n);
  }

  /** The emulation fields at the start of the next line of a 2D copy. */
  function NextLine(e: Emu): Emu
    requires e.size2d > e.length && e.hyperAddr - e.length + e.stride >= 0
  {
    var left := e.size2d - e.length;
    e.(size2d := left, hyperAddr := e.hyperAddr - e.length + e.stride,
       size := if left > e.length then e.length else left)
  }

  ghost function ProgressNextLine(p: Progress): Progress
  {
    var start := p.lineEnd;
    var left := p.req.size - start;
    p.(lineStart := start, hyperLine := p.hyperLine + p.req.stride,
       lineEnd := if left > p.req.length then start + p.req.length else p.req.size)
  }

  lemma NextLineAt(r: Request, start: nat)
    requires r.is2d && r.length > 0 && LineAt(r, start)
    ensures LineAt(r, start + r.length)
  {
    Arithmetic.DivModUnique(start + r.length, r.length, start / r.length + 1, start % r.length);
  }

  /** The accesses for the next line are inside the HyperRAM. */
  lemma NextLineFits(r: Request, m: Memory, start: nat, e: Emu)
    requires Fits(m, r) && !Direct(r) && r.is2d && r.length > 0 && start < r.size && LineAt(r, start)
    requires e.hyperAddr == HyperOffset(r, start) && e.addr == r.addr + start && e.size == LineLength(r, start)
    ensures Touched(e) <= |m.hyper|
  {
    hide Touched, Overreach, HyperOffset, LineLength;
    TouchedIs(e);
    assert LineReach(r, start) == Touched(e);
  }

  lemma NextOffset(p: Progress, m: Memory, e: Emu, rx: nat)
    requires AtStep(p, m, e, rx) && e.size == 0 && e.size2d > e.length
    ensures p.req.is2d && p.lineEnd == p.lineStart + p.req.length < p.req.size && p.req.length > 0
    ensures OnLine(p.req, p.lineEnd, p.hyperLine + p.req.stride)
    ensures HyperOffset(p.req, p.lineEnd) == p.hyperLine + p.req.stride >= 0
  {
    hide Touched;
    NextLineOffsets(p.req, p.lineStart, p.hyperLine);
  }

  /** At the end of a line that is not the last one, the next line follows. */
  lemma LineDone(p: Progress, m: Memory, e: Emu, rx: nat)
    requires AtStep(p, m, e, rx) && e.size == 0 && e.size2d > e.length
    ensures e.hyperAddr - e.length + e.stride >= 0
    ensures AtStep(ProgressNextLine(p), m, NextLine(e), rx)
    ensures e.length > 0
  {
    hide Touched, HyperOffset, OnLine, LineAt, CopyBytes, InBounds;
    NextOffset(p, m, e, rx);
    NextLineAt(p.req, p.lineStart);
    NextLineFits(p.req, p.base, p.lineEnd, NextLine(e));
  }

  /** Anything else with nothing left on the line is the end of the request. */
  lemma RequestDone(p: Progress, m: Memory, e: Emu, rx: nat)
    requires AtStep(p, m, e, rx) && e.size == 0 && e.size2d <= e.length
    ensures p.done == p.req.size && m == Apply(p.base, p.req)
  {
  }

  /** The emulation fields and the progress of a request that starts now. */
  function StartEmu(r: Request, rx: nat): Emu {
    var line := if r.is2d && r.size > r.length then r.length else r.size;
    Emu(rx + (if r.write then 1 else 0), r.hyperAddr, r.addr, line,
        if r.is2d then r.size else 0, r.length, r.stride, false)
  }

  function StartProgress(r: Request, m: Memory): Progress {
    Progress(r, m, 0, 0, 0, if r.is2d && r.size > r.length then r.length else r.size, r.hyperAddr)
  }

  lemma StartAtStep(r: Request, m: Memory, e: Emu, rx: nat)
    requires Fits(m, r) && !Direct(r) && rx % 2 == 0
    requires e == StartEmu(r, rx) || (!r.is2d && e == StartEmu(r, rx).(length := e.length, stride := e.stride))
    ensures AtStep(StartProgress(r, m), m, e, rx)
  {
    assert Overreach(e.hyperAddr, e.addr, 0) == 0;
    hide Touched, Overreach;
    TouchedIs(e);
    if r.size > 0 {
      assert LineAt(r, 0) && HyperOffset(r, 0) == r.hyperAddr;
      assert LineReach(r, 0) == Touched(e);
    }
  }

  lemma StartTransit(r: Request, m: Memory, rx: nat)
    requires Fits(m, r) && Direct(r) && rx % 2 == 0
    ensures DirectTransit(StartProgress(r, m).(issued := r.size), m,
                          Transfer(rx + (if r.write then 1 else 0), User(r.addr), r.hyperAddr, r.size))
  {
    if r.size > 0 {
      assert HyperOffset(r, r.size - 1) == r.hyperAddr + r.size - 1;
    }
  }

  // ----- arrival of what was on its way

  /** All of it arrives: the copy is between two steps again. */
  lemma WholeArrives(p: Progress, m: Memory, e: Emu, rx: nat, temp: seq<Byte>, o: Transfer)
    requires InTransit(p, m, e, rx, temp, o)
    ensures AtStep(p.(done := p.issued), MemoryAfter(m, temp, o), e, rx)
    ensures e.doMemcpy ==> p.done == p.issued && NeedsBounce(e) && Loaded(e, MemoryAfter(m, temp, o), TempAfter(m, temp, o))
    ensures !e.doMemcpy ==> p.done < p.issued
  {
    if e.doMemcpy {
      assert MemoryAfter(m, temp, o) == m;
    } else if UserRun(p, o) {
      UserRunArrives(p, o, m, temp);
    } else {
      BounceStoreArrives(p, o, m, temp);
    }
  }

  /** The first burst of a long body arrives; the rest is still on its way. */
  lemma BurstOfBodyArrives(p: Progress, m: Memory, e: Emu, rx: nat, temp: seq<Byte>, o: Transfer)
    requires InTransit(p, m, e, rx, temp, o) && o.size > MAX_BURST && o.local.User?
    ensures InTransit(p.(done := p.done + MAX_BURST), MemoryAfter(m, temp, o.(size := MAX_BURST)), e, rx,
                      TempAfter(m, temp, o.(size := MAX_BURST)), Rest(o))
  {
    hide Arrived, UserRun, Aligned, MemoryAfter;
    BurstArrives(p, o, m, temp);
    RestAligned(o);
  }

  lemma BurstOfDirectArrives(p: Progress, m: Memory, temp: seq<Byte>, o: Transfer)
    requires DirectTransit(p, m, o) && o.size > MAX_BURST && |temp| == BOUNCE_SIZE
    ensures InRange(m, o)
    ensures DirectTransit(p.(done := p.done + MAX_BURST), MemoryAfter(m, temp, o.(size := MAX_BURST)), Rest(o))
  {
    hide Arrived, UserRun, Aligned, MemoryAfter;
    BurstArrives(p, o, m, temp);
    RestAligned(o);
  }

  // ----- somebody else writes L2

  /** The same progress, counted from memory with the write in it. */
  ghost function Rebased(p: Progress, a: nat, bytes: seq<Byte>): Progress
    requires a + |bytes| <= |p.base.l2|
  {
    p.(base := Overwrite(p.base, a, bytes))
  }

  lemma WriteKeepsArrived(p: Progress, m: Memory, a: nat, bytes: seq<Byte>)
    requires Arrived(p, m) && a + |bytes| <= |m.l2| && Apart(p.req, a, |bytes|)
    ensures a + |bytes| <= |p.base.l2| && Arrived(Rebased(p, a, bytes), Overwrite(m, a, bytes))
  {
    CopyCommutes(p.base, p.req, 0, p.done, a, bytes);
  }

  /** A write to bytes that the running request does not name leaves whatever is on
      its way on its way. */
  lemma WriteKeepsTransit(p: Progress, m: Memory, e: Emu, rx: nat, temp: seq<Byte>, o: Transfer, a: nat, bytes: seq<Byte>)
    requires InTransit(p, m, e, rx, temp, o) && a + |bytes| <= |m.l2| && Apart(p.req, a, |bytes|)
    ensures a + |bytes| <= |p.base.l2| && InTransit(Rebased(p, a, bytes), Overwrite(m, a, bytes), e, rx, temp, o)
  {
    hide Arrived, OnLine, Contiguous;
    WriteKeepsArrived(p, m, a, bytes);
    if o.local.Bounce? && !e.doMemcpy {
      WriteKeepsStore(p, o, m, temp, a, bytes);
    }
  }

  lemma WriteElsewhere(m: Memory, lo: nat, hi: nat, a: nat, bytes: seq<Byte>)
    requires lo <= hi <= |m.l2| && a + |bytes| <= |m.l2| && (a + |bytes| <= lo || hi <= a)
    ensures Overwrite(m, a, bytes).l2[lo..hi] == m.l2[lo..hi]
  {
  }

  lemma WriteKeepsStore(p: Progress, o: Transfer, m: Memory, temp: seq<Byte>, a: nat, bytes: seq<Byte>)
    requires BounceStore(p, o, m, temp) && a + |bytes| <= |m.l2| && Apart(p.req, a, |bytes|)
    requires a + |bytes| <= |p.base.l2|
    ensures BounceStore(Rebased(p, a, bytes), o, Overwrite(m, a, bytes), temp)
  {
    hide Contiguous, Overlaid, Overwrite, Splice;
    var lo: nat :| Overlaid(p, o, m, temp, lo);
    WriteKeepsOverlaid(p, o, m, temp, lo, a, bytes);
  }

  lemma WriteKeepsOverlaid(p: Progress, o: Transfer, m: Memory, temp: seq<Byte>, lo: nat, a: nat, bytes: seq<Byte>)
    requires p.done < p.issued <= p.req.size && p.req.addr + p.issued <= |m.l2| && (p.req.is2d ==> p.req.length > 0)
    requires o.size <= BOUNCE_SIZE == |temp| && o.hyperAddr + o.size <= |m.hyper|
    requires Overlaid(p, o, m, temp, lo) && a + |bytes| <= |m.l2| && Apart(p.req, a, |bytes|)
    requires a + |bytes| <= |p.base.l2|
    ensures Overlaid(Rebased(p, a, bytes), o, Overwrite(m, a, bytes), temp, lo)
  {
    hide Contiguous, Splice;
    WriteElsewhere(m, p.req.addr + p.done, p.req.addr + p.issued, a, bytes);
  }

  lemma WriteKeepsDirect(p: Progress, m: Memory, o: Transfer, a: nat, bytes: seq<Byte>)
    requires DirectTransit(p, m, o) && a + |bytes| <= |m.l2| && Apart(p.req, a, |bytes|)
    ensures a + |bytes| <= |p.base.l2| && DirectTransit(Rebased(p, a, bytes), Overwrite(m, a, bytes), o)
  {
    hide Arrived, Contiguous;
    WriteKeepsArrived(p, m, a, bytes);
  }

  // ----- 2D copies with empty lines

  const ADDRESSES: int := 0x1_0000_0000

  /** What the end of a line does to the emulation fields, for any stride, as 32-bit
      arithmetic does it. */
  function LineEnd(e: Emu): Emu {
    var left := if e.size2d > e.length then e.size2d - e.length else 0;
    if left == 0 then e.(size2d := 0)
    else e.(size2d := left, hyperAddr := (e.hyperAddr - e.length + e.stride) % ADDRESSES,
            size := if left > e.length then e.length else left)
  }

  lemma LineEndIsNext(e: Emu)
    requires e.size2d > e.length && 0 <= e.hyperAddr - e.length + e.stride < ADDRESSES
    ensures LineEnd(e) == NextLine(e)
  {
  }

  /** `n` times the end of a line. */
  function LineEnds(e: Emu, n: nat): Emu {
    if n == 0 then e else LineEnd(LineEnds(e, n - 1))
  }

  /** A 2D request whose lines are empty makes no progress however often its line
      ends, whatever the stride: neither a prologue nor a body is left to start a
      transfer, what is left of the request stays the same, and nothing was moved. */
  lemma {:induction false} EmptyLinesNeverEnd(r: Request, rx: nat, n: nat)
    requires r.is2d && r.length == 0 && r.size > 0
    ensures var e := LineEnds(StartEmu(r, rx), n);
            && Prologue(e) == 0 && e.size == 0 && e.size2d == r.size > e.length && e.addr == r.addr && !e.doMemcpy
  {
    if n > 0 {
      EmptyLinesNeverEnd(r, rx, n - 1);
    }
  }
}
