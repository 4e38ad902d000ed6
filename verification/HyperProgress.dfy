/** Value-level vocabulary of the HyperRAM transfer engine: hardware transfers,
    the control records the driver keeps, and what it means for them to be at a
    given byte of a request. */
module HyperProgress {
  import Arithmetic
  import opened ByteCopy
  import opened HyperSpec

  const BOUNCE_SIZE: nat := 128
  const MAX_BURST: nat := 512

  /** The L2 side of a transfer: a user address or a place in the bounce buffer. */
  datatype Local = User(addr: nat) | Bounce(at: nat) {
    function Plus(n: nat): Local {
      match this
      case User(a) => User(a + n)
      case Bounce(a) => Bounce(a + n)
    }
  }

  datatype Transfer = Transfer(channel: nat, local: Local, hyperAddr: nat, size: nat)

  /** The transmit channel is the odd one: it moves L2 to HyperRAM. */
  predicate IsWrite(channel: nat) {
    channel % 2 == 1
  }

  /** `__rt_hyper_pending_*`: what is left of a copy longer than one burst. */
  datatype Burst = Burst(base: nat, hyperAddr: nat, addr: Local, repeat: nat, repeatSize: nat)

  /** `__rt_hyper_pending_emu_*`: the emulated copy. */
  datatype Emu = Emu(
    channel: nat, hyperAddr: nat, addr: nat, size: nat,
    size2d: nat, length: nat, stride: int, doMemcpy: bool)

  /** A task put on hold: the words a caller stores in it. `data0` packs the
      channel and the 2D flag. */
  datatype QueuedTask = QueuedTask(
    id: nat, data0: nat, addr: nat, hyperAddr: nat, size: nat, stride: int, length: nat)

  // ----- the hardware contract

  /** Everything stays inside the memories. */
  predicate InRange(m: Memory, t: Transfer) {
    && t.hyperAddr + t.size <= |m.hyper|
    && match t.local
       case User(a) => a + t.size <= |m.l2|
       case Bounce(a) => a + t.size <= BOUNCE_SIZE
  }

  /** What the controller accepts: an even HyperRAM address, an L2 address
      multiple of 4, a size multiple of 4 (of 2 for a write). The bounce buffer
      is itself 4-aligned. */
  predicate Aligned(t: Transfer) {
    && t.hyperAddr % 2 == 0
    && (t.size % 4 == 0 || (IsWrite(t.channel) && t.size % 2 == 0))
    && match t.local
       case User(a) => a % 4 == 0
       case Bounce(a) => a % 4 == 0
  }

  /** Memory after the hardware has moved a transfer's bytes. */
  ghost function MemoryAfter(m: Memory, temp: seq<Byte>, t: Transfer): (m': Memory)
    requires InRange(m, t) && |temp| == BOUNCE_SIZE
    ensures |m'.l2| == |m.l2| && |m'.hyper| == |m.hyper|
  {
    match t.local
    case User(a) =>
      if IsWrite(t.channel) then m.(hyper := Splice(m.hyper, t.hyperAddr, m.l2[a..a + t.size]))
      else m.(l2 := Splice(m.l2, a, m.hyper[t.hyperAddr..t.hyperAddr + t.size]))
    case Bounce(a) =>
      if IsWrite(t.channel) then m.(hyper := Splice(m.hyper, t.hyperAddr, temp[a..a + t.size]))
      else m
  }

  /** The bounce buffer after the transfer. */
  ghost function TempAfter(m: Memory, temp: seq<Byte>, t: Transfer): (temp': seq<Byte>)
    requires InRange(m, t) && |temp| == BOUNCE_SIZE
    ensures |temp'| == BOUNCE_SIZE
  {
    if t.local.Bounce? && !IsWrite(t.channel)
    then Splice(temp, t.local.at, m.hyper[t.hyperAddr..t.hyperAddr + t.size])
    else temp
  }

  // ----- bursts

  /** The in-flight transfer and the repeat fields together stand for one copy. */
  predicate BurstOk(t: Transfer, b: Burst) {
    if b.repeat == 0 then t.size <= MAX_BURST
    else b.repeat == MAX_BURST < b.repeatSize && t == Transfer(b.base, b.addr, b.hyperAddr, MAX_BURST)
  }

  function Outstanding(t: Transfer, b: Burst): Transfer {
    if b.repeat == 0 then t else Transfer(b.base, b.addr, b.hyperAddr, b.repeatSize)
  }

  /** The bursts that an aligned copy is cut into. */
  function Bursts(t: Transfer): (ts: seq<Transfer>)
    decreases t.size
  {
    if t.size <= MAX_BURST then [t]
    else [t.(size := MAX_BURST)] + Bursts(Rest(t))
  }

  function Rest(t: Transfer): Transfer
    requires t.size > MAX_BURST
  {
    Transfer(t.channel, t.local.Plus(MAX_BURST), t.hyperAddr + MAX_BURST, t.size - MAX_BURST)
  }

  /** What is left of a long copy behind the burst in flight. */
  function AfterBurst(b: Burst): Transfer {
    Transfer(b.base, b.addr.Plus(MAX_BURST), b.hyperAddr + MAX_BURST,
             if b.repeatSize > MAX_BURST then b.repeatSize - MAX_BURST else 0)
  }

  /** The burst in flight is the first of those that the copy is cut into. */
  lemma FirstBurst(t: Transfer, b: Burst)
    requires BurstOk(t, b)
    ensures Bursts(Outstanding(t, b)) == [t] + if b.repeat == 0 then [] else Bursts(AfterBurst(b))
  {
  }

  function TotalSize(ts: seq<Transfer>): nat {
    if ts == [] then 0 else ts[0].size + TotalSize(ts[1..])
  }

  predicate Follows(a: Transfer, b: Transfer) {
    b.channel == a.channel && b.hyperAddr == a.hyperAddr + a.size && b.local == a.local.Plus(a.size)
  }

  /** The bursts of an aligned copy tile its range: the first starts where the
      copy does, each other one where the one before it ends, on both sides,
      they add up to the whole, all but the last have 512 bytes, and each is something
      the controller accepts. */
  lemma {:induction false} BurstsTile(t: Transfer)
    requires Aligned(t)
    ensures Bursts(t)[0] == t.(size := Bursts(t)[0].size)
    ensures TotalSize(Bursts(t)) == t.size
    ensures forall b <- Bursts(t) :: Aligned(b) && b.size <= 512 && (t.size > 0 ==> b.size > 0)
    ensures forall i :: 0 <= i < |Bursts(t)| - 1 ==> Bursts(t)[i].size == 512
    ensures forall i {:trigger Bursts(t)[i]} :: 0 < i < |Bursts(t)| ==> Follows(Bursts(t)[i - 1], Bursts(t)[i])
    decreases t.size
  {
    if t.size > MAX_BURST {
      BurstsTile(Rest(t));
      assert Bursts(t)[1..] == Bursts(Rest(t));
    } else {
      assert Bursts(t)[1..] == [];
    }
  }

  // ----- how far a request has got

  /** `base` is memory when the request started. Bytes before `done` have
      arrived, bytes before `issued` have been handed to the hardware. The
      current line is `[lineStart, lineEnd)` and starts at `hyperLine`. */
  datatype Progress = Progress(
    req: Request, base: Memory, done: nat, issued: nat,
    lineStart: nat, lineEnd: nat, hyperLine: int)

  ghost predicate OnLine(r: Request, start: nat, h: int)
  {
    r.is2d && r.length > 0 ==>
      forall j: nat {:trigger LineOffset(r.length, r.stride, j)} :: start <= j < start + r.length ==>
        r.hyperAddr + LineOffset(r.length, r.stride, j) == h + j - start
  }

  lemma NextLineOffsets(r: Request, start: nat, h: int)
    requires OnLine(r, start, h)
    ensures OnLine(r, start + r.length, h + r.stride)
  {
    if r.is2d && r.length > 0 {
      forall j: nat {:trigger LineOffset(r.length, r.stride, j)} | start + r.length <= j < start + 2 * r.length
        ensures r.hyperAddr + LineOffset(r.length, r.stride, j) == h + r.stride + j - (start + r.length)
      {
        assert LineOffset(r.length, r.stride, j) == r.stride + LineOffset(r.length, r.stride, j - r.length);
      }
    }
  }

  /** Exactly the bytes before `done` have been copied. */
  ghost predicate Arrived(p: Progress, m: Memory) {
    && Fits(p.base, p.req)
    && p.done <= p.issued <= p.req.size
    && m == CopyBytes(p.base, p.req, 0, p.done)
  }

  /** The emulation fields describe the rest of the current line. */
  ghost predicate EmuAt(p: Progress, e: Emu, rx: nat) {
    && p.lineStart <= p.issued <= p.lineEnd <= p.req.size
    && e.channel == rx + (if p.req.write then 1 else 0)
    && e.addr == p.req.addr + p.issued
    && e.size == p.lineEnd - p.issued
    && e.hyperAddr == p.hyperLine + p.issued - p.lineStart
    && Touched(e) <= |p.base.hyper| && LineAt(p.req, p.lineStart)
    && (if p.req.is2d then
          && e.size2d == p.req.size - p.lineStart
          && e.length == p.req.length && e.stride == p.req.stride
          && p.lineEnd == (if e.size2d > e.length then p.lineStart + e.length else p.req.size)
          && OnLine(p.req, p.lineStart, p.hyperLine)
        else
          e.size2d == 0 && p.lineStart == 0 && p.lineEnd == p.req.size && p.hyperLine == p.req.hyperAddr)
  }

  /** On its line a request's bytes lie side by side in the HyperRAM. */
  lemma LineContiguous(p: Progress, m: Memory, e: Emu, rx: nat, k: nat, n: nat)
    requires Arrived(p, m) && EmuAt(p, e, rx)
    requires p.lineStart <= k && k + n <= p.lineEnd && n > 0
    ensures 0 <= p.hyperLine + k - p.lineStart
    ensures p.hyperLine + k - p.lineStart + n <= |m.hyper| && p.req.addr + k + n <= |m.l2|
    ensures Contiguous(p.req, k, n, p.hyperLine + k - p.lineStart)
  {
    assert HyperOffset(p.req, k) == p.hyperLine + k - p.lineStart;
    var l := k + n - 1;
    assert HyperOffset(p.req, l) == p.hyperLine + l - p.lineStart;
  }

  /** The prefix copied so far, extended by one block. */
  lemma ExtendByBlock(p: Progress, m: Memory, n: nat, h: nat)
    requires Arrived(p, m) && p.done + n <= p.req.size
    requires h + n <= |m.hyper| && Contiguous(p.req, p.done, n, h)
    ensures CopyBlock(m, p.req, p.done, n, h) == CopyBytes(p.base, p.req, 0, p.done + n)
  {
    CopyBytesSplit(p.base, p.req, 0, p.done, p.done + n);
    CopyRun(m, p.req, p.done, n, h);
  }

  // ----- the arithmetic of one emulation step

  function RoundUp4(a: nat): nat {
    (a + 3) / 4 * 4
  }

  /** Bytes before the next 4-aligned L2 address, or all of a short rest. */
  function Prologue(e: Emu): nat {
    if e.size < 4 then e.size else RoundUp4(e.addr) - e.addr
  }

  /** How many bytes the next step loads into the bounce buffer. */
  function LoadSize(e: Emu): nat {
    if Prologue(e) != 0 || IsWrite(e.channel) then 4
    else (if e.size - e.size % 4 > BOUNCE_SIZE - 4 then BOUNCE_SIZE - 4 else e.size - e.size % 4) + 4
  }

  function LoadFrom(e: Emu): nat {
    e.hyperAddr - e.hyperAddr % 2
  }

  /** The next step of a copy has to go through the bounce buffer. */
  predicate NeedsBounce(e: Emu) {
    e.size > 0 && (Prologue(e) != 0 || e.hyperAddr % 2 == 1)
  }

  /** How many bytes the next step copies: up to the next 4-aligned L2 address; an
      aligned body; or as much of an odd one as goes through the bounce buffer, on a
      write 1 byte less. */
  function StepSize(e: Emu): (n: nat)
    ensures n <= e.size && (e.size > 0 ==> n > 0)
  {
    var body := e.size - e.size % 4;
    if Prologue(e) != 0 || e.size == 0 then Prologue(e)
    else if e.hyperAddr % 2 == 0 then body
    else (if body > BOUNCE_SIZE - 4 then BOUNCE_SIZE - 4 else body) - if IsWrite(e.channel) then 1 else 0
  }

  function Advance(e: Emu, n: nat): Emu
    requires n <= e.size
  {
    e.(doMemcpy := false, hyperAddr := e.hyperAddr + n, addr := e.addr + n, size := e.size - n)
  }

  /** Where the HyperRAM accesses of the next step end. */
  function StepEnd(e: Emu): nat {
    if NeedsBounce(e) then LoadFrom(e) + LoadSize(e) else e.hyperAddr + StepSize(e)
  }

  /** Where those of all steps to the end of the line end. */
  function Touched(e: Emu): nat
    decreases e.size
  {
    if e.size == 0 then e.hyperAddr
    else
      var rest := Touched(Advance(e, StepSize(e)));
      if StepEnd(e) > rest then StepEnd(e) else rest
  }

  lemma TouchedStep(e: Emu)
    ensures e.size > 0 ==> StepEnd(e) <= Touched(e)
    ensures Touched(Advance(e, StepSize(e))) <= Touched(e)
  {
    hide StepSize, StepEnd;
    if e.size == 0 {
      assert StepSize(e) == 0 && Advance(e, 0).size == 0;
    }
  }

  lemma TouchedLoading(e: Emu, loading: bool)
    ensures Touched(e.(doMemcpy := loading)) == Touched(e)
  {
    var f := e.(doMemcpy := loading);
    assert e.size > 0 ==> StepSize(f) == StepSize(e) && StepEnd(f) == StepEnd(e);
    assert e.size > 0 ==> Advance(f, StepSize(f)) == Advance(e, StepSize(e));
    hide StepSize, StepEnd;
  }

  /** Exactly that many bytes behind the line are accessed. */
  lemma {:induction false} TouchedIs(e: Emu)
    ensures Touched(e) == e.hyperAddr + e.size + Overreach(e.hyperAddr, e.addr, e.size)
    decreases e.size
  {
    if e.size > 0 {
      TouchedIs(Advance(e, StepSize(e)));
      StepReaches(e);
    }
  }

  lemma StepReaches(e: Emu)
    requires e.size > 0
    ensures var n := StepSize(e);
      var rest, all := Overreach(e.hyperAddr + n, e.addr + n, e.size - n), e.size + Overreach(e.hyperAddr, e.addr, e.size);
      e.size + rest <= all && StepEnd(e) <= e.hyperAddr + all
      && (e.size + rest == all || StepEnd(e) == e.hyperAddr + all)
  {
    hide Overreach;
    if e.size < 4 {
      LastReaches(e);
    } else if e.addr % 4 != 0 {
      SkipIs(e.addr);
      ReachSkip(e.hyperAddr, e.addr, e.size);
    } else {
      AlignedReaches(e);
    }
  }

  lemma LastReaches(e: Emu)
    requires 0 < e.size < 4
    ensures StepSize(e) == e.size && Overreach(e.hyperAddr + e.size, e.addr + e.size, 0) == 0
    ensures StepEnd(e) == e.hyperAddr + e.size + Overreach(e.hyperAddr, e.addr, e.size) >= e.hyperAddr + e.size
  {
  }

  lemma AlignedReaches(e: Emu)
    requires e.size >= 4 && e.addr % 4 == 0
    ensures var n := StepSize(e);
      var rest, all := Overreach(e.hyperAddr + n, e.addr + n, e.size - n), e.size + Overreach(e.hyperAddr, e.addr, e.size);
      e.size + rest <= all && StepEnd(e) <= e.hyperAddr + all
      && (e.size + rest == all || StepEnd(e) == e.hyperAddr + all)
  {
    var h, a, s, n := e.hyperAddr, e.addr, e.size, StepSize(e);
    SkipIs(a);
    assert Prologue(e) == 0;
    assert Overreach(h + s, a + s, 0) == 0;
    hide Overreach, Prologue;
    if h % 2 == 0 {
      ReachBody(h, a, s, n);
    } else if IsWrite(e.channel) {
      ReachOddWrite(h, a, s, n);
    } else {
      ReachOddRead(h, a, s, n);
    }
  }

  lemma SkipIs(a: nat)
    ensures RoundUp4(a) - a == (4 - a % 4) % 4
  {
  }

  lemma ReachAligned(h: nat, a: nat, s: nat)
    requires a % 4 == 0 && s > 0
    ensures Overreach(h, a, s) == TailReach(h % 2, s % 4) >= 0
  {
  }

  lemma ReachSkip(h: nat, a: nat, s: nat)
    requires s >= 4 && a % 4 != 0
    ensures var p := 4 - a % 4; Overreach(h + p, a + p, s - p) == Overreach(h, a, s) >= 0
  {
    var p := 4 - a % 4;
    ReachUnaligned(h, a, s, p);
    hide Overreach, TailReach;
    Arithmetic.SameRest4(a + p, 0, a / 4 + 1);
    ReachAligned(h + p, a + p, s - p);
  }

  lemma ReachUnaligned(h: nat, a: nat, s: nat, p: nat)
    requires s >= 4 && a % 4 != 0 && p == 4 - a % 4
    ensures Overreach(h, a, s) == TailReach((h + p) % 2, (s - p) % 4)
  {
    assert p % 4 == p;
  }

  lemma ReachBody(h: nat, a: nat, s: nat, n: nat)
    requires s >= 4 && a % 4 == 0 && h % 2 == 0 && n == s - s % 4
    ensures Overreach(h + n, a + n, s - n) == Overreach(h, a, s) >= 0
  {
    ReachAligned(h, a, s);
    Arithmetic.Shift4(h, s / 4);
    Arithmetic.Shift4(a, s / 4);
    assert n == 4 * (s / 4);
    hide Overreach;
    if s % 4 != 0 {
      ReachAligned(h + n, a + n, s - n);
    } else {
      ReachNone(h + n, a + n);
    }
  }

  lemma ReachNone(h: nat, a: nat)
    ensures Overreach(h, a, 0) == 0
  {
  }

  lemma ReachOddRead(h: nat, a: nat, s: nat, n: nat)
    requires s >= 4 && a % 4 == 0 && h % 2 == 1 && n % 4 == 0 && 0 < n <= s
    ensures if n == s then Overreach(h, a, s) == 3 else Overreach(h + n, a + n, s - n) == Overreach(h, a, s) >= 0
  {
    hide Overreach;
    ReachAligned(h, a, s);
    if n < s {
      assert n == 4 * (n / 4);
      Arithmetic.Shift4(h, n / 4);
      Arithmetic.Shift4(a, n / 4);
      Arithmetic.Shift4(s - n, n / 4);
      ReachAligned(h + n, a + n, s - n);
    }
  }

  lemma ReachOddWrite(h: nat, a: nat, s: nat, n: nat)
    requires s >= 4 && a % 4 == 0 && h % 2 == 1 && n % 4 == 3 && n < s
    ensures Overreach(h + n, a + n, s - n) == Overreach(h, a, s) >= 0
  {
    hide Overreach, TailReach;
    ReachAligned(h, a, s);
    OddWriteRests(h, a, s, n, n / 4);
    if s - n < 4 {
      ReachLast(h + n, a + n, s - n);
      LastTail(s - n, s % 4);
    } else {
      ReachThree(h + n, a + n, s - n);
    }
  }

  lemma OddWriteRests(h: nat, a: nat, s: nat, n: nat, q: nat)
    requires a % 4 == 0 && h % 2 == 1 && n == 4 * q + 3 && n < s
    ensures (h + n) % 2 == 0 && (h + n + 1) % 2 == 1 && (a + n) % 4 == 3 && (s - n - 1) % 4 == s % 4
  {
    Arithmetic.SameRest2(h + n + 1, h, 2 * q + 2);
    Arithmetic.SameRest4(a + n, a + 3, q);
    Arithmetic.SameRest4(s, s - n - 1, q + 1);
  }

  lemma LastTail(s: nat, rest: int)
    requires 0 < s < 4 && rest == (s - 1) % 4
    ensures TailReach(1, rest) == 4 - s
  {
  }

  lemma ReachThree(h: nat, a: nat, s: nat)
    requires a % 4 == 3 && s >= 4
    ensures Overreach(h, a, s) == TailReach((h + 1) % 2, (s - 1) % 4)
  {
  }

  lemma ReachLast(h: nat, a: nat, s: nat)
    requires 0 < s < 4 && h % 2 == 0
    ensures Overreach(h, a, s) == 4 - s
  {
  }

  ghost predicate Loaded(e: Emu, m: Memory, temp: seq<Byte>) {
    && |temp| == BOUNCE_SIZE
    && LoadFrom(e) + LoadSize(e) <= |m.hyper| && LoadSize(e) <= BOUNCE_SIZE
    && temp[..LoadSize(e)] == m.hyper[LoadFrom(e)..LoadFrom(e) + LoadSize(e)]
  }

  // ----- what may be in flight

  /** User bytes `[done, issued)` on their way. */
  ghost predicate UserRun(p: Progress, o: Transfer) {
    && p.done <= p.issued <= p.req.size
    && (p.req.is2d ==> p.req.size == 0 || p.req.length > 0)
    && o.local == User(p.req.addr + p.done) && o.size == p.issued - p.done
    && IsWrite(o.channel) == p.req.write
    && Contiguous(p.req, p.done, o.size, o.hyperAddr)
  }

  /** A block on its way back from the bounce buffer: user bytes
      `[done, issued)` laid over what the HyperRAM already holds. */
  ghost predicate BounceStore(p: Progress, o: Transfer, m: Memory, temp: seq<Byte>) {
    && p.done < p.issued <= p.req.size && p.req.addr + p.issued <= |m.l2|
    && (p.req.is2d ==> p.req.length > 0)
    && p.req.write && IsWrite(o.channel) && o.local == Bounce(0)
    && o.size <= BOUNCE_SIZE == |temp| && o.hyperAddr + o.size <= |m.hyper|
    && exists lo: nat :: Overlaid(p, o, m, temp, lo)
  }

  ghost predicate Overlaid(p: Progress, o: Transfer, m: Memory, temp: seq<Byte>, lo: nat)
    requires p.done < p.issued <= p.req.size && p.req.addr + p.issued <= |m.l2|
    requires p.req.is2d ==> p.req.length > 0
    requires o.size <= BOUNCE_SIZE == |temp| && o.hyperAddr + o.size <= |m.hyper|
  {
    && lo + (p.issued - p.done) <= o.size
    && Contiguous(p.req, p.done, p.issued - p.done, o.hyperAddr + lo)
    && temp[..o.size] == Splice(m.hyper[o.hyperAddr..o.hyperAddr + o.size], lo,
                                m.l2[p.req.addr + p.done..p.req.addr + p.issued])
  }

  /** A block on its way into the bounce buffer, for the next step to use. */
  ghost predicate BounceLoad(p: Progress, e: Emu, o: Transfer) {
    && p.done == p.issued < p.req.size
    && !IsWrite(o.channel)
    && o.local == Bounce(0) && o.hyperAddr == LoadFrom(e) && o.size == LoadSize(e)
  }

  /** A request that needs no emulation, whole, on its way. */
  ghost predicate DirectTransit(p: Progress, m: Memory, o: Transfer) {
    && Arrived(p, m) && p.issued == p.req.size && UserRun(p, o)
    && InRange(m, o) && Aligned(o) && (o.size > 0 || p.req.size == 0)
  }

  /** When a user run arrives, exactly its bytes have been copied. */
  lemma UserRunArrives(p: Progress, o: Transfer, m: Memory, temp: seq<Byte>)
    requires Arrived(p, m) && UserRun(p, o) && InRange(m, o) && |temp| == BOUNCE_SIZE
    ensures Arrived(p.(done := p.issued), MemoryAfter(m, temp, o))
  {
    ExtendByBlock(p, m, o.size, o.hyperAddr);
  }

  /** When a bounce block arrives, only the user bytes in it change anything. */
  lemma BounceStoreArrives(p: Progress, o: Transfer, m: Memory, temp: seq<Byte>)
    requires Arrived(p, m) && BounceStore(p, o, m, temp) && InRange(m, o)
    ensures Arrived(p.(done := p.issued), MemoryAfter(m, temp, o))
  {
    hide MemoryAfter, HyperOffset, Fits;
    var lo: nat :| Overlaid(p, o, m, temp, lo);
    BounceStoreEffect(p, o, m, temp, lo);
    ExtendByBlock(p, m, p.issued - p.done, o.hyperAddr + lo);
  }

  lemma BounceStoreEffect(p: Progress, o: Transfer, m: Memory, temp: seq<Byte>, lo: nat)
    requires p.done < p.issued <= p.req.size && p.req.addr + p.issued <= |m.l2|
    requires p.req.is2d ==> p.req.length > 0
    requires p.req.write && IsWrite(o.channel) && o.local == Bounce(0)
    requires o.size <= BOUNCE_SIZE == |temp| && o.hyperAddr + o.size <= |m.hyper|
    requires Overlaid(p, o, m, temp, lo)
    ensures MemoryAfter(m, temp, o) == CopyBlock(m, p.req, p.done, p.issued - p.done, o.hyperAddr + lo)
  {
    hide Contiguous, HyperOffset, Splice;
    var block, mid := temp[..o.size], m.l2[p.req.addr + p.done..p.req.addr + p.issued];
    assert temp[0..o.size] == block;
    assert Splice(m.hyper, o.hyperAddr, block) == Splice(m.hyper, o.hyperAddr + lo, mid) by {
      SpliceOverlay(m.hyper, o.hyperAddr, block, lo, mid);
    }
  }

  /** The first burst of a user run arrives; the rest is still a user run. */
  lemma BurstArrives(p: Progress, o: Transfer, m: Memory, temp: seq<Byte>)
    requires Arrived(p, m) && UserRun(p, o) && InRange(m, o) && |temp| == BOUNCE_SIZE
    requires o.size > MAX_BURST
    ensures Arrived(p.(done := p.done + MAX_BURST), MemoryAfter(m, temp, o.(size := MAX_BURST)))
    ensures UserRun(p.(done := p.done + MAX_BURST), Rest(o)) && InRange(m, Rest(o))
  {
    ExtendByBlock(p, m, MAX_BURST, o.hyperAddr);
  }

  lemma RestAligned(o: Transfer)
    requires Aligned(o) && o.size > MAX_BURST
    ensures Aligned(Rest(o))
  {
    Arithmetic.Shift4(o.hyperAddr, 128);
    Arithmetic.Shift4(o.size, -128);
    match o.local
    case User(a) => Arithmetic.Shift4(a, 128);
    case Bounce(a) => Arithmetic.Shift4(a, 128);
  }
}
