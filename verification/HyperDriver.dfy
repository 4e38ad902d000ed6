/** The HyperRAM driver: an interrupt-driven machine that serves copy requests
    of any size and alignment with aligned hardware bursts. */
module HyperDriver {
  import opened ByteCopy
  import opened HyperSpec
  import opened HyperProgress
  import opened HyperSteps
  import opened HyperLog
  import LinkedQueue

  /** How one round of a misaligned machine ends: a transfer was started, there
      is more to do at once, or the task is finished. */
  datatype Next = Waiting | Again | Ended

  function TaskIds(tasks: seq<QueuedTask>): seq<int> {
    seq(|tasks|, i requires 0 <= i < |tasks| => tasks[i].id)
  }

  class Driver {
    // the memories: user L2, the HyperRAM, the bounce buffer
    const l2: array<Byte>
    const hyper: array<Byte>
    const temp: array<Byte>
    // the receive channel; the transmit channel is the next one
    const rx: nat

    // the transfer the hardware is working on
    var inFlight: Option<Transfer>

    var endTask: Option<nat>
    var currentTask: Option<nat>
    var emuTask: Option<nat>
    var burst: Burst
    var emu: Emu
    // the tasks on hold: their links and words by the address of the task, where the
    // list starts and ends, and what is on it
    var taskNext: map<int, int>
    var taskData: map<int, QueuedTask>
    var pendingFirst: int
    var pendingLast: int
    ghost var pendingTasks: seq<QueuedTask>
    // the tasks pushed to the event scheduler at their end, oldest first
    var signalled: seq<nat>

    ghost var log: Log
    ghost var at: Progress

    // ----- invariants

    ghost function Mem(): Memory
      reads l2, hyper
    {
      Memory(l2[..], hyper[..])
    }

    ghost predicate Wired() {
      && temp.Length == BOUNCE_SIZE && rx % 2 == 0 && rx + 1 < 256
      && l2 != hyper && l2 != temp && hyper != temp
    }

    /** The log is about this driver's memories. */
    ghost predicate Sized()
      reads this
    {
      |log.initial.l2| == l2.Length && |log.initial.hyper| == hyper.Length
    }

    /** The list holds the waiting tasks. */
    ghost predicate Held()
      reads this
    {
      LinkedQueue.QueueOk(taskNext, taskData, pendingFirst, pendingLast, TaskIds(pendingTasks), pendingTasks)
    }

    /** `at` describes the running request. */
    ghost predicate Running()
      reads this
    {
      && Wired() && Sized() && Held() && LogOk(log, signalled, pendingTasks, true, rx)
      && at.req == log.history[|signalled|] && at.base == MemoryAt(log, |signalled|)
      && currentTask == Some(at.req.id)
    }

    /** Nothing runs; requests may be waiting. Seen only inside handlers. */
    ghost predicate Quiet()
      reads this, l2, hyper
    {
      && Wired() && Sized() && Held() && LogOk(log, signalled, pendingTasks, false, rx)
      && inFlight.None? && endTask.None? && currentTask.None? && emuTask.None?
      && burst.repeat == 0 && emu.size2d == 0
      && Mem() == MemoryAt(log, |signalled|)
    }

    /** Between two steps of an emulated copy. Seen only inside handlers. */
    ghost predicate Stepping()
      reads this, l2, hyper, temp
    {
      && Running() && AtStep(at, Mem(), emu, rx)
      && inFlight.None? && endTask.None? && emuTask == currentTask && burst.repeat == 0
      && (emu.doMemcpy ==> NeedsBounce(emu) && Loaded(emu, Mem(), temp[..]))
    }

    /** Transfer `o` carries the issued bytes of the running request. */
    ghost predicate Carrying(o: Transfer)
      reads this, l2, hyper, temp
    {
      if endTask.Some? then
        && endTask == currentTask && emuTask.None? && emu.size2d == 0
        && DirectTransit(at, Mem(), o)
      else
        && emuTask == currentTask && InTransit(at, Mem(), emu, rx, temp[..], o)
    }

    /** A transfer is on its way for the running request. */
    ghost predicate Flying()
      reads this, l2, hyper, temp
    {
      && Running() && inFlight.Some? && BurstOk(inFlight.value, burst)
      && (burst.repeat != 0 ==> burst.addr.User?)
      && Carrying(Outstanding(inFlight.value, burst))
    }

    /** The hardware has just finished. Seen only on entry to the handler. */
    ghost predicate Landed()
      reads this, l2, hyper, temp
    {
      && Running() && inFlight.None?
      && if burst.repeat != 0 then
           && burst.repeat == MAX_BURST < burst.repeatSize && burst.addr.User?
           && Carrying(Rest(Transfer(burst.base, burst.addr, burst.hyperAddr, burst.repeatSize)))
         else if endTask.Some? then
           && endTask == currentTask && emuTask.None? && emu.size2d == 0
           && Mem() == Apply(at.base, at.req) && Fits(at.base, at.req) && at.done == at.req.size
         else Stepping()
    }

    /** The driver is about to start request `r`. Seen only inside handlers. */
    ghost predicate Starting(r: Request)
      reads this, l2, hyper
    {
      && Wired() && Sized() && Held() && LogOk(log, signalled, pendingTasks, true, rx)
      && r == log.history[|signalled|]
      && inFlight.None? && endTask.None? && currentTask.None? && emuTask.None?
      && burst.repeat == 0 && emu.size2d == 0
      && Mem() == MemoryAt(log, |signalled|)
    }

    /** Every state between two interrupts. */
    ghost predicate Valid()
      reads this, l2, hyper, temp
    {
      match currentTask
      case None => Quiet() && pendingTasks == []
      case Some(_) => Flying()
    }

    /** Falls with every hardware completion. */
    ghost function Measure(): int
      reads this
    {
      TotalWeight(pendingTasks) +
      if currentTask.None? then 0
      else 2 * (at.req.size - at.done) + 1 + (if emuTask.Some? && emu.doMemcpy then 1 else 0)
    }

    /** The same, between two steps: an upper bound with one completion to spare. */
    ghost function StepMeasure(): int
      reads this
    {
      TotalWeight(pendingTasks) + 2 * (at.req.size - at.done) + (if emu.doMemcpy then 2 else 3)
    }

    constructor (l2: array<Byte>, hyper: array<Byte>, temp: array<Byte>, rx: nat)
      requires temp.Length == 128 && rx % 2 == 0 && rx + 1 < 256
      requires l2 != hyper && l2 != temp && hyper != temp
      ensures this.l2 == l2 && this.hyper == hyper && this.temp == temp
      ensures Valid() && log == Log(Memory(l2[..], hyper[..]), [], [], []) && signalled == [] && Measure() == 0
    {
      this.l2, this.hyper, this.temp, this.rx := l2, hyper, temp, rx;
      inFlight, endTask, currentTask, emuTask := None, None, None, None;
      burst := Burst(0, 0, User(0), 0, 0);
      emu := Emu(0, 0, 0, 0, 0, 0, 0, false);
      taskNext, taskData, pendingFirst, pendingLast := map[], map[], 0, 0;
      pendingTasks, signalled := [], [];
      log := Log(Memory(l2[..], hyper[..]), [], [], []);
    }

    // ----- the hardware interface

    method HalEnqueue(channel: nat, local: Local, hyperAddr: nat, size: nat)
      requires inFlight.None?
      requires var t := Transfer(channel, local, hyperAddr, size);
        Aligned(t) && InRange(Mem(), t) && size <= MAX_BURST
      modifies this`inFlight
      ensures inFlight == Some(Transfer(channel, local, hyperAddr, size))
    {
      inFlight := Some(Transfer(channel, local, hyperAddr, size));
    }

    /** A copy that is aligned on both sides, cut into bursts if it is long. */
    method CopyAligned(channel: nat, local: Local, hyperAddr: nat, size: nat, event: Option<nat>)
      requires inFlight.None?
      requires var t := Transfer(channel, local, hyperAddr, size);
        Aligned(t) && InRange(Mem(), t)
      modifies this`inFlight, this`burst, this`endTask
      ensures inFlight.Some? && BurstOk(inFlight.value, burst) && endTask == event
      ensures Outstanding(inFlight.value, burst) == Transfer(channel, local, hyperAddr, size)
      ensures inFlight.value == Bursts(Transfer(channel, local, hyperAddr, size))[0]
    {
      var first := size;
      if size > 512 {
        burst := Burst(channel, hyperAddr, local, 512, size);
        first := 512;
      } else {
        burst := burst.(repeat := 0);
      }
      endTask := event;
      HalEnqueue(channel, local, hyperAddr, first);
    }

    // ----- one step of an emulated copy

    /** Loads the block that the next step needs into the bounce buffer. */
    method StartLoad(channel: nat, size: nat)
      requires Stepping() && !emu.doMemcpy && NeedsBounce(emu)
      requires channel == rx && size == LoadSize(emu)
      modifies this`inFlight, this`burst, this`endTask, this`emu
      ensures Flying() && Measure() < old(StepMeasure())
    {
      hide LinkedQueue.QueueOk, TaskIds, LogOk, AtStep, InTransit;
      LoadTransit(at, Mem(), emu, rx, temp[..]);
      LoadFits(at, Mem(), emu, rx);
      CopyAligned(channel, Bounce(0), emu.hyperAddr - emu.hyperAddr % 2, size, None);
      emu := emu.(doMemcpy := true);
    }

    /** Read: moves `n` bytes from the bounce buffer to the user. */
    method FinishRead(off: nat, n: nat)
      requires Stepping() && emu.doMemcpy && !at.req.write
      requires off == emu.hyperAddr % 2 && emu.size > 0 && n == StepSize(emu) && off + n <= LoadSize(emu)
      modifies this`emu, this`at, l2
      ensures Stepping() && at == old(at).(done := old(at.done) + n, issued := old(at.issued) + n)
      ensures !emu.doMemcpy && StepMeasure() < old(StepMeasure())
    {
      hide LinkedQueue.QueueOk, TaskIds, LogOk, AtStep, Loaded, NeedsBounce, Splice;
      ReadFromBounce(at, Mem(), emu, rx, temp[..], n);
      Memcpy(l2, emu.addr, temp, off, n);
      emu := emu.(doMemcpy := false, hyperAddr := emu.hyperAddr + n, addr := emu.addr + n, size := emu.size - n);
      at := at.(done := at.done + n, issued := at.issued + n);
    }

    /** Starts a transfer and moves the emulated copy `n` bytes on. */
    method Send(local: Local, hyperAddr: nat, size: nat, n: nat)
      requires Running() && inFlight.None? && emuTask == currentTask && n <= emu.size
      requires local.Bounce? ==> size <= MAX_BURST
      requires InTransit(at.(issued := at.issued + n), Mem(), Advance(emu, n), rx, temp[..],
                         Transfer(emu.channel, local, hyperAddr, size))
      modifies this`inFlight, this`burst, this`endTask, this`emu, this`at
      ensures Flying() && !emu.doMemcpy && at == old(at).(issued := old(at.issued) + n)
    {
      hide LinkedQueue.QueueOk, TaskIds, LogOk, InTransit, BurstOk;
      InTransitOk(at.(issued := at.issued + n), Mem(), Advance(emu, n), rx, temp[..],
                  Transfer(emu.channel, local, hyperAddr, size));
      CopyAligned(emu.channel, local, hyperAddr, size, None);
      emu := emu.(doMemcpy := false, hyperAddr := emu.hyperAddr + n, addr := emu.addr + n, size := emu.size - n);
      at := at.(issued := at.issued + n);
    }

    /** Lays `n` user bytes over the loaded block. */
    method LayOver(off: nat, a: nat, n: nat)
      requires Wired() && off + n <= temp.Length && a + n <= l2.Length
      modifies temp
      ensures Mem() == old(Mem()) && temp[..] == Splice(old(temp[..]), off, Mem().l2[a..a + n])
    {
      Memcpy(temp, off, l2, a, n);
    }

    /** Write: lays `n` user bytes over the loaded block and stores `size` bytes
        of it back. */
    method FinishWrite(off: nat, n: nat, size: nat)
      requires Stepping() && emu.doMemcpy && at.req.write
      requires off == emu.hyperAddr % 2 && emu.size > 0 && n == StepSize(emu) && off + n <= size <= BOUNCE_SIZE
      requires size % 4 == 0 && (size == 4 || off + n == size)
      modifies this`inFlight, this`burst, this`endTask, this`emu, this`at, temp
      ensures Flying() && Measure() < old(StepMeasure())
    {
      hide LinkedQueue.QueueOk, TaskIds, LogOk, AtStep, InTransit, Loaded, NeedsBounce, BurstOk;
      StoreTransit(at, Mem(), emu, rx, temp[..], n, Transfer(emu.channel, Bounce(0), LoadFrom(emu), size));
      LayOver(off, emu.addr, n);
      Send(Bounce(0), emu.hyperAddr - emu.hyperAddr % 2, size, n);
    }

    /** The aligned body goes straight between the user and the HyperRAM. */
    method StartBody(n: nat)
      requires Stepping() && emu.size > 0 && !NeedsBounce(emu)
      requires n == emu.size - emu.size % 4
      modifies this`inFlight, this`burst, this`endTask, this`emu, this`at
      ensures Flying() && Measure() < old(StepMeasure())
    {
      hide LinkedQueue.QueueOk, TaskIds, LogOk, InTransit, BurstOk;
      BodyTransit(at, Mem(), emu, rx, temp[..]);
      Send(User(emu.addr), emu.hyperAddr, n, n);
    }

    // ----- the misaligned machines

    lemma HistoryGoesOn()
      requires Running()
      ensures |signalled| < |log.history| && AllFit(log.initial, log.history) && WritesFit(log.writes, |log.initial.l2|)
    {
    }

    /** Pushes a finished task to the scheduler. */
    method EndOfTask(task: nat)
      requires Running() && task == at.req.id && Mem() == Apply(at.base, at.req)
      modifies this`signalled, this`log
      ensures signalled == old(signalled) + [task] && Sized()
      ensures log.initial == old(log.initial) && log.history == old(log.history) && log.writes == old(log.writes)
      ensures LogOk(log, signalled, pendingTasks, false, rx) && Mem() == MemoryAt(log, |signalled|)
    {
      hide LinkedQueue.QueueOk, TaskIds, LogOk, Apply, MemoryAt;
      HistoryGoesOn();
      Signal(log, signalled, pendingTasks, rx, Mem());
      signalled := signalled + [task];
      log := log.(snapshots := log.snapshots + [Mem()]);
    }

    /** Nothing left on the line: goes to the next line, or ends the task. */
    method EndOfLine(task: nat) returns (more: bool)
      requires Stepping() && emu.size == 0 && task == at.req.id
      modifies this`emu, this`at, this`emuTask, this`currentTask, this`signalled, this`log
      ensures more ==> Stepping() && signalled == old(signalled) && log == old(log) && currentTask == old(currentTask)
      ensures more ==> at.req == old(at.req) && at.issued == old(at.issued)
      ensures more && emu.hyperAddr < 0x1_0000_0000 ==> emu == LineEnd(old(emu))
      ensures more ==> emu.size2d < old(emu.size2d) && StepMeasure() == old(StepMeasure())
      ensures !more ==> Quiet() && signalled == old(signalled) + [task]
      ensures log.initial == old(log.initial) && log.history == old(log.history) && log.writes == old(log.writes)
    {
      hide LinkedQueue.QueueOk, TaskIds, LogOk, Arrived, Loaded, Apply, MemoryAt;
      if emu.size2d > emu.length {
        LineDone(at, Mem(), emu, rx);
      } else {
        RequestDone(at, Mem(), emu, rx);
      }
      if emu.size2d > 0 {
        var left := if emu.size2d > emu.length then emu.size2d - emu.length else 0;
        if left > 0 {
          if emu.hyperAddr - emu.length + emu.stride < ADDRESSES {
            LineEndIsNext(emu);
          }
          emu := emu.(size2d := left, hyperAddr := emu.hyperAddr - emu.length + emu.stride,
                      size := if left > emu.length then emu.length else left);
          at := ProgressNextLine(at);
          return true;
        }
        emu := emu.(size2d := 0);
      }
      EndOfTask(task);
      emuTask := None;
      currentTask := None;
      return false;
    }

    /** One round of the read machine. */
    method ReadStep(task: nat) returns (next: Next)
      requires Stepping() && task == at.req.id && !at.req.write
      modifies this, l2
      ensures next.Waiting? ==> Flying() && signalled == old(signalled) && Measure() < old(StepMeasure())
      ensures next.Ended? ==> Quiet() && signalled == old(signalled) + [task]
      ensures next.Again? ==> Stepping() && signalled == old(signalled) && log == old(log) && at.req == old(at.req)
      ensures next.Again? ==> StepMeasure() <= old(StepMeasure())
      ensures next.Again? ==> at.issued > old(at.issued) || (at.issued == old(at.issued) && emu.size2d < old(emu.size2d))
      ensures pendingTasks == old(pendingTasks)
      ensures log.initial == old(log.initial) && log.history == old(log.history) && log.writes == old(log.writes)
    {
      hide LinkedQueue.QueueOk, TaskIds, LogOk, Arrived, UserRun, Loaded, InTransit, Touched, LineAt, OnLine;
      var addrAligned := (emu.addr + 3) / 4 * 4;
      var prologueSize := addrAligned - emu.addr;
      var hyperAddrAligned := emu.hyperAddr + prologueSize;
      if emu.size < 4 {
        prologueSize := emu.size;
      }
      if prologueSize != 0 {
        if !emu.doMemcpy {
          StartLoad(emu.channel, 4);
          return Waiting;
        }
        FinishRead(emu.hyperAddr % 2, prologueSize);
        if emu.size != 0 {
          return Again;
        }
      } else if emu.size > 0 {
        var sizeAligned := emu.size - emu.size % 4;
        if hyperAddrAligned % 2 == 0 {
          StartBody(sizeAligned);
          return Waiting;
        }
        if sizeAligned > BOUNCE_SIZE - 4 {
          sizeAligned := BOUNCE_SIZE - 4;
        }
        if !emu.doMemcpy {
          StartLoad(emu.channel, sizeAligned + 4);
          return Waiting;
        }
        FinishRead(1, sizeAligned);
        if emu.size != 0 {
          return Again;
        }
      }
      var more := EndOfLine(task);
      next := if more then Again else Ended;
    }

    /** One round of the write machine. */
    method WriteStep(task: nat) returns (next: Next)
      requires Stepping() && task == at.req.id && at.req.write
      modifies this, temp
      ensures next.Waiting? ==> Flying() && signalled == old(signalled) && Measure() < old(StepMeasure())
      ensures next.Ended? ==> Quiet() && signalled == old(signalled) + [task]
      ensures next.Again? ==> Stepping() && signalled == old(signalled) && log == old(log) && at.req == old(at.req)
      ensures next.Again? ==> StepMeasure() <= old(StepMeasure())
      ensures next.Again? ==> at.issued == old(at.issued) && emu.size2d < old(emu.size2d)
      ensures pendingTasks == old(pendingTasks)
      ensures log.initial == old(log.initial) && log.history == old(log.history) && log.writes == old(log.writes)
    {
      hide LinkedQueue.QueueOk, TaskIds, LogOk, Arrived, UserRun, Loaded, InTransit, Touched, LineAt, OnLine;
      var addrAligned := (emu.addr + 3) / 4 * 4;
      var prologueSize := addrAligned - emu.addr;
      var hyperAddrAligned := emu.hyperAddr + prologueSize;
      if emu.size < 4 {
        prologueSize := emu.size;
      }
      if prologueSize != 0 {
        if !emu.doMemcpy {
          StartLoad(emu.channel - 1, 4);
        } else {
          FinishWrite(emu.hyperAddr % 2, prologueSize, 4);
        }
        return Waiting;
      } else if emu.size > 0 {
        var sizeAligned := emu.size - emu.size % 4;
        if hyperAddrAligned % 2 == 0 {
          StartBody(sizeAligned);
          return Waiting;
        }
        if sizeAligned > BOUNCE_SIZE - 4 {
          sizeAligned := BOUNCE_SIZE - 4;
        }
        if !emu.doMemcpy {
          StartLoad(emu.channel - 1, 4);
        } else {
          FinishWrite(1, sizeAligned - 1, sizeAligned);
        }
        return Waiting;
      }
      var more := EndOfLine(task);
      next := if more then Again else Ended;
    }

    method ResumeMisalignedRead(task: nat, ghost limit: int) returns (end: bool)
      requires Stepping() && task == at.req.id && !at.req.write && StepMeasure() <= limit
      modifies this, l2
      ensures if end then Quiet() && signalled == old(signalled) + [task]
              else Flying() && signalled == old(signalled) && Measure() < limit
      ensures pendingTasks == old(pendingTasks)
      ensures log.initial == old(log.initial) && log.history == old(log.history) && log.writes == old(log.writes)
    {
      hide LinkedQueue.QueueOk, TaskIds, LogOk, InTransit, Loaded;
      while true
        invariant Stepping() && task == at.req.id && !at.req.write && StepMeasure() <= limit
        invariant signalled == old(signalled) && pendingTasks == old(pendingTasks) && log == old(log)
        decreases at.req.size - at.issued, emu.size2d
      {
        var next := ReadStep(task);
        if next.Waiting? {
          return false;
        } else if next.Ended? {
          return true;
        }
      }
    }

    method ResumeMisalignedWrite(task: nat, ghost limit: int) returns (end: bool)
      requires Stepping() && task == at.req.id && at.req.write && StepMeasure() <= limit
      modifies this, temp
      ensures if end then Quiet() && signalled == old(signalled) + [task]
              else Flying() && signalled == old(signalled) && Measure() < limit
      ensures pendingTasks == old(pendingTasks)
      ensures log.initial == old(log.initial) && log.history == old(log.history) && log.writes == old(log.writes)
    {
      hide LinkedQueue.QueueOk, TaskIds, LogOk, AtStep, InTransit, Loaded;
      while true
        invariant Stepping() && task == at.req.id && at.req.write && StepMeasure() <= limit
        invariant signalled == old(signalled) && pendingTasks == old(pendingTasks) && log == old(log)
        decreases at.req.size - at.issued, emu.size2d
      {
        var next := WriteStep(task);
        if next.Waiting? {
          return false;
        } else if next.Ended? {
          return true;
        }
      }
    }

    // ----- starting requests

    /** Continues the emulated copy; at its end, starts the next request. */
    method CopyMisaligned(task: nat, ghost limit: int)
      requires Stepping() && task == at.req.id && StepMeasure() <= limit
      modifies this, l2, temp
      ensures Valid() && Measure() < limit && old(signalled) <= signalled
      ensures log.initial == old(log.initial) && log.history == old(log.history) && log.writes == old(log.writes)
      decreases |pendingTasks|, 2
    {
      hide LinkedQueue.QueueOk, TaskIds, LogOk, Arrived, InTransit, Loaded, MemoryAt;
      var end;
      if emu.channel % 2 == 1 {
        end := ResumeMisalignedWrite(task, limit);
      } else {
        end := ResumeMisalignedRead(task, limit);
      }
      if !end {
        return;
      }
      ExecPendingTask();
    }

    lemma NextHeld()
      requires Held()
      ensures pendingFirst != 0 <==> pendingTasks != []
      ensures pendingFirst != 0 ==>
                && pendingFirst in taskNext && pendingFirst in taskData && taskData[pendingFirst] == pendingTasks[0]
                && LinkedQueue.QueueOk(taskNext, taskData, taskNext[pendingFirst], pendingLast,
                                       TaskIds(pendingTasks[1..]), pendingTasks[1..])
    {
      LinkedQueue.Pop(taskNext, taskData, pendingFirst, pendingLast, TaskIds(pendingTasks), pendingTasks);
      if pendingTasks != [] {
        assert TaskIds(pendingTasks[1..]) == TaskIds(pendingTasks)[1..];
      }
    }

    /** Starts the first task on hold, if there is one. */
    method ExecPendingTask()
      requires Quiet()
      modifies this, l2, temp
      ensures Valid() && Measure() <= old(TotalWeight(pendingTasks)) && old(signalled) <= signalled
      ensures log.initial == old(log.initial) && log.history == old(log.history) && log.writes == old(log.writes)
      decreases |pendingTasks|, 1
    {
      hide LinkedQueue.QueueOk, TaskIds;
      NextHeld();
      if pendingFirst != 0 {
        Dequeue(log, signalled, pendingTasks, rx);
        var task := taskData[pendingFirst];
        ghost var r := log.history[|signalled|];
        pendingFirst, pendingTasks := taskNext[pendingFirst], pendingTasks[1..];
        var is2d := task.data0 / 256 % 256;
        var channel := task.data0 % 256;
        if is2d == 0 {
          CopyExec(channel, task.addr, task.hyperAddr, task.size, task.id, r);
        } else {
          Copy2dExec(channel, task.addr, task.hyperAddr, task.size, task.stride, task.length, task.id, r);
        }
      }
    }

    lemma StartingFits(r: Request)
      requires Starting(r)
      ensures Fits(Mem(), r)
    {
    }

    method CopyExec(channel: nat, addr: nat, hyperAddr: nat, size: nat, event: nat, ghost r: Request)
      requires Starting(r) && !r.is2d && channel == rx + (if r.write then 1 else 0)
      requires addr == r.addr && hyperAddr == r.hyperAddr && size == r.size && event == r.id
      modifies this, l2, temp
      ensures Valid() && old(signalled) <= signalled
      ensures Measure() <= old(TotalWeight(pendingTasks)) + Weight(size)
      ensures log.initial == old(log.initial) && log.history == old(log.history) && log.writes == old(log.writes)
      ensures addr % 4 == 0 && hyperAddr % 2 == 0 && (size % 4 == 0 || (r.write && size % 2 == 0)) ==>
                && inFlight.Some? && endTask == Some(event) && emuTask.None?
                && Outstanding(inFlight.value, burst) == Transfer(channel, User(addr), hyperAddr, size)
      decreases |pendingTasks|, 3
    {
      hide LinkedQueue.QueueOk, TaskIds, LogOk, AtStep, InTransit, DirectTransit, Loaded, BurstOk, MemoryAt;
      StartingFits(r);
      if addr % 4 == 0 && hyperAddr % 2 == 0 && (size % 4 == 0 || (channel % 2 == 1 && size % 2 == 0)) {
        CopyDirect(channel, addr, hyperAddr, size, event, r);
      } else {
        currentTask := Some(event);
        at := StartProgress(r, Mem());
        emu := emu.(channel := channel, hyperAddr := hyperAddr, addr := addr, size := size, doMemcpy := false);
        emuTask := Some(event);
        StartAtStep(r, Mem(), emu, rx);
        CopyMisaligned(event, StepMeasure());
      }
    }

    method CopyDirect(channel: nat, addr: nat, hyperAddr: nat, size: nat, event: nat, ghost r: Request)
      requires Starting(r) && Direct(r) && channel == rx + (if r.write then 1 else 0)
      requires addr == r.addr && hyperAddr == r.hyperAddr && size == r.size && event == r.id
      modifies this`currentTask, this`at, this`inFlight, this`burst, this`endTask
      ensures Flying() && Measure() <= old(TotalWeight(pendingTasks)) + Weight(size)
      ensures inFlight.Some? && endTask == Some(event)
      ensures Outstanding(inFlight.value, burst) == Transfer(channel, User(addr), hyperAddr, size)
    {
      hide LinkedQueue.QueueOk, TaskIds, LogOk;
      StartingFits(r);
      StartTransit(r, Mem(), rx);
      currentTask := Some(event);
      at := StartProgress(r, Mem()).(issued := size);
      CopyAligned(channel, User(addr), hyperAddr, size, Some(event));
    }

    method Copy2dExec(channel: nat, addr: nat, hyperAddr: nat, size: nat, stride: int, length: nat,
                      event: nat, ghost r: Request)
      requires Starting(r) && r.is2d && channel == rx + (if r.write then 1 else 0)
      requires addr == r.addr && hyperAddr == r.hyperAddr && size == r.size && event == r.id
      requires stride == r.stride && length == r.length
      modifies this, l2, temp
      ensures Valid() && old(signalled) <= signalled
      ensures Measure() <= old(TotalWeight(pendingTasks)) + Weight(size)
      ensures log.initial == old(log.initial) && log.history == old(log.history) && log.writes == old(log.writes)
      decreases |pendingTasks|, 3
    {
      hide LinkedQueue.QueueOk, TaskIds, LogOk, AtStep, InTransit, DirectTransit, Loaded, BurstOk, MemoryAt;
      StartingFits(r);
      currentTask := Some(event);
      at := StartProgress(r, Mem());
      emu := Emu(channel, hyperAddr, addr, if size > length then length else size, size, length, stride, false);
      emuTask := Some(event);
      StartAtStep(r, Mem(), emu, rx);
      CopyMisaligned(event, StepMeasure());
    }

    // ----- the interrupt

    /** The hardware moves the bytes of the transfer in flight. */
    method MoveBytes(t: Transfer)
      requires Wired() && InRange(Mem(), t)
      modifies l2, hyper, temp
      ensures Mem() == MemoryAfter(old(Mem()), old(temp[..]), t)
      ensures temp[..] == TempAfter(old(Mem()), old(temp[..]), t)
    {
      hide Splice;
      match t.local
      case User(a) =>
        if IsWrite(t.channel) {
          Memcpy(hyper, t.hyperAddr, l2, a, t.size);
        } else {
          Memcpy(l2, a, hyper, t.hyperAddr, t.size);
        }
      case Bounce(a) =>
        if IsWrite(t.channel) {
          Memcpy(hyper, t.hyperAddr, temp, a, t.size);
        } else {
          Memcpy(temp, a, hyper, t.hyperAddr, t.size);
        }
    }

    /** The hardware finishes the transfer in flight. */
    method Land()
      requires Flying()
      modifies this`inFlight, this`at, l2, hyper, temp
      ensures Landed()
      ensures at.done > old(at.done) || (burst.repeat == 0 && (endTask.Some? || emu.doMemcpy))
      ensures at == old(at).(done := at.done) && at.done >= old(at.done)
    {
      hide LinkedQueue.QueueOk, TaskIds, LogOk, InTransit, DirectTransit, Apply, MemoryAt, AtStep;
      if burst.repeat != 0 {
        LandBurst();
      } else if endTask.Some? {
        LandDirect();
      } else {
        LandWhole();
      }
    }

    method LandBurst()
      requires Flying() && burst.repeat != 0
      modifies this`inFlight, this`at, l2, hyper, temp
      ensures Landed() && at == old(at).(done := old(at).done + MAX_BURST)
    {
      hide LinkedQueue.QueueOk, TaskIds, LogOk, DirectTransit, InTransit, MemoryAfter, TempAfter;
      var t := inFlight.value;
      ghost var o, m, was := Outstanding(t, burst), Mem(), temp[..];
      if endTask.Some? {
        BurstOfDirectArrives(at, m, was, o);
      } else {
        InTransitOk(at, m, emu, rx, was, o);
        BurstOfBodyArrives(at, m, emu, rx, was, o);
      }
      MoveBytes(t);
      inFlight := None;
      at := at.(done := at.done + MAX_BURST);
    }

    method LandDirect()
      requires Flying() && burst.repeat == 0 && endTask.Some?
      modifies this`inFlight, this`at, l2, hyper, temp
      ensures Landed() && at == old(at).(done := old(at).issued) && old(at).issued >= old(at).done
    {
      hide LinkedQueue.QueueOk, TaskIds, LogOk, UserRun, InRange, Aligned, MemoryAfter, TempAfter;
      var t := inFlight.value;
      UserRunArrives(at, t, Mem(), temp[..]);
      MoveBytes(t);
      inFlight := None;
      at := at.(done := at.issued);
    }

    method LandWhole()
      requires Flying() && burst.repeat == 0 && endTask.None?
      modifies this`inFlight, this`at, l2, hyper, temp
      ensures Landed() && at == old(at).(done := old(at).issued)
      ensures at.done > old(at).done || (at.done == old(at).done && emu.doMemcpy)
    {
      hide LinkedQueue.QueueOk, TaskIds, LogOk, InTransit, AtStep, Loaded, NeedsBounce, MemoryAfter, TempAfter;
      InTransitOk(at, Mem(), emu, rx, temp[..], inFlight.value);
      var t := inFlight.value;
      WholeArrives(at, Mem(), emu, rx, temp[..], t);
      MoveBytes(t);
      inFlight := None;
      at := at.(done := at.issued);
    }

    /** The handler of the end-of-transfer interrupt. */
    method HandleCopy(ghost limit: int)
      requires Landed() && limit >= Measure()
      requires burst.repeat != 0 ==> limit > Measure()
      requires burst.repeat == 0 && endTask.None? ==> limit >= StepMeasure()
      modifies this, l2, temp
      ensures old(burst.repeat) != 0 ==>
                inFlight.Some? && signalled == old(signalled) && Outstanding(inFlight.value, burst) == AfterBurst(old(burst))
      ensures Valid() && Measure() < limit && old(signalled) <= signalled
      ensures log.initial == old(log.initial) && log.history == old(log.history) && log.writes == old(log.writes)
    {
      hide LinkedQueue.QueueOk, TaskIds, LogOk, AtStep, InTransit, DirectTransit, Apply, MemoryAt, Loaded;
      if burst.repeat != 0 {
        NextBurst();
      } else {
        if endTask.Some? {
          var task := endTask.value;
          EndOfTask(task);
          endTask := None;
          currentTask := None;
        }
        if emuTask.Some? {
          CopyMisaligned(emuTask.value, limit);
          return;
        }
        ExecPendingTask();
      }
    }

    lemma CarriedFits(o: Transfer)
      requires Carrying(o)
      ensures InRange(Mem(), o) && Aligned(o)
    {
      hide Arrived, EmuAt;
    }

    /** Puts the next burst of a long copy in flight. */
    method NextBurst()
      requires Landed() && burst.repeat != 0
      modifies this`inFlight, this`burst
      ensures Flying() && Outstanding(inFlight.value, burst) == AfterBurst(old(burst))
    {
      hide LinkedQueue.QueueOk, TaskIds, LogOk, InTransit, DirectTransit, AtStep, Loaded, MemoryAt, Apply;
      var rest := burst.repeatSize - burst.repeat;
      CarriedFits(Rest(Transfer(burst.base, burst.addr, burst.hyperAddr, burst.repeatSize)));
      var size := burst.repeat;
      burst := burst.(addr := burst.addr.Plus(burst.repeat), hyperAddr := burst.hyperAddr + burst.repeat, repeatSize := rest);
      if rest <= burst.repeat {
        burst := burst.(repeat := 0);
        size := rest;
      }
      HalEnqueue(burst.base, burst.addr, burst.hyperAddr, size);
    }

    /** One hardware completion: the bytes move and the interrupt is handled. */
    method Complete()
      requires Valid() && inFlight.Some?
      modifies this, l2, hyper, temp
      ensures old(burst.repeat) != 0 ==>
                inFlight.Some? && signalled == old(signalled) && Outstanding(inFlight.value, burst) == AfterBurst(old(burst))
      ensures Valid() && old(signalled) <= signalled
      ensures log.initial == old(log.initial) && log.history == old(log.history) && log.writes == old(log.writes)
      ensures Measure() < old(Measure())
    {
      hide LinkedQueue.QueueOk, TaskIds, LogOk, AtStep, InTransit, DirectTransit, Apply, MemoryAt, Loaded;
      ghost var limit := Measure();
      Land();
      HandleCopy(limit);
    }

    /** The transfers that the hardware gets for a copy, one after the other until no
        burst is left: exactly the bursts that the copy is cut into. */
    method RunBursts() returns (ghost trace: seq<Transfer>)
      requires Valid() && inFlight.Some?
      modifies this, l2, hyper, temp
      ensures Valid() && inFlight.Some? && burst.repeat == 0 && old(signalled) <= signalled
      ensures trace == Bursts(old(Outstanding(inFlight.value, burst))) && trace[|trace| - 1] == inFlight.value
    {
      hide LinkedQueue.QueueOk, LogOk, InTransit, DirectTransit, Bursts;
      ghost var done := [];
      InFlightIsFirst();
      while burst.repeat != 0
        invariant Valid() && inFlight.Some? && old(signalled) <= signalled && BurstOk(inFlight.value, burst)
        invariant Bursts(old(Outstanding(inFlight.value, burst))) == done + Bursts(Outstanding(inFlight.value, burst))
        decreases Measure()
      {
        MeasureNatural();
        FirstBurst(inFlight.value, burst);
        done := done + [inFlight.value];
        Complete();
        InFlightIsFirst();
      }
      FirstBurst(inFlight.value, burst);
      trace := done + [inFlight.value];
    }

    lemma InFlightIsFirst()
      requires Valid() && inFlight.Some?
      ensures BurstOk(inFlight.value, burst)
    {
    }

    // ----- requests

    /** The task is already known to the driver. */
    ghost predicate Busy(id: nat)
      reads this
    {
      currentTask == Some(id) || exists i :: 0 <= i < |pendingTasks| && pendingTasks[i].id == id
    }

    /** The list with a task behind the last. */
    lemma HeldMore(q: QueuedTask)
      requires Held() && q.id != 0 && !Busy(q.id)
      ensures LinkedQueue.QueueOk(LinkedQueue.Appended(taskNext, pendingFirst, pendingLast, q.id), taskData[q.id := q],
                                  if pendingFirst != 0 then pendingFirst else q.id, q.id,
                                  TaskIds(pendingTasks + [q]), pendingTasks + [q])
    {
      assert TaskIds(pendingTasks + [q]) == TaskIds(pendingTasks) + [q.id];
      LinkedQueue.Push(taskNext, taskData, pendingFirst, pendingLast, TaskIds(pendingTasks), pendingTasks, q.id, q);
    }

    /** Puts a request at the end of the list. */
    method Hold(ghost r: Request, q: QueuedTask)
      requires Flying() && Fits(Mem(), r) && Decodes(q, r, rx) && q.id != 0 && !Busy(q.id)
      modifies this`taskNext, this`taskData, this`pendingFirst, this`pendingLast, this`pendingTasks, this`log
      ensures Flying() && pendingTasks == old(pendingTasks) + [q]
      ensures log == old(log).(history := old(log.history) + [r])
      ensures Measure() == old(Measure()) + Weight(q.size)
    {
      hide LinkedQueue.QueueOk, TaskIds, LogOk, Decodes, InTransit, DirectTransit, BurstOk, MemoryAt;
      HoldLogged(r, q);
      HeldMore(q);
      TotalWeightAppend(pendingTasks, q);
      AppendTask(q);
      pendingTasks := pendingTasks + [q];
      log := log.(history := log.history + [r]);
    }

    lemma HoldLogged(r: Request, q: QueuedTask)
      requires Flying() && Fits(Mem(), r) && Decodes(q, r, rx)
      ensures LogOk(log.(history := log.history + [r]), signalled, pendingTasks + [q], true, rx)
      ensures |signalled| < |log.history|
      ensures MemoryAt(log.(history := log.history + [r]), |signalled|) == MemoryAt(log, |signalled|)
    {
      hide InTransit, DirectTransit, BurstOk;
      Enqueue(log, signalled, pendingTasks, rx, r, q);
      MemoryAtExtended(log, r, |signalled|);
    }

    /** Stores a task's words in it, and links it behind the last. */
    method AppendTask(q: QueuedTask)
      modifies this`taskNext, this`taskData, this`pendingFirst, this`pendingLast
      ensures taskNext == LinkedQueue.Appended(old(taskNext), old(pendingFirst), old(pendingLast), q.id)
      ensures pendingFirst == (if old(pendingFirst) != 0 then old(pendingFirst) else q.id) && pendingLast == q.id
      ensures taskData == old(taskData)[q.id := q]
    {
      if pendingFirst != 0 {
        taskNext := taskNext[pendingLast := q.id];
      } else {
        pendingFirst := q.id;
      }
      pendingLast := q.id;
      taskNext := taskNext[q.id := 0];
      taskData := taskData[q.id := q];
    }

    lemma AdmitLogged(r: Request)
      requires Quiet() && pendingTasks == [] && Fits(Mem(), r)
      ensures LogOk(log.(history := log.history + [r]), signalled, pendingTasks, true, rx)
      ensures |signalled| == |log.history|
      ensures MemoryAt(log.(history := log.history + [r]), |signalled|) == MemoryAt(log, |signalled|)
    {
      StartFirst(log, signalled, rx, r);
      MemoryAtExtended(log, r, |signalled|);
    }

    /** Makes a request the one to start, on an idle driver. */
    ghost method Admit(r: Request)
      requires Quiet() && pendingTasks == [] && Fits(Mem(), r)
      modifies this`log
      ensures Starting(r) && log == old(log).(history := old(log.history) + [r])
    {
      hide LinkedQueue.QueueOk, TaskIds, LogOk, MemoryAt;
      AdmitLogged(r);
      log := log.(history := log.history + [r]);
    }

    /** A 1D request: starts at once on an idle driver, waits otherwise. */
    method Copy(channel: nat, addr: nat, hyperAddr: nat, size: nat, event: nat, ghost r: Request)
      requires Valid() && Fits(Mem(), r) && !r.is2d && channel == rx + (if r.write then 1 else 0)
      requires addr == r.addr && hyperAddr == r.hyperAddr && size == r.size && event == r.id
      requires !Busy(event) && event != 0
      modifies this, l2, temp
      ensures Valid() && old(signalled) <= signalled
      ensures log.initial == old(log.initial) && log.history == old(log.history) + [r] && log.writes == old(log.writes)
      ensures Measure() <= old(Measure()) + 2 * size + 2
      ensures old(currentTask).None? && addr % 4 == 0 && hyperAddr % 2 == 0 && (size % 4 == 0 || (r.write && size % 2 == 0)) ==>
                && inFlight.Some? && endTask == Some(event) && emuTask.None?
                && Outstanding(inFlight.value, burst) == Transfer(channel, User(addr), hyperAddr, size)
    {
      hide LinkedQueue.QueueOk, TaskIds, LogOk, InTransit, DirectTransit, MemoryAt;
      if currentTask.Some? {
        Hold(r, QueuedTask(event, channel, addr, hyperAddr, size, 0, 0));
      } else {
        Admit(r);
        CopyExec(channel, addr, hyperAddr, size, event, r);
      }
    }

    /** A 2D request. */
    method Copy2d(channel: nat, addr: nat, hyperAddr: nat, size: nat, stride: int, length: nat,
                  event: nat, ghost r: Request)
      requires Valid() && Fits(Mem(), r) && r.is2d && channel == rx + (if r.write then 1 else 0)
      requires addr == r.addr && hyperAddr == r.hyperAddr && size == r.size && event == r.id
      requires stride == r.stride && length == r.length
      requires !Busy(event) && event != 0
      modifies this, l2, temp
      ensures Valid() && old(signalled) <= signalled
      ensures log.initial == old(log.initial) && log.history == old(log.history) + [r] && log.writes == old(log.writes)
      ensures Measure() <= old(Measure()) + 2 * size + 2
    {
      hide LinkedQueue.QueueOk, TaskIds, LogOk, InTransit, DirectTransit, MemoryAt;
      if currentTask.Some? {
        Hold(r, QueuedTask(event, channel + 256, addr, hyperAddr, size, stride, length));
      } else {
        Admit(r);
        Copy2dExec(channel, addr, hyperAddr, size, stride, length, event, r);
      }
    }

    // ----- runs

    /** Enough hardware completions bring every request to its end, at most
        `Measure()` of them, whatever clients write meanwhile to bytes of L2 that no
        outstanding request names: `writes` has one such write for each completion,
        as long as it lasts. Memory is then what the plain copies, one request after the
        other, and the clients' writes make of the initial memory, and every task has
        been signalled once, in the order of the requests, with memory just then that of
        the requests up to its own and of what was written before. */
    method RunToIdle(writes: seq<(nat, seq<Byte>)>) returns (completions: nat)
      requires Valid() && |signalled| <= |log.history|
      requires forall w <- writes :: w.0 + |w.1| <= l2.Length
      requires Harmless(writes, log.history[|signalled|..])
      modifies this, l2, hyper, temp
      ensures currentTask.None? && inFlight.None? && pendingTasks == []
      ensures completions <= old(Measure())
      ensures log.initial == old(log.initial) && log.history == old(log.history)
      ensures var n := if completions < |writes| then completions else |writes|;
        && |log.writes| == |old(log.writes)| + n && old(log.writes) <= log.writes
        && forall i :: 0 <= i < n ==>
             log.writes[|old(log.writes)| + i].addr == writes[i].0 && log.writes[|old(log.writes)| + i].bytes == writes[i].1
      ensures AllFit(log.initial, log.history) && WritesFit(log.writes, |log.initial.l2|)
      ensures Mem() == MemoryAt(log, |log.history|)
      ensures log.writes == [] ==> Mem() == ApplyAll(log.initial, log.history)
      ensures signalled == Ids(log.history) && |log.snapshots| == |log.history|
      ensures forall i :: 0 <= i < |log.history| ==> log.snapshots[i] == Apply(MemoryAt(log, i), log.history[i])
    {
      hide LinkedQueue.QueueOk, TaskIds, LogOk, Flying, Quiet, Apply, MemoryAt, LoggedWrites, Harmless;
      completions := 0;
      MeasureNatural();
      NoneLogged(log.writes, writes[..0]);
      while currentTask.Some?
        invariant Valid() && Measure() >= 0 && old(|signalled|) <= |signalled| <= |log.history|
        invariant log.initial == old(log.initial) && log.history == old(log.history)
        invariant LoggedWrites(old(log.writes), log.writes, writes[..if completions < |writes| then completions else |writes|])
        invariant completions + Measure() <= old(Measure())
        decreases Measure()
      {
        RunningIsOutstanding();
        if completions < |writes| {
          var w := writes[completions];
          HarmlessTo(writes, log.history, old(|signalled|), completions, |signalled|);
          ghost var logged := log.writes;
          WriteL2(w.0, w.1);
          OneLogged(old(log.writes), logged, writes, completions, log.writes[|logged|]);
        }
        Complete();
        HistoryCovers();
        MeasureNatural();
        completions := completions + 1;
      }
      Idle();
      WritesAre(old(log.writes), log.writes, writes, if completions < |writes| then completions else |writes|);
    }

    /** The writes touch no byte that one of the requests names. */
    ghost predicate Harmless(writes: seq<(nat, seq<Byte>)>, rs: seq<Request>) {
      forall w <- writes, r <- rs :: Apart(r, w.0, |w.1|)
    }

    lemma HarmlessTo(writes: seq<(nat, seq<Byte>)>, history: seq<Request>, from: nat, i: nat, j: nat)
      requires from <= j < |history| && i < |writes| && Harmless(writes, history[from..])
      ensures Apart(history[j], writes[i].0, |writes[i].1|)
    {
      assert writes[i] in writes && history[j] == history[from..][j - from] && history[j] in history[from..];
    }

    lemma WritesAre(was: seq<ClientWrite>, now: seq<ClientWrite>, writes: seq<(nat, seq<Byte>)>, n: nat)
      requires n <= |writes| && LoggedWrites(was, now, writes[..n])
      ensures |now| == |was| + n && was <= now
      ensures forall i :: 0 <= i < n ==> now[|was| + i].addr == writes[i].0 && now[|was| + i].bytes == writes[i].1
    {
    }

    lemma NoneLogged(was: seq<ClientWrite>, none: seq<(nat, seq<Byte>)>)
      requires |none| == 0
      ensures LoggedWrites(was, was, none)
    {
    }

    lemma OneLogged(was: seq<ClientWrite>, now: seq<ClientWrite>, writes: seq<(nat, seq<Byte>)>, n: nat, w: ClientWrite)
      requires n < |writes| && LoggedWrites(was, now, writes[..n])
      requires w.addr == writes[n].0 && w.bytes == writes[n].1
      ensures LoggedWrites(was, now + [w], writes[..n + 1])
    {
    }

    /** The log has these writes, in this order, and no others more than before. */
    ghost predicate LoggedWrites(was: seq<ClientWrite>, now: seq<ClientWrite>, writes: seq<(nat, seq<Byte>)>) {
      && |now| == |was| + |writes| && was <= now
      && forall i :: 0 <= i < |writes| ==> now[|was| + i].addr == writes[i].0 && now[|was| + i].bytes == writes[i].1
    }

    lemma MeasureNatural()
      requires Valid()
      ensures Measure() >= 0
    {
    }

    lemma RunningIsOutstanding()
      requires Valid() && currentTask.Some?
      ensures inFlight.Some? && |signalled| < |log.history| && at.req == log.history[|signalled|]
    {
    }

    lemma HistoryCovers()
      requires Valid()
      ensures |signalled| <= |log.history|
    {
    }

    /** What an idle driver has done. */
    lemma Idle()
      requires Valid() && currentTask.None?
      ensures inFlight.None? && pendingTasks == []
      ensures AllFit(log.initial, log.history) && WritesFit(log.writes, |log.initial.l2|)
      ensures Mem() == MemoryAt(log, |log.history|)
      ensures log.writes == [] ==> Mem() == ApplyAll(log.initial, log.history)
      ensures signalled == Ids(log.history) && |log.snapshots| == |log.history|
      ensures forall i :: 0 <= i < |log.history| ==> log.snapshots[i] == Apply(MemoryAt(log, i), log.history[i])
    {
      assert log.history[..|signalled|] == log.history;
      if log.writes == [] {
        PlainRun(log.initial, log.history, |log.history|);
      }
    }

    /** What has been done for a task when it is signalled, by the fields of its request:
        every byte of L2 or of the HyperRAM is where the request wants it, and no other has
        changed. */
    lemma TaskServed(i: nat)
      requires Valid() && i < |signalled|
      ensures AllFit(log.initial, log.history) && WritesFit(log.writes, |log.initial.l2|)
      ensures i < |log.history| && i < |log.snapshots| && signalled[i] == log.history[i].id
      ensures var r, was, now := log.history[i], MemoryAt(log, i), log.snapshots[i];
        var at := Places(r.hyperAddr, r.size, r.is2d, r.stride, r.length);
        && |now.l2| == |was.l2| && |now.hyper| == |was.hyper| && r.addr + r.size <= |was.l2|
        && (r.write ==>
              && now.l2 == was.l2
              && (forall k :: 0 <= k < r.size && NoneAfter(at, k) ==>
                    0 <= at[k] < |was.hyper| && now.hyper[at[k]] == was.l2[r.addr + k])
              && (forall h :: 0 <= h < |was.hyper| && h !in at ==> now.hyper[h] == was.hyper[h]))
        && (!r.write ==>
              && now.hyper == was.hyper
              && (forall k :: 0 <= k < r.size ==> 0 <= at[k] < |was.hyper| && now.l2[r.addr + k] == was.hyper[at[k]])
              && (forall j :: 0 <= j < |was.l2| && !(r.addr <= j < r.addr + r.size) ==> now.l2[j] == was.l2[j]))
    {
      hide Driver.Valid, Places, MemoryAt, Apply, InBounds, NoneAfter;
      SnapshotIs(i);
      ApplyServes(MemoryAt(log, i), log.history[i]);
    }

    /** Without writes of clients, a request begins with the memory that the one before it left. */
    lemma UnwrittenBefore(i: nat)
      requires Valid() && i < |signalled| && log.writes == []
      ensures AllFit(log.initial, log.history) && i < |log.history| && i <= |log.snapshots|
      ensures MemoryAt(log, i) == if i == 0 then log.initial else log.snapshots[i - 1]
    {
      SnapshotIs(i);
      if i > 0 {
        SnapshotIs(i - 1);
      }
    }

    lemma SnapshotIs(i: nat)
      requires Valid() && i < |signalled|
      ensures AllFit(log.initial, log.history) && WritesFit(log.writes, |log.initial.l2|)
      ensures i < |log.history| && i < |log.snapshots| && signalled[i] == log.history[i].id
      ensures Fits(MemoryAt(log, i), log.history[i])
      ensures log.snapshots[i] == Apply(MemoryAt(log, i), log.history[i])
    {
    }

    /** A client writes L2 at any moment, but not to bytes that the running request
        names; what waiting requests name may still change. */
    method WriteL2(a: nat, bytes: seq<Byte>)
      requires Valid() && a + |bytes| <= l2.Length
      requires currentTask.Some? ==> Apart(at.req, a, |bytes|)
      modifies this`log, this`at, l2
      ensures Valid() && l2[..] == Splice(old(l2[..]), a, bytes) && Measure() == old(Measure()) && at.req == old(at.req)
      ensures log == old(log).(writes := old(log.writes) + [ClientWrite(|signalled|, a, bytes)])
    {
      hide LinkedQueue.QueueOk, TaskIds, LogOk, InTransit, DirectTransit, BurstOk, MemoryAt;
      WriteOk(a, bytes);
      ghost var m := Mem();
      StoreBytes(a, bytes);
      assert Mem() == Overwrite(m, a, bytes);
      log := log.(writes := log.writes + [ClientWrite(|signalled|, a, bytes)]);
      if currentTask.Some? {
        at := Rebased(at, a, bytes);
      }
    }

    method StoreBytes(a: nat, bytes: seq<Byte>)
      requires Wired() && a + |bytes| <= l2.Length
      modifies l2
      ensures l2[..] == Splice(old(l2[..]), a, bytes)
    {
      forall i | 0 <= i < |bytes| {
        l2[a + i] := bytes[i];
      }
    }

    lemma WriteOk(a: nat, bytes: seq<Byte>)
      requires Valid() && a + |bytes| <= l2.Length && (currentTask.Some? ==> Apart(at.req, a, |bytes|))
      ensures var log' := log.(writes := log.writes + [ClientWrite(|signalled|, a, bytes)]);
              && LogOk(log', signalled, pendingTasks, currentTask.Some?, rx)
              && |signalled| <= |log.history|
              && MemoryAt(log', |signalled|) == Overwrite(MemoryAt(log, |signalled|), a, bytes)
      ensures currentTask.Some? ==>
                var o := Outstanding(inFlight.value, burst);
                && a + |bytes| <= |at.base.l2|
                && if endTask.Some? then DirectTransit(Rebased(at, a, bytes), Overwrite(Mem(), a, bytes), o)
                   else InTransit(Rebased(at, a, bytes), Overwrite(Mem(), a, bytes), emu, rx, temp[..], o)
    {
      hide InTransit, DirectTransit, BurstOk, LinkedQueue.QueueOk;
      WriteLogged(log, signalled, pendingTasks, currentTask.Some?, rx, a, bytes);
      if currentTask.Some? {
        var o := Outstanding(inFlight.value, burst);
        WriteFits(a, bytes);
        if endTask.Some? {
          WriteKeepsDirect(at, Mem(), o, a, bytes);
        } else {
          WriteKeepsTransit(at, Mem(), emu, rx, temp[..], o, a, bytes);
        }
      }
    }

    lemma WriteFits(a: nat, bytes: seq<Byte>)
      requires Running() && a + |bytes| <= l2.Length
      ensures a + |bytes| <= |at.base.l2|
    {
    }

    lemma OutstandingTwoD()
      requires Flying()
      ensures emu.size2d != 0 ==> at.req.is2d
    {
    }

    /** The first burst of a copy fits where the copy fits. */
    lemma FirstFits(t: Transfer, b: Burst)
      requires BurstOk(t, b) && Aligned(Outstanding(t, b)) && InRange(Mem(), Outstanding(t, b))
      ensures Aligned(t) && InRange(Mem(), t) && t.size <= MAX_BURST
      ensures t.size > 0 || Outstanding(t, b).size == 0
    {
    }

    /** What holds in every state between two interrupts: exactly one transfer
        is in flight if and only if a task is current, and the controller
        accepts it; never both an end task and an emulated one; nothing waits
        while nothing runs; the 2D size is 0 unless a 2D request runs; the tasks
        signalled are those of the first requests, in order; and memory is the
        plain copies of those requests, followed by the first `done` bytes of
        the running one, and nothing else. */
    lemma BetweenInterrupts()
      requires Valid()
      ensures inFlight.Some? <==> currentTask.Some?
      ensures inFlight.Some? ==>
                Aligned(inFlight.value) && InRange(Mem(), inFlight.value) && inFlight.value.size <= 512
      ensures inFlight.Some? ==> inFlight.value.size > 0 || (endTask.Some? && at.req.size == 0)
      ensures endTask.None? || emuTask.None?
      ensures currentTask.Some? ==> currentTask == (if endTask.Some? then endTask else emuTask)
      ensures pendingTasks != [] ==> currentTask.Some?
      ensures emu.size2d != 0 ==> currentTask.Some? && at.req.is2d
      ensures AllFit(log.initial, log.history) && |signalled| <= |log.history| && WritesFit(log.writes, |log.initial.l2|)
      ensures signalled == Ids(log.history[..|signalled|])
      ensures currentTask.None? ==> Mem() == MemoryAt(log, |signalled|)
      ensures currentTask.Some? ==>
                && |signalled| < |log.history| && at.done <= at.req.size && at.req == log.history[|signalled|]
                && Mem() == CopyBytes(MemoryAt(log, |signalled|), at.req, 0, at.done)
    {
      hide LinkedQueue.QueueOk, EmuAt, UserRun, BounceStore, BounceLoad, TaskIds, Apply, CopyBytes, MemoryAt, InRange,
           Aligned;
      if currentTask.Some? {
        OutstandingTwoD();
        CarriedFits(Outstanding(inFlight.value, burst));
        FirstFits(inFlight.value, burst);
      }
    }
  }
}
