/** The bookkeeping of a run of the HyperRAM driver: which requests were made,
    what clients wrote meanwhile, which tasks were signalled, and what memory looked
    like at each signal. */
module HyperLog {
  import opened ByteCopy
  import opened HyperSpec
  import opened HyperProgress

  /** A client writes `bytes` into L2, after `stage` tasks have been signalled. */
  datatype ClientWrite = ClientWrite(stage: nat, addr: nat, bytes: seq<Byte>)

  /** `history` holds every request in the order it was made; `snapshots[i]` is
      memory at the moment the i-th task was signalled. */
  datatype Log = Log(initial: Memory, history: seq<Request>, snapshots: seq<Memory>, writes: seq<ClientWrite>)

  ghost predicate WritesFit(writes: seq<ClientWrite>, l2Size: nat) {
    forall w <- writes :: w.addr + |w.bytes| <= l2Size
  }

  /** The client's writes of one stage, in order. */
  ghost function Written(m: Memory, writes: seq<ClientWrite>, stage: nat): (m': Memory)
    requires WritesFit(writes, |m.l2|)
    ensures |m'.l2| == |m.l2| && m'.hyper == m.hyper
    decreases |writes|
  {
    if |writes| == 0 then m
    else
      var m1, w := Written(m, writes[..|writes| - 1], stage), writes[|writes| - 1];
      if w.stage == stage then Overwrite(m1, w.addr, w.bytes) else m1
  }

  /** Memory when `n` requests have been served, one after the other, each as a plain
      copy that happens after what clients wrote before its task was signalled. */
  ghost function Reached(initial: Memory, history: seq<Request>, writes: seq<ClientWrite>, n: nat): (m: Memory)
    requires n <= |history| && AllFit(initial, history) && WritesFit(writes, |initial.l2|)
    ensures |m.l2| == |initial.l2| && |m.hyper| == |initial.hyper|
    decreases n
  {
    if n == 0 then Written(initial, writes, 0)
    else Written(Apply(Reached(initial, history, writes, n - 1), history[n - 1]), writes, n)
  }

  ghost function MemoryAt(log: Log, n: nat): (m: Memory)
    requires n <= |log.history| && AllFit(log.initial, log.history) && WritesFit(log.writes, |log.initial.l2|)
    ensures |m.l2| == |log.initial.l2| && |m.hyper| == |log.initial.hyper|
  {
    Reached(log.initial, log.history, log.writes, n)
  }

  /** If no client writes, that is the plain copies, one after the other. */
  lemma {:induction false} PlainRun(initial: Memory, history: seq<Request>, n: nat)
    requires n <= |history| && AllFit(initial, history)
    ensures Reached(initial, history, [], n) == ApplyAll(initial, history[..n])
    decreases n
  {
    if n > 0 {
      PlainRun(initial, history, n - 1);
      assert history[..n][..n - 1] == history[..n - 1];
    }
  }

  lemma {:induction false} NothingWritten(m: Memory, writes: seq<ClientWrite>, stage: nat)
    requires WritesFit(writes, |m.l2|) && forall w <- writes :: w.stage != stage
    ensures Written(m, writes, stage) == m
    decreases |writes|
  {
    if |writes| > 0 {
      assert writes[|writes| - 1] in writes;
      NothingWritten(m, writes[..|writes| - 1], stage);
    }
  }

  /** The words of a queued task decode to the request. */
  predicate Decodes(q: QueuedTask, r: Request, rx: nat) {
    && q.id == r.id && q.addr == r.addr && q.hyperAddr == r.hyperAddr && q.size == r.size
    && r.is2d == (q.data0 / 256 % 256 != 0)
    && q.data0 % 256 == rx + (if r.write then 1 else 0)
    && (r.is2d ==> q.stride == r.stride && q.length == r.length)
  }

  /** Requests are served in the order they were made: a prefix has been
      signalled, the next one is running if the driver is busy, the others wait
      in the queue, and memory at each signal was that of the plain copies. */
  ghost predicate LogOk(log: Log, signalled: seq<nat>, pending: seq<QueuedTask>, busy: bool, rx: nat) {
    && AllFit(log.initial, log.history) && WritesFit(log.writes, |log.initial.l2|)
    && (forall w <- log.writes :: w.stage <= |signalled|)
    && |log.history| == |signalled| + (if busy then 1 else 0) + |pending|
    && signalled == Ids(log.history[..|signalled|])
    && (forall i :: 0 <= i < |pending| ==>
          Decodes(pending[i], log.history[|log.history| - |pending| + i], rx))
    && |log.snapshots| == |signalled|
    && (forall i :: 0 <= i < |signalled| ==> log.snapshots[i] == Apply(MemoryAt(log, i), log.history[i]))
  }

  lemma Signal(log: Log, signalled: seq<nat>, pending: seq<QueuedTask>, rx: nat, m: Memory)
    requires LogOk(log, signalled, pending, true, rx)
    requires m == Apply(MemoryAt(log, |signalled|), log.history[|signalled|])
    ensures LogOk(log.(snapshots := log.snapshots + [m]), signalled + [log.history[|signalled|].id], pending, false, rx)
    ensures m == MemoryAt(log.(snapshots := log.snapshots + [m]), |signalled| + 1)
  {
    hide Apply, Fits, Decodes, Written, Reached;
    MemoryAtNext(log, |signalled|);
    NothingWritten(m, log.writes, |signalled| + 1);
    assert log.history[..|signalled| + 1] == log.history[..|signalled|] + [log.history[|signalled|]];
  }

  lemma MemoryAtNext(log: Log, n: nat)
    requires n < |log.history| && AllFit(log.initial, log.history) && WritesFit(log.writes, |log.initial.l2|)
    ensures MemoryAt(log, n + 1) == Written(Apply(MemoryAt(log, n), log.history[n]), log.writes, n + 1)
  {
  }

  lemma Dequeue(log: Log, signalled: seq<nat>, pending: seq<QueuedTask>, rx: nat)
    requires LogOk(log, signalled, pending, false, rx) && pending != []
    ensures LogOk(log, signalled, pending[1..], true, rx)
    ensures Decodes(pending[0], log.history[|signalled|], rx)
  {
  }

  lemma {:induction false} ReachedExtended(initial: Memory, history: seq<Request>, writes: seq<ClientWrite>, r: Request, n: nat)
    requires n <= |history| && AllFit(initial, history) && Fits(initial, r) && WritesFit(writes, |initial.l2|)
    ensures AllFit(initial, history + [r])
    ensures Reached(initial, history + [r], writes, n) == Reached(initial, history, writes, n)
    decreases n
  {
    hide Fits, Apply;
    if n > 0 {
      ReachedExtended(initial, history, writes, r, n - 1);
      assert (history + [r])[n - 1] == history[n - 1];
    }
  }

  lemma MemoryAtExtended(log: Log, r: Request, n: nat)
    requires n <= |log.history| && AllFit(log.initial, log.history) && Fits(log.initial, r)
    requires WritesFit(log.writes, |log.initial.l2|)
    ensures AllFit(log.initial, log.history + [r])
    ensures MemoryAt(log.(history := log.history + [r]), n) == MemoryAt(log, n)
  {
    ReachedExtended(log.initial, log.history, log.writes, r, n);
  }

  /** A new request is queued behind the running one. */
  lemma Enqueue(log: Log, signalled: seq<nat>, pending: seq<QueuedTask>, rx: nat, r: Request, q: QueuedTask)
    requires LogOk(log, signalled, pending, true, rx) && Fits(log.initial, r) && Decodes(q, r, rx)
    ensures LogOk(log.(history := log.history + [r]), signalled, pending + [q], true, rx)
  {
    Extended(log, signalled, r);
  }

  /** A new request starts at once on an idle driver. */
  lemma StartFirst(log: Log, signalled: seq<nat>, rx: nat, r: Request)
    requires LogOk(log, signalled, [], false, rx) && Fits(log.initial, r)
    ensures LogOk(log.(history := log.history + [r]), signalled, [], true, rx)
  {
    Extended(log, signalled, r);
  }

  lemma Extended(log: Log, signalled: seq<nat>, r: Request)
    requires AllFit(log.initial, log.history) && Fits(log.initial, r) && |signalled| <= |log.history|
    requires WritesFit(log.writes, |log.initial.l2|)
    requires signalled == Ids(log.history[..|signalled|]) && |log.snapshots| == |signalled|
    requires forall i :: 0 <= i < |signalled| ==> log.snapshots[i] == Apply(MemoryAt(log, i), log.history[i])
    ensures AllFit(log.initial, log.history + [r])
    ensures signalled == Ids((log.history + [r])[..|signalled|])
    ensures forall i :: 0 <= i < |signalled| ==>
              log.snapshots[i] == Apply(MemoryAt(log.(history := log.history + [r]), i), (log.history + [r])[i])
  {
    hide Apply;
    MemoryAtExtended(log, r, |signalled|);
    assert (log.history + [r])[..|signalled|] == log.history[..|signalled|];
    forall i | 0 <= i < |signalled|
      ensures MemoryAt(log.(history := log.history + [r]), i) == MemoryAt(log, i)
      ensures (log.history + [r])[i] == log.history[i]
    {
      MemoryAtExtended(log, r, i);
    }
  }

  // ----- what clients write

  lemma WrittenMore(m: Memory, writes: seq<ClientWrite>, w: ClientWrite, stage: nat)
    requires WritesFit(writes + [w], |m.l2|)
    ensures WritesFit(writes, |m.l2|) && w.addr + |w.bytes| <= |m.l2|
    ensures Written(m, writes + [w], stage) ==
              if w.stage == stage then Overwrite(Written(m, writes, stage), w.addr, w.bytes) else Written(m, writes, stage)
  {
    assert (writes + [w])[..|writes|] == writes && w in writes + [w];
    assert forall v <- writes :: v in writes + [w];
  }

  /** A further write of the present stage changes memory now, and not before. */
  lemma {:induction false} ReachedWritten(initial: Memory, history: seq<Request>, writes: seq<ClientWrite>,
                                          w: ClientWrite, n: nat)
    requires n <= w.stage && n <= |history| && AllFit(initial, history)
    requires WritesFit(writes, |initial.l2|) && w.addr + |w.bytes| <= |initial.l2|
    ensures WritesFit(writes + [w], |initial.l2|)
    ensures Reached(initial, history, writes + [w], n) ==
              if n == w.stage then Overwrite(Reached(initial, history, writes, n), w.addr, w.bytes)
              else Reached(initial, history, writes, n)
    decreases n
  {
    hide Apply, Overwrite;
    if n == 0 {
      WrittenMore(initial, writes, w, 0);
    } else {
      ReachedWritten(initial, history, writes, w, n - 1);
      WrittenMore(Apply(Reached(initial, history, writes, n - 1), history[n - 1]), writes, w, n);
    }
  }

  /** The log after a client has written. */
  lemma WriteLogged(log: Log, signalled: seq<nat>, pending: seq<QueuedTask>, busy: bool, rx: nat, a: nat, bytes: seq<Byte>)
    requires LogOk(log, signalled, pending, busy, rx) && a + |bytes| <= |log.initial.l2|
    ensures var log' := log.(writes := log.writes + [ClientWrite(|signalled|, a, bytes)]);
            && LogOk(log', signalled, pending, busy, rx)
            && MemoryAt(log', |signalled|) == Overwrite(MemoryAt(log, |signalled|), a, bytes)
  {
    hide Apply, Overwrite, Decodes, Fits, Written, Reached;
    var w := ClientWrite(|signalled|, a, bytes);
    ReachedWritten(log.initial, log.history, log.writes, w, |signalled|);
    forall i | 0 <= i < |signalled|
      ensures Reached(log.initial, log.history, log.writes + [w], i) == Reached(log.initial, log.history, log.writes, i)
    {
      ReachedWritten(log.initial, log.history, log.writes, w, i);
    }
  }

  // ----- how many hardware completions a queue can still take

  function Weight(size: nat): nat {
    2 * size + 2
  }

  function TotalWeight(pending: seq<QueuedTask>): nat {
    if pending == [] then 0 else Weight(pending[0].size) + TotalWeight(pending[1..])
  }

  lemma {:induction false} TotalWeightAppend(pending: seq<QueuedTask>, q: QueuedTask)
    ensures TotalWeight(pending + [q]) == TotalWeight(pending) + Weight(q.size)
  {
    if pending == [] {
      assert ([q])[1..] == [];
    } else {
      assert (pending + [q])[1..] == pending[1..] + [q];
      TotalWeightAppend(pending[1..], q);
    }
  }
}
