/** Copy requests that come from the cluster: they go to the driver one at a
    time, all with the same task object. */
module HyperCluster {
  import opened ByteCopy
  import opened HyperSpec
  import opened HyperProgress
  import opened HyperSteps
  import opened HyperLog
  import opened HyperDriver
  import LinkedQueue

  datatype ClusterRequest = ClusterRequest(
    id: nat, isWrite: bool, addr: nat, hyperAddr: nat, size: nat,
    is2d: bool, stride: int, length: nat)

  function Submitted(c: ClusterRequest, task: nat): Request {
    Request(task, c.isWrite, c.addr, c.hyperAddr, c.size, c.is2d, c.stride, c.length)
  }

  /** What a request of the cluster makes of memory: a write brings bytes of L2 to their places
      in the HyperRAM, unless a later byte has the same place; a read brings them from there
      to L2; nothing else changes. */
  ghost predicate Copied(c: ClusterRequest, was: Memory, now: Memory) {
    var at := Places(c.hyperAddr, c.size, c.is2d, c.stride, c.length);
    && |now.l2| == |was.l2| && |now.hyper| == |was.hyper| && c.addr + c.size <= |was.l2|
    && if c.isWrite then
         && now.l2 == was.l2
         && (forall k :: 0 <= k < c.size && NoneAfter(at, k) ==>
               0 <= at[k] < |was.hyper| && now.hyper[at[k]] == was.l2[c.addr + k])
         && (forall h :: 0 <= h < |was.hyper| && h !in at ==> now.hyper[h] == was.hyper[h])
       else
         && now.hyper == was.hyper
         && (forall k :: 0 <= k < c.size ==> 0 <= at[k] < |was.hyper| && now.l2[c.addr + k] == was.hyper[at[k]])
         && (forall j :: 0 <= j < |was.l2| && !(c.addr <= j < c.addr + c.size) ==> now.l2[j] == was.l2[j])
  }

  lemma SubmittedCopies(c: ClusterRequest, task: nat, was: Memory)
    requires Fits(was, Submitted(c, task))
    ensures Copied(c, was, Apply(was, Submitted(c, task)))
  {
    hide Apply, Places, NoneAfter, InBounds;
    ApplyServes(was, Submitted(c, task));
  }

  /** Among the requests from index `n` on, exactly the one at `k` uses `task`. */
  ghost predicate OnlyUse(history: seq<Request>, n: nat, task: nat, k: int) {
    && n <= k < |history| && history[k].id == task
    && forall i :: n <= i < |history| && i != k ==> history[i].id != task
  }

  ghost predicate Unused(history: seq<Request>, n: nat, task: nat) {
    forall i :: n <= i < |history| ==> history[i].id != task
  }

  /** Where the finished requests are in the driver's history. */
  ghost predicate Placed(history: seq<Request>, places: seq<nat>, done: seq<ClusterRequest>, task: nat, bound: int) {
    && |places| == |done|
    && (forall i :: 0 <= i < |done| ==>
          places[i] < bound && places[i] < |history| && history[places[i]] == Submitted(done[i], task))
    && (forall i, j :: 0 <= i < j < |done| ==> places[i] < places[j])
  }

  /** The request list of the cluster and its past: `arrived` is every request
      in arrival order, `head` is where in the driver's history the head of the
      list is, `places` where each finished request was. */
  datatype Desk = Desk(
    requests: seq<ClusterRequest>, done: seq<ClusterRequest>, arrived: seq<ClusterRequest>,
    head: int, places: seq<nat>)

  /** `n` is the number of signalled tasks whose callback has run. While the
      list is not empty, the one use of the task object from there on is for the
      head of the list; otherwise the task object is free. */
  ghost predicate DeskOk(d: Desk, history: seq<Request>, n: nat, task: nat, l2Size: nat, hyperSize: nat) {
    && d.arrived == d.done + d.requests
    && (forall c <- d.requests :: InBounds(Submitted(c, task), l2Size, hyperSize))
    && (if d.requests == [] then Unused(history, n, task)
        else OnlyUse(history, n, task, d.head) && history[d.head] == Submitted(d.requests[0], task))
    && Placed(history, d.places, d.done, task, n)
  }

  /** The task object is free; whatever is in the list has not been started. */
  ghost predicate Unstarted(d: Desk, history: seq<Request>, n: nat, task: nat, l2Size: nat, hyperSize: nat) {
    && d.arrived == d.done + d.requests
    && (forall c <- d.requests :: InBounds(Submitted(c, task), l2Size, hyperSize))
    && Unused(history, n, task) && Placed(history, d.places, d.done, task, n)
  }

  /** A request arrives behind another one. */
  lemma Waits(d: Desk, history: seq<Request>, n: nat, task: nat, l2Size: nat, hyperSize: nat, c: ClusterRequest)
    requires DeskOk(d, history, n, task, l2Size, hyperSize) && d.requests != []
    requires InBounds(Submitted(c, task), l2Size, hyperSize)
    ensures DeskOk(d.(requests := d.requests + [c], arrived := d.arrived + [c]), history, n, task, l2Size, hyperSize)
  {
  }

  /** The head of a list is given to the driver while the task object is free. */
  lemma Starts(d: Desk, history: seq<Request>, n: nat, task: nat, l2Size: nat, hyperSize: nat)
    requires n <= |history| && d.requests != []
    requires Unstarted(d, history, n, task, l2Size, hyperSize)
    ensures DeskOk(d.(head := |history|), history + [Submitted(d.requests[0], task)], n, task, l2Size, hyperSize)
  {
  }

  lemma NothingToStart(d: Desk, history: seq<Request>, n: nat, task: nat, l2Size: nat, hyperSize: nat)
    requires Unstarted(d, history, n, task, l2Size, hyperSize) && d.requests == []
    ensures DeskOk(d, history, n, task, l2Size, hyperSize)
  {
  }

  function HeadDone(d: Desk, n: nat): Desk
    requires d.requests != []
  {
    d.(requests := d.requests[1..], done := d.done + [d.requests[0]], places := d.places + [n])
  }

  /** The task of the head comes back: the head is finished. */
  lemma Finishes(d: Desk, history: seq<Request>, n: nat, task: nat, l2Size: nat, hyperSize: nat)
    requires DeskOk(d, history, n, task, l2Size, hyperSize) && n < |history| && history[n].id == task
    ensures d.requests != [] && d.head == n
    ensures Unstarted(HeadDone(d, n), history, n + 1, task, l2Size, hyperSize)
  {
  }

  /** Another task comes back. */
  lemma Ignores(d: Desk, history: seq<Request>, n: nat, task: nat, l2Size: nat, hyperSize: nat)
    requires DeskOk(d, history, n, task, l2Size, hyperSize) && n < |history| && history[n].id != task
    ensures DeskOk(d, history, n + 1, task, l2Size, hyperSize)
  {
  }

  /** Somebody else uses the driver. */
  lemma Shares(d: Desk, history: seq<Request>, n: nat, task: nat, l2Size: nat, hyperSize: nat, r: Request)
    requires DeskOk(d, history, n, task, l2Size, hyperSize) && n <= |history| && r.id != task
    ensures DeskOk(d, history + [r], n, task, l2Size, hyperSize)
  {
  }

  function ReqIds(requests: seq<ClusterRequest>): seq<int> {
    seq(|requests|, i requires 0 <= i < |requests| => requests[i].id)
  }

  class Server {
    const driver: Driver
    const task: nat
    // the request list: links and contents of the requests by address, where it starts
    // and ends, and what is on it; the head is the one the driver works on
    var reqNext: map<int, int>
    var reqData: map<int, ClusterRequest>
    var firstReq: int
    var lastReq: int
    ghost var requests: seq<ClusterRequest>
    // the argument of the task's callback
    var arg: int
    // requests marked done and notified to the cluster, oldest first
    var done: seq<ClusterRequest>
    // how many of the driver's signalled tasks have had their callback run
    var delivered: nat

    ghost var arrived: seq<ClusterRequest>
    ghost var head: int
    ghost var places: seq<nat>

    ghost function View(): Desk
      reads this
    {
      Desk(requests, done, arrived, head, places)
    }

    ghost predicate Listed()
      reads this, driver
    {
      DeskOk(View(), driver.log.history, delivered, task, driver.l2.Length, driver.hyper.Length)
    }

    /** The list links the requests. */
    ghost predicate Queued()
      reads this
    {
      task != 0 && LinkedQueue.QueueOk(reqNext, reqData, firstReq, lastReq, ReqIds(requests), requests)
    }

    ghost predicate Valid()
      reads this, driver, driver.l2, driver.hyper, driver.temp
    {
      driver.Valid() && delivered <= |driver.signalled| && Listed() && Queued() && (requests != [] ==> arg == firstReq)
    }

    constructor (driver: Driver, task: nat)
      requires driver.Valid() && driver.log.history == [] && driver.signalled == [] && task != 0
      ensures Valid() && this.driver == driver && this.task == task && arrived == [] && done == []
    {
      this.driver, this.task := driver, task;
      reqNext, reqData, firstReq, lastReq, arg := map[], map[], 0, 0, 0;
      requests, done, delivered, arrived, head, places := [], [], 0, [], 0, [];
    }

    /** The task object is not with the driver. */
    lemma TaskIsFree()
      requires driver.Valid() && delivered <= |driver.signalled|
      requires Unused(driver.log.history, delivered, task)
      ensures !driver.Busy(task)
    {
      hide MemoryAt, Apply, LinkedQueue.QueueOk, InTransit, DirectTransit, BurstOk, InBounds, AllFit, WritesFit;
      var history, queue := driver.log.history, driver.pendingTasks;
      assert driver.currentTask.Some? ==> driver.currentTask == Some(history[|driver.signalled|].id);
      assert forall i :: 0 <= i < |queue| ==> queue[i].id == history[|history| - |queue| + i].id;
    }

    ghost predicate Free()
      reads this, driver, driver.l2, driver.hyper, driver.temp
    {
      && driver.Valid() && delivered <= |driver.signalled| && Queued()
      && Unstarted(View(), driver.log.history, delivered, task, driver.l2.Length, driver.hyper.Length)
    }

    lemma HeadFits()
      requires Free() && requests != []
      ensures Fits(driver.Mem(), Submitted(requests[0], task)) && delivered <= |driver.log.history|
    {
    }

    lemma HeadLinked()
      requires Queued()
      ensures firstReq != 0 <==> requests != []
      ensures firstReq != 0 ==>
                && firstReq in reqNext && firstReq in reqData && reqData[firstReq] == requests[0]
                && LinkedQueue.QueueOk(reqNext, reqData, reqNext[firstReq], lastReq, ReqIds(requests[1..]), requests[1..])
    {
      LinkedQueue.Pop(reqNext, reqData, firstReq, lastReq, ReqIds(requests), requests);
      if requests != [] {
        assert ReqIds(requests[1..]) == ReqIds(requests)[1..];
      }
    }

    lemma LinkedMore(req: ClusterRequest)
      requires Queued() && req.id != 0 && req.id !in ReqIds(requests)
      ensures LinkedQueue.QueueOk(LinkedQueue.Appended(reqNext, firstReq, lastReq, req.id), reqData[req.id := req],
                                  if firstReq != 0 then firstReq else req.id, req.id,
                                  ReqIds(requests + [req]), requests + [req])
    {
      assert ReqIds(requests + [req]) == ReqIds(requests) + [req.id];
      LinkedQueue.Push(reqNext, reqData, firstReq, lastReq, ReqIds(requests), requests, req.id, req);
    }

    /** Gives the head of the list to the driver, with the request as the argument of
        the task's callback. The task object is free then. */
    method Exec(req: int)
      requires Free() && req != 0 && req == firstReq
      modifies this`head, this`arg, driver, driver.l2, driver.temp
      ensures Valid() && req in reqData
      ensures reqData[req] == requests[0]
      ensures var c := requests[0];
        driver.log.history ==
        old(driver.log.history) + [HyperSpec.Request(task, c.isWrite, c.addr, c.hyperAddr, c.size, c.is2d, c.stride, c.length)]
    {
      hide DeskOk, Driver.Valid, Driver.Busy, InBounds, LinkedQueue.QueueOk, ReqIds;
      HeadLinked();
      TaskIsFree();
      HeadFits();
      Starts(View(), driver.log.history, delivered, task, driver.l2.Length, driver.hyper.Length);
      head := |driver.log.history|;
      arg := req;
      Submit(reqData[req]);
    }

    method Submit(req: ClusterRequest)
      requires driver.Valid() && task != 0 && !driver.Busy(task) && Fits(driver.Mem(), Submitted(req, task))
      modifies driver, driver.l2, driver.temp
      ensures driver.Valid() && driver.log.history == old(driver.log.history) + [Submitted(req, task)]
      ensures old(driver.signalled) <= driver.signalled
    {
      var channel := driver.rx + (if req.isWrite then 1 else 0);
      if req.is2d {
        driver.Copy2d(channel, req.addr, req.hyperAddr, req.size, req.stride, req.length, task, Submitted(req, task));
      } else {
        driver.Copy(channel, req.addr, req.hyperAddr, req.size, task, Submitted(req, task));
      }
    }

    /** A request arrives from the cluster. */
    method Request(req: ClusterRequest)
      requires Valid() && InBounds(Submitted(req, task), driver.l2.Length, driver.hyper.Length)
      requires req.id != 0 && req.id !in ReqIds(requests)
      modifies this, driver, driver.l2, driver.temp
      ensures Valid() && arrived == old(arrived) + [req]
      ensures requests == old(requests) + [req] && done == old(done)
      ensures old(requests) != [] ==> driver.log == old(driver.log)
      ensures old(requests) == [] ==>
                var c := req;
                driver.log.history ==
                old(driver.log.history) + [HyperSpec.Request(task, c.isWrite, c.addr, c.hyperAddr, c.size, c.is2d, c.stride, c.length)]
    {
      hide DeskOk, Unstarted, Driver.Valid, InBounds, LinkedQueue.QueueOk, ReqIds;
      HeadLinked();
      LinkedMore(req);
      Arrives(req);
      var isFirst := firstReq == 0;
      Append(req);
      requests, arrived := requests + [req], arrived + [req];
      if isFirst {
        Exec(req.id);
      }
    }

    lemma Arrives(req: ClusterRequest)
      requires Valid() && InBounds(Submitted(req, task), driver.l2.Length, driver.hyper.Length)
      ensures var d := View().(requests := requests + [req], arrived := arrived + [req]);
              if requests == [] then
                Unstarted(d, driver.log.history, delivered, task, driver.l2.Length, driver.hyper.Length)
              else
                DeskOk(d, driver.log.history, delivered, task, driver.l2.Length, driver.hyper.Length)
    {
      hide Driver.Valid, InBounds, LinkedQueue.QueueOk;
      if requests != [] {
        Waits(View(), driver.log.history, delivered, task, driver.l2.Length, driver.hyper.Length, req);
      }
    }

    /** Links a request behind the last. */
    method Append(req: ClusterRequest)
      modifies this`reqNext, this`reqData, this`firstReq, this`lastReq
      ensures reqNext == LinkedQueue.Appended(old(reqNext), old(firstReq), old(lastReq), req.id)
      ensures firstReq == (if old(firstReq) != 0 then old(firstReq) else req.id) && lastReq == req.id
      ensures reqData == old(reqData)[req.id := req]
    {
      if firstReq != 0 {
        reqNext := reqNext[lastReq := req.id];
      } else {
        firstReq := req.id;
      }
      lastReq := req.id;
      reqNext := reqNext[req.id := 0];
      reqData := reqData[req.id := req];
    }

    /** The scheduler runs the callback of the oldest signalled task. For the
        cluster's task that marks the request done which is the callback's argument, the
        head of the list, and starts the next. */
    method Deliver()
      requires Valid() && delivered < |driver.signalled|
      modifies this, driver, driver.l2, driver.temp
      ensures Valid() && arrived == old(arrived)
      ensures delivered == old(delivered) + 1
      ensures if old(driver.signalled[delivered]) == task then
                && old(requests) != [] && old(arg) in old(reqData) && old(reqData)[old(arg)] == old(requests)[0]
                && done == old(done) + [old(requests)[0]] && requests == old(requests)[1..]
                && (if requests == [] then driver.log.history == old(driver.log.history)
                    else
                      var c := requests[0];
                      driver.log.history ==
                      old(driver.log.history) + [HyperSpec.Request(task, c.isWrite, c.addr, c.hyperAddr, c.size, c.is2d, c.stride, c.length)])
              else
                && done == old(done) && requests == old(requests) && driver.log == old(driver.log)
                && driver.signalled == old(driver.signalled) && driver.Measure() == old(driver.Measure())
    {
      hide DeskOk, Unstarted, Driver.Valid, LinkedQueue.QueueOk, ReqIds;
      var callback := driver.signalled[delivered];
      Signalled();
      HeadLinked();
      ghost var history := driver.log.history;
      if callback == task {
        Finishes(View(), history, delivered, task, driver.l2.Length, driver.hyper.Length);
        delivered := delivered + 1;
        Done(arg);
      } else {
        Ignores(View(), history, delivered, task, driver.l2.Length, driver.hyper.Length);
        delivered := delivered + 1;
      }
    }

    lemma Signalled()
      requires driver.Valid() && delivered < |driver.signalled|
      ensures delivered < |driver.log.history| && driver.signalled[delivered] == driver.log.history[delivered].id
    {
      var history := driver.log.history;
      assert |driver.signalled| <= |history| && driver.signalled == Ids(history[..|driver.signalled|]);
    }

    method Done(req: int)
      requires driver.Valid() && 0 < delivered <= |driver.signalled| && requests != []
      requires Queued() && req == firstReq
      requires Unstarted(HeadDone(View(), delivered - 1), driver.log.history, delivered, task,
                         driver.l2.Length, driver.hyper.Length)
      modifies this`reqNext, this`firstReq, this`requests, this`done, this`places, this`head, this`arg,
               driver, driver.l2, driver.temp
      ensures Valid() && done == old(done) + [old(requests)[0]] && requests == old(requests)[1..]
      ensures if requests == [] then driver.log.history == old(driver.log.history)
              else
                var c := requests[0];
                driver.log.history ==
                old(driver.log.history) + [HyperSpec.Request(task, c.isWrite, c.addr, c.hyperAddr, c.size, c.is2d, c.stride, c.length)]
    {
      hide DeskOk, Unstarted, Driver.Valid, LinkedQueue.QueueOk, ReqIds;
      HeadLinked();
      done := done + [reqData[req]];
      firstReq := reqNext[req];
      places, requests := places + [delivered - 1], requests[1..];
      HeadLinked();
      if firstReq != 0 {
        Exec(firstReq);
      } else {
        NothingToStart(View(), driver.log.history, delivered, task, driver.l2.Length, driver.hyper.Length);
      }
    }

    /** A client writes L2, but not where the running request is. */
    method WriteL2(a: nat, bytes: seq<Byte>)
      requires Valid() && a + |bytes| <= driver.l2.Length
      requires driver.currentTask.Some? ==> Apart(driver.at.req, a, |bytes|)
      modifies driver, driver.l2
      ensures Valid() && driver.l2[..] == Splice(old(driver.l2[..]), a, bytes)
      ensures driver.log == old(driver.log).(writes := old(driver.log.writes) + [ClientWrite(|driver.signalled|, a, bytes)])
    {
      driver.WriteL2(a, bytes);
    }

    /** A hardware completion at any moment. */
    method Interrupt()
      requires Valid() && driver.inFlight.Some?
      modifies driver, driver.l2, driver.hyper, driver.temp
      ensures Valid() && driver.log.history == old(driver.log.history)
      ensures driver.Measure() < old(driver.Measure()) && old(driver.signalled) <= driver.signalled
    {
      driver.Complete();
    }

    /** While a request is unfinished, a callback or a transfer is outstanding. */
    lemma Outstanding()
      requires Valid() && requests != [] && delivered == |driver.signalled|
      ensures driver.inFlight.Some?
    {
      driver.BetweenInterrupts();
      if driver.currentTask.None? {
        driver.Idle();
      }
    }

    /** Every request of the cluster is finished, in arrival order and once, however
        completions and callbacks interleave: `early` says, as long as it lasts, whether
        the next completion comes before a callback that is due. */
    method RunToIdle(early: seq<bool>)
      requires Valid()
      modifies this, driver, driver.l2, driver.hyper, driver.temp
      ensures Valid() && requests == [] && arrived == old(arrived) && done == old(arrived)
      ensures forall i :: 0 <= i < |done| ==>
                WasSignalled(i) && Copied(done[i], MemoryAt(driver.log, places[i]), driver.log.snapshots[places[i]])
    {
      hide DeskOk, Unstarted, Driver.Valid, LinkedQueue.QueueOk, ReqIds, Driver.Measure, Copied, MemoryAt;
      var i := 0;
      driver.MeasureNatural();
      HeadLinked();
      while firstReq != 0
        invariant firstReq != 0 <==> requests != []
        invariant Valid() && arrived == old(arrived) && driver.Measure() >= 0
        decreases |requests|, driver.Measure(), |driver.signalled| - delivered
      {
        if delivered == |driver.signalled| {
          Outstanding();
        }
        if delivered == |driver.signalled| || (driver.inFlight.Some? && i < |early| && early[i]) {
          Interrupt();
        } else {
          Deliver();
        }
        i := i + 1;
        driver.MeasureNatural();
        HeadLinked();
      }
      AllDone();
      AllCopied();
    }

    lemma AllCopied()
      requires Valid()
      ensures forall i :: 0 <= i < |done| ==>
                WasSignalled(i) && Copied(done[i], MemoryAt(driver.log, places[i]), driver.log.snapshots[places[i]])
    {
      forall i | 0 <= i < |done|
        ensures WasSignalled(i) && Copied(done[i], MemoryAt(driver.log, places[i]), driver.log.snapshots[places[i]])
      {
        hide *;
        RequestCopied(i);
      }
    }

    lemma AllDone()
      requires Valid() && requests == []
      ensures done == arrived
    {
    }

    /** A request of the fabric controller itself, with a task of its own. */
    method FcCopy(channel: nat, addr: nat, hyperAddr: nat, size: nat, event: nat, ghost r: HyperSpec.Request)
      requires Valid() && event != task && event != 0 && !driver.Busy(event)
      requires Fits(driver.Mem(), r) && !r.is2d && channel == driver.rx + (if r.write then 1 else 0)
      requires addr == r.addr && hyperAddr == r.hyperAddr && size == r.size && event == r.id
      modifies driver, driver.l2, driver.temp
      ensures Valid() && driver.log.history == old(driver.log.history) + [r]
    {
      Shares(View(), driver.log.history, delivered, task, driver.l2.Length, driver.hyper.Length, r);
      driver.Copy(channel, addr, hyperAddr, size, event, r);
    }

    /** Requests are finished in the order they arrived, each once; while one
        is unfinished the task object is with the driver or on its way back for
        exactly that one, the head; and a finished request's bytes had been
        copied, after those of everything asked of the driver before it, when
        its task was signalled. */
    lemma ServedInOrder(i: nat)
      requires Valid()
      ensures done <= arrived && arrived[|done|..] == requests
      ensures requests != [] ==> OnlyUse(driver.log.history, delivered, task, head)
      ensures requests == [] ==> !driver.Busy(task)
      ensures i < |done| ==>
                WasSignalled(i) && Copied(done[i], MemoryAt(driver.log, places[i]), driver.log.snapshots[places[i]])
    {
      hide Driver.Valid, Copied, MemoryAt, LinkedQueue.QueueOk;
      if requests == [] {
        TaskIsFree();
      }
      if i < |done| {
        RequestCopied(i);
      }
    }

    /** Request `i` of those finished has its place in the driver's history, and was
        signalled there. */
    ghost predicate WasSignalled(i: nat)
      reads this, driver
    {
      && i < |done| == |places| && places[i] < |driver.signalled| && places[i] < |driver.log.history|
      && places[i] < |driver.log.snapshots| && driver.signalled[places[i]] == task
      && AllFit(driver.log.initial, driver.log.history) && WritesFit(driver.log.writes, |driver.log.initial.l2|)
    }

    lemma RequestCopied(i: nat)
      requires Valid() && i < |done|
      ensures WasSignalled(i) && Copied(done[i], MemoryAt(driver.log, places[i]), driver.log.snapshots[places[i]])
    {
      hide Driver.Valid, Copied, MemoryAt, LinkedQueue.QueueOk, Apply;
      driver.SnapshotIs(places[i]);
      SubmittedCopies(done[i], task, MemoryAt(driver.log, places[i]));
    }

    /** What has been done for a request of the cluster when its task was signalled, by its
        fields: a write has brought L2 to the HyperRAM, a read the HyperRAM to L2, each byte
        to its place, and nothing else has changed. */
    lemma RequestServed(i: nat)
      requires Valid() && i < |done|
      ensures WasSignalled(i)
      ensures var c, was, now := done[i], MemoryAt(driver.log, places[i]), driver.log.snapshots[places[i]];
        var at := Places(c.hyperAddr, c.size, c.is2d, c.stride, c.length);
        && |now.l2| == |was.l2| && |now.hyper| == |was.hyper| && c.addr + c.size <= |was.l2|
        && (c.isWrite ==>
              && now.l2 == was.l2
              && (forall k :: 0 <= k < c.size && NoneAfter(at, k) ==>
                    0 <= at[k] < |was.hyper| && now.hyper[at[k]] == was.l2[c.addr + k]))
        && (!c.isWrite ==>
              && now.hyper == was.hyper
              && (forall k :: 0 <= k < c.size ==> 0 <= at[k] < |was.hyper| && now.l2[c.addr + k] == was.hyper[at[k]]))
    {
      hide Driver.Valid, MemoryAt, LinkedQueue.QueueOk, Places, DeskOk, WasSignalled, NoneAfter;
      RequestCopied(i);
    }
  }
}
