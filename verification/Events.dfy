/** The event scheduler: a pool of events that are on the free list, in the
    scheduler queue, or with a client, and share one `next` field. */
module Events {
  import opened EventChain
  import opened OrderedLog

  /** How a client got an event: to be run once, to be pushed again and again, or to
      wait for. */
  datatype Role = Once | Permanent | Blocking

  /** What a client does, from a callback or an interrupt. A client that waits for an
      event executes the scheduler meanwhile, once a round. One that gives its event to
      a service lends it: the service uses it with a callback of its own, and at the end
      gives it back and pushes it. */
  datatype Action =
    | Get(callback: int)
    | GetPermanent(callback: int)
    | GetBlocking
    | Push(event: int)
    | PushCallback(callback: int)
    | Lend(event: int, callback: int)
    | GiveBack(event: int)
    | Wait(event: int, rounds: seq<Round>)

  /** What happens during one call of the scheduler: what the interrupt does that it
      waits for if its queue is empty, and what the callbacks do that it calls. */
  datatype Round = Round(interrupt: seq<Action>, script: seq<Body>)

  datatype Body = Body(actions: seq<Action>)

  /** A call that an event stands for. */
  datatype Call = Call(event: int, callback: int)

  /** The events that services use, and the pending flags and callbacks saved in them. */
  datatype Loans = Loans(events: set<int>, pending: set<int>, callbacks: map<int, int>)

  /** The free list and the queue link different events. */
  ghost predicate Lists(next: map<int, int>, firstFree: int, free: seq<int>, first: int, last: int, queue: seq<int>) {
    && Chain(next, firstFree, free) && Distinct(free)
    && Chain(next, first, queue) && Distinct(queue)
    && (forall e <- free :: e !in queue)
    && (|queue| > 0 ==> last == queue[|queue| - 1])
  }

  /** Every event of the pool is on the free list or with a client; the flags of a
      free event are clear, and those of the others follow their role, or are saved
      while the event is lent. */
  ghost predicate Flags(pool: set<int>, free: seq<int>, queue: seq<int>, roles: map<int, Role>, busy: set<int>,
                        keep: set<int>, pending: set<int>, loans: Loans) {
    && (forall e :: e in pool <==> e in free || e in roles)
    && (forall e <- free :: e !in keep && e !in pending && e !in roles)
    && (forall e :: e in busy <==> e in queue)
    && (forall e <- queue :: e in roles && (roles[e].Blocking? || e in loans.events ==> e in pending))
    && (forall e <- roles :: (e in keep <==> roles[e].Permanent?)
                             && (e in pending ==> roles[e].Blocking? || e in loans.events))
    && (forall e <- loans.events :: e in roles && !roles[e].Permanent? && e in loans.callbacks)
    && (forall e :: e in loans.pending <==> e in loans.events && e in roles && roles[e].Blocking?)
    && 0 !in pool
  }

  function Calls(queue: seq<int>, callbacks: map<int, int>): (calls: seq<Call>)
    requires forall i :: 0 <= i < |queue| ==> queue[i] in callbacks
    ensures |calls| == |queue|
  {
    seq(|queue|, i requires 0 <= i < |queue| => Call(queue[i], callbacks[queue[i]]))
  }

  /** What was pushed is what has run, and then what is queued, with the callback it
      was pushed with. */
  ghost predicate Logged(pushed: seq<Call>, ran: seq<Call>, queue: seq<int>, callbacks: map<int, int>) {
    && (forall i :: 0 <= i < |queue| ==> queue[i] in callbacks)
    && pushed == ran + Calls(queue, callbacks)
  }

  // ----- what has been done

  /** How many of the calls have a callback. */
  function WithCallback(calls: seq<Call>): (n: nat)
    ensures n <= |calls|
  {
    if calls == [] then 0
    else WithCallback(calls[..|calls| - 1]) + if calls[|calls| - 1].callback != 0 then 1 else 0
  }

  lemma WithCallbackMore(calls: seq<Call>, c: Call)
    ensures WithCallback(calls + [c]) == WithCallback(calls) + if c.callback != 0 then 1 else 0
  {
    assert (calls + [c])[..|calls|] == calls;
  }

  /** All that callbacks do, one after the other. */
  function AllActions(script: seq<Body>): seq<Action> {
    if script == [] then [] else AllActions(script[..|script| - 1]) + script[|script| - 1].actions
  }

  lemma AllActionsMore(script: seq<Body>, n: nat)
    requires n < |script|
    ensures AllActions(script[..n + 1]) == AllActions(script[..n]) + script[n].actions
  {
    assert script[..n + 1][..n] == script[..n];
  }

  /** All that the interrupts do that the rounds wait for. */
  function Interrupts(rounds: seq<Round>): seq<Action> {
    if rounds == [] then [] else Interrupts(rounds[..|rounds| - 1]) + rounds[|rounds| - 1].interrupt
  }

  lemma InterruptsMore(rounds: seq<Round>, a: nat, n: nat)
    requires a <= n < |rounds|
    ensures Interrupts(rounds[a..n + 1]) == Interrupts(rounds[a..n]) + rounds[n].interrupt
  {
    assert rounds[a..n + 1][..n - a] == rounds[a..n];
  }

  /** None of them waits. */
  predicate Quick(actions: seq<Action>) {
    forall a <- actions :: !a.Wait?
  }

  /** What a loop over the queue has called and done: each call with a callback has done the
      next part of the script, as far as that lasts; if none of the callbacks waits, nothing else
      was called or done. */
  ghost predicate CalledSo(script: seq<Body>, used: nat, own: seq<Call>, ranWas: seq<Call>, ran: seq<Call>,
                           logWas: seq<Action>, log: seq<Action>) {
    && used == (if WithCallback(own) < |script| then WithCallback(own) else |script|)
    && Did(ranWas, own, ran) && Did(logWas, AllActions(script[..used]), log)
    && ((forall b <- script :: Quick(b.actions)) ==>
          ran == ranWas + own && log == logWas + AllActions(script[..used]))
  }

  lemma NoneCalled(script: seq<Body>, ran: seq<Call>, log: seq<Action>)
    ensures CalledSo(script, 0, [], ran, ran, log, log)
  {
    DidNothing(ran, ran);
    DidNothing(log, log);
  }

  lemma OneCalled(script: seq<Body>, before: nat, used: nat, own: seq<Call>, call: Call,
                  ranWas: seq<Call>, ranBefore: seq<Call>, ran: seq<Call>,
                  logWas: seq<Action>, logBefore: seq<Action>, log: seq<Action>)
    requires CalledSo(script, before, own, ranWas, ranBefore, logWas, logBefore)
    requires ranBefore + [call] <= ran
    requires used == before + if call.callback != 0 && before < |script| then 1 else 0
    requires used == before ==> log == logBefore && ran == ranBefore + [call]
    requires used > before ==>
               && Did(logBefore, script[before].actions, log)
               && (Quick(script[before].actions) ==>
                     log == logBefore + script[before].actions && ran == ranBefore + [call])
    ensures CalledSo(script, used, own + [call], ranWas, ran, logWas, log)
  {
    hide Did, Quick, WithCallback, AllActions;
    WithCallbackMore(own, call);
    DidFirst(ranBefore, call, ran);
    DidMore(ranWas, own, ranBefore, [call], ran);
    if used > before {
      AllActionsMore(script, before);
      DidMore(logWas, AllActions(script[..before]), logBefore, script[before].actions, log);
      assert script[before] in script;
    }
  }

  lemma OneStuck(script: seq<Body>, used: nat)
    requires used < |script| && !Quick(script[used].actions)
    ensures !(forall b <- script :: Quick(b.actions))
  {
    assert script[used] in script;
  }

  lemma CalledMeans(script: seq<Body>, used: nat, own: seq<Call>, ranWas: seq<Call>, ran: seq<Call>,
                    logWas: seq<Action>, log: seq<Action>)
    requires CalledSo(script, used, own, ranWas, ran, logWas, log)
    ensures used == if WithCallback(own) < |script| then WithCallback(own) else |script|
    ensures Did(ranWas, own, ran) && Did(logWas, AllActions(script[..used]), log)
    ensures (forall b <- script :: Quick(b.actions)) ==> ran == ranWas + own && log == logWas + AllActions(script[..used])
  {
  }

  // ----- the list operations

  lemma PopFree(next: map<int, int>, firstFree: int, free: seq<int>, first: int, last: int, queue: seq<int>)
    requires Lists(next, firstFree, free, first, last, queue)
    ensures firstFree != 0 <==> |free| > 0
    ensures firstFree != 0 ==> firstFree == free[0] && firstFree in next && firstFree !in free[1..]
    ensures firstFree != 0 ==> Lists(next, next[firstFree], free[1..], first, last, queue)
  {
  }

  lemma PushFree(next: map<int, int>, firstFree: int, free: seq<int>, first: int, last: int, queue: seq<int>, e: int)
    requires Lists(next, firstFree, free, first, last, queue) && e !in free && e !in queue && e != 0
    ensures Lists(next[e := firstFree], e, [e] + free, first, last, queue)
  {
    ChainPush(next, firstFree, free, e);
    ChainFrame(next, e, firstFree, first, queue);
  }

  /** The links are a free list and a queue. */
  ghost predicate Linked(next: map<int, int>, firstFree: int, first: int, last: int, queue: seq<int>) {
    exists free :: Lists(next, firstFree, free, first, last, queue)
  }

  /** Giving an event back keeps the lists exactly when it is neither free yet nor
      queued. */
  lemma ReleaseOnce(next: map<int, int>, firstFree: int, free: seq<int>, first: int, last: int, queue: seq<int>, e: int)
    requires Lists(next, firstFree, free, first, last, queue) && e != 0
    ensures Linked(next[e := firstFree], e, first, last, queue) <==> e !in free && e !in queue
  {
    var next' := next[e := firstFree];
    if Linked(next', e, first, last, queue) {
      var walk :| Lists(next', e, walk, first, last, queue);
      assert e in walk && e !in queue by { assert walk[0] == e; }
      if e in free {
        var k :| 0 <= k < |free| && free[k] == e;
        NoListTwice(next, firstFree, free, k, walk);
      }
    }
    if e !in free && e !in queue {
      PushFree(next, firstFree, free, first, last, queue, e);
    }
  }

  /** The links after an event was pushed. */
  function Pushed(next: map<int, int>, first: int, last: int, e: int): map<int, int> {
    if first == 0 then next[e := 0] else next[e := 0][last := e]
  }

  lemma ListEnqueue(next: map<int, int>, firstFree: int, free: seq<int>, first: int, last: int, queue: seq<int>, e: int)
    requires Lists(next, firstFree, free, first, last, queue) && e !in free && e !in queue && e != 0
    ensures Lists(Pushed(next, first, last, e), firstFree, free,
                  if first == 0 then e else first, e, queue + [e])
  {
    var n := |queue|;
    ChainInsert(next, first, queue, n, e);
    assert InsertAt(queue, n, e) == queue + [e];
    ChainFrame(next, e, 0, firstFree, free);
    if n > 0 {
      ChainAt(next, first, queue, 0);
      assert last in queue;
      ChainFrame(next[e := 0], last, e, firstFree, free);
      assert next[e := 0][last := e] == next[last := e][e := 0];
    }
  }

  /** Pushing an event keeps the lists exactly when it is neither free nor queued. */
  lemma PushOnce(next: map<int, int>, firstFree: int, free: seq<int>, first: int, last: int, queue: seq<int>, e: int)
    requires Lists(next, firstFree, free, first, last, queue) && e != 0
    ensures Linked(Pushed(next, first, last, e), firstFree, if first == 0 then e else first, e, queue + [e])
            <==> e !in free && e !in queue
  {
    var next', q := Pushed(next, first, last, e), queue + [e];
    if e in queue {
      NotDistinct(queue, e);
    } else if e !in free {
      ListEnqueue(next, firstFree, free, first, last, queue, e);
    } else if Linked(next', firstFree, if first == 0 then e else first, e, q) {
      var walk :| Lists(next', firstFree, walk, if first == 0 then e else first, e, q);
      var k :| 0 <= k < |free| && free[k] == e;
      FreeStillWalked(next, firstFree, free, first, last, queue, k, walk);
    }
  }

  lemma NotDistinct(queue: seq<int>, e: int)
    requires e in queue
    ensures !Distinct(queue + [e])
  {
    var k :| 0 <= k < |queue| && queue[k] == e;
    assert (queue + [e])[k] == (queue + [e])[|queue|];
  }

  /** A free event that is pushed stays on the free list. */
  lemma FreeStillWalked(next: map<int, int>, firstFree: int, free: seq<int>, first: int, last: int, queue: seq<int>,
                        k: nat, walk: seq<int>)
    requires Lists(next, firstFree, free, first, last, queue) && k < |free|
    requires Chain(Pushed(next, first, last, free[k]), firstFree, walk)
    ensures free[k] in walk
  {
    var e := free[k];
    ChainAt(next, firstFree, free, 0);
    if first == 0 {
      WalkTo(next, firstFree, free, k, 0, 0, walk);
    } else {
      assert |queue| > 0 && last in queue && e in free;
      ChainFrame(next, last, e, firstFree, free);
      assert next[e := 0][last := e] == next[last := e][e := 0];
      WalkTo(next[last := e], firstFree, free, k, 0, 0, walk);
    }
    assert walk[k] == walk[k..][0] == e;
  }

  lemma ListDequeue(next: map<int, int>, firstFree: int, free: seq<int>, first: int, last: int, queue: seq<int>)
    requires Lists(next, firstFree, free, first, last, queue)
    ensures first != 0 <==> |queue| > 0
    ensures first != 0 ==> first == queue[0] && first in next && first !in queue[1..]
    ensures first != 0 ==> Lists(next, firstFree, free, next[first], last, queue[1..])
  {
  }

  // ----- the flags

  lemma FlagsTaken(pool: set<int>, free: seq<int>, queue: seq<int>, roles: map<int, Role>, busy: set<int>,
                   keep: set<int>, pending: set<int>, loans: Loans, role: Role)
    requires Flags(pool, free, queue, roles, busy, keep, pending, loans) && Distinct(free) && |free| > 0
    ensures var e := free[0];
            && e !in roles && e !in busy && e !in queue
            && Flags(pool, free[1..], queue, roles[e := role], busy,
                     if role.Permanent? then keep + {e} else keep, if role.Blocking? then pending + {e} else pending,
                     loans)
  {
    var e := free[0];
    assert forall f :: f in free <==> f == e || f in free[1..];
  }

  lemma FlagsPushed(pool: set<int>, free: seq<int>, queue: seq<int>, roles: map<int, Role>, busy: set<int>,
                    keep: set<int>, pending: set<int>, loans: Loans, e: int)
    requires Flags(pool, free, queue, roles, busy, keep, pending, loans) && e in roles
    requires roles[e].Blocking? || e in loans.events ==> e in pending
    ensures Flags(pool, free, queue + [e], roles, busy + {e}, keep, pending, loans)
  {
  }

  /** An event leaves the queue to be run: one that is run once becomes free, unless a
      service uses it. */
  lemma FlagsRun(pool: set<int>, free: seq<int>, queue: seq<int>, roles: map<int, Role>, busy: set<int>,
                 keep: set<int>, pending: set<int>, loans: Loans)
    requires Flags(pool, free, queue, roles, busy, keep, pending, loans) && Distinct(queue) && |queue| > 0
    ensures var e := queue[0];
            && e in roles && e != 0 && e !in free
            && (roles[e].Once? && e !in loans.events <==> e !in keep && e !in pending)
            && (if roles[e].Once? && e !in loans.events then
                  Flags(pool, [e] + free, queue[1..], roles - {e}, busy - {e}, keep, pending - {e}, loans)
                else Flags(pool, free, queue[1..], roles, busy - {e}, keep, pending - {e}, loans))
  {
    var e := queue[0];
    assert forall f :: f in queue <==> f == e || f in queue[1..];
  }

  lemma FlagsWaited(pool: set<int>, free: seq<int>, queue: seq<int>, roles: map<int, Role>, busy: set<int>,
                    keep: set<int>, pending: set<int>, loans: Loans, e: int)
    requires Flags(pool, free, queue, roles, busy, keep, pending, loans)
    requires e in roles && roles[e].Blocking? && e !in pending && e !in loans.pending
    ensures e !in queue && e !in free && e != 0
    ensures Flags(pool, [e] + free, queue, roles - {e}, busy, keep, pending, loans)
  {
  }

  /** The event is lent: its pending flag and its callback are saved, its flags are set
      for a service to wait for, and that it is kept is forgotten. */
  function LoanMade(loans: Loans, e: int, callback: int, pending: bool): Loans {
    Loans(loans.events + {e}, if pending then loans.pending + {e} else loans.pending - {e},
          loans.callbacks[e := callback])
  }

  function RoleLent(role: Role): Role {
    if role.Blocking? then Blocking else Once
  }

  lemma FlagsLent(pool: set<int>, free: seq<int>, queue: seq<int>, roles: map<int, Role>, busy: set<int>,
                  keep: set<int>, pending: set<int>, loans: Loans, e: int, callback: int)
    requires Flags(pool, free, queue, roles, busy, keep, pending, loans)
    requires e in roles && e !in busy && e !in loans.events && (roles[e].Blocking? ==> e in pending)
    ensures Flags(pool, free, queue, roles[e := RoleLent(roles[e])], busy, keep - {e}, pending + {e},
                  LoanMade(loans, e, callback, e in pending))
  {
  }

  /** The event is given back, with the flag and the callback that were saved. */
  function LoanEnded(loans: Loans, e: int): Loans {
    loans.(events := loans.events - {e}, pending := loans.pending - {e})
  }

  lemma FlagsGivenBack(pool: set<int>, free: seq<int>, queue: seq<int>, roles: map<int, Role>, busy: set<int>,
                       keep: set<int>, pending: set<int>, loans: Loans, e: int)
    requires Flags(pool, free, queue, roles, busy, keep, pending, loans) && e in loans.events && e !in busy
    ensures e in roles && e in loans.callbacks && (roles[e].Blocking? <==> e in loans.pending)
    ensures Flags(pool, free, queue, roles, busy, keep,
                  if e in loans.pending then pending + {e} else pending - {e}, LoanEnded(loans, e))
  {
  }

  // ----- the log

  lemma LogPush(pushed: seq<Call>, ran: seq<Call>, queue: seq<int>, callbacks: map<int, int>, e: int)
    requires Logged(pushed, ran, queue, callbacks) && e in callbacks
    ensures Logged(pushed + [Call(e, callbacks[e])], ran, queue + [e], callbacks)
  {
    assert Calls(queue + [e], callbacks) == Calls(queue, callbacks) + [Call(e, callbacks[e])];
  }

  lemma LogRun(pushed: seq<Call>, ran: seq<Call>, queue: seq<int>, callbacks: map<int, int>)
    requires Logged(pushed, ran, queue, callbacks) && |queue| > 0
    ensures queue[0] in callbacks && Logged(pushed, ran + [Call(queue[0], callbacks[queue[0]])], queue[1..], callbacks)
  {
    assert Calls(queue, callbacks) == [Call(queue[0], callbacks[queue[0]])] + Calls(queue[1..], callbacks);
  }

  lemma LogFrame(pushed: seq<Call>, ran: seq<Call>, queue: seq<int>, callbacks: map<int, int>, e: int, c: int)
    requires Logged(pushed, ran, queue, callbacks) && e !in queue
    ensures Logged(pushed, ran, queue, callbacks[e := c])
  {
    assert Calls(queue, callbacks[e := c]) == Calls(queue, callbacks);
  }

  // ----- all of it

  ghost predicate Sound(pool: set<int>, next: map<int, int>, callbacks: map<int, int>,
                        keep: set<int>, pending: set<int>, loans: Loans,
                        firstFree: int, first: int, last: int, roles: map<int, Role>, busy: set<int>,
                        free: seq<int>, queue: seq<int>, pushed: seq<Call>, ran: seq<Call>) {
    && Lists(next, firstFree, free, first, last, queue)
    && Flags(pool, free, queue, roles, busy, keep, pending, loans)
    && Logged(pushed, ran, queue, callbacks)
    && (forall e <- roles :: e in callbacks)
  }

  lemma TakeSound(pool: set<int>, next: map<int, int>, callbacks: map<int, int>,
                  keep: set<int>, pending: set<int>, loans: Loans,
                  firstFree: int, first: int, last: int, roles: map<int, Role>, busy: set<int>,
                  free: seq<int>, queue: seq<int>, pushed: seq<Call>, ran: seq<Call>, callback: int, role: Role)
    requires Sound(pool, next, callbacks, keep, pending, loans,
                   firstFree, first, last, roles, busy, free, queue, pushed, ran)
    ensures firstFree != 0 <==> |free| > 0
    ensures firstFree != 0 ==>
              && firstFree == free[0] && firstFree in next && firstFree !in roles && firstFree !in busy
              && firstFree !in loans.events
              && Sound(pool, next, callbacks[firstFree := callback],
                       if role.Permanent? then keep + {firstFree} else keep,
                       if role.Blocking? then pending + {firstFree} else pending, loans,
                       next[firstFree], first, last, roles[firstFree := role], busy, free[1..], queue, pushed, ran)
  {
    PopFree(next, firstFree, free, first, last, queue);
    if firstFree != 0 {
      FlagsTaken(pool, free, queue, roles, busy, keep, pending, loans, role);
      LogFrame(pushed, ran, queue, callbacks, firstFree, callback);
    }
  }

  lemma EnqueueSound(pool: set<int>, next: map<int, int>, callbacks: map<int, int>,
                     keep: set<int>, pending: set<int>, loans: Loans,
                     firstFree: int, first: int, last: int, roles: map<int, Role>, busy: set<int>,
                     free: seq<int>, queue: seq<int>, pushed: seq<Call>, ran: seq<Call>, e: int)
    requires Sound(pool, next, callbacks, keep, pending, loans,
                   firstFree, first, last, roles, busy, free, queue, pushed, ran)
    requires e in roles && e !in busy && (roles[e].Blocking? || e in loans.events ==> e in pending)
    ensures e in callbacks
    ensures Sound(pool, Pushed(next, first, last, e), callbacks, keep, pending, loans,
                  firstFree, if first == 0 then e else first, e, roles, busy + {e}, free, queue + [e],
                  pushed + [Call(e, callbacks[e])], ran)
  {
    assert e in pool && e !in queue && e !in free;
    ListEnqueue(next, firstFree, free, first, last, queue, e);
    FlagsPushed(pool, free, queue, roles, busy, keep, pending, loans, e);
    LogPush(pushed, ran, queue, callbacks, e);
  }

  lemma PopSound(pool: set<int>, next: map<int, int>, callbacks: map<int, int>,
                 keep: set<int>, pending: set<int>, loans: Loans,
                 firstFree: int, first: int, last: int, roles: map<int, Role>, busy: set<int>,
                 free: seq<int>, queue: seq<int>, pushed: seq<Call>, ran: seq<Call>)
    requires Sound(pool, next, callbacks, keep, pending, loans,
                   firstFree, first, last, roles, busy, free, queue, pushed, ran)
    requires first != 0
    ensures |queue| > 0 && first == queue[0] && first in next && first in roles && first in callbacks && first !in free
    ensures roles[first].Once? && first !in loans.events <==> first !in keep && first !in pending
    ensures first !in loans.events ==> first !in loans.pending
    ensures var ran' := ran + [Call(first, callbacks[first])];
            if roles[first].Once? && first !in loans.events then
              Sound(pool, next[first := firstFree], callbacks, keep, pending - {first}, loans, first, next[first], last,
                    roles - {first}, busy - {first}, [first] + free, queue[1..], pushed, ran')
            else
              Sound(pool, next, callbacks, keep, pending - {first}, loans, firstFree, next[first], last,
                    roles, busy - {first}, free, queue[1..], pushed, ran')
  {
    ListDequeue(next, firstFree, free, first, last, queue);
    FlagsRun(pool, free, queue, roles, busy, keep, pending, loans);
    LogRun(pushed, ran, queue, callbacks);
    PushFree(next, firstFree, free, next[first], last, queue[1..], first);
  }

  lemma ReleaseSound(pool: set<int>, next: map<int, int>, callbacks: map<int, int>,
                     keep: set<int>, pending: set<int>, loans: Loans,
                     firstFree: int, first: int, last: int, roles: map<int, Role>, busy: set<int>,
                     free: seq<int>, queue: seq<int>, pushed: seq<Call>, ran: seq<Call>, e: int)
    requires Sound(pool, next, callbacks, keep, pending, loans,
                   firstFree, first, last, roles, busy, free, queue, pushed, ran)
    requires e in roles && roles[e].Blocking? && e !in pending && e !in loans.pending
    ensures e !in queue && e !in loans.events
    ensures Sound(pool, next[e := firstFree], callbacks, keep, pending, loans, e, first, last,
                  roles - {e}, busy, [e] + free, queue, pushed, ran)
  {
    FlagsWaited(pool, free, queue, roles, busy, keep, pending, loans, e);
    PushFree(next, firstFree, free, first, last, queue, e);
  }

  lemma LendSound(pool: set<int>, next: map<int, int>, callbacks: map<int, int>,
                  keep: set<int>, pending: set<int>, loans: Loans,
                 firstFree: int, first: int, last: int, roles: map<int, Role>, busy: set<int>,
                 free: seq<int>, queue: seq<int>, pushed: seq<Call>, ran: seq<Call>, e: int, callback: int)
    requires Sound(pool, next, callbacks, keep, pending, loans,
                   firstFree, first, last, roles, busy, free, queue, pushed, ran)
    requires e in roles && e !in busy && e !in loans.events && (roles[e].Blocking? ==> e in pending)
    ensures e in callbacks
    ensures Sound(pool, next, callbacks[e := callback], keep - {e}, pending + {e},
                  LoanMade(loans, e, callbacks[e], e in pending),
                  firstFree, first, last, roles[e := RoleLent(roles[e])], busy, free, queue, pushed, ran)
  {
    FlagsLent(pool, free, queue, roles, busy, keep, pending, loans, e, callbacks[e]);
    LogFrame(pushed, ran, queue, callbacks, e, callback);
  }

  lemma GiveBackSound(pool: set<int>, next: map<int, int>, callbacks: map<int, int>,
                      keep: set<int>, pending: set<int>, loans: Loans,
                 firstFree: int, first: int, last: int, roles: map<int, Role>, busy: set<int>,
                 free: seq<int>, queue: seq<int>, pushed: seq<Call>, ran: seq<Call>, e: int)
    requires Sound(pool, next, callbacks, keep, pending, loans,
                   firstFree, first, last, roles, busy, free, queue, pushed, ran)
    requires e in loans.events && e !in busy
    ensures e in roles && e in loans.callbacks && (roles[e].Blocking? <==> e in loans.pending)
    ensures Sound(pool, next, callbacks[e := loans.callbacks[e]], keep,
                  if e in loans.pending then pending + {e} else pending - {e}, LoanEnded(loans, e),
                  firstFree, first, last, roles, busy, free, queue, pushed, ran)
  {
    FlagsGivenBack(pool, free, queue, roles, busy, keep, pending, loans, e);
    LogFrame(pushed, ran, queue, callbacks, e, loans.callbacks[e]);
  }

  /** Events that are waited for stay with their client and do not become awaited
      again; one that is queued for itself, not for a service, stays so until it is no
      longer awaited. `open` are the events whose pending flag is set or saved. */
  ghost predicate Awaited(waiters: set<int>, open: set<int>, queued: set<int>,
                          roles': map<int, Role>, waiters': set<int>, open': set<int>, queued': set<int>) {
    forall e <- waiters ::
      && e in waiters' && e in roles' && roles'[e].Blocking? && (e in open' ==> e in open)
      && (e in queued ==> e in queued' || e !in open')
  }

  lemma AwaitedMore(waiters: set<int>, open: set<int>, queued: set<int>, roles: map<int, Role>,
                    open': set<int>, queued': set<int>)
    requires open' <= open && queued <= queued' && forall e <- waiters :: e in roles && roles[e].Blocking?
    ensures Awaited(waiters, open, queued, roles, waiters, open', queued')
  {
  }

  class Scheduler {
    // the pool, and the fields of its events by address
    const pool: set<int>
    var next: map<int, int>
    var callbacks: map<int, int>
    var keep: set<int>
    var pending: set<int>
    var savedPending: set<int>
    var savedCallback: map<int, int>

    var firstFree: int
    var first: int
    var last: int

    // what the clients know: how they got the events they have, which of them they
    // have pushed and not yet seen run, which services use, and which they are waiting for
    var roles: map<int, Role>
    var busy: set<int>
    var lent: set<int>
    var waiters: set<int>

    ghost var free: seq<int>
    ghost var queue: seq<int>
    ghost var pushed: seq<Call>
    ghost var ran: seq<Call>
    // the actions that were begun
    ghost var performed: seq<Action>

    /** Allocates the events of the pool, each put in front of the free list. */
    constructor (events: seq<int>)
      requires Distinct(events) && 0 !in events
      ensures Valid() && pool == (set e | e in events) && (|events| > 0 ==> events[0] in pool)
      ensures roles == map[] && waiters == {} && |queue| == 0 && pushed == [] && ran == []
      ensures performed == []
    {
      pool := set e | e in events;
      next, callbacks, keep, pending, savedPending, savedCallback, lent := map[], map[], {}, {}, {}, map[], {};
      firstFree, first, last, roles, busy, waiters := 0, 0, 0, map[], {}, {};
      free, queue, pushed, ran, performed := [], [], [], [], [];
      new;
      var i := 0;
      while i < |events|
        invariant i <= |events| && first == 0 && queue == [] && Lists(next, firstFree, free, first, last, queue)
        invariant forall e :: e in free <==> e in events[..i]
        invariant roles == map[] && busy == waiters == {} && keep == {} && pending == {} && pushed == [] && ran == []
        invariant savedPending == lent == {} && performed == []
      {
        PushFree(next, firstFree, free, first, last, queue, events[i]);
        next := next[events[i] := firstFree];
        firstFree, free := events[i], [events[i]] + free;
        i := i + 1;
      }
    }

    /** What services use, and what is saved meanwhile. */
    ghost function Borrowed(): Loans
      reads this`lent, this`savedPending, this`savedCallback
    {
      Loans(lent, savedPending, savedCallback)
    }

    /** The events whose pending flag is set or saved: a wait for one of them goes on. */
    ghost function Open(): set<int>
      reads this`pending, this`savedPending
    {
      pending + savedPending
    }

    ghost predicate Valid()
      reads this
    {
      && Sound(pool, next, callbacks, keep, pending, Borrowed(),
               firstFree, first, last, roles, busy, free, queue, pushed, ran)
      && (forall e <- waiters :: e in roles && roles[e].Blocking?)
    }

    /** Takes an event off the free list; 0 when there is none. Its flags are not
        touched, as they are clear already. */
    method Take(callback: int, role: Role) returns (event: int)
      requires Valid()
      modifies this`next, this`callbacks, this`keep, this`pending, this`firstFree, this`roles, this`free
      ensures Valid()
      ensures if |old(free)| == 0 then event == 0 && roles == old(roles) && free == old(free) && callbacks == old(callbacks)
              else && event == old(free)[0] && event != 0 && event !in old(roles) && event !in busy && event !in lent
                   && free == old(free)[1..] && roles == old(roles)[event := role]
                   && callbacks == old(callbacks)[event := callback]
      ensures Awaited(old(waiters), old(Open()), busy - lent, roles, waiters, Open(), busy - lent)
    {
      hide Sound;
      TakeSound(pool, next, callbacks, keep, pending, Borrowed(),
                firstFree, first, last, roles, busy, free, queue, pushed, ran,
                callback, role);
      event := firstFree;
      if event == 0 {
        return;
      }
      firstFree, free := next[event], free[1..];
      Mark(event, callback, role);
    }

    method Mark(event: int, callback: int, role: Role)
      modifies this`callbacks, this`keep, this`pending, this`roles
      ensures callbacks == old(callbacks)[event := callback] && roles == old(roles)[event := role]
      ensures keep == if role.Permanent? then old(keep) + {event} else old(keep)
      ensures pending == if role.Blocking? then old(pending) + {event} else old(pending)
    {
      callbacks := callbacks[event := callback];
      match role {
        case Once =>
        case Permanent => keep := keep + {event};
        case Blocking => pending := pending + {event};
      }
      roles := roles[event := role];
    }

    /** Puts an event at the end of the queue. */
    method Enqueue(event: int)
      requires Valid() && event in roles && event !in busy
      requires roles[event].Blocking? || event in lent ==> event in pending
      modifies this`next, this`first, this`last, this`busy, this`queue, this`pushed
      ensures Valid() && queue == old(queue) + [event] && busy == old(busy) + {event}
      ensures event in callbacks && pushed == old(pushed) + [Call(event, callbacks[event])]
    {
      hide Sound;
      EnqueueSound(pool, next, callbacks, keep, pending, Borrowed(),
                   firstFree, first, last, roles, busy, free, queue, pushed, ran, event);
      Append(event);
      queue, busy, pushed := queue + [event], busy + {event}, pushed + [Call(event, callbacks[event])];
    }

    /** Links an event in behind the last. */
    method Append(event: int)
      modifies this`next, this`first, this`last
      ensures last == event && first == if old(first) == 0 then event else old(first)
      ensures next == Pushed(old(next), old(first), old(last), event)
    {
      next := next[event := 0];
      if first == 0 {
        first := event;
      } else {
        next := next[last := event];
      }
      last := event;
    }

    /** Only what may follow a state: calls are added to the log, and events that are
        waited for are kept. `stuck` is 0, or the event of a client that waits on
        because nothing more is known to happen. */
    twostate predicate Follows(stuck: int)
      reads this
    {
      && old(pushed) <= pushed && old(ran) <= ran && old(performed) <= performed
      && Awaited(old(waiters), old(Open()), old(busy - lent), roles, waiters, Open(), busy - lent)
      && (if stuck == 0 then waiters == old(waiters)
          else stuck !in old(waiters) && stuck in waiters && stuck in Open())
    }

    /** An action is begun. */
    ghost method Begin(action: Action)
      requires Valid()
      modifies this`performed
      ensures Valid() && performed == old(performed) + [action]
      ensures forall e <- waiters :: e in roles && roles[e].Blocking?
    {
      performed := performed + [action];
    }

    /** Does what a client may do: it pushes only events that it has and that are not
        in the queue, and one to wait for, or that it has been lent, only once; it lends
        only events that it could push; and it waits only for events that it got to wait
        for, and that nobody waits for yet. */
    method Perform(action: Action) returns (stuck: int)
      requires Valid()
      modifies this
      ensures Valid() && Follows(stuck)
      ensures old(performed) + [action] <= performed
      ensures !action.Wait? ==> stuck == 0 && performed == old(performed) + [action] && ran == old(ran)
      ensures action.Get? ==>
                if |old(free)| == 0 then free == old(free) && roles == old(roles) && callbacks == old(callbacks)
                else && free == old(free)[1..] && roles == old(roles)[old(free)[0] := Once]
                     && callbacks == old(callbacks)[old(free)[0] := action.callback]
      ensures action.GetPermanent? ==>
                if |old(free)| == 0 then free == old(free) && roles == old(roles) && callbacks == old(callbacks)
                else && free == old(free)[1..] && roles == old(roles)[old(free)[0] := Permanent]
                     && callbacks == old(callbacks)[old(free)[0] := action.callback]
      ensures action.GetBlocking? ==>
                if |old(free)| == 0 then free == old(free) && roles == old(roles) && callbacks == old(callbacks)
                else && free == old(free)[1..] && roles == old(roles)[old(free)[0] := Blocking]
                     && callbacks == old(callbacks)[old(free)[0] := 0]
      ensures action.Get? || action.GetPermanent? || action.GetBlocking? || action.Lend? ==>
                queue == old(queue) && pushed == old(pushed)
      ensures action.PushCallback? ==>
                if |old(free)| == 0 then queue == old(queue) && pushed == old(pushed) && roles == old(roles)
                else && free == old(free)[1..] && roles == old(roles)[old(free)[0] := Once]
                     && queue == old(queue) + [old(free)[0]]
                     && pushed == old(pushed) + [Call(old(free)[0], action.callback)]
      ensures action.Push? || action.GiveBack? ==> roles == old(roles) && free == old(free)
      ensures action.Push? ==>
                if action.event in roles && action.event !in old(busy)
                   && (roles[action.event].Blocking? || action.event in lent ==> action.event in pending)
                then && queue == old(queue) + [action.event] && action.event in callbacks
                     && pushed == old(pushed) + [Call(action.event, callbacks[action.event])]
                else queue == old(queue) && pushed == old(pushed)
      ensures action.Lend? ==> free == old(free)
      ensures action.Lend? ==>
                if action.event in old(roles) && action.event !in busy && action.event !in old(lent)
                   && (old(roles)[action.event].Blocking? ==> action.event in old(pending))
                then && lent == old(lent) + {action.event} && action.event in old(callbacks)
                     && callbacks == old(callbacks)[action.event := action.callback]
                     && savedCallback == old(savedCallback)[action.event := old(callbacks)[action.event]]
                     && roles == old(roles)[action.event := if old(roles)[action.event].Blocking? then Blocking else Once]
                else lent == old(lent) && callbacks == old(callbacks) && roles == old(roles)
      ensures action.GiveBack? ==>
                if action.event in old(lent) && action.event !in old(busy)
                then && lent == old(lent) - {action.event} && queue == old(queue) + [action.event]
                     && action.event in savedCallback
                     && pushed == old(pushed) + [Call(action.event, savedCallback[action.event])]
                else lent == old(lent) && queue == old(queue) && pushed == old(pushed)
      ensures action.Wait? ==>
                if action.event in old(roles) && old(roles)[action.event].Blocking? && action.event !in old(waiters)
                then stuck == 0 ==> |free| > 0 && action.event == free[0] && action.event !in roles && action.event !in queue
                else stuck == 0 && roles == old(roles) && queue == old(queue) && free == old(free)
      decreases action
    {
      hide Sound, Scheduler.Valid, Awaited;
      stuck := 0;
      Begin(action);
      label Begun:
      match action {
        case Get(callback) =>
          GetEvent(callback, Once);
        case GetPermanent(callback) =>
          GetEvent(callback, Permanent);
        case GetBlocking =>
          GetEvent(0, Blocking);
        case Push(event) =>
          PushEvent(event);
        case PushCallback(callback) =>
          PushNew(callback);
        case Lend(event, callback) =>
          LendEvent(event, callback);
        case GiveBack(event) =>
          GiveBackEvent(event);
        case Wait(event, rounds) =>
          stuck := WaitIfGot(event, rounds);
      }
    }

    /** Gets an event, if one is free. */
    method GetEvent(callback: int, role: Role)
      requires Valid()
      modifies this`next, this`callbacks, this`keep, this`pending, this`firstFree, this`roles, this`free
      ensures Valid() && Follows(0)
      ensures if |old(free)| == 0 then free == old(free) && roles == old(roles) && callbacks == old(callbacks)
              else && free == old(free)[1..] && roles == old(roles)[old(free)[0] := role]
                   && callbacks == old(callbacks)[old(free)[0] := callback]
    {
      hide Sound, Scheduler.Valid;
      var _ := Take(callback, role);
    }

    /** Gets an event, if one is free, and pushes it. */
    method PushNew(callback: int)
      requires Valid()
      modifies this`next, this`callbacks, this`keep, this`pending, this`firstFree, this`roles, this`free
      modifies this`first, this`last, this`busy, this`queue, this`pushed
      ensures Valid() && Follows(0)
      ensures if |old(free)| == 0 then queue == old(queue) && pushed == old(pushed) && roles == old(roles)
              else && free == old(free)[1..] && roles == old(roles)[old(free)[0] := Once]
                   && queue == old(queue) + [old(free)[0]] && pushed == old(pushed) + [Call(old(free)[0], callback)]
    {
      hide Sound, Scheduler.Valid;
      var event := Take(callback, Once);
      if event != 0 {
        Enqueue(event);
      }
    }

    method PushEvent(event: int)
      requires Valid()
      modifies this`next, this`first, this`last, this`busy, this`queue, this`pushed
      ensures Valid() && Follows(0)
      ensures if event in roles && event !in old(busy) && (roles[event].Blocking? || event in lent ==> event in pending)
              then && queue == old(queue) + [event] && event in callbacks
                   && pushed == old(pushed) + [Call(event, callbacks[event])]
              else queue == old(queue) && pushed == old(pushed)
    {
      WaitersHave();
      hide Sound, Scheduler.Valid;
      if event in roles && event !in busy && (roles[event].Blocking? || event in lent ==> event in pending) {
        Enqueue(event);
      }
    }

    method LendEvent(event: int, callback: int)
      requires Valid()
      modifies this`savedPending, this`savedCallback, this`keep, this`pending, this`callbacks, this`roles, this`lent
      ensures Valid() && Follows(0)
      ensures if event in old(roles) && event !in busy && event !in old(lent)
                 && (old(roles)[event].Blocking? ==> event in old(pending))
              then && lent == old(lent) + {event} && event in old(callbacks)
                   && callbacks == old(callbacks)[event := callback]
                   && savedCallback == old(savedCallback)[event := old(callbacks)[event]]
                   && roles == old(roles)[event := if old(roles)[event].Blocking? then Blocking else Once]
              else lent == old(lent) && callbacks == old(callbacks) && roles == old(roles)
    {
      WaitersHave();
      hide Sound, Scheduler.Valid;
      if event in roles && event !in busy && event !in lent && (roles[event].Blocking? ==> event in pending) {
        Save(event, callback);
      }
    }

    method GiveBackEvent(event: int)
      requires Valid()
      modifies this`savedPending, this`pending, this`callbacks, this`lent
      modifies this`next, this`first, this`last, this`busy, this`queue, this`pushed
      ensures Valid() && Follows(0)
      ensures if event in old(lent) && event !in old(busy)
              then && lent == old(lent) - {event} && queue == old(queue) + [event] && event in savedCallback
                   && pushed == old(pushed) + [Call(event, savedCallback[event])]
              else lent == old(lent) && queue == old(queue) && pushed == old(pushed)
    {
      WaitersHave();
      hide Sound, Scheduler.Valid, Awaited;
      ghost var open, queued := Open(), busy - lent;
      if event in lent && event !in busy {
        RestoreAndPush(event);
      }
      AwaitedMore(waiters, open, queued, roles, Open(), busy - lent);
    }

    method RestoreAndPush(event: int)
      requires Valid() && event in lent && event !in busy
      modifies this`savedPending, this`pending, this`callbacks, this`lent
      modifies this`next, this`first, this`last, this`busy, this`queue, this`pushed
      ensures Valid() && Open() <= old(Open()) && lent == old(lent) - {event} && busy == old(busy) + {event}
      ensures queue == old(queue) + [event] && event in savedCallback
      ensures pushed == old(pushed) + [Call(event, savedCallback[event])]
    {
      hide Sound, Scheduler.Valid, Awaited;
      Restore(event);
      Enqueue(event);
    }

    method WaitIfGot(event: int, rounds: seq<Round>) returns (stuck: int)
      requires Valid()
      modifies this
      ensures Valid() && Follows(stuck)
      ensures if event in old(roles) && old(roles)[event].Blocking? && event !in old(waiters)
              then stuck == 0 ==> |free| > 0 && event == free[0] && event !in roles && event !in queue
              else stuck == 0 && roles == old(roles) && queue == old(queue) && free == old(free) && performed == old(performed)
      decreases rounds, 2
    {
      WaitersHave();
      hide Sound, Scheduler.Valid;
      stuck := 0;
      if event in roles && roles[event].Blocking? && event !in waiters {
        var n;
        stuck, n := WaitEvent(event, rounds);
      }
    }

    /** Lends an event to a service. One that was got to be pushed again and again runs
        only once more after that. */
    method Save(event: int, callback: int)
      requires Valid() && event in roles && event !in busy && event !in lent
      requires roles[event].Blocking? ==> event in pending
      modifies this`savedPending, this`savedCallback, this`keep, this`pending, this`callbacks, this`roles, this`lent
      ensures Valid() && lent == old(lent) + {event} && pending == old(pending) + {event}
      ensures callbacks == old(callbacks)[event := callback] && Open() == old(Open()) + {event}
      ensures event in old(callbacks) && savedCallback == old(savedCallback)[event := old(callbacks)[event]]
      ensures event in savedPending <==> old(roles)[event].Blocking?
      ensures roles == old(roles)[event := if old(roles)[event].Blocking? then Blocking else Once]
    {
      hide Sound;
      LendSound(pool, next, callbacks, keep, pending, Borrowed(), firstFree, first, last, roles, busy, free, queue,
                pushed, ran, event, callback);
      NotPending(event);
      SaveFields(event, callback);
    }

    method SaveFields(event: int, callback: int)
      requires event in roles && event in callbacks
      modifies this`savedPending, this`savedCallback, this`keep, this`pending, this`callbacks, this`roles, this`lent
      ensures Borrowed() == LoanMade(old(Borrowed()), event, old(callbacks)[event], event in old(pending))
      ensures keep == old(keep) - {event} && pending == old(pending) + {event}
      ensures callbacks == old(callbacks)[event := callback]
      ensures roles == old(roles)[event := RoleLent(old(roles)[event])]
    {
      savedPending := if event in pending then savedPending + {event} else savedPending - {event};
      savedCallback := savedCallback[event := callbacks[event]];
      pending, keep, callbacks := pending - {event}, keep - {event}, callbacks[event := callback];
      pending := pending + {event};
      roles, lent := roles[event := RoleLent(roles[event])], lent + {event};
    }

    lemma NotPending(event: int)
      requires Valid() && event in roles && event !in lent
      ensures event !in savedPending && (event in pending ==> roles[event].Blocking?)
    {
    }

    /** A service is done with an event. */
    method Restore(event: int)
      requires Valid() && event in lent && event !in busy
      modifies this`savedPending, this`pending, this`callbacks, this`lent
      ensures Valid() && lent == old(lent) - {event} && event in roles
      ensures event in savedCallback && callbacks == old(callbacks)[event := savedCallback[event]]
      ensures event in pending <==> roles[event].Blocking?
      ensures Open() <= old(Open()) && forall e :: e != event ==> (e in Open() <==> e in old(Open()))
    {
      hide Sound;
      GiveBackSound(pool, next, callbacks, keep, pending, Borrowed(),
                    firstFree, first, last, roles, busy, free, queue,
                    pushed, ran, event);
      pending := if event in savedPending then pending + {event} else pending - {event};
      callbacks := callbacks[event := savedCallback[event]];
      savedPending, lent := savedPending - {event}, lent - {event};
    }

    lemma WaitersHave()
      requires Valid()
      ensures forall e <- waiters :: e in roles && roles[e].Blocking?
    {
    }

    /** Does all of the actions, in order, unless a client waits on. */
    method PerformAll(actions: seq<Action>) returns (stuck: int)
      requires Valid()
      modifies this
      ensures Valid() && Follows(stuck)
      ensures stuck == 0 ==> Did(old(performed), actions, performed)
      ensures Quick(actions) ==> stuck == 0 && performed == old(performed) + actions && ran == old(ran)
      decreases actions
    {
      hide Sound, Did;
      stuck := 0;
      var i := 0;
      DidNothing(performed, performed);
      while i < |actions|
        invariant Valid() && i <= |actions| && Follows(0) && stuck == 0
        invariant Did(old(performed), actions[..i], performed)
        invariant Quick(actions) ==> performed == old(performed) + actions[..i] && ran == old(ran)
      {
        ghost var log := performed;
        assert actions[i] in actions;
        stuck := Perform(actions[i]);
        if stuck != 0 {
          return;
        }
        DidFirst(log, actions[i], performed);
        DidMore(old(performed), actions[..i], log, [actions[i]], performed);
        assert actions[..i + 1] == actions[..i] + [actions[i]];
        i := i + 1;
      }
      assert actions[..i] == actions;
    }

    /** Takes the first event off the queue, and frees it before its callback is
        called unless it is kept, waited for, or lent. */
    method PopFirst() returns (callback: int)
      requires Valid() && first != 0
      modifies this`next, this`first, this`pending, this`firstFree, this`roles, this`busy, this`free, this`queue, this`ran
      ensures Valid() && |old(queue)| > 0 && queue == old(queue)[1..]
      ensures var e := old(queue)[0];
              && e in old(roles) && e in old(callbacks) && callback == old(callbacks)[e]
              && ran == old(ran) + [Call(e, callback)]
              && pending == old(pending) - {e} && busy == old(busy) - {e} && (e !in lent ==> e !in Open())
              && (if old(roles)[e].Once? && e !in lent then free == [e] + old(free) && roles == old(roles) - {e}
                  else free == old(free) && roles == old(roles))
    {
      hide Sound;
      PopSound(pool, next, callbacks, keep, pending, Borrowed(),
               firstFree, first, last, roles, busy, free, queue, pushed, ran);
      var event := first;
      callback := callbacks[event];
      ran := ran + [Call(event, callback)];
      Unlink();
      Retire(event);
    }

    /** The first event leaves the queue. */
    method Unlink()
      requires first in next && |queue| > 0
      modifies this`first, this`queue, this`busy
      ensures first == next[old(first)] && queue == old(queue)[1..] && busy == old(busy) - {old(first)}
    {
      busy, queue := busy - {first}, queue[1..];
      first := next[first];
    }

    /** Frees an event unless it is kept or waited for, and ends the wait. */
    method Retire(event: int)
      modifies this`next, this`firstFree, this`pending, this`free, this`roles
      ensures pending == old(pending) - {event}
      ensures if event !in keep && event !in old(pending) then
                && next == old(next)[event := old(firstFree)] && firstFree == event
                && free == [event] + old(free) && roles == old(roles) - {event}
              else next == old(next) && firstFree == old(firstFree) && free == old(free) && roles == old(roles)
    {
      if event !in keep && event !in pending {
        next := next[event := firstFree];
        firstFree := event;
        free, roles := [event] + free, roles - {event};
      }
      pending := pending - {event};
    }

    /** An event that has run for a service has the flags of one that is run once. */
    lemma LentUnmarked(event: int)
      requires Valid() && event in lent && event !in pending
      ensures event != 0 && event !in keep && event !in busy && (|queue| == 0 ==> first == 0)
    {
    }

    lemma PoolIsFree(event: int)
      requires Valid() && roles == map[] && event in pool
      ensures |free| > 0
    {
      assert event in free;
    }

    lemma QueueEmpty()
      requires Valid()
      ensures first == 0 <==> |queue| == 0
      ensures |queue| == 0 ==> busy == {} && pushed == ran
      ensures |queue| > 0 ==> first == queue[0]
    {
      if |queue| == 0 {
        assert Calls(queue, callbacks) == [];
        assert forall e :: e !in busy;
      }
    }

    /** Runs the first event. Its callback, if it has one, is called, and does what is next in
        `script`. */
    method RunFirst(script: seq<Body>, used: nat) returns (stuck: int, used': nat, ghost call: Call)
      requires Valid() && first != 0 && used <= |script|
      modifies this
      ensures Valid() && Follows(stuck)
      ensures |old(queue)| > 0 && old(queue)[0] in old(callbacks)
      ensures call == Call(old(queue)[0], old(callbacks)[old(queue)[0]]) && old(ran) + [call] <= ran
      ensures used' == used + if call.callback != 0 && used < |script| then 1 else 0
      ensures used' == used ==>
                stuck == 0 && performed == old(performed) && ran == old(ran) + [call] && |queue| < |old(queue)|
      ensures used' > used && stuck == 0 ==> Did(old(performed), script[used].actions, performed)
      ensures used' > used && Quick(script[used].actions) ==>
                stuck == 0 && performed == old(performed) + script[used].actions && ran == old(ran) + [call]
      decreases script, 0
    {
      hide Sound, Did, Quick;
      QueueEmpty();
      var event := first;
      var callback := PopFirst();
      call := Call(event, callback);
      stuck, used' := 0, used;
      if callback != 0 && used < |script| {
        used' := used + 1;
        stuck := PerformAll(script[used].actions);
      }
    }

    /** Runs the events of the queue until it is empty. The callbacks that are called
        do, one after the other, what `script` says; they may wait for events, and so
        execute the same queue themselves. `own` are the calls of this loop: each one with
        a callback has done the next part of the script, as far as that lasts. If none of
        the callbacks waits, these are all calls, and all that is done. */
    method RunQueue(script: seq<Body>) returns (stuck: int, used: nat, ghost own: seq<Call>)
      requires Valid()
      modifies this
      ensures Valid() && Follows(stuck) && (stuck == 0 ==> |queue| == 0 && busy == {} && pushed == ran)
      ensures stuck == 0 ==> used == if WithCallback(own) < |script| then WithCallback(own) else |script|
      ensures stuck == 0 ==> Did(old(ran), own, ran) && Did(old(performed), AllActions(script[..used]), performed)
      ensures (forall b <- script :: Quick(b.actions)) ==>
                && stuck == 0 && ran == old(ran) + own
                && used <= |script| && performed == old(performed) + AllActions(script[..used])
      decreases script, 1
    {
      hide Sound, Did, Quick, WithCallback, AllActions, CalledSo;
      stuck, used, own := 0, 0, [];
      QueueEmpty();
      NoneCalled(script, ran, performed);
      while first != 0
        invariant Valid() && Follows(0) && stuck == 0 && used <= |script| && (first != 0 <==> |queue| > 0)
        invariant CalledSo(script, used, own, old(ran), ran, old(performed), performed)
        decreases |script| - used, |queue|
      {
        ghost var ranBefore, log, before := ran, performed, used;
        ghost var call;
        stuck, used, call := RunFirst(script, used);
        if stuck != 0 {
          OneStuck(script, before);
          return;
        }
        OneCalled(script, before, used, own, call, old(ran), ranBefore, ran, old(performed), log, performed);
        own := own + [call];
        QueueEmpty();
      }
      QueueEmpty();
      CalledMeans(script, used, own, old(ran), ran, old(performed), performed);
    }

    /** Executes what is queued; with `wait`, an empty queue first waits for one interrupt, and
        what that does comes first. Afterwards, unless a callback waits on, every call that was
        pushed has run, once and in the order of the pushes, and as in the loop, those that have
        a callback have done what the script says. */
    method Execute(wait: bool, round: Round) returns (stuck: int, used: nat, ghost own: seq<Call>)
      requires Valid()
      modifies this
      ensures Valid() && Follows(stuck) && (stuck == 0 ==> |queue| == 0 && busy == {} && pushed == ran)
      ensures stuck == 0 ==> used == if WithCallback(own) < |round.script| then WithCallback(own) else |round.script|
      ensures stuck == 0 ==>
                && Did(old(ran), own, ran)
                && Did(old(performed), (if |old(queue)| == 0 && wait then round.interrupt else [])
                                       + AllActions(round.script[..used]), performed)
      ensures Quick(round.interrupt) && (forall b <- round.script :: Quick(b.actions)) ==>
                && stuck == 0 && ran == old(ran) + own && used <= |round.script|
                && performed == old(performed) + (if |old(queue)| == 0 && wait then round.interrupt else [])
                                + AllActions(round.script[..used])
      decreases round, 0
    {
      hide Sound, Did, Quick, WithCallback, AllActions;
      QueueEmpty();
      used, own := 0, [];
      DidNothing(performed, performed);
      DidNothing(ran, ran);
      if first == 0 && wait {
        stuck := PerformAll(round.interrupt);
        if stuck != 0 {
          return;
        }
      }
      ghost var ranBefore, log := ran, performed;
      ghost var firstly := if |old(queue)| == 0 && wait then round.interrupt else [];
      stuck, used, own := RunQueue(round.script);
      if stuck == 0 {
        DidMore(old(performed), firstly, log, AllActions(round.script[..used]), performed);
        DidLater(old(ran), ranBefore, own, ran);
      }
    }

    lemma NoInterrupts(rounds: seq<Round>)
      ensures Interrupts(rounds[0..0]) == []
    {
    }

    lemma RoundDone(rounds: seq<Round>, a: nat, n: nat, was: seq<Action>, log: seq<Action>, now: seq<Action>)
      requires n < |rounds| && a <= 1
      requires n >= a ==> Did(was, Interrupts(rounds[a..n]), log)
      requires n < a ==> was == log
      requires Did(log, if n >= a then rounds[n].interrupt else [], now)
      ensures Did(was, Interrupts(rounds[a..n + 1]), now)
    {
      hide Did;
      if n >= a {
        InterruptsMore(rounds, a, n);
        DidMore(was, Interrupts(rounds[a..n]), log, rounds[n].interrupt, now);
      } else {
        assert Interrupts(rounds[a..n + 1]) == [];
      }
    }

    lemma NotNull(event: int)
      requires Valid() && event in roles
      ensures event != 0
    {
    }

    /** Waits for an event to have run, not just for a service that it was lent to, and
        gives it back. `rounds` is what happens meanwhile; if all of it is over and the
        event has not run, the client waits on. It never waits on for an event that is in
        the queue, unless it is there for a service. */
    method WaitEvent(event: int, rounds: seq<Round>) returns (stuck: int, n: nat)
      requires Valid() && event in roles && roles[event].Blocking? && event !in waiters
      modifies this
      ensures Valid() && Follows(stuck) && n <= |rounds|
      ensures stuck == 0 ==> |free| > 0 && event == free[0] && event !in roles && event !in Open() && event !in queue
      ensures stuck == 0 ==> event !in lent
      ensures event in old(busy - lent) && |rounds| > 0 ==> stuck != event
      ensures event !in old(Open()) ==> n == 0 && stuck == 0
      ensures stuck == event ==> n == |rounds|
      ensures n > 0 && (stuck == 0 || stuck == event) ==> |queue| == 0 && pushed == ran
      ensures stuck == 0 || stuck == event ==>
                if |old(queue)| == 0 then Did(old(performed), Interrupts(rounds[..n]), performed)
                else n > 0 ==> Did(old(performed), Interrupts(rounds[1..n]), performed)
      decreases rounds, 1
    {
      hide Sound, Did, Interrupts;
      NotNull(event);
      waiters := waiters + {event};
      stuck, n := WaitRounds(event, rounds);
      if stuck == 0 {
        waiters := waiters - {event};
        Release(event);
      }
    }

    /** The rounds that pass while the event is pending. */
    method WaitRounds(event: int, rounds: seq<Round>) returns (stuck: int, n: nat)
      requires Valid() && event in waiters && event != 0
      modifies this
      ensures Valid() && Follows(if stuck == event then 0 else stuck) && n <= |rounds|
      ensures stuck == 0 ==> event !in Open()
      ensures stuck == event ==> event in Open() && n == |rounds|
      ensures event in old(busy - lent) && |rounds| > 0 ==> stuck != event
      ensures event !in old(Open()) ==> n == 0 && stuck == 0
      ensures n > 0 && (stuck == 0 || stuck == event) ==> |queue| == 0 && pushed == ran
      ensures stuck == 0 || stuck == event ==>
                if |old(queue)| == 0 then Did(old(performed), Interrupts(rounds[..n]), performed)
                else n > 0 ==> Did(old(performed), Interrupts(rounds[1..n]), performed)
      decreases rounds, 0
    {
      NoInterrupts(rounds);
      hide Sound, Did, Interrupts;
      stuck, n := 0, 0;
      ghost var a := if |queue| == 0 then 0 else 1;
      DidNothing(performed, performed);
      while event in pending || event in savedPending
        invariant Valid() && n <= |rounds| && stuck == 0 && Follows(0)
        invariant event in old(busy - lent) ==> if n == 0 then busy - lent == old(busy - lent) else event !in Open()
        invariant if n == 0 then queue == old(queue) && performed == old(performed) && Open() == old(Open())
                  else |queue| == 0 && pushed == ran && event in old(Open())
        invariant n >= a ==> Did(old(performed), Interrupts(rounds[a..n]), performed)
        decreases |rounds| - n
      {
        if n == |rounds| {
          return event, n;
        }
        ghost var log := performed;
        stuck := ExecuteRound(rounds[n]);
        if stuck != 0 {
          return;
        }
        RoundDone(rounds, a, n, old(performed), log, performed);
        n := n + 1;
      }
    }

    /** One round of a wait. */
    method ExecuteRound(round: Round) returns (stuck: int)
      requires Valid()
      modifies this
      ensures Valid() && Follows(stuck) && (stuck == 0 ==> |queue| == 0 && busy == {} && pushed == ran)
      ensures stuck == 0 ==> Did(old(performed), if |old(queue)| == 0 then round.interrupt else [], performed)
      decreases round, 1
    {
      hide Sound, Did, AllActions;
      var used;
      ghost var own;
      stuck, used, own := Execute(true, round);
      if stuck == 0 {
        DidPart(old(performed), if |old(queue)| == 0 then round.interrupt else [], AllActions(round.script[..used]),
                performed);
      }
    }

    /** The wait for an event of the pool whose flag is clear gives it back at once.
        That keeps the lists exactly when a client has the event, and it is not among
        those pushed that have not run. */
    lemma WaitAtOnce(event: int)
      requires Valid() && event in pool && event !in Open()
      ensures Linked(next[event := firstFree], event, first, last, queue) <==> event in roles && event !in busy
    {
      ReleaseOnce(next, firstFree, free, first, last, queue, event);
    }

    method Release(event: int)
      requires Valid() && event in roles && roles[event].Blocking? && event !in Open() && event !in waiters
      modifies this`next, this`firstFree, this`free, this`roles
      ensures Valid() && free == [event] + old(free) && roles == old(roles) - {event} && event !in queue && event !in lent
    {
      hide Sound;
      ReleaseSound(pool, next, callbacks, keep, pending, Borrowed(),
                   firstFree, first, last, roles, busy, free, queue, pushed, ran, event);
      next := next[event := firstFree];
      firstFree := event;
      free, roles := [event] + free, roles - {event};
    }
  }

  lemma OneEvent(e: int)
    ensures Distinct([e]) && e in [e]
  {
  }

  /** An event has been lent, pushed by the service, and has run. */
  method RunForService() returns (scheduler: Scheduler, event: int)
    ensures fresh(scheduler) && scheduler.Valid() && |scheduler.queue| == 0
    ensures event in scheduler.lent && event !in scheduler.pending
  {
    hide Sound, Scheduler.Valid, Distinct, Awaited;
    OneEvent(8);
    scheduler := new Scheduler([8]);
    scheduler.PoolIsFree(8);
    event := scheduler.Take(1, Once);
    scheduler.Save(event, 2);
    scheduler.Enqueue(event);
    scheduler.QueueEmpty();
    var _ := scheduler.PopFirst();
  }

  /** A service that pushes an event again after it has run for it, as a file read does
      that needs two accesses to the flash: the event is freed when it runs, so that
      giving it back at the end pushes a free event. */
  method LentTwice() returns (scheduler: Scheduler, event: int)
    ensures event != 0 && scheduler.firstFree == event && scheduler.first == event
    ensures forall queue :: !Linked(scheduler.next, scheduler.firstFree, scheduler.first, scheduler.last, queue)
  {
    scheduler, event := RunForService();
    hide Sound, Scheduler.Valid;
    scheduler.LentUnmarked(event);
    scheduler.Append(event);
    scheduler.first := scheduler.next[scheduler.first];
    scheduler.Retire(event);
    scheduler.Append(event);
    FirstOfBoth(scheduler.next, event, scheduler.last);
  }

  /** No event is the first of both lists. */
  lemma FirstOfBoth(next: map<int, int>, first: int, last: int)
    requires first != 0
    ensures forall queue :: !Linked(next, first, first, last, queue)
  {
    forall queue, free | Chain(next, first, free) && Chain(next, first, queue) ensures first in free && first in queue {
      assert free[0] == first == queue[0];
    }
  }

  /** An event that was got to run once, pushed, and waited for before it has run: giving
      it back leaves no lists. */
  method WaitBreaksLists() returns (scheduler: Scheduler, event: int)
    ensures scheduler.Valid() && event in scheduler.roles && scheduler.roles[event].Once?
    ensures event in scheduler.busy && event !in scheduler.Open()
    ensures !Linked(scheduler.next[event := scheduler.firstFree], event, scheduler.first, scheduler.last, scheduler.queue)
  {
    scheduler := new Scheduler([8]);
    scheduler.PoolIsFree(8);
    event := scheduler.Take(1, Once);
    scheduler.Enqueue(event);
    scheduler.WaitAtOnce(event);
  }
}
