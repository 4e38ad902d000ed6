/** Delayed events: the sorted list of `rt_event_push_delayed` and the timer
    interrupt that drains it. */
module DelayedQueue {
  import opened EventChain
  import opened DelayedSpec

  /** The list links the events of the spine, which hold their due times cut to
      32 bits. */
  ghost predicate Listed(next: map<int, int>, times: map<int, int>, first: int, spine: seq<int>, dues: seq<int>) {
    Chain(next, first, spine) && Distinct(spine) && Timed(times, spine, dues)
  }

  ghost predicate Timed(times: map<int, int>, spine: seq<int>, dues: seq<int>) {
    |spine| == |dues| && forall i :: 0 <= i < |spine| ==> spine[i] in times && times[spine[i]] == Stored(dues[i])
  }

  lemma ListedInsert(next: map<int, int>, times: map<int, int>, first: int, spine: seq<int>, dues: seq<int>,
                     k: nat, e: int, due: int)
    requires Listed(next, times, first, spine, dues) && k <= |spine| && e !in spine && e != 0
    ensures Listed(Inserted(next, spine, k, e), times[e := Stored(due)], if k == 0 then e else first,
                   InsertAt(spine, k, e), InsertAt(dues, k, due))
  {
    ChainInsert(next, first, spine, k, e);
    DistinctInsert(spine, k, e);
    var s, d := InsertAt(spine, k, e), InsertAt(dues, k, due);
    forall i | 0 <= i < |s|
      ensures s[i] in times[e := Stored(due)] && times[e := Stored(due)][s[i]] == Stored(d[i])
    {
      if i != k {
        var i' := if i < k then i else i - 1;
        assert s[i] == spine[i'] && d[i] == dues[i'] && spine[i'] in spine;
      }
    }
  }

  lemma ListedFirst(next: map<int, int>, times: map<int, int>, first: int, spine: seq<int>, dues: seq<int>)
    requires Listed(next, times, first, spine, dues) && first != 0
    ensures |spine| > 0 && first == spine[0] && first in next && first in times
    ensures Listed(next[first := 0], times, next[first], spine[1..], dues[1..])
  {
    ChainFrame(next, first, 0, next[first], spine[1..]);
  }

  /** When each of the first events has left: not before it was due, and no more than
      `delay` ticks after it, those before it, and the comparator `target` were due. */
  ghost predicate LeftInTime(leftAt: seq<int>, dues: seq<int>, target: int, delay: int) {
    |leftAt| <= |dues| &&
    forall i :: 0 <= i < |leftAt| ==> dues[i] <= leftAt[i] <= Latest(dues, i, target) + delay
  }

  class Timer {
    // ticks of the reference clock a second, and the tick counter as if it never
    // wrapped; the register shows it modulo WORD
    const refClock: int
    var clock: int

    // the fields of the events, by the address of the event
    var next: map<int, int>
    var times: map<int, int>

    var first: int
    var armed: bool
    var comparator: int

    // the scheduler queue
    var ready: seq<int>

    // when each event went there; the events in the list, when they are due, what the
    // comparator was set to, and when
    ghost var readyAt: seq<int>
    ghost var spine: seq<int>
    ghost var dues: seq<int>
    ghost var target: int
    ghost var armedAt: int

    constructor (refClock: int)
      requires 1 <= refClock <= MICROS
      ensures Valid() && |spine| == 0 && ready == readyAt == [] && this.refClock == refClock
    {
      this.refClock, clock := refClock, 0;
      next, times, first, armed, comparator := map[], map[], 0, false, 0;
      ready, readyAt, spine, dues, target, armedAt := [], [], [], [], 0, 0;
    }

    /** While events wait, the comparator is set to a time that lay ahead when it
        was set, and at which the first event will be due. */
    ghost predicate Armed()
      reads this
    {
      |spine| == |dues| && (|dues| > 0 ==>
        armed && comparator == Stored(target) && armedAt < target && armedAt <= clock && dues[0] <= target)
    }

    ghost predicate Valid()
      reads this
    {
      Listed(next, times, first, spine, dues) && Armed() && 1 <= refClock <= MICROS
    }

    /** Time passes. */
    method Wait(n: nat)
      requires Valid()
      modifies this`clock
      ensures Valid() && clock == old(clock) + n
    {
      clock := clock + n;
    }

    method SetComparator(ticks: int)
      requires ticks > 0
      modifies this`armed, this`comparator, this`target, this`armedAt
      ensures armed && comparator == Stored(target) && armedAt == clock && target == clock + ticks
    {
      Stamp(clock, ticks);
      hide Stored, Mask;
      comparator := Stored(Stored(clock) + ticks);
      target, armedAt, armed := clock + ticks, clock, true;
    }

    /** The search loop: to the first event whose masked time is not below the
        bound. */
    method Search(bound: int) returns (prev: int, current: int, ghost k: nat)
      requires Listed(next, times, first, spine, dues)
      ensures k == Place(dues, bound) && k <= |spine|
      ensures prev == Before(spine, Place(dues, bound)) && current == At(spine, Place(dues, bound))
      ensures 0 !in spine
    {
      hide Chain, Distinct, Mask;
      prev, current, k := 0, first, 0;
      NoNull(next, first, spine);
      while current != 0 && Mask(times[current]) < bound
        invariant k <= |spine| && prev == Before(spine, k) && current == At(spine, k)
        invariant forall i :: 0 <= i < k ==> Mask(dues[i]) < bound
        decreases |spine| - k
      {
        StoredMask(dues[k]);
        ChainAt(next, first, spine, k);
        prev, current, k := current, next[current], k + 1;
      }
      if k < |spine| {
        assert spine[k] in spine;
        StoredMask(dues[k]);
      }
      PlaceUnique(dues, bound, k);
    }

    lemma NoNull(next: map<int, int>, p: int, ids: seq<int>)
      requires Chain(next, p, ids)
      ensures 0 !in ids && p == At(ids, 0) && (p == 0 <==> |ids| == 0)
    {
      hide Chain;
      forall i | 0 <= i < |ids| ensures ids[i] != 0 {
        ChainAt(next, p, ids, i);
      }
      if |ids| > 0 {
        ChainAt(next, p, ids, 0);
      } else {
        ChainEmpty(next, p);
      }
    }

    lemma ChainEmpty(next: map<int, int>, p: int)
      ensures Chain(next, p, []) <==> p == 0
    {
    }

    /** Links an event in at place `k`. */
    method Link(event: int, prev: int, current: int, time: int, ghost k: nat, ghost due: int)
      requires Listed(next, times, first, spine, dues)
      requires event !in spine && event != 0 && k <= |spine| && time == Stored(due) && 0 !in spine
      requires prev == Before(spine, k) && current == At(spine, k)
      modifies this`next, this`times, this`first, this`spine, this`dues
      ensures Listed(next, times, first, spine, dues) && times == old(times)[event := time]
      ensures spine == InsertAt(old(spine), k, event) && dues == InsertAt(old(dues), k, due)
    {
      ListedInsert(next, times, first, spine, dues, k, event, due);
      hide Chain, Distinct, Timed;
      times := times[event := time];
      assert k > 0 ==> spine[k - 1] in spine;
      if prev != 0 {
        next := next[prev := event];
      } else {
        first := event;
      }
      next := next[event := current];
      spine, dues := InsertAt(spine, k, event), InsertAt(dues, k, due);
    }

    /** The event went to place `k` of the list, due `ticks` after the time of the call, and
        holds that time in 32 bits. If it is the first, the comparator is that far ahead of the
        time when the search was over, `late` ticks later; otherwise it stays as it was. */
    twostate predicate Queued(event: int, ticks: int, late: nat, k: nat)
      reads this
    {
      var due := old(clock) + ticks;
      && k <= |old(spine)| == |old(dues)|
      && spine == old(spine)[..k] + [event] + old(spine)[k..]
      && dues == old(dues)[..k] + [due] + old(dues)[k..]
      && times == old(times)[event := due % 0x1_0000_0000]
      && (if k == 0 then armed && armedAt == clock && target == due + late && comparator == target % 0x1_0000_0000
          else target == old(target) && armedAt == old(armedAt) && comparator == old(comparator))
    }

    /** Queues an event for `us` microseconds from now: it is due after the fewest ticks that
        last longer, and goes before the first event whose masked time is not below its own.
        `late` is how long the search takes, which is why the comparator is set from a fresh
        count. */
    method PushDelayed(event: int, us: int, late: nat) returns (ghost ticks: int, ghost k: nat)
      requires Valid() && event !in spine && event != 0 && us < HALF
      modifies this
      ensures Valid() && clock == old(clock) + late && ready == old(ready) && readyAt == old(readyAt)
      ensures LeastTicks(us, refClock, ticks)
      ensures k == Place(old(dues), Mask(old(clock)) + ticks) && Queued(event, ticks, late, k)
      ensures OrderedIff(old(dues), dues, old(clock), old(clock) + ticks)
    {
      ClockInRange();
      hide *;
      var delay := Ticks(us, refClock);
      ticks := delay;
      TicksAreLeast(us, refClock);
      k := PushTicks(event, delay, late);
      PushOrdered(old(dues), dues, old(clock), old(clock) + ticks);
    }

    lemma ClockInRange()
      requires Valid()
      ensures 1 <= refClock <= MICROS
    {
    }

    /** The same, for a number of ticks. */
    method PushTicks(event: int, ticks: int, late: nat) returns (ghost k: nat)
      requires Valid() && event !in spine && event != 0 && ticks > 0
      modifies this
      ensures Valid() && clock == old(clock) + late && ready == old(ready) && readyAt == old(readyAt)
      ensures k == Place(old(dues), Mask(old(clock)) + ticks) && Queued(event, ticks, late, k)
      ensures dues == Pushed(old(dues), old(clock), old(clock) + ticks)
    {
      hide Chain, Distinct, Timed, Mask, Place;
      ghost var due := clock + ticks;
      var current := Stored(clock);
      var bound := Mask(current) + ticks;
      Stamp(clock, ticks);
      var prev, after;
      prev, after, k := Search(bound);
      Link(event, prev, after, Stored(current + ticks), k, due);
      clock := clock + late;
      if prev == 0 {
        SetComparator(ticks);
      }
    }

    /** The interrupt handler: moves the first events that are due to the scheduler, in
        order, up to the first that is not, and sets the comparator for that one.
        `late` is how long this takes. */
    method Handle(late: nat) returns (ghost k: int)
      requires Valid() && InWindow(dues, clock)
      modifies this
      ensures Valid() && clock == old(clock) + late
      ensures |old(spine)| == |old(dues)| && Moved(old(spine), old(dues), old(ready), old(readyAt), old(clock), k)
      ensures if |dues| == 0 then !armed else armedAt == clock && target == dues[0] + late
    {
      k := Drain();
      ghost var now := clock;
      var current := Stored(clock);
      clock := clock + late;
      if first != 0 {
        Rearm(current, now);
      } else {
        armed := false;
      }
    }

    /** The first `k` events, all due at `now`, went to the scheduler in order; the
        next is not due, and with those behind it stays. */
    ghost predicate Moved(spineWas: seq<int>, duesWas: seq<int>, readyWas: seq<int>, readyAtWas: seq<int>, now: int, k: int)
      requires |spineWas| == |duesWas|
      reads this
    {
      && DuePrefix(duesWas, now, k) && dues == duesWas[k..] && spine == spineWas[k..]
      && ready == readyWas + spineWas[..k] && readyAt == readyAtWas + Repeated(now, k)
    }

    method Drain() returns (ghost k: int)
      requires Listed(next, times, first, spine, dues) && InWindow(dues, clock)
      modifies this`next, this`first, this`ready, this`readyAt, this`spine, this`dues
      ensures Listed(next, times, first, spine, dues)
      ensures |old(spine)| == |old(dues)| && Moved(old(spine), old(dues), old(ready), old(readyAt), clock, k)
    {
      var current := Stored(clock);
      k := 0;
      while first != 0 && Stored(current - times[first]) < HALF - 1
        invariant 0 <= k <= |old(dues)| && dues == old(dues)[k..] && spine == old(spine)[k..]
        invariant ready == old(ready) + old(spine)[..k] && readyAt == old(readyAt) + Repeated(clock, k)
        invariant Listed(next, times, first, spine, dues) && forall i :: 0 <= i < k ==> old(dues)[i] <= clock
        decreases |dues|
      {
        ListedFirst(next, times, first, spine, dues);
        DueByDifference(clock, dues[0]);
        MoveFirst();
        assert Repeated(clock, k) + [clock] == Repeated(clock, k + 1);
        k := k + 1;
      }
      if first != 0 {
        DueByDifference(clock, dues[0]);
      }
    }

    /** The first event goes to the scheduler queue. */
    method MoveFirst()
      requires Listed(next, times, first, spine, dues) && first != 0
      modifies this`next, this`first, this`ready, this`readyAt, this`spine, this`dues
      ensures Listed(next, times, first, spine, dues)
      ensures |old(spine)| > 0 && |old(dues)| > 0 && spine == old(spine)[1..] && dues == old(dues)[1..]
      ensures ready == old(ready) + [old(spine)[0]] && readyAt == old(readyAt) + [clock]
    {
      ListedFirst(next, times, first, spine, dues);
      var event := first;
      first := next[event];
      next := next[event := 0];
      ready, readyAt := ready + [event], readyAt + [clock];
      spine, dues := spine[1..], dues[1..];
    }

    /** Sets the comparator as far ahead of the count as the first event is ahead
        of the time the handler began. */
    method Rearm(current: int, ghost now: int)
      requires Listed(next, times, first, spine, dues) && first != 0 && |dues| > 0 && now < dues[0]
      requires current == Stored(now)
      modifies this`armed, this`comparator, this`target, this`armedAt
      ensures armed && comparator == Stored(target) == target % 0x1_0000_0000 && armedAt == clock
      ensures target == clock + dues[0] - now
    {
      Ahead(clock, dues[0], now);
      hide Stored;
      comparator := Stored(Stored(clock) + times[first] - current);
      target, armedAt, armed := clock + dues[0] - now, clock, true;
    }

    /** The comparator matches: the interrupt is taken `latency` ticks later, and
        moves at least the first event. */
    method Fire(latency: nat, late: nat) returns (ghost k: int)
      requires Valid() && |dues| > 0 && clock <= target < clock + WORD
      requires InWindow(dues, target + latency)
      modifies this
      ensures Valid() && |dues| < |old(dues)|
      ensures clock == old(target) + latency + late
      ensures |old(spine)| == |old(dues)|
      ensures k > 0 && Moved(old(spine), old(dues), old(ready), old(readyAt), old(target) + latency, k)
      ensures if |dues| == 0 then !armed else target == dues[0] + late
    {
      UntilMatch(clock, target);
      hide Stored, Listed;
      clock := clock + Stored(comparator - Stored(clock)) + latency;
      k := Handle(late);
    }

    /** All that waits is due within less than half a turn, the interrupts' delays
        taken off, and the comparator matches soon. */
    ghost predicate Near(maxLatency: nat, maxLate: nat)
      reads this
    {
      && Close(dues, HALF - 1 - maxLatency - maxLate)
      && (|dues| > 0 ==>
            clock <= target < clock + HALF + maxLate && forall i :: 0 <= i < |dues| ==>
              target + maxLatency - HALF + 1 < dues[i] < target + HALF)
    }

    /** Left to itself, the timer hands over every event, in the order of the list, in
        no more interrupts than there are events. Interrupt `i` is taken `latency(i)`
        ticks after the comparator matches, and takes `late(i)` ticks. No event leaves
        before it is due; it leaves at most one latency and one handler's time after
        it is due, the events before it in the list are due, and the comparator that
        is set already matches: delays do not add up. */
    method RunToIdle(latency: nat -> nat, late: nat -> nat, maxLatency: nat, maxLate: nat)
      returns (fired: nat, ghost leftAt: seq<int>)
      requires Valid() && Near(maxLatency, maxLate) && maxLatency + maxLate < HALF - 1
      requires forall i :: latency(i) <= maxLatency
      requires forall i :: late(i) <= maxLate
      modifies this
      ensures Valid() && |spine| == 0 && (fired > 0 ==> !armed)
      ensures ready == old(ready) + old(spine) && fired <= |old(spine)| && (fired > 0 <==> |old(spine)| > 0)
      ensures LeftInTime(leftAt, old(dues), old(target), maxLatency + maxLate) && |leftAt| == |old(dues)|
      ensures readyAt == old(readyAt) + leftAt
    {
      hide Chain, Distinct, Timed, LeftInTime, Close;
      fired, leftAt := 0, [];
      NoneLeft(dues, target, maxLatency + maxLate);
      while first != 0
        invariant Valid() && Near(maxLatency, maxLate) && fired <= |leftAt| <= |old(dues)| == |old(spine)|
        invariant dues == old(dues)[|leftAt|..] && spine == old(spine)[|leftAt|..]
        invariant ready == old(ready) + old(spine)[..|leftAt|] && readyAt == old(readyAt) + leftAt
        invariant LeftInTime(leftAt, old(dues), old(target), maxLatency + maxLate)
        invariant |leftAt| == 0 ==> target == old(target)
        invariant |leftAt| > 0 && |dues| > 0 ==> target <= dues[0] + maxLate
        invariant fired > 0 && |dues| == 0 ==> !armed
        invariant fired > 0 <==> |leftAt| > 0
        decreases |dues|
      {
        leftAt := FireOne(latency(fired), late(fired), maxLatency, maxLate,
                          leftAt, old(dues), old(spine), old(ready), old(readyAt), old(target));
        fired := fired + 1;
      }
      NoNull(next, first, spine);
    }

    /** One interrupt of such a run. */
    method FireOne(latency: nat, late: nat, ghost maxLatency: nat, ghost maxLate: nat,
                   ghost leftAt: seq<int>, ghost duesWas: seq<int>, ghost spineWas: seq<int>,
                   ghost readyWas: seq<int>, ghost readyAtWas: seq<int>, ghost targetWas: int)
      returns (ghost leftAt': seq<int>)
      requires Valid() && Near(maxLatency, maxLate) && first != 0
      requires latency <= maxLatency && late <= maxLate && maxLatency + maxLate < HALF - 1
      requires |leftAt| <= |duesWas| == |spineWas| && dues == duesWas[|leftAt|..] && spine == spineWas[|leftAt|..]
      requires ready == readyWas + spineWas[..|leftAt|] && readyAt == readyAtWas + leftAt
      requires LeftInTime(leftAt, duesWas, targetWas, maxLatency + maxLate)
      requires if |leftAt| == 0 then target == targetWas else |dues| > 0 ==> target <= dues[0] + maxLate
      modifies this
      ensures Valid() && Near(maxLatency, maxLate)
      ensures |leftAt| < |leftAt'| <= |duesWas| && dues == duesWas[|leftAt'|..] && spine == spineWas[|leftAt'|..]
      ensures ready == readyWas + spineWas[..|leftAt'|] && readyAt == readyAtWas + leftAt'
      ensures LeftInTime(leftAt', duesWas, targetWas, maxLatency + maxLate)
      ensures if |dues| == 0 then !armed else target <= dues[0] + maxLate
    {
      hide Chain, Distinct, Timed, LeftInTime;
      ListedFirst(next, times, first, spine, dues);
      ghost var k := Fire(latency, late);
      leftAt' := leftAt + Repeated(old(target) + latency, k);
      Leaving(leftAt, duesWas, targetWas, old(target) + latency, k, maxLatency, maxLate);
      StillNear(old(dues), dues, k, old(target) + latency + late, target, maxLatency, maxLate, late);
      Suffix(duesWas, |leftAt|, k);
      Suffix(spineWas, |leftAt|, k);
      Prefix(spineWas, |leftAt|, k);
      assert ready == readyWas + (spineWas[..|leftAt|] + spineWas[|leftAt|..][..k]);
    }

    lemma NoneLeft(dues: seq<int>, target: int, delay: int)
      ensures LeftInTime([], dues, target, delay)
    {
    }

    lemma Suffix(s: seq<int>, a: nat, k: nat)
      requires a + k <= |s|
      ensures s[a..][k..] == s[a + k..]
    {
    }

    lemma Prefix(s: seq<int>, a: nat, k: nat)
      requires a + k <= |s|
      ensures s[..a] + s[a..][..k] == s[..a + k]
    {
    }

    /** What is left after an interrupt is still near the new comparator. */
    lemma StillNear(was: seq<int>, now: seq<int>, k: nat, clock: int, target: int,
                    maxLatency: nat, maxLate: nat, late: nat)
      requires k <= |was| && now == was[k..] && Close(was, HALF - 1 - maxLatency - maxLate) && late <= maxLate
      requires |now| > 0 ==> target == now[0] + late
      ensures Close(now, HALF - 1 - maxLatency - maxLate)
      ensures |now| > 0 ==> forall i :: 0 <= i < |now| ==> target + maxLatency - HALF + 1 < now[i] < target + HALF
    {
      forall i, j | 0 <= i < |now| && 0 <= j < |now| ensures now[i] - now[j] < HALF - 1 - maxLatency - maxLate {
        assert now[i] == was[k + i] && now[j] == was[k + j];
      }
    }

    /** The events that leave at `at`. */
    lemma Leaving(leftAt: seq<int>, dues: seq<int>, target: int, at: int, k: nat, maxLatency: nat, maxLate: nat)
      requires LeftInTime(leftAt, dues, target, maxLatency + maxLate) && |leftAt| + k <= |dues|
      requires DuePrefix(dues[|leftAt|..], at, k)
      requires if |leftAt| == 0 then at <= target + maxLatency
               else |dues| > |leftAt| ==> at <= dues[|leftAt|] + maxLate + maxLatency
      ensures LeftInTime(leftAt + Repeated(at, k), dues, target, maxLatency + maxLate)
    {
      var rest, a := dues[|leftAt|..], |leftAt|;
      forall i | a <= i < a + k
        ensures dues[i] <= at <= Latest(dues, i, target) + maxLatency + maxLate
      {
        assert rest[i - a] == dues[i];
        assert dues[a] <= Latest(dues, i, target);
      }
    }
  }
}
