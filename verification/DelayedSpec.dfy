/** The delayed-event queue on values: absolute due times against the 32-bit tick
    counter, and where the masked comparison of `rt_event_push_delayed` puts an event. */
module DelayedSpec {
  import opened EventChain

  // The counter wraps at WORD, and comparisons drop its top bit.
  const WORD: int := 0x1_0000_0000
  const HALF: int := 0x8000_0000

  const MICROS: int := 1000000

  /** The ticks that a delay in microseconds is rounded up to. */
  function Ticks(us: int, refClock: int): (t: int)
    requires 1 <= refClock <= MICROS
    ensures t >= 1
  {
    (if us < 0 then 0 else us) / (MICROS / refClock) + 1
  }

  /** So many ticks last longer than the delay, for every reference clock up to
      one tick a microsecond. */
  lemma TicksLongEnough(us: int, refClock: int)
    requires 1 <= refClock <= 1000000
    ensures Ticks(us, refClock) * 1000000 > us * refClock
  {
    var q := MICROS / refClock;
    var u := if us < 0 then 0 else us;
    var t := u / q + 1;
    assert t * q > u && q * refClock <= MICROS;
    calc {
      t * MICROS;
    >= { Scaled(q * refClock, MICROS, t); }
      (q * refClock) * t;
    ==
      (t * q) * refClock;
    >= { Scaled(u + 1, t * q, refClock); }
      (u + 1) * refClock;
    >= { Scaled(us + 1, u + 1, refClock); }
      (us + 1) * refClock;
    ==
      us * refClock + refClock;
    }
  }

  /** If a tick lasts a whole number of microseconds, `ticks` of them last longer than the delay,
      and one less does not. */
  predicate LeastTicks(us: int, refClock: int, ticks: int)
    requires refClock > 0
  {
    var tick := 1000000 / refClock;
    ticks > 0 && (ticks - 1) * tick <= (if us < 0 then 0 else us) < ticks * tick
  }

  /** They are as few as can be, if a tick is taken to last a whole number of microseconds, as
      the code does: one less would not last longer. */
  lemma TicksLeast(us: int, refClock: int)
    requires 1 <= refClock <= 1000000
    ensures var t, tick := Ticks(us, refClock), 1000000 / refClock;
      t > 0 && (t - 1) * tick <= (if us < 0 then 0 else us) < t * tick
  {
    var u, tick := if us < 0 then 0 else us, 1000000 / refClock;
    assert u == tick * (u / tick) + u % tick;
    assert (u / tick + 1) * tick == u / tick * tick + tick;
  }

  lemma TicksAreLeast(us: int, refClock: int)
    requires 1 <= refClock <= MICROS
    ensures LeastTicks(us, refClock, Ticks(us, refClock))
  {
    TicksLeast(us, refClock);
  }

  lemma Scaled(a: int, b: int, c: int)
    requires a <= b && c >= 0
    ensures a * c <= b * c
  {
  }

  /** What a 32-bit field or register holds of a time. */
  function Stored(time: int): (t: int) {
    time % WORD
  }

  function Mask(time: int): (m: int) {
    time % HALF
  }

  /** The place that the insertion loop finds: before the first event whose masked
      time is not below `bound`. */
  function Place(dues: seq<int>, bound: int): (k: nat)
    ensures k <= |dues| && (forall i :: 0 <= i < k ==> Mask(dues[i]) < bound)
    ensures k < |dues| ==> Mask(dues[k]) >= bound
  {
    if dues == [] || Mask(dues[0]) >= bound then 0 else 1 + Place(dues[1..], bound)
  }

  /** That place, by the times themselves: comparisons drop the top bit of 32. */
  lemma PlaceByTime(dues: seq<int>, now: int, ticks: int)
    ensures var k := Place(dues, Mask(now) + ticks);
      && k <= |dues|
      && (forall i :: 0 <= i < k ==> dues[i] % 0x8000_0000 < now % 0x8000_0000 + ticks)
      && (k < |dues| ==> dues[k] % 0x8000_0000 >= now % 0x8000_0000 + ticks)
  {
  }

  /** Only one place is the first. */
  lemma PlaceUnique(dues: seq<int>, bound: int, k: nat)
    requires k <= |dues| && (forall i :: 0 <= i < k ==> Mask(dues[i]) < bound)
    requires k < |dues| ==> Mask(dues[k]) >= bound
    ensures Place(dues, bound) == k
  {
    var p := Place(dues, bound);
  }

  ghost predicate Sorted(dues: seq<int>) {
    forall i, j :: 0 <= i < j < |dues| ==> dues[i] <= dues[j]
  }

  /** The queue after pushing, at time `now`, an event that is due at `d`. */
  function Pushed(dues: seq<int>, now: int, d: int): seq<int> {
    InsertAt(dues, Place(dues, Mask(now) + d - now), d)
  }

  /** Half a turn of the counter around `now`. */
  ghost predicate InWindow(dues: seq<int>, now: int) {
    forall i :: 0 <= i < |dues| ==> now - HALF + 1 < dues[i] < now + HALF
  }

  /** The start of the epoch of `now`: the stretch of HALF ticks in which masked
      times compare like times. */
  function Epoch(now: int): int {
    now - Mask(now)
  }

  lemma MaskIn(time: int, now: int)
    requires now - HALF < time < now + HALF
    ensures Mask(time) == time - Epoch(now) +
                          if time < Epoch(now) then HALF else if time >= Epoch(now) + HALF then 0 - HALF else 0
  {
    var e := Epoch(now);
    var q := now / HALF;
    assert now == HALF * q + Mask(now) && e == HALF * q;
    if time < e {
      assert time == HALF * (q - 1) + (time - e + HALF);
    } else if time >= e + HALF {
      assert time == HALF * (q + 1) + (time - e - HALF);
    } else {
      assert time == HALF * q + (time - e);
    }
  }

  /** When a push keeps the queue sorted: an overdue event of the epoch before is
      passed only if it is more than HALF ticks older, and one of the epoch after is
      passed always, unless an event of this epoch stops the search. */
  ghost predicate FitsEpoch(dues: seq<int>, now: int, d: int) {
    && (forall i :: 0 <= i < |dues| && dues[i] < Epoch(now) ==> dues[i] + HALF < d)
    && ((forall i :: 0 <= i < |dues| && dues[i] >= Epoch(now) + HALF ==> dues[i] <= d)
        || (exists i :: 0 <= i < |dues| && d <= dues[i] < Epoch(now) + HALF))
  }

  lemma SortedAround(dues: seq<int>, k: nat, d: int)
    requires Sorted(dues) && k <= |dues|
    ensures Sorted(InsertAt(dues, k, d)) <==>
            (forall i :: 0 <= i < k ==> dues[i] <= d) && (forall i :: k <= i < |dues| ==> d <= dues[i])
  {
    var r := InsertAt(dues, k, d);
    assert r[k] == d && forall i :: 0 <= i < k ==> r[i] == dues[i];
    assert forall i :: k <= i < |dues| ==> r[i + 1] == dues[i];
    assert forall i :: k < i < |r| ==> r[i] == dues[i - 1];
  }

  /** The queue stays sorted exactly under `FitsEpoch`. */
  lemma SortedExactly(dues: seq<int>, now: int, d: int)
    requires Sorted(dues) && InWindow(dues, now) && now < d
    ensures Sorted(Pushed(dues, now, d)) <==> FitsEpoch(dues, now, d)
  {
    hide Mask, Epoch;
    var bound := Mask(now) + d - now;
    var k := Place(dues, bound);
    SortedAround(dues, k, d);
    EpochOf(now);
    forall i | 0 <= i < |dues|
      ensures Mask(dues[i]) < bound <==>
              if dues[i] < Epoch(now) then dues[i] + HALF < d
              else if dues[i] >= Epoch(now) + HALF then true else dues[i] < d
    {
      MaskIn(dues[i], now);
    }
  }

  /** A sorted queue `was` is sorted as `dues` exactly under `FitsEpoch`. */
  ghost predicate OrderedIff(was: seq<int>, dues: seq<int>, now: int, d: int) {
    Sorted(was) && InWindow(was, now) ==> (Sorted(dues) <==> FitsEpoch(was, now, d))
  }

  lemma PushOrdered(was: seq<int>, dues: seq<int>, now: int, d: int)
    requires now < d && dues == Pushed(was, now, d)
    ensures OrderedIff(was, dues, now, d)
  {
    if Sorted(was) && InWindow(was, now) {
      SortedExactly(was, now, d);
    }
  }

  lemma EpochOf(now: int)
    ensures Epoch(now) == now - Mask(now) && Epoch(now) <= now < Epoch(now) + HALF
  {
  }

  /** All times of one epoch: no event is overdue by an epoch or due in the next. */
  ghost predicate OneEpoch(dues: seq<int>, now: int) {
    forall i :: 0 <= i < |dues| ==> Epoch(now) <= dues[i] < Epoch(now) + HALF
  }

  /** Within one epoch the queue stays sorted; the new event comes behind all that
      are due earlier and before all that are due with it or later. */
  lemma OneEpochSorted(dues: seq<int>, now: int, d: int)
    requires Sorted(dues) && OneEpoch(dues, now) && now < d
    ensures Sorted(Pushed(dues, now, d))
    ensures var k := Place(dues, Mask(now) + d - now);
            forall i :: 0 <= i < |dues| ==> (i < k <==> dues[i] < d)
  {
    hide Mask, Epoch;
    EpochOf(now);
    forall i | 0 <= i < |dues|
      ensures Mask(dues[i]) == dues[i] - Epoch(now)
    {
      MaskIn(dues[i], now);
    }
    SortedAround(dues, Place(dues, Mask(now) + d - now), d);
  }

  /** Just before the top bit of the counter changes, an event that is due first
      goes behind one that is due after the change. */
  lemma EpochMatters()
    ensures Pushed([0x8000_0005], 0x7fff_fff6, 0x7fff_fff9) == [0x8000_0005, 0x7fff_fff9]
    ensures !Sorted(Pushed([0x8000_0005], 0x7fff_fff6, 0x7fff_fff9))
  {
    PlaceUnique([HALF + 5], Mask(HALF - 10) + 3, 1);
    var r := Pushed([HALF + 5], HALF - 10, HALF - 7);
    assert r == [HALF + 5, HALF - 7];
    assert r[0] > r[1];
  }

  /** The handler's 32-bit difference tells the events that are due from those
      that are not. */
  lemma DueByDifference(now: int, due: int)
    requires now - HALF + 1 < due < now + HALF
    ensures Stored(Stored(now) - Stored(due)) < 0x7fff_ffff <==> due <= now
  {
    SameRest(now % WORD - due % WORD, now - due, due / WORD - now / WORD);
    if due <= now {
      assert (now - due) % WORD == now - due;
    } else {
      assert (now - due) % WORD == now - due + WORD;
    }
  }

  lemma SameRest(a: int, b: int, q: int)
    requires a == b + WORD * q
    ensures a % WORD == b % WORD
  {
  }

  /** Masking the stored 32-bit time is masking the time. */
  lemma StoredMask(due: int)
    ensures Mask(Stored(due)) == Mask(due)
  {
    Halves(due / WORD, due % WORD);
  }

  /** The 32-bit count plus a delay is the due time cut to 32 bits. */
  lemma Stamp(now: int, ticks: int)
    ensures Stored(Stored(now) + ticks) == Stored(now + ticks) && Mask(Stored(now)) == Mask(now)
  {
    SameRest(now % WORD + ticks, now + ticks, 0 - now / WORD);
    StoredMask(now);
  }

  /** The comparator that lies as far ahead of `clock` as `due` lies ahead of `now`. */
  lemma Ahead(clock: int, due: int, now: int)
    ensures Stored(Stored(clock) + Stored(due) - Stored(now)) == Stored(clock + due - now)
  {
    SameRest(clock % WORD + due % WORD - now % WORD, clock + due - now, now / WORD - clock / WORD - due / WORD);
  }

  /** How long the counter takes to reach the comparator. */
  lemma UntilMatch(clock: int, target: int)
    requires clock <= target < clock + WORD
    ensures Stored(Stored(target) - Stored(clock)) == target - clock
  {
    SameRest(target % WORD - clock % WORD, target - clock, clock / WORD - target / WORD);
  }

  lemma Halves(q: int, r: int)
    ensures (WORD * q + r) % HALF == r % HALF
  {
    SameHalf(WORD * q + r, r, 2 * q);
  }

  lemma SameHalf(a: int, b: int, q: int)
    requires a == b + HALF * q
    ensures a % HALF == b % HALF
  {
  }

  /** The first `k` events are those before the first that is not due. */
  ghost predicate DuePrefix(dues: seq<int>, now: int, k: int) {
    && 0 <= k <= |dues|
    && (forall i :: 0 <= i < k ==> dues[i] <= now)
    && (k < |dues| ==> now < dues[k])
  }

  /** In a sorted queue they are all that are due. */
  lemma PrefixOfSorted(dues: seq<int>, now: int, k: int)
    requires Sorted(dues) && DuePrefix(dues, now, k)
    ensures forall i :: 0 <= i < |dues| ==> (i < k <==> dues[i] <= now)
  {
  }

  /** The same time, `n` times. */
  function Repeated(time: int, n: nat): (ts: seq<int>)
    ensures |ts| == n && forall i :: 0 <= i < n ==> ts[i] == time
  {
    seq(n, _ => time)
  }

  /** The latest of the time `target` and the due times of the first `i + 1` events. */
  function Latest(dues: seq<int>, i: nat, target: int): (t: int)
    requires i < |dues|
    ensures t >= target && forall j :: 0 <= j <= i ==> t >= dues[j]
  {
    var before := if i == 0 then target else Latest(dues, i - 1, target);
    if before < dues[i] then dues[i] else before
  }

  lemma {:induction false} LatestIsOne(dues: seq<int>, i: nat, target: int)
    requires i < |dues|
    ensures Latest(dues, i, target) == target || exists j :: 0 <= j <= i && Latest(dues, i, target) == dues[j]
  {
    if i > 0 {
      LatestIsOne(dues, i - 1, target);
    }
  }

  /** In a sorted queue only the event itself matters. */
  lemma {:induction false} LatestOfSorted(dues: seq<int>, i: nat, target: int)
    requires Sorted(dues) && i < |dues|
    ensures Latest(dues, i, target) == if dues[i] < target then target else dues[i]
  {
    if i > 0 {
      LatestOfSorted(dues, i - 1, target);
    }
  }

  /** The due times lie within `d` ticks of each other. */
  ghost predicate Close(dues: seq<int>, d: int) {
    forall i, j :: 0 <= i < |dues| && 0 <= j < |dues| ==> dues[i] - dues[j] < d
  }
}
