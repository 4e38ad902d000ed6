/** The lock that the fabric controller (FC) and the cluster share: the protocol as
    a transition system, and the queue of cluster requests that implements it. */
module FcLock {
  import opened EventChain

  datatype Party = Fc | Cluster(req: int)

  datatype Step = FcTry | FcUnlock | Ask(req: int) | GiveBack(req: int)

  /** Who believes to hold the lock, who waits, and all that asked and got it. */
  datatype State = State(locked: bool, holders: set<Party>, queue: seq<int>, arrivals: seq<int>, grants: seq<int>)

  const FREE: State := State(false, {}, [], [], [])

  /** Who may take a step: only a holder unlocks, and a request is not sent again
      while it waits or holds the lock. */
  predicate Enabled(s: State, step: Step) {
    match step
    case FcTry => true
    case FcUnlock => Fc in s.holders
    case Ask(r) => r !in s.queue && Cluster(r) !in s.holders
    case GiveBack(r) => Cluster(r) in s.holders
  }

  function Grant(s: State, r: int): State {
    s.(locked := true, holders := s.holders + {Cluster(r)}, grants := s.grants + [r])
  }

  /** Hands the lock to the first in the queue, or frees it. */
  function Release(s: State, p: Party): State {
    var s := s.(holders := s.holders - {p});
    if |s.queue| > 0 then Grant(s, s.queue[0]).(queue := s.queue[1..]) else s.(locked := false)
  }

  function Next(s: State, step: Step): State {
    match step
    case FcTry => if s.locked then s else s.(locked := true, holders := s.holders + {Fc})
    case FcUnlock => Release(s, Fc)
    case GiveBack(r) => Release(s, Cluster(r))
    case Ask(r) =>
      var s := s.(arrivals := s.arrivals + [r]);
      if s.locked then s.(queue := s.queue + [r]) else Grant(s, r)
  }

  /** At most one party holds the lock, and it is locked just then; requests wait
      only while it is held, and are granted in the order in which they came. */
  ghost predicate Inv(s: State) {
    && (if s.locked then exists p :: s.holders == {p} else s.holders == {} && s.queue == [])
    && s.arrivals == s.grants + s.queue
    && Distinct(s.queue)
    && (forall r <- s.queue :: Cluster(r) !in s.holders)
  }

  lemma StepKeeps(s: State, step: Step)
    requires Inv(s) && Enabled(s, step)
    ensures Inv(Next(s, step))
  {
    match step
    case FcTry => FcTryKeeps(s);
    case Ask(r) => AskKeeps(s, r);
    case FcUnlock => ReleaseKeeps(s, Fc);
    case GiveBack(r) => ReleaseKeeps(s, Cluster(r));
  }

  lemma FcTryKeeps(s: State)
    requires Inv(s)
    ensures Inv(Next(s, FcTry))
  {
    if !s.locked {
      assert Next(s, FcTry).holders == {Fc};
    }
  }

  lemma AskKeeps(s: State, r: int)
    requires Inv(s) && Enabled(s, Ask(r))
    ensures Inv(Next(s, Ask(r)))
  {
    if !s.locked {
      assert Next(s, Ask(r)).holders == {Cluster(r)};
    }
  }

  lemma ReleaseKeeps(s: State, p: Party)
    requires Inv(s) && p in s.holders
    ensures Inv(Release(s, p))
  {
    assert s.holders - {p} == {};
    if |s.queue| > 0 {
      assert Release(s, p).holders == {Cluster(s.queue[0])};
      assert s.queue == [s.queue[0]] + s.queue[1..];
    }
  }

  /** What each step does to the lock: an attempt of the FC takes it if it is free; a request
      takes it if it is free and else waits behind the others; giving it back hands it to the
      first that waits, whoever gave it back, or frees it. */
  lemma StepDoes(s: State, step: Step)
    requires Inv(s) && Enabled(s, step)
    ensures var t := Next(s, step);
      && (step == FcTry ==> if s.locked then t == s else t.locked && t.holders == {Fc} && t.queue == [])
      && (step.Ask? ==>
            && t.locked && t.arrivals == s.arrivals + [step.req]
            && if s.locked then t.holders == s.holders && t.queue == s.queue + [step.req] && t.grants == s.grants
               else t.holders == {Cluster(step.req)} && t.queue == [] && t.grants == s.grants + [step.req])
      && (step == FcUnlock || step.GiveBack? ==>
            && s.locked && t.arrivals == s.arrivals
            && if s.queue == [] then !t.locked && t.holders == {} && t.queue == [] && t.grants == s.grants
               else t.locked && t.holders == {Cluster(s.queue[0])} && t.queue == s.queue[1..]
                    && t.grants == s.grants + [s.queue[0]])
  {
    if step == FcUnlock {
      assert s.holders - {Fc} == {};
    } else if step.GiveBack? {
      assert s.holders - {Cluster(step.req)} == {};
    }
  }

  /** What a run does: every step by someone who may take it. */
  ghost predicate MayRun(s: State, steps: seq<Step>)
    decreases |steps|
  {
    |steps| > 0 ==> Enabled(s, steps[0]) && MayRun(Next(s, steps[0]), steps[1..])
  }

  function Run(s: State, steps: seq<Step>): State
    decreases |steps|
  {
    if |steps| == 0 then s else Run(Next(s, steps[0]), steps[1..])
  }

  /** The invariant holds after every run. */
  lemma {:induction false} EveryRun(s: State, steps: seq<Step>)
    requires Inv(s) && MayRun(s, steps)
    ensures Inv(Run(s, steps))
    decreases |steps|
  {
    if |steps| > 0 {
      StepKeeps(s, steps[0]);
      EveryRun(Next(s, steps[0]), steps[1..]);
    }
  }

  /** So, starting from the free lock, never two parties hold it, and it is locked
      just when one does. */
  lemma MutualExclusion(steps: seq<Step>, p: Party, q: Party)
    requires MayRun(FREE, steps)
    ensures var s := Run(FREE, steps);
            && (p in s.holders && q in s.holders ==> p == q)
            && (s.locked <==> s.holders != {})
            && s.grants <= s.arrivals
  {
    EveryRun(FREE, steps);
  }

  /** The controller gets the lock only when no cluster request waits. */
  lemma FcGetsItLast(s: State)
    requires Inv(s) && Fc !in s.holders
    ensures Fc in Next(s, FcTry).holders <==> !s.locked
    ensures Fc in Next(s, FcTry).holders ==> |s.queue| == 0
  {
  }

  function Releases(steps: seq<Step>): nat {
    if |steps| == 0 then 0
    else (if steps[0].FcUnlock? || steps[0].GiveBack? then 1 else 0) + Releases(steps[1..])
  }

  /** Which lock requests come in. */
  function Asked(steps: seq<Step>): seq<int> {
    if |steps| == 0 then []
    else (if steps[0].Ask? then [steps[0].req] else []) + Asked(steps[1..])
  }

  /** While the lock is held, each release hands it to the next in the queue,
      whatever else happens meanwhile: the controller does not come in between, and
      later requests do not overtake. So the request at place `i` holds the lock
      from release `i + 1` on. */
  ghost predicate ServedTo(s: State, steps: seq<Step>, n: nat, end: State)
    requires n <= |s.queue|
  {
    && end.locked && end.grants == s.grants + s.queue[..n] && end.queue == s.queue[n..] + Asked(steps)
    && end.holders == if n == 0 then s.holders else {Cluster(s.queue[n - 1])}
  }

  lemma {:induction false} ServedInTurn(s: State, steps: seq<Step>)
    requires Inv(s) && s.locked && MayRun(s, steps) && Releases(steps) <= |s.queue|
    ensures ServedTo(s, steps, Releases(steps), Run(s, steps))
    decreases |steps|
  {
    hide Inv, ServedTo, Release;
    if |steps| == 0 {
      NoneServed(s, steps);
    } else {
      var s', rest := Next(s, steps[0]), steps[1..];
      StepKeeps(s, steps[0]);
      match steps[0]
      case FcTry =>
        ServedInTurn(s', rest);
        TryServed(s, steps, Releases(rest), Run(s', rest));
      case Ask(r) =>
        ServedInTurn(s', rest);
        AskServed(s, steps, Releases(rest), Run(s', rest));
      case FcUnlock =>
        KeepsLocked(s, Fc);
        ServedInTurn(s', rest);
        ReleaseServed(s, Fc, steps, Releases(rest), Run(s', rest));
      case GiveBack(r) =>
        KeepsLocked(s, Cluster(r));
        ServedInTurn(s', rest);
        ReleaseServed(s, Cluster(r), steps, Releases(rest), Run(s', rest));
    }
  }

  lemma NoneServed(s: State, steps: seq<Step>)
    requires s.locked && |steps| == 0
    ensures ServedTo(s, steps, 0, s)
  {
  }

  lemma TryServed(s: State, steps: seq<Step>, n: nat, end: State)
    requires s.locked && |steps| > 0 && steps[0].FcTry? && n <= |s.queue|
    requires ServedTo(s, steps[1..], n, end)
    ensures ServedTo(s, steps, n, end)
  {
  }

  lemma KeepsLocked(s: State, p: Party)
    requires |s.queue| > 0
    ensures Release(s, p).locked && Release(s, p).queue == s.queue[1..]
  {
  }

  lemma AskServed(s: State, steps: seq<Step>, n: nat, end: State)
    requires s.locked && |steps| > 0 && steps[0].Ask? && n <= |s.queue|
    requires ServedTo(Next(s, steps[0]), steps[1..], n, end)
    ensures ServedTo(s, steps, n, end)
  {
    var r := steps[0].req;
    assert (s.queue + [r])[n..] + Asked(steps[1..]) == s.queue[n..] + ([r] + Asked(steps[1..]));
    assert (s.queue + [r])[..n] == s.queue[..n];
  }

  lemma ReleaseServed(s: State, p: Party, steps: seq<Step>, n: nat, end: State)
    requires Inv(s) && p in s.holders && n < |s.queue| && |steps| > 0 && !steps[0].Ask?
    requires ServedTo(Release(s, p), steps[1..], n, end)
    ensures ServedTo(s, steps, n + 1, end)
  {
    assert s.holders - {p} == {};
    assert Release(s, p).holders == {Cluster(s.queue[0])};
    assert s.queue[1..][n..] == s.queue[n + 1..];
    assert [s.queue[0]] + s.queue[1..][..n] == s.queue[..n + 1];
  }

  /** Doing a run a step at a time. */
  lemma {:induction false} RunStep(s: State, steps: seq<Step>, n: nat)
    requires MayRun(s, steps) && n < |steps|
    ensures Enabled(Run(s, steps[..n]), steps[n])
    ensures Run(s, steps[..n + 1]) == Next(Run(s, steps[..n]), steps[n])
    decreases n
  {
    if n == 0 {
      assert steps[..1][1..] == [];
    } else {
      var s', rest := Next(s, steps[0]), steps[1..];
      RunStep(s', rest, n - 1);
      assert steps[..n][1..] == rest[..n - 1] && steps[..n + 1][1..] == rest[..n];
    }
  }

  // ----- what the controller sees while it waits

  /** The controller looks at the lock only between two rounds of its scheduler; the
      steps that others take during a round are one entry of `rounds`. */
  function RunRounds(s: State, rounds: seq<seq<Step>>): State
    decreases |rounds|
  {
    if |rounds| == 0 then s else RunRounds(Run(s, rounds[0]), rounds[1..])
  }

  ghost predicate MayRunRounds(s: State, rounds: seq<seq<Step>>)
    decreases |rounds|
  {
    |rounds| > 0 ==> MayRun(s, rounds[0]) && MayRunRounds(Run(s, rounds[0]), rounds[1..])
  }

  /** After `k` rounds the lock is free. */
  ghost predicate FreeAfter(s: State, rounds: seq<seq<Step>>, k: int) {
    0 <= k <= |rounds| && !RunRounds(s, rounds[..k]).locked
  }

  /** Doing the rounds one at a time. */
  lemma {:induction false} RoundStep(s: State, rounds: seq<seq<Step>>, n: nat)
    requires MayRunRounds(s, rounds) && n < |rounds|
    ensures MayRun(RunRounds(s, rounds[..n]), rounds[n])
    ensures RunRounds(s, rounds[..n + 1]) == Run(RunRounds(s, rounds[..n]), rounds[n])
    decreases n
  {
    if n == 0 {
      assert rounds[..1][1..] == [];
    } else {
      var s', rest := Run(s, rounds[0]), rounds[1..];
      RoundStep(s', rest, n - 1);
      assert rounds[..n][1..] == rest[..n - 1] && rounds[..n + 1][1..] == rest[..n];
    }
  }

  /** A lock that is freed within a round can be taken again within it: the
      controller does not see that it was free. */
  lemma RetakenUnseen(s: State, r: int, r': int)
    requires Inv(s) && Cluster(r) in s.holders && |s.queue| == 0
    ensures MayRun(s, [GiveBack(r), Ask(r')]) && !Run(s, [GiveBack(r)]).locked
    ensures var s' := Run(s, [GiveBack(r), Ask(r')]);
            s'.locked && s'.holders == {Cluster(r')} && |s'.queue| == 0 && Inv(s')
  {
    var steps := [GiveBack(r), Ask(r')];
    assert s.holders - {Cluster(r)} == {};
    assert steps[1..] == [Ask(r')] && steps[1..][1..] == [] && [GiveBack(r)][1..] == [];
    assert Run(s, [GiveBack(r)]) == Next(s, GiveBack(r));
    var s1 := Next(s, GiveBack(r));
    assert Run(s, steps) == Run(s1, [Ask(r')]) == Next(s1, Ask(r'));
    EveryRun(s, steps);
  }

  /** So a single cluster core can keep the controller waiting for any number of
      rounds, although it gives the lock back in each of them. */
  lemma {:induction false} KeptWaiting(s: State, r: int, n: nat, k: int)
    requires Inv(s) && s.holders == {Cluster(r)} && s.locked && |s.queue| == 0
    ensures var rounds := seq(n, _ => [GiveBack(r), Ask(r)]);
            MayRunRounds(s, rounds) && !FreeAfter(s, rounds, k)
    decreases n
  {
    var rounds := seq(n, _ => [GiveBack(r), Ask(r)]);
    if n > 0 {
      RetakenUnseen(s, r, r);
      var s' := Run(s, rounds[0]);
      assert rounds[1..] == seq(n - 1, _ => [GiveBack(r), Ask(r)]);
      KeptWaiting(s', r, n - 1, k - 1);
      if 0 < k <= n {
        assert rounds[..k][1..] == rounds[1..][..k - 1];
      }
    }
  }

  /** The links hold the queue of a state, with a pointer to its last request. */
  ghost predicate Queued(next: map<int, int>, waiting: int, lastWaiting: int, done: set<int>, s: State) {
    && Chain(next, waiting, s.queue) && Inv(s)
    && (|s.queue| > 0 ==> lastWaiting == s.queue[|s.queue| - 1])
    && (forall r <- s.queue :: r !in done)
  }

  lemma QueuedAppend(next: map<int, int>, waiting: int, lastWaiting: int, done: set<int>, s: State, r: int)
    requires Queued(next, waiting, lastWaiting, done, s) && s.locked && Enabled(s, Ask(r)) && r != 0 && r !in done
    ensures Queued((if waiting != 0 then next[lastWaiting := r] else next)[r := 0],
                   if waiting != 0 then waiting else r, r, done, Next(s, Ask(r)))
  {
    StepKeeps(s, Ask(r));
    var n := |s.queue|;
    ChainInsert(next, waiting, s.queue, n, r);
    assert InsertAt(s.queue, n, r) == s.queue + [r];
    if n > 0 {
      ChainAt(next, waiting, s.queue, 0);
    }
  }

  lemma QueuedRelease(next: map<int, int>, waiting: int, lastWaiting: int, done: set<int>, s: State, p: Party)
    requires Queued(next, waiting, lastWaiting, done, s) && p in s.holders
    ensures waiting != 0 <==> |s.queue| > 0
    ensures waiting == 0 ==> Queued(next, waiting, lastWaiting, done, Release(s, p))
    ensures waiting != 0 ==> waiting == s.queue[0] && waiting in next
    ensures waiting != 0 ==> Queued(next, next[waiting], lastWaiting, done + {waiting}, Release(s, p))
  {
    ReleaseKeeps(s, p);
    if |s.queue| > 0 {
      assert forall r <- s.queue[1..] :: r != s.queue[0];
    }
  }

  /** No request is at NULL. */
  predicate HasAddress(step: Step) {
    (step.Ask? || step.GiveBack?) ==> step.req != 0
  }

  predicate Addressed(rounds: seq<seq<Step>>) {
    forall steps <- rounds, step <- steps :: HasAddress(step)
  }

  class Lock {
    var locked: bool
    var waiting: int
    var lastWaiting: int
    // fields of the requests, by address; `done` are those that have been replied to
    var next: map<int, int>
    var done: set<int>

    // the protocol state that the fields stand for
    ghost var view: State

    constructor ()
      ensures Valid() && view == FREE && done == {}
    {
      locked, waiting, lastWaiting, next, done := false, 0, 0, map[], {};
      view := FREE;
    }

    ghost predicate Valid()
      reads this
    {
      locked == view.locked && Queued(next, waiting, lastWaiting, done, view)
    }

    /** Hands the lock over to the first request in the queue, if there is one. */
    method UnlockToCluster(ghost p: Party) returns (given: bool)
      requires Valid() && p in view.holders
      modifies this`waiting, this`done, this`view
      ensures Queued(next, waiting, lastWaiting, done, view) && view == Release(old(view), p)
      ensures given <==> |old(view).queue| > 0
      ensures done == old(done) + if given then {old(view).queue[0]} else {}
      ensures given ==> locked == view.locked
      ensures !given ==> !view.locked
    {
      QueuedRelease(next, waiting, lastWaiting, done, view, p);
      hide Chain, Inv;
      view := Release(view, p);
      if waiting != 0 {
        var req := waiting;
        waiting := next[req];
        done := done + {req};
        return true;
      }
      return false;
    }

    method UnlockFromFc()
      requires Valid() && Enabled(view, FcUnlock)
      modifies this
      ensures Valid() && view == Next(old(view), FcUnlock)
      ensures done == old(done) + if |old(view).queue| > 0 then {old(view).queue[0]} else {}
    {
      var given := UnlockToCluster(Fc);
      if !given {
        locked := false;
      }
    }

    /** The handler of a cluster request, to lock or to unlock: a lock request is
        replied to when the lock is its, an unlock request at once. */
    method ClusterRequest(req: int, reqLock: bool)
      requires Valid() && req != 0 && req !in done
      requires Enabled(view, if reqLock then Ask(req) else GiveBack(req))
      modifies this
      ensures Valid() && view == Next(old(view), if reqLock then Ask(req) else GiveBack(req))
      ensures req in done <==> !reqLock || Cluster(req) in view.holders
      ensures done == old(done) + (if reqLock then if old(locked) then {} else {req}
                                   else if |old(view).queue| > 0 then {req, old(view).queue[0]} else {req})
    {
      hide Chain;
      if reqLock {
        if locked {
          Wait(req);
        } else {
          StepKeeps(view, Ask(req));
          view := Next(view, Ask(req));
          done := done + {req};
          locked := true;
        }
      } else {
        GiveBackKeeps(req);
        var given := UnlockToCluster(Cluster(req));
        if !given {
          locked := false;
        }
        done := done + {req};
      }
    }

    /** A request whose lock is given back is not in the queue. */
    lemma GiveBackKeeps(req: int)
      requires Valid() && Cluster(req) in view.holders
      ensures req !in view.queue
    {
    }

    method Wait(req: int)
      requires Valid() && locked && req != 0 && req !in done && Enabled(view, Ask(req))
      modifies this`waiting, this`lastWaiting, this`next, this`view
      ensures Valid() && view == Next(old(view), Ask(req)) && Cluster(req) !in view.holders
    {
      QueuedAppend(next, waiting, lastWaiting, done, view, req);
      hide Chain, Inv;
      if waiting != 0 {
        next := next[lastWaiting := req];
      } else {
        waiting := req;
      }
      lastWaiting := req;
      next := next[req := 0];
      view := Next(view, Ask(req));
    }

    /** The controller's lock: while the lock is held it executes its scheduler,
        once a round, and looks again only when a round is over. It gets the lock
        exactly when some round ends with the lock free, after the first that does;
        no request waits then. */
    method LockFromFc(rounds: seq<seq<Step>>) returns (n: nat, got: bool)
      requires Valid() && MayRunRounds(view, rounds) && Addressed(rounds)
      modifies this
      ensures Valid() && n <= |rounds|
      ensures got <==> exists k :: FreeAfter(old(view), rounds, k)
      ensures got <==> FreeAfter(old(view), rounds, n)
      ensures forall k :: 0 <= k < n ==> !FreeAfter(old(view), rounds, k)
      ensures view == if got then Next(RunRounds(old(view), rounds[..n]), FcTry) else RunRounds(old(view), rounds)
      ensures got ==> Fc in view.holders && |view.queue| == 0
    {
      n, got := 0, false;
      while locked
        invariant Valid() && n <= |rounds| && view == RunRounds(old(view), rounds[..n])
        invariant forall k :: 0 <= k < n ==> !FreeAfter(old(view), rounds, k)
        decreases |rounds| - n
      {
        if n == |rounds| {
          assert rounds[..n] == rounds;
          return;
        }
        RoundStep(old(view), rounds, n);
        ServeRound(rounds[n]);
        n := n + 1;
      }
      assert FreeAfter(old(view), rounds, n);
      StepKeeps(view, FcTry);
      view := Next(view, FcTry);
      locked, got := true, true;
    }

    /** What others do during one round of the scheduler. */
    method ServeRound(steps: seq<Step>)
      requires Valid() && MayRun(view, steps) && Addressed([steps])
      modifies this
      ensures Valid() && view == Run(old(view), steps)
    {
      for i := 0 to |steps|
        invariant Valid() && view == Run(old(view), steps[..i])
      {
        assert steps in [steps] && steps[i] in steps;
        RunStep(old(view), steps, i);
        Serve(steps[i]);
      }
      assert steps[..|steps|] == steps;
    }

    /** A step of somebody else: a request arrives, with its reply flag cleared by the
        sender, or another activity of the controller tries the lock or unlocks. */
    method Serve(step: Step)
      requires Valid() && Enabled(view, step) && HasAddress(step)
      modifies this
      ensures Valid() && view == Next(old(view), step)
    {
      match step
      case Ask(req) =>
        done := done - {req};
        ClusterRequest(req, true);
      case GiveBack(req) =>
        done := done - {req};
        ClusterRequest(req, false);
      case FcUnlock =>
        UnlockFromFc();
      case FcTry =>
        StepKeeps(view, FcTry);
        view := Next(view, FcTry);
        locked := true;
    }
  }
}
