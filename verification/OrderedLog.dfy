/** Logs that only grow, and what has been done between two states of one. */
module OrderedLog {
  /** Some of `s`, in their order, are `xs`. */
  ghost predicate InOrder<T>(xs: seq<T>, s: seq<T>) {
    exists at: seq<nat> :: Picks(at, xs, s)
  }

  /** These places of `s` hold `xs`. */
  ghost predicate Picks<T>(at: seq<nat>, xs: seq<T>, s: seq<T>) {
    && |at| == |xs|
    && (forall i :: 0 <= i < |at| ==> at[i] < |s| && s[at[i]] == xs[i])
    && (forall i, j :: 0 <= i < j < |at| ==> at[i] < at[j])
  }

  lemma InOrderNone<T>(s: seq<T>)
    ensures InOrder([], s)
  {
    assert Picks([], [], s);
  }

  /** One part after the other. */
  lemma InOrderJoin<T>(xs: seq<T>, s: seq<T>, ys: seq<T>, t: seq<T>)
    requires InOrder(xs, s) && InOrder(ys, t)
    ensures InOrder(xs + ys, s + t)
  {
    var at: seq<nat> :| Picks(at, xs, s);
    var at': seq<nat> :| Picks(at', ys, t);
    assert Picks(at + seq(|at'|, i requires 0 <= i < |at'| => |s| + at'[i]), xs + ys, s + t);
  }

  /** From log `before` to log `now`, all of `xs` were done, in order. */
  ghost predicate Did<T>(before: seq<T>, xs: seq<T>, now: seq<T>) {
    before <= now && InOrder(xs, now[|before|..])
  }

  lemma DidNothing<T>(log: seq<T>, now: seq<T>)
    requires log <= now
    ensures Did(log, [], now)
  {
    InOrderNone(now[|log|..]);
  }

  lemma DidMore<T>(a: seq<T>, xs: seq<T>, b: seq<T>, ys: seq<T>, c: seq<T>)
    requires Did(a, xs, b) && Did(b, ys, c)
    ensures Did(a, xs + ys, c)
  {
    InOrderJoin(xs, b[|a|..], ys, c[|b|..]);
    assert c[|a|..] == b[|a|..] + c[|b|..];
  }

  lemma DidFirst<T>(log: seq<T>, x: T, now: seq<T>)
    requires log + [x] <= now
    ensures Did(log, [x], now)
  {
    assert now[|log|..][0] == x;
    assert Picks([0], [x], now[|log|..]);
  }

  lemma DidPart<T>(log: seq<T>, xs: seq<T>, ys: seq<T>, now: seq<T>)
    requires Did(log, xs + ys, now)
    ensures Did(log, xs, now)
  {
    var at: seq<nat> :| Picks(at, xs + ys, now[|log|..]);
    assert Picks(at[..|xs|], xs, now[|log|..]) by {
      assert forall i :: 0 <= i < |xs| ==> (xs + ys)[i] == xs[i];
    }
  }

  lemma DidLater<T>(log: seq<T>, mid: seq<T>, xs: seq<T>, now: seq<T>)
    requires log <= mid && Did(mid, xs, now)
    ensures Did(log, xs, now)
  {
    DidNothing(log, mid);
    DidMore(log, [], mid, xs, now);
    assert [] + xs == xs;
  }
}
