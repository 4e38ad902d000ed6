/** Lists of events, linked through the `next` field that every queue of the
    runtime shares. An event is known by its address, and 0 is NULL. */
module EventChain {

  /** From `p`, the `next` fields lead through `ids` and end. */
  ghost predicate Chain(next: map<int, int>, p: int, ids: seq<int>)
    decreases |ids|
  {
    match |ids|
    case 0 => p == 0
    case _ => p == ids[0] && p != 0 && p in next && Chain(next, next[p], ids[1..])
  }

  ghost predicate Distinct(ids: seq<int>) {
    forall i, j :: 0 <= i < j < |ids| ==> ids[i] != ids[j]
  }

  /** The event at place `i`, or NULL behind the last. */
  function At(ids: seq<int>, i: nat): int {
    if i < |ids| then ids[i] else 0
  }

  /** The event before place `i`, or NULL. */
  function Before(ids: seq<int>, i: nat): int
    requires i <= |ids|
  {
    if i == 0 then 0 else ids[i - 1]
  }

  function InsertAt<T>(s: seq<T>, k: nat, x: T): (r: seq<T>)
    requires k <= |s|
  {
    s[..k] + [x] + s[k..]
  }

  lemma {:induction false} ChainFrame(next: map<int, int>, e: int, w: int, p: int, ids: seq<int>)
    requires Chain(next, p, ids) && e !in ids
    ensures Chain(next[e := w], p, ids)
    decreases |ids|
  {
    if |ids| > 0 {
      assert ids[0] in ids && e !in ids[1..];
      ChainFrame(next, e, w, next[p], ids[1..]);
    }
  }

  /** Where the links lead, step by step. */
  lemma {:induction false} ChainAt(next: map<int, int>, p: int, ids: seq<int>, k: nat)
    requires Chain(next, p, ids) && k < |ids|
    ensures ids[k] != 0 && ids[k] in next && next[ids[k]] == At(ids, k + 1)
    ensures p == ids[0]
    decreases k
  {
    if k > 0 {
      ChainAt(next, next[p], ids[1..], k - 1);
    } else if |ids| > 1 {
      assert Chain(next, next[p], ids[1..]);
    }
  }

  /** A new first event. */
  lemma ChainPush(next: map<int, int>, p: int, ids: seq<int>, e: int)
    requires Chain(next, p, ids) && e !in ids && e != 0
    ensures Chain(next[e := p], e, [e] + ids)
  {
    ChainFrame(next, e, p, p, ids);
    assert ([e] + ids)[1..] == ids;
  }

  /** The links after inserting `e` at place `k`. */
  function Inserted(next: map<int, int>, ids: seq<int>, k: nat, e: int): map<int, int>
    requires k <= |ids|
  {
    (if k == 0 then next else next[ids[k - 1] := e])[e := At(ids, k)]
  }

  /** Linking an event in between its neighbours puts it there, and nowhere else. */
  lemma {:induction false} ChainInsert(next: map<int, int>, p: int, ids: seq<int>, k: nat, e: int)
    requires Chain(next, p, ids) && Distinct(ids) && k <= |ids| && e !in ids && e != 0
    ensures Chain(Inserted(next, ids, k, e), if k == 0 then e else p, InsertAt(ids, k, e))
    decreases k
  {
    var all := InsertAt(ids, k, e);
    if k == 0 {
      assert all == [e] + ids;
      assert |ids| > 0 ==> p == ids[0];
      ChainPush(next, p, ids, e);
    } else {
      var rest := ids[1..];
      assert p !in rest;
      assert all[1..] == InsertAt(rest, k - 1, e);
      if k == 1 {
        ChainFrame(next, p, e, next[p], rest);
        ChainPush(next[p := e], next[p], rest, e);
        assert all[1..] == [e] + rest;
      } else {
        ChainInsert(next, next[p], rest, k - 1, e);
      }
    }
  }

  lemma DistinctInsert(ids: seq<int>, k: nat, e: int)
    requires Distinct(ids) && e !in ids && k <= |ids|
    ensures Distinct(InsertAt(ids, k, e))
  {
    var r := InsertAt(ids, k, e);
    forall i, j | 0 <= i < j < |r| ensures r[i] != r[j] {
      var i', j' := if i < k then i else i - 1, if j < k then j else j - 1;
      assert i != k ==> r[i] == ids[i'];
      assert j != k ==> r[j] == ids[j'];
    }
  }

  /** The links say which list there is. */
  lemma {:induction false} ChainUnique(next: map<int, int>, p: int, a: seq<int>, b: seq<int>)
    requires Chain(next, p, a) && Chain(next, p, b)
    ensures a == b
    decreases |a|
  {
    if |a| > 0 && |b| > 0 {
      ChainUnique(next, next[p], a[1..], b[1..]);
    }
  }

  /** A list whose event `ids[k]` was linked in front of it once more leads back to
      that event. */
  lemma {:induction false} WalkTo(next: map<int, int>, p: int, ids: seq<int>, k: nat, j: nat, w: int, walk: seq<int>)
    requires Chain(next, p, ids) && Distinct(ids) && j <= k < |ids|
    requires Chain(next[ids[k] := w], ids[j], walk)
    ensures k - j < |walk| && Chain(next[ids[k] := w], ids[k], walk[k - j..])
    decreases k - j
  {
    ChainAt(next, p, ids, j);
    if j < k {
      WalkTo(next, p, ids, k, j + 1, w, walk[1..]);
      assert walk[1..][k - (j + 1)..] == walk[k - j..];
    } else {
      assert walk[0..] == walk;
    }
  }

  /** So then the links no longer form a list. */
  lemma NoListTwice(next: map<int, int>, p: int, ids: seq<int>, k: nat, walk: seq<int>)
    requires Chain(next, p, ids) && Distinct(ids) && k < |ids|
    ensures !Chain(next[ids[k] := p], ids[k], walk)
  {
    var e, next' := ids[k], next[ids[k] := p];
    if Chain(next', e, walk) {
      ChainAt(next, p, ids, k);
      WalkTo(next, p, ids, k, 0, p, walk[1..]);
      ChainUnique(next', e, walk, walk[1..][k..]);
      assert false;
    }
  }
}
