/** Queues with a pointer to their first and to their last element, linked through
    fields of the elements, which also hold the data. */
module LinkedQueue {
  import opened EventChain

  /** The elements at `ids`, in this order, hold `items`. */
  ghost predicate QueueOk<T>(next: map<int, int>, data: map<int, T>, first: int, last: int, ids: seq<int>, items: seq<T>) {
    && Chain(next, first, ids) && Distinct(ids) && |ids| == |items|
    && (|ids| > 0 ==> last == ids[|ids| - 1])
    && (forall i :: 0 <= i < |ids| ==> ids[i] in data && data[ids[i]] == items[i])
  }

  /** The links after an element was appended behind the last. */
  function Appended(next: map<int, int>, first: int, last: int, e: int): map<int, int> {
    (if first != 0 then next[last := e] else next)[e := 0]
  }

  lemma Push<T>(next: map<int, int>, data: map<int, T>, first: int, last: int, ids: seq<int>, items: seq<T>, e: int, x: T)
    requires QueueOk(next, data, first, last, ids, items) && e !in ids && e != 0
    ensures QueueOk(Appended(next, first, last, e), data[e := x], if first != 0 then first else e, e, ids + [e], items + [x])
  {
    var n := |ids|;
    ChainInsert(next, first, ids, n, e);
    DistinctInsert(ids, n, e);
    assert InsertAt(ids, n, e) == ids + [e];
    if n > 0 {
      ChainAt(next, first, ids, 0);
    }
    forall i | 0 <= i < n ensures ids[i] != e {
      assert ids[i] in ids;
    }
  }

  lemma Pop<T>(next: map<int, int>, data: map<int, T>, first: int, last: int, ids: seq<int>, items: seq<T>)
    requires QueueOk(next, data, first, last, ids, items)
    ensures first != 0 <==> |items| > 0
    ensures first != 0 ==> first == ids[0] && first in next && first in data && data[first] == items[0]
    ensures first != 0 ==> QueueOk(next, data, next[first], last, ids[1..], items[1..])
  {
  }
}
