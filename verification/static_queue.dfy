/** `_StaticQueue`: a FIFO queue on the array list of `_ArrayList`. The front is index 0;
    `add`, `remove(e)`, `contains` and `clear` are the `ArrayList` operations (the queue's
    own copies of those loops behave the same). */
module StaticQueue {
  import opened Wrappers
  import opened Positions
  import ArrayList

  /** `peek()`: the front element, or `null` (here `None`) when the queue is empty. */
  function Peek<T>(q: ArrayList.List<T>): (r: Option<T>)
    ensures r.None? <==> q.elems == []
    ensures r.Some? ==> r.value == q.elems[0]
  {
    if |q.elems| == 0 then None else Some(q.elems[0])
  }

  /** `remove()`: peeks, then removes the first occurrence of what it saw. An empty queue
      yields `null` and is unchanged; otherwise exactly the front goes. */
  function Remove<T(==)>(q: ArrayList.List<T>): (r: (ArrayList.List<T>, Option<T>))
    requires ArrayList.Valid(q)
    ensures r.1 == Peek(q) && ArrayList.Valid(r.0)
    ensures r.1.None? ==> r.0 == q
    ensures r.1.Some? ==> r.0.elems == q.elems[1..]
  {
    match Peek(q)
    case None => (q, None)
    case Some(front) =>
      assert FirstIndex(q.elems, front) == 0;
      (ArrayList.RemoveElement(q, front).0, Some(front))
  }

  /** FIFO order: an element added behind others leaves after them, and the front of a
      non-empty queue is unaffected by an `add`. */
  lemma FifoOrder<T>(q: ArrayList.List<T>, e: T)
    requires ArrayList.Valid(q)
    ensures var (q2, front) := Remove(ArrayList.Add(q, e));
            if q.elems == [] then front == Some(e) && q2.elems == []
            else front == Some(q.elems[0]) && q2.elems == q.elems[1..] + [e]
  {
    var added := ArrayList.Add(q, e);
    assert added.elems == q.elems + [e] by {
      assert added.elems == added.elems[..|q.elems|] + [e];
    }
    if q.elems != [] {
      assert (q.elems + [e])[1..] == q.elems[1..] + [e];
    }
  }
}
